/** The two MongoDB array update operators the routes apply to array fields. */
module Seqs {

  /** No element occurs twice. */
  predicate NoDups<T(==)>(s: seq<T>)
  {
    forall i, j :: 0 <= i < j < |s| ==> s[i] != s[j]
  }

  /** An element that is not in s can go in front of s without making a duplicate. */
  lemma ConsNoDups<T>(x: T, s: seq<T>)
    requires NoDups(s) && x !in s
    ensures NoDups([x] + s)
  {
    var r := [x] + s;
    forall i, j | 0 <= i < j < |r| ensures r[i] != r[j] {
      assert r[j] == s[j - 1] && s[j - 1] in s;
      if i > 0 {
        assert r[i] == s[i - 1] && s[i - 1] != s[j - 1];
      }
    }
  }

  /** `$addToSet`: append x unless it is already present. */
  function AddToSet<T(==,!new)>(s: seq<T>, x: T): (r: seq<T>)
    ensures x in r
    ensures forall y :: y in r <==> y in s || y == x
    ensures x in s ==> r == s
    ensures |s| <= |r| <= |s| + 1 && r[..|s|] == s
    ensures NoDups(s) ==> NoDups(r)
  {
    if x in s then s else s + [x]
  }

  /** `$addToSet` on a duplicate-free array leaves the value there exactly once,
      and repeating it changes nothing. */
  lemma AddToSetOnce<T(!new)>(s: seq<T>, x: T)
    requires NoDups(s)
    ensures multiset(AddToSet(s, x))[x] == 1
    ensures AddToSet(AddToSet(s, x), x) == AddToSet(s, x)
  {
    if x in s {
      var k :| 0 <= k < |s| && s[k] == x;
      assert s == s[..k] + [x] + s[k + 1..];
      assert x !in s[..k] && x !in s[k + 1..] by {
        forall i | 0 <= i < |s| && i != k ensures s[i] != x { }
      }
      assert multiset(s) == multiset(s[..k]) + multiset{x} + multiset(s[k + 1..]);
    } else {
      assert multiset(s + [x]) == multiset(s) + multiset{x};
    }
  }

  /** `$pull` with a plain value: remove every occurrence of x. */
  function Pull<T(==,!new)>(s: seq<T>, x: T): (r: seq<T>)
    ensures x !in r
    ensures forall y :: y in r <==> y in s && y != x
    ensures forall y :: y != x ==> multiset(r)[y] == multiset(s)[y]
    ensures x !in s ==> r == s
    ensures |r| <= |s|
  {
    if s == [] then []
    else
      assert s == [s[0]] + s[1..];
      if s[0] == x then Pull(s[1..], x) else [s[0]] + Pull(s[1..], x)
  }

  /** `$pull` keeps the relative order of what it leaves: it distributes over concatenation. */
  lemma {:induction false} PullConcat<T(!new)>(a: seq<T>, b: seq<T>, x: T)
    ensures Pull(a + b, x) == Pull(a, x) + Pull(b, x)
  {
    if a != [] {
      assert (a + b)[1..] == a[1..] + b;
      PullConcat(a[1..], b, x);
    } else {
      assert a + b == b;
    }
  }

  /** `$pull` leaves no duplicate where there was none. */
  lemma {:induction false} PullNoDups<T(!new)>(s: seq<T>, x: T)
    ensures NoDups(s) ==> NoDups(Pull(s, x))
  {
    if s != [] && NoDups(s) {
      PullNoDups(s[1..], x);
      if s[0] != x {
        assert s[0] !in s[1..];
        assert multiset(Pull(s[1..], x))[s[0]] == 0;
      }
    }
  }

  /** An update document `{ $addToSet: { field: value } }` or `{ $pull: { field: value } }`. */
  datatype ArrayUpdate<T> = AddToSetOf(value: T) | PullOf(value: T)

  /** The array field after the update. */
  function Apply<T(==,!new)>(s: seq<T>, u: ArrayUpdate<T>): (r: seq<T>)
    ensures u.AddToSetOf? ==> u.value in r
    ensures u.PullOf? ==> u.value !in r
    ensures forall y :: y != u.value ==> (y in r <==> y in s)
    ensures NoDups(s) ==> NoDups(r)
  {
    match u
    case AddToSetOf(x) => AddToSet(s, x)
    case PullOf(x) =>
      PullNoDups(s, x);
      Pull(s, x)
  }
}
