/** The messages collection: its rows, the filter documents the message routes
    send to it, and the operations they run (find, sort, updateMany, deleteMany, create). */
module MessageModel {
  import opened Common

  /** The delivery states a message row can be in. */
  datatype Status = Sent | Delivered | Read

  /** One row of the messages collection; createdAt is in milliseconds since the epoch. */
  datatype Message = Message(id: Id, senderId: Id, receiverId: Id, text: string, createdAt: int, status: Status)

  /** The filter documents the message routes use. */
  datatype Filter =
    | CreatedBefore(cutoff: int)                 // { createdAt: { $lt: cutoff } }
    | AddressedTo(receiverId: Id)                // { receiverId }
    | Between(userId: Id, contactId: Id)         // { $or: [ u -> c, c -> u ] }
    | SentFromTo(senderId: Id, receiverId: Id)   // { receiverId, senderId, status: 'sent' }

  predicate Matches(m: Message, f: Filter)
  {
    match f
    case CreatedBefore(cutoff) => m.createdAt < cutoff
    case AddressedTo(r) => m.receiverId == r
    case Between(u, c) =>
      (m.senderId == u && m.receiverId == c) || (m.senderId == c && m.receiverId == u)
    case SentFromTo(s, r) => m.receiverId == r && m.senderId == s && m.status == Sent
  }

  /** The rows whose match against f equals want, in table order: `find(f)` when
      want is true, the rows `deleteMany(f)` leaves when want is false. */
  function Select(rows: seq<Message>, f: Filter, want: bool): (r: seq<Message>)
    ensures forall m :: m in r <==> m in rows && Matches(m, f) == want
    ensures forall m :: multiset(r)[m] == if Matches(m, f) == want then multiset(rows)[m] else 0
    ensures |r| <= |rows|
  {
    if rows == [] then []
    else
      assert rows == [rows[0]] + rows[1..];
      if Matches(rows[0], f) == want then [rows[0]] + Select(rows[1..], f, want)
      else Select(rows[1..], f, want)
  }

  /** `updateMany(f, { $set: { status: s } })`: the matching rows take status s,
      every other field of every row stays as it was. */
  function SetStatus(rows: seq<Message>, f: Filter, s: Status): (r: seq<Message>)
    ensures |r| == |rows|
    ensures forall i :: 0 <= i < |rows| ==>
      r[i] == if Matches(rows[i], f) then rows[i].(status := s) else rows[i]
  {
    if rows == [] then []
    else [if Matches(rows[0], f) then rows[0].(status := s) else rows[0]] + SetStatus(rows[1..], f, s)
  }

  /** Ascending order of createdAt, the result of `.sort({ createdAt: 1 })`. */
  predicate SortedByCreatedAt(s: seq<Message>)
  {
    forall i, j :: 0 <= i < j < |s| ==> s[i].createdAt <= s[j].createdAt
  }

  /** Putting m in front of a sorted sequence whose rows are all no older than m keeps it sorted. */
  lemma ConsSorted(m: Message, s: seq<Message>)
    requires SortedByCreatedAt(s)
    requires forall x :: x in s ==> m.createdAt <= x.createdAt
    ensures SortedByCreatedAt([m] + s)
  {
    var r := [m] + s;
    forall i, j | 0 <= i < j < |r| ensures r[i].createdAt <= r[j].createdAt {
      assert r[j] == s[j - 1];
      if i > 0 {
        assert r[i] == s[i - 1];
      }
    }
  }

  function InsertByCreatedAt(m: Message, s: seq<Message>): (r: seq<Message>)
    requires SortedByCreatedAt(s)
    ensures SortedByCreatedAt(r)
    ensures multiset(r) == multiset(s) + multiset{m}
    ensures forall x :: x in r ==> x in s || x == m
  {
    if s == [] then [m]
    else if m.createdAt <= s[0].createdAt then
      ConsSorted(m, s);
      [m] + s
    else
      assert s == [s[0]] + s[1..];
      var rest := InsertByCreatedAt(m, s[1..]);
      ConsSorted(s[0], rest);
      assert multiset([s[0]] + rest) == multiset{s[0]} + multiset(rest);
      [s[0]] + rest
  }

  /** `.sort({ createdAt: 1 })`: the same rows, ordered by createdAt. Rows with
      equal createdAt keep their table order. */
  function SortByCreatedAt(s: seq<Message>): (r: seq<Message>)
    ensures SortedByCreatedAt(r)
    ensures multiset(r) == multiset(s)
  {
    if s == [] then []
    else
      assert s == [s[0]] + s[1..];
      InsertByCreatedAt(s[0], SortByCreatedAt(s[1..]))
  }

  /** No two rows share an _id. */
  predicate DistinctIds(rows: seq<Message>)
  {
    forall i, j :: 0 <= i < j < |rows| ==> rows[i].id != rows[j].id
  }

  /** A row whose id no row of s has can go in front of s. */
  lemma ConsDistinctIds(x: Message, s: seq<Message>)
    requires DistinctIds(s)
    requires forall m :: m in s ==> m.id != x.id
    ensures DistinctIds([x] + s)
  {
    var r := [x] + s;
    forall i, j | 0 <= i < j < |r| ensures r[i].id != r[j].id {
      assert r[j] == s[j - 1];
      if i > 0 {
        assert r[i] == s[i - 1];
      }
    }
  }

  lemma {:induction false} SelectKeepsDistinctIds(rows: seq<Message>, f: Filter, want: bool)
    requires DistinctIds(rows)
    ensures DistinctIds(Select(rows, f, want))
  {
    if rows != [] {
      var tail := rows[1..];
      SelectKeepsDistinctIds(tail, f, want);
      var rest := Select(tail, f, want);
      if Matches(rows[0], f) == want {
        forall m | m in rest ensures m.id != rows[0].id {
          var k :| 0 <= k < |tail| && tail[k] == m;
          assert rows[k + 1] == m;
        }
        ConsDistinctIds(rows[0], rest);
      }
    }
  }

  /** The messages collection. */
  class MessageCollection {
    var rows: seq<Message>

    ghost predicate Valid()
      reads this
    {
      DistinctIds(rows)
    }

    constructor ()
      ensures Valid() && rows == []
    {
      rows := [];
    }

    /** `Message.deleteMany(f)` */
    method DeleteMany(f: Filter)
      requires Valid()
      modifies this
      ensures Valid()
      ensures rows == Select(old(rows), f, false)
    {
      SelectKeepsDistinctIds(rows, f, false);
      rows := Select(rows, f, false);
    }

    /** `Message.updateMany(f, { $set: { status: s } })` */
    method UpdateStatus(f: Filter, s: Status)
      requires Valid()
      modifies this
      ensures Valid()
      ensures rows == SetStatus(old(rows), f, s)
    {
      rows := SetStatus(rows, f, s);
    }

    /** `Message.create(m)` with a freshly generated _id. */
    method Create(m: Message)
      requires Valid()
      requires forall r :: r in rows ==> r.id != m.id
      modifies this
      ensures Valid()
      ensures rows == old(rows) + [m]
    {
      rows := rows + [m];
    }

    /** `Message.find(f).sort({ createdAt: 1 })`: exactly the matching rows, oldest first. */
    function FindSorted(f: Filter): (r: seq<Message>)
      reads this
      ensures SortedByCreatedAt(r)
      ensures forall m :: multiset(r)[m] == if Matches(m, f) then multiset(rows)[m] else 0
    {
      SortByCreatedAt(Select(rows, f, true))
    }
  }
}
