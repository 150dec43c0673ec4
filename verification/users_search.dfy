/** The `/api/users/search` route: GET finds users by name, excluding the caller,
    at most ten, projected to their public profile. The case-insensitive `$regex`
    match of MongoDB is the parameter `nameMatches(query, name)`. */
module UsersSearch {
  import opened Common
  import opened UserModel
  import Seqs

  /** `.limit(10)` */
  const ResultLimit: nat := 10

  /** The filter `{ name: { $regex: query, $options: "i" }, _id: { $ne: currentUserId } }`. */
  predicate Eligible(u: User, query: string, currentUserId: Option<string>, nameMatches: (string, string) -> bool)
  {
    nameMatches(query, u.name) && Some(u.id) != currentUserId
  }

  /** The profiles of every eligible user, in table order. */
  function Hits(users: seq<User>, query: string, currentUserId: Option<string>,
                nameMatches: (string, string) -> bool): (r: seq<Profile>)
    ensures |r| <= |users|
    ensures forall u :: u in users && Eligible(u, query, currentUserId, nameMatches) ==> ProfileOf(u) in r
    ensures forall p :: p in r ==> exists u :: u in users && Eligible(u, query, currentUserId, nameMatches) && ProfileOf(u) == p
  {
    if users == [] then []
    else
      assert users == [users[0]] + users[1..];
      var rest := Hits(users[1..], query, currentUserId, nameMatches);
      if Eligible(users[0], query, currentUserId, nameMatches) then [ProfileOf(users[0])] + rest else rest
  }

  /** GET /api/users/search?q=&userId= */
  function Search(users: seq<User>, query: Option<string>, currentUserId: Option<string>,
                  nameMatches: (string, string) -> bool): (r: seq<Profile>)
    ensures Falsy(query) ==> r == []
    ensures |r| <= ResultLimit
    ensures !Falsy(query) ==> forall p :: p in r ==>
      Some(p.id) != currentUserId && nameMatches(query.value, p.name) &&
      exists u :: u in users && ProfileOf(u) == p
  {
    if Falsy(query) then []
    else
      var hits := Hits(users, query.value, currentUserId, nameMatches);
      if |hits| <= ResultLimit then hits
      else
        assert forall p :: p in hits[..ResultLimit] ==> p in hits;
        hits[..ResultLimit]
  }

  /** `find` returns each matching user once: with distinct ids, no profile repeats. */
  lemma {:induction false} HitsNoDups(users: seq<User>, query: string, currentUserId: Option<string>,
                                      nameMatches: (string, string) -> bool)
    requires DistinctUserIds(users)
    ensures Seqs.NoDups(Hits(users, query, currentUserId, nameMatches))
  {
    if users != [] {
      var tail := users[1..];
      assert DistinctUserIds(tail);
      HitsNoDups(tail, query, currentUserId, nameMatches);
      var rest := Hits(tail, query, currentUserId, nameMatches);
      if Eligible(users[0], query, currentUserId, nameMatches) {
        var p := ProfileOf(users[0]);
        forall q | q in rest ensures q != p {
          var u :| u in tail && Eligible(u, query, currentUserId, nameMatches) && ProfileOf(u) == q;
          var k :| 0 <= k < |tail| && tail[k] == u;
          assert users[k + 1] == u;
        }
        Seqs.ConsNoDups(p, rest);
        assert Hits(users, query, currentUserId, nameMatches) == [p] + rest;
      }
    }
  }

  /** The limit only truncates: the result is the first ten hits, or all of them
      when there are at most ten; with distinct user ids no profile repeats, so
      more than ten matches give exactly ten different users. */
  lemma SearchComplete(users: seq<User>, query: string, currentUserId: Option<string>,
                       nameMatches: (string, string) -> bool)
    requires DistinctUserIds(users)
    ensures var r := Search(users, Some(query), currentUserId, nameMatches);
      var hits := Hits(users, query, currentUserId, nameMatches);
      && (query != "" && |hits| <= ResultLimit ==> r == hits)
      && (query != "" && |hits| > ResultLimit ==> r == hits[..ResultLimit] && |r| == ResultLimit)
      && (query != "" && |hits| <= ResultLimit ==>
            forall u :: u in users && Eligible(u, query, currentUserId, nameMatches) ==> ProfileOf(u) in r)
      && Seqs.NoDups(r)
  {
    var hits := Hits(users, query, currentUserId, nameMatches);
    HitsNoDups(users, query, currentUserId, nameMatches);
    if query != "" && |hits| > ResultLimit {
      var r := hits[..ResultLimit];
      assert forall i, j :: 0 <= i < j < |r| ==> r[i] == hits[i] && r[j] == hits[j];
    }
  }
}
