/** The `/api/messages` route: GET reads a conversation or a room history, POST
    stores a new message. Both first sweep rows older than one minute. */
module MessagesRoute {
  import opened Common
  import opened MessageModel
  import Config

  /** The sweep window both handlers use: `60 * 1000` ms, written into the route
      itself rather than taken from MESSAGE_TTL_MS. */
  const SweepWindowMs: int := 60 * 1000

  /** The rows the sweep `deleteMany({ createdAt: { $lt: now - 60000 } })` leaves. */
  function Sweep(rows: seq<Message>, now: int): (r: seq<Message>)
    ensures forall m :: m in r <==> m in rows && m.createdAt >= now - SweepWindowMs
    ensures forall m: Message :: m.createdAt >= now - SweepWindowMs ==> multiset(r)[m] == multiset(rows)[m]
  {
    Select(rows, CreatedBefore(now - SweepWindowMs), false)
  }

  /** The `updateMany` a direct-chat GET runs: the contact's messages to the user
      that are still 'sent' become 'delivered'; nothing else changes. */
  function MarkDelivered(rows: seq<Message>, userId: Id, contactId: Id): (r: seq<Message>)
    ensures |r| == |rows|
    ensures forall i :: 0 <= i < |rows| ==> r[i] == rows[i].(status := r[i].status)
    ensures forall i :: 0 <= i < |rows| && r[i] != rows[i] ==>
      rows[i].senderId == contactId && rows[i].receiverId == userId &&
      rows[i].status == Sent && r[i].status == Delivered
    ensures forall i :: 0 <= i < |rows| && rows[i].senderId == contactId && rows[i].receiverId == userId ==>
      r[i].status != Sent
  {
    SetStatus(rows, SentFromTo(contactId, userId), Delivered)
  }

  /** The body of a direct-chat GET: `find({ $or: [u -> c, c -> u] }).sort({ createdAt: 1 })`. */
  function Conversation(rows: seq<Message>, userId: Id, contactId: Id): (r: seq<Message>)
    ensures SortedByCreatedAt(r)
    ensures forall m ::
      multiset(r)[m] ==
        (if (m.senderId == userId && m.receiverId == contactId) || (m.senderId == contactId && m.receiverId == userId)
         then multiset(rows)[m] else 0)
  {
    SortByCreatedAt(Select(rows, Between(userId, contactId), true))
  }

  /** The body of a room GET: `find({ receiverId: roomId }).sort({ createdAt: 1 })`. */
  function RoomHistory(rows: seq<Message>, roomId: Id): (r: seq<Message>)
    ensures SortedByCreatedAt(r)
    ensures forall m :: multiset(r)[m] == if m.receiverId == roomId then multiset(rows)[m] else 0
  {
    SortByCreatedAt(Select(rows, AddressedTo(roomId), true))
  }

  /** GET /api/messages?userId=&contactId=[&type=room] */
  method Get(store: MessageCollection, userId: Option<string>, contactId: Option<string>,
             kind: Option<string>, now: int)
    returns (resp: Response<seq<Message>>)
    requires store.Valid()
    modifies store
    ensures store.Valid()
    ensures Falsy(userId) || Falsy(contactId) ==>
      resp == BadRequest("Missing required params") && store.rows == old(store.rows)
    ensures !Falsy(userId) && !Falsy(contactId) && kind == Some("room") ==>
      store.rows == Sweep(old(store.rows), now) &&
      resp == Ok(RoomHistory(store.rows, contactId.value))
    ensures !Falsy(userId) && !Falsy(contactId) && kind != Some("room") ==>
      store.rows == MarkDelivered(Sweep(old(store.rows), now), userId.value, contactId.value) &&
      resp == Ok(Conversation(store.rows, userId.value, contactId.value))
  {
    if Falsy(userId) || Falsy(contactId) {
      return BadRequest("Missing required params");
    }
    store.DeleteMany(CreatedBefore(now - SweepWindowMs));
    if kind == Some("room") {
      var messages := store.FindSorted(AddressedTo(contactId.value));
      return Ok(messages);
    }
    store.UpdateStatus(SentFromTo(contactId.value, userId.value), Delivered);
    var messages := store.FindSorted(Between(userId.value, contactId.value));
    return Ok(messages);
  }

  /** POST /api/messages with body { senderId, receiverId, text }. The store's
      fresh _id for the new row is given as newId. */
  method Post(store: MessageCollection, senderId: Option<string>, receiverId: Option<string>,
              text: Option<string>, now: int, newId: Id)
    returns (resp: Response<Message>)
    requires store.Valid()
    requires forall m :: m in store.rows ==> m.id != newId
    modifies store
    ensures store.Valid()
    ensures Falsy(senderId) || Falsy(receiverId) || Falsy(text) ==>
      resp == BadRequest("Missing required fields") && store.rows == old(store.rows)
    ensures !Falsy(senderId) && !Falsy(receiverId) && !Falsy(text) ==>
      resp == Ok(Message(newId, senderId.value, receiverId.value, text.value, now, Sent)) &&
      store.rows == Sweep(old(store.rows), now) + [resp.body]
  {
    if Falsy(senderId) || Falsy(receiverId) || Falsy(text) {
      return BadRequest("Missing required fields");
    }
    store.DeleteMany(CreatedBefore(now - SweepWindowMs));
    var m := Message(newId, senderId.value, receiverId.value, text.value, now, Sent);
    store.Create(m);
    return Ok(m);
  }

  /** A row exactly at the cutoff survives the sweep; one a millisecond older does not. */
  lemma SweepBoundary(rows: seq<Message>, now: int, m: Message)
    requires m in rows
    ensures m.createdAt == now - SweepWindowMs ==> m in Sweep(rows, now)
    ensures m.createdAt == now - SweepWindowMs - 1 ==> m !in Sweep(rows, now)
  {
  }

  /** The sweep does not follow NEXT_PUBLIC_MESSAGE_TTL_MS: even when the setting
      says messages never expire (a lifetime of zero or less), a row older than one
      minute is deleted. */
  lemma SweepIgnoresMessageTtl(env: Config.Environment, n: int, rows: seq<Message>, now: int, m: Message)
    requires env.messageTtlMs == Some(Config.Decimal(n)) && n <= 0
    requires m in rows && m.createdAt < now - SweepWindowMs
    ensures Config.MessageTtlMs(env) == n && Config.MessageTtlMs(env) <= 0
    ensures m !in Sweep(rows, now)
  {
    Config.MessageTtlFromEnvironment(n, env);
  }

  /** After a direct-chat GET, no returned message from the contact to the user is still 'sent'. */
  lemma {:induction false} DirectChatNoSentFromContact(rows: seq<Message>, userId: Id, contactId: Id)
    ensures forall m :: m in Conversation(MarkDelivered(rows, userId, contactId), userId, contactId) ==>
      (m.senderId == contactId && m.receiverId == userId ==> m.status != Sent)
  {
    var marked := MarkDelivered(rows, userId, contactId);
    var conv := Conversation(marked, userId, contactId);
    forall m | m in conv && m.senderId == contactId && m.receiverId == userId
      ensures m.status != Sent
    {
      assert multiset(conv)[m] > 0;
      assert m in multiset(marked);
      var i :| 0 <= i < |marked| && marked[i] == m;
    }
  }

  /** A direct-chat GET returns exactly the surviving rows between the two ids, in
      either direction, each as often as it is stored, oldest first. */
  lemma DirectChatExact(rows: seq<Message>, userId: Id, contactId: Id, now: int, m: Message)
    ensures var stored := MarkDelivered(Sweep(rows, now), userId, contactId);
      var view := Conversation(stored, userId, contactId);
      && SortedByCreatedAt(view)
      && (m in view <==>
           (m in stored &&
            ((m.senderId == userId && m.receiverId == contactId) || (m.senderId == contactId && m.receiverId == userId))))
  {
  }

  /** After a POST the new message is stored exactly once, and every other row is
      stored as often as after the sweep alone. */
  lemma {:induction false} PostAddsExactlyOne(rows: seq<Message>, now: int, m: Message)
    requires forall r :: r in rows ==> r.id != m.id
    ensures multiset(Sweep(rows, now) + [m])[m] == 1
    ensures forall x :: x != m ==> multiset(Sweep(rows, now) + [m])[x] == multiset(Sweep(rows, now))[x]
  {
    var swept := Sweep(rows, now);
    assert m !in swept;
    assert multiset(swept + [m]) == multiset(swept) + multiset{m};
  }
}
