/** The `/api/contacts` route: POST adds a user to the requester's own address book. */
module ContactsRoute {
  import opened Common
  import opened Seqs
  import opened UserModel

  /** POST /api/contacts with body { userId, contactId }. The response is the
      contact's profile, or null when no user has that id; the update runs first,
      whether or not the contact exists. */
  method AddContact(users: UserCollection, userId: Option<string>, contactId: Option<string>)
    returns (resp: Response<Option<Profile>>)
    requires users.Valid()
    modifies users
    ensures users.Valid()
    ensures Falsy(userId) || Falsy(contactId) ==>
      resp == BadRequest("Missing required fields") && users.rows == old(users.rows)
    ensures !Falsy(userId) && !Falsy(contactId) && userId == contactId ==>
      resp == BadRequest("Cannot add yourself") && users.rows == old(users.rows)
    ensures !Falsy(userId) && !Falsy(contactId) && userId != contactId ==>
      users.rows == UpdateUser(old(users.rows), userId.value, Contacts, AddToSetOf(contactId.value)) &&
      resp == Ok(FindProfile(users.rows, contactId.value))
    ensures NoSelfContacts(old(users.rows)) ==> NoSelfContacts(users.rows)
  {
    if Falsy(userId) || Falsy(contactId) {
      return BadRequest("Missing required fields");
    }
    if userId == contactId {
      return BadRequest("Cannot add yourself");
    }
    AddContactKeepsNoSelf(users.rows, userId.value, contactId.value);
    users.Update(userId.value, Contacts, AddToSetOf(contactId.value));
    var contact := FindProfile(users.rows, contactId.value);
    return Ok(contact);
  }

  /** Rejecting self-adds keeps every address book free of its owner. */
  lemma AddContactKeepsNoSelf(rows: seq<User>, userId: Id, contactId: Id)
    requires userId != contactId
    ensures NoSelfContacts(rows) ==> NoSelfContacts(UpdateUser(rows, userId, Contacts, AddToSetOf(contactId)))
  {
    var after := UpdateUser(rows, userId, Contacts, AddToSetOf(contactId));
    forall i | 0 <= i < |rows| && rows[i].id == userId
      ensures Field(after[i], Contacts) == Apply(Field(rows[i], Contacts), AddToSetOf(contactId))
    {
    }
  }

  /** The address book is one-way and duplicate-free: the contact's own record is
      unchanged, the requester lists the contact exactly once, and adding again
      changes nothing. */
  lemma {:induction false} AddContactEffect(rows: seq<User>, userId: Id, contactId: Id)
    requires UsersValid(rows) && userId != contactId
    ensures var after := UpdateUser(rows, userId, Contacts, AddToSetOf(contactId));
      && (forall i :: 0 <= i < |rows| && rows[i].id != userId ==> after[i] == rows[i])
      && (forall i :: 0 <= i < |rows| && rows[i].id == userId ==>
            multiset(after[i].contacts)[contactId] == 1 && after[i].rooms == rows[i].rooms)
      && UpdateUser(after, userId, Contacts, AddToSetOf(contactId)) == after
  {
    var after := UpdateUser(rows, userId, Contacts, AddToSetOf(contactId));
    forall i | 0 <= i < |rows| && rows[i].id == userId
      ensures multiset(after[i].contacts)[contactId] == 1
      ensures AddToSet(after[i].contacts, contactId) == after[i].contacts
    {
      assert Field(after[i], Contacts) == Apply(Field(rows[i], Contacts), AddToSetOf(contactId));
      AddToSetOnce(rows[i].contacts, contactId);
    }
    var again := UpdateUser(after, userId, Contacts, AddToSetOf(contactId));
    assert |again| == |after|;
    forall i | 0 <= i < |after| ensures again[i] == after[i] {
      if after[i].id == userId {
        assert Field(again[i], Contacts) == Apply(Field(after[i], Contacts), AddToSetOf(contactId));
      }
    }
  }
}
