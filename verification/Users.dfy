/** The user controller: registration and update of user records whose e-mail
    addresses are unique across the table. Passwords are stored as the digest the
    password hasher returns for work factor 10. Every failure answers 400. */
module Users {
  import opened Common
  import EmailFormat

  type Id = string

  datatype User = User(id: Id, email: string, password: string)

  /** Every record is filed under its own id. */
  predicate WellKeyed(s: map<Id, User>)
  {
    forall k :: k in s ==> s[k].id == k
  }

  /** The user table: each row is found under its own id. */
  type Store = s: map<Id, User> | WellKeyed(s) witness map[]

  /** No two users share an e-mail address (the table's unique key on email). */
  predicate EmailsUnique(s: Store)
  {
    forall a, b :: a in s && b in s && s[a].email == s[b].email ==> a == b
  }

  /** Some user holds `email`. */
  predicate EmailTaken(s: Store, email: string)
  {
    exists k :: k in s && s[k].email == email
  }

  /** Some user other than `id` holds `email`. */
  predicate EmailTakenByOther(s: Store, email: string, id: Id)
  {
    exists k :: k in s && s[k].email == email && s[k].id != id
  }

  /** Look-up by the unique e-mail key. */
  function FindByEmail(s: Store, email: string): (r: Option<User>)
    requires EmailsUnique(s)
    ensures r.Some? <==> EmailTaken(s, email)
    ensures r.Some? ==> r.value.id in s && s[r.value.id] == r.value && r.value.email == email
  {
    if EmailTaken(s, email) then
      var k :| k in s && s[k].email == email;
      Some(s[k])
    else None
  }

  /** The work factor passed to the password hasher. */
  const SaltRounds: nat := 10

  datatype UserError =
    | CredentialsRequired
    | InvalidEmail
    | EmailInUse(email: string)
    | NotCreated
    | FieldsRequired
    | NotFound(id: Id)

  datatype Reply = Reply(code: nat, store: Store, body: Result<User, UserError>)

  /** POST /users. Checks, in order: both fields present, the address matches the
      e-mail expression, the address is free; then stores the hashed password
      under the id the database assigns (`freshId`; an id in use makes the insert
      fail). */
  function CreateUser(s: Store, email: Option<string>, password: Option<string>,
                      hash: (string, nat) -> string, freshId: set<Id> -> Id): (r: Reply)
    ensures r.body.Err? ==> r.code == BadRequest400 && r.store == s
    ensures !Truthy(email) || !Truthy(password) ==> r.body == Err(CredentialsRequired)
    ensures Truthy(email) && Truthy(password) && !EmailFormat.ValidEmail(email.value) ==>
      r.body == Err(InvalidEmail)
    ensures Truthy(email) && Truthy(password) && EmailFormat.ValidEmail(email.value) && EmailTaken(s, email.value) ==>
      r.body == Err(EmailInUse(email.value))
    ensures r.body.Ok? <==>
      && Truthy(email) && Truthy(password)
      && EmailFormat.ValidEmail(email.value)
      && !EmailTaken(s, email.value)
      && freshId(s.Keys) !in s
    ensures r.body.Ok? ==>
      var u := r.body.value;
      && r.code == Created201
      && u.id == freshId(s.Keys) && u.id !in s
      && u.email == email.value
      && u.password == hash(password.value, SaltRounds)
      && r.store.Keys == s.Keys + {u.id}
      && r.store[u.id] == u
      && (forall k :: k in s ==> r.store[k] == s[k])
    ensures EmailsUnique(s) ==> EmailsUnique(r.store)
  {
    if !Truthy(email) || !Truthy(password) then Reply(BadRequest400, s, Err(CredentialsRequired))
    else if !EmailFormat.IsValidEmail(email.value) then Reply(BadRequest400, s, Err(InvalidEmail))
    else if EmailTaken(s, email.value) then Reply(BadRequest400, s, Err(EmailInUse(email.value)))
    else
      var id := freshId(s.Keys);
      if id in s then Reply(BadRequest400, s, Err(NotCreated))
      else
        var u := User(id, email.value, hash(password.value, SaltRounds));
        Reply(Created201, s[id := u], Ok(u))
  }

  /** PATCH /users. Checks, in order: all three fields present, the id exists, the
      address is not held by another user; then replaces address and password.
      The address is not checked against the e-mail expression here. */
  function UpdateUser(s: Store, id: Option<Id>, email: Option<string>, password: Option<string>,
                      hash: (string, nat) -> string): (r: Reply)
    ensures r.body.Err? ==> r.code == BadRequest400 && r.store == s
    ensures !Truthy(id) || !Truthy(email) || !Truthy(password) ==> r.body == Err(FieldsRequired)
    ensures Truthy(id) && Truthy(email) && Truthy(password) && id.value !in s ==>
      r.body == Err(NotFound(id.value))
    ensures Truthy(id) && Truthy(email) && Truthy(password) && id.value in s ==>
      (EmailTakenByOther(s, email.value, id.value) ==> r.body == Err(EmailInUse(email.value)))
    ensures r.body.Ok? <==>
      && Truthy(id) && Truthy(email) && Truthy(password)
      && id.value in s
      && !EmailTakenByOther(s, email.value, id.value)
    ensures r.body.Ok? ==>
      var u := r.body.value;
      && r.code == Ok200
      && u.id == id.value
      && u.email == email.value
      && u.password == hash(password.value, SaltRounds)
      && OnlyChanged(s, r.store, id.value)
      && r.store[id.value] == u
    ensures EmailsUnique(s) ==> EmailsUnique(r.store)
  {
    if !Truthy(id) || !Truthy(email) || !Truthy(password) then Reply(BadRequest400, s, Err(FieldsRequired))
    else if id.value !in s then Reply(BadRequest400, s, Err(NotFound(id.value)))
    else if EmailTakenByOther(s, email.value, id.value) then
      Reply(BadRequest400, s, Err(EmailInUse(email.value)))
    else
      var u := s[id.value].(email := email.value, password := hash(password.value, SaltRounds));
      Reply(Ok200, s[id.value := u], Ok(u))
  }

  /** A user may resubmit their own current address. */
  lemma UpdateKeepsOwnEmail(s: Store, id: Id, password: string, hash: (string, nat) -> string)
    requires EmailsUnique(s)
    requires id in s && id != "" && s[id].email != "" && password != ""
    ensures UpdateUser(s, Some(id), Some(s[id].email), Some(password), hash).body.Ok?
  {
    assert forall k :: k in s && s[k].email == s[id].email ==> k == id;
  }

  /** An address taken by another user is refused, whatever the rest of the request. */
  lemma UpdateRefusesOthersEmail(s: Store, id: Id, other: Id, password: string, hash: (string, nat) -> string)
    requires id in s && other in s && other != id
    requires id != "" && s[other].email != "" && password != ""
    ensures UpdateUser(s, Some(id), Some(s[other].email), Some(password), hash) ==
      Reply(BadRequest400, s, Err(EmailInUse(s[other].email)))
  {
    assert s[other].id == other;
  }

  /** Update accepts an address registration would refuse. */
  lemma UpdateSkipsFormatCheck(s: Store, id: Id, hash: (string, nat) -> string)
    requires id in s && id != ""
    requires forall k :: k in s ==> s[k].email != "a@b"
    ensures !EmailFormat.ValidEmail("a@b")
    ensures UpdateUser(s, Some(id), Some("a@b"), Some("pw"), hash).body.Ok?
  {
    EmailFormat.DotlessDomainRefused();
    assert !EmailTakenByOther(s, "a@b", id);
  }
}
