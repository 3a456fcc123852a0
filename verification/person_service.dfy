/** The password encoder the services are given. Its hashing is not
    modelled: `encode` and `matches` are arbitrary functions, and the only
    thing assumed of them, where a property needs it, is that a password
    matches its own encoding. */
module Passwords {
  datatype Encoder = Encoder(encode: string -> string, matches: (string, string) -> bool)

  /** `matches(raw, encode(raw))` holds for every raw password. */
  ghost predicate Sound(e: Encoder) {
    forall raw :: e.matches(raw, e.encode(raw))
  }
}

/** Accounts: switching the active role among the person's roles,
    activation, password changes and updates. */
module AccountService {
  import opened Common
  import opened Tables
  import opened Text
  import opened Entities
  import opened Dtos
  import opened Passwords

  /** `changeRole(username, roleName)`: the account and then the role
      (looked up upper-cased) must exist; the role must be one of the
      account's person's roles; it becomes the active role. */
  function ChangeRole(s: Store, username: string, roleName: string): (r: Result<Store>)
    requires AccountsLinked(s)
    ensures AccountByUsername(s, username).None? ==> r == Err(NotFound)
    ensures AccountByUsername(s, username).Some? && RoleByName(s, ToUpper(roleName)).None? ==> r == Err(NotFound)
    ensures r.Ok? <==>
      && AccountByUsername(s, username).Some?
      && RoleByName(s, ToUpper(roleName)).Some?
      && RoleByName(s, ToUpper(roleName)).value in s.persons.rows[s.accounts.rows[AccountByUsername(s, username).value].personId].roles
    ensures r.Err? && AccountByUsername(s, username).Some? && RoleByName(s, ToUpper(roleName)).Some? ==> r.error == AccessDenied
    ensures r.Ok? ==>
      var k := AccountByUsername(s, username).value;
      && r.value.accounts.rows == s.accounts.rows[k := s.accounts.rows[k].(activeRole := RoleByName(s, ToUpper(roleName)))]
      && r.value == s.(accounts := r.value.accounts)
  {
    var k :- AccountByUsername(s, username).OrFail(NotFound);
    var role :- RoleByName(s, ToUpper(roleName)).OrFail(NotFound);
    var account := s.accounts.rows[k];
    :- Need(role in s.persons.rows[account.personId].roles, AccessDenied);
    Ok(s.(accounts := Put(s.accounts, k, account.(activeRole := Some(role)))))
  }

  /** `activateAccount(id)` */
  function Activate(s: Store, id: Id): (r: Result<Store>)
    ensures r.Ok? <==> id in s.accounts.rows
    ensures r.Err? ==> r.error == NotFound
    ensures r.Ok? ==>
      && r.value.accounts.rows == s.accounts.rows[id := s.accounts.rows[id].(status := Some(Active))]
      && r.value == s.(accounts := r.value.accounts)
  {
    var account :- Lookup(s.accounts, id, NotFound);
    Ok(s.(accounts := Put(s.accounts, id, account.(status := Some(Active)))))
  }

  /** `deactivateAccount(id)` */
  function Deactivate(s: Store, id: Id): (r: Result<Store>)
    ensures r.Ok? <==> id in s.accounts.rows
    ensures r.Err? ==> r.error == NotFound
    ensures r.Ok? ==>
      && r.value.accounts.rows == s.accounts.rows[id := s.accounts.rows[id].(status := Some(Inactive))]
      && r.value == s.(accounts := r.value.accounts)
  {
    var account :- Lookup(s.accounts, id, NotFound);
    Ok(s.(accounts := Put(s.accounts, id, account.(status := Some(Inactive)))))
  }

  /** Activation undoes deactivation, and the other way round: the last
      switch decides the status, and nothing else about the account moves. */
  lemma StatusSwitchesCancel(s: Store, id: Id)
    requires id in s.accounts.rows
    ensures Activate(Deactivate(s, id).value, id) == Activate(s, id)
    ensures Deactivate(Activate(s, id).value, id) == Deactivate(s, id)
  {
    var a := Activate(s, id).value;
    var d := Deactivate(s, id).value;
    assert Activate(d, id).value.accounts == a.accounts;
    assert Deactivate(a, id).value.accounts == d.accounts;
  }

  /** `changePassword(request, username)`: the account must exist; the old
      password must match the stored hash, or the change is refused as bad
      credentials; the new password is stored encoded. */
  function ChangePassword(s: Store, d: ChangePasswordRequest, username: string, enc: Encoder): (r: Result<Store>)
    requires d.oldPassword.Some? && d.newPassword.Some?
    ensures AccountByUsername(s, username).None? ==> r == Err(NotFound)
    ensures r.Ok? <==>
      && AccountByUsername(s, username).Some?
      && enc.matches(d.oldPassword.value, s.accounts.rows[AccountByUsername(s, username).value].password)
    ensures r.Err? && AccountByUsername(s, username).Some? ==> r.error == BadCredentials
    ensures r.Ok? ==>
      var k := AccountByUsername(s, username).value;
      && r.value.accounts.rows == s.accounts.rows[k := s.accounts.rows[k].(password := enc.encode(d.newPassword.value))]
      && r.value == s.(accounts := r.value.accounts)
  {
    var k :- AccountByUsername(s, username).OrFail(NotFound);
    var account := s.accounts.rows[k];
    :- Need(enc.matches(d.oldPassword.value, account.password), BadCredentials);
    Ok(s.(accounts := Put(s.accounts, k, account.(password := enc.encode(d.newPassword.value)))))
  }

  /** With a sound encoder, a changed password can be changed again by
      giving the new password as the old one. */
  lemma NewPasswordAccepted(s: Store, d: ChangePasswordRequest, username: string, enc: Encoder, next: string)
    requires Sound(enc)
    requires d.oldPassword.Some? && d.newPassword.Some?
    requires ChangePassword(s, d, username, enc).Ok?
    ensures ChangePassword(ChangePassword(s, d, username, enc).value,
      ChangePasswordRequest(d.newPassword, Some(next)), username, enc).Ok?
  {
  }

  /** `update(id, account)`: username, password, status and active role
      are copied; the person link stays. */
  function Update(s: Store, id: Id, a: Account): (r: Result<Store>)
    ensures r.Ok? <==> id in s.accounts.rows
    ensures r.Err? ==> r.error == NotFound
    ensures r.Ok? ==>
      && r.value.accounts.rows == s.accounts.rows[id := a.(personId := s.accounts.rows[id].personId)]
      && r.value == s.(accounts := r.value.accounts)
  {
    var found :- Lookup(s.accounts, id, NotFound);
    Ok(s.(accounts := Put(s.accounts, id, found.(username := a.username, password := a.password,
      status := a.status, activeRole := a.activeRole))))
  }
}

/** People: registration with an account, profile updates and role
    assignment. */
module PersonService {
  import opened Common
  import opened Tables
  import opened Text
  import opened Entities
  import opened Dtos
  import opened Passwords
  import BaseService
  import AccountService

  /** `existsByNationalCodeAndPhoneNumber` */
  predicate PairTaken(s: Store, nationalCode: string, phoneNumber: string) {
    exists k :: k in s.persons.rows && s.persons.rows[k].nationalCode == nationalCode && s.persons.rows[k].phoneNumber == phoneNumber
  }

  /** `prePersist(person)`: the USER role must exist; a person with the same
      national code and phone number is refused; the roles become exactly
      [USER], and the major is looked up again by `majorName`, the name of
      the major the person carries. */
  function PrePersist(s: Store, p: Person, majorName: string): (r: Result<Person>)
    ensures RoleByName(s, "USER").None? ==> r == Err(NotFound)
    ensures RoleByName(s, "USER").Some? && PairTaken(s, p.nationalCode, p.phoneNumber) ==> r == Err(AlreadyExists)
    ensures r.Ok? <==>
      && RoleByName(s, "USER").Some?
      && !PairTaken(s, p.nationalCode, p.phoneNumber)
      && MajorByName(s, majorName).Some?
    ensures r.Ok? ==> r.value == p.(roles := [RoleByName(s, "USER").value], majorId := MajorByName(s, majorName).value)
  {
    var role :- RoleByName(s, "USER").OrFail(NotFound);
    :- Need(!PairTaken(s, p.nationalCode, p.phoneNumber), AlreadyExists);
    var majorId :- MajorByName(s, majorName).OrFail(NotFound);
    Ok(p.(roles := [role], majorId := majorId))
  }

  /** `postPersist(person)` for the saved person `personId` and the new
      account it carries, if any: the USER role must exist; the account's
      password is encoded, its status is pending, it is linked to the
      person with USER as its active role, and it is saved. */
  function PostPersist(s: Store, personId: Id, account: Option<Account>, enc: Encoder): (r: Result<(Store, Option<Id>)>)
    ensures r.Ok? <==> RoleByName(s, "USER").Some?
    ensures r.Err? ==> r.error == NotFound
    ensures r.Ok? && account.None? ==> r.value == (s, None)
    ensures r.Ok? && account.Some? ==>
      && r.value.1 == Some(s.accounts.next)
      && r.value.0.accounts.rows == s.accounts.rows[s.accounts.next := account.value.(
           password := enc.encode(account.value.password), status := Some(Pending),
           personId := personId, activeRole := RoleByName(s, "USER"))]
      && r.value.0 == s.(accounts := r.value.0.accounts)
  {
    var role :- RoleByName(s, "USER").OrFail(NotFound);
    match account
    case None => Ok((s, None))
    case Some(a) =>
      var (t, k) := Insert(s.accounts, a.(password := enc.encode(a.password), status := Some(Pending),
        personId := personId, activeRole := Some(role)));
      Ok((s.(accounts := t), Some(k)))
  }

  /** The request fields registration reads; the controller's validation
      guarantees each is present. */
  predicate Complete(req: RegisterRequest) {
    && req.firstName.Some? && req.lastName.Some? && req.nationalCode.Some? && req.phoneNumber.Some?
    && req.majorName.Some? && req.username.Some? && req.password.Some?
  }

  /** The person a registration request describes, before the hooks run. */
  function Applicant(req: RegisterRequest, majorId: Id): Person
    requires Complete(req)
  {
    Person(req.firstName.value, req.lastName.value, req.nationalCode.value, req.phoneNumber.value, majorId, [], [])
  }

  /** `register(request)`: the major is found by name, then the person is
      persisted (pre-persist, save, post-persist) together with a new
      account holding the request's username and password. The result is
      the stored person's id. */
  function Register(s: Store, req: RegisterRequest, enc: Encoder): (r: Result<(Store, Id)>)
    requires Complete(req)
    ensures MajorByName(s, req.majorName.value).None? ==> r == Err(NotFound)
    ensures MajorByName(s, req.majorName.value).Some? && RoleByName(s, "USER").None? ==> r == Err(NotFound)
    ensures r.Ok? <==>
      && MajorByName(s, req.majorName.value).Some?
      && RoleByName(s, "USER").Some?
      && !PairTaken(s, req.nationalCode.value, req.phoneNumber.value)
    ensures r.Err? && MajorByName(s, req.majorName.value).Some? && RoleByName(s, "USER").Some? ==> r.error == AlreadyExists
    ensures r.Ok? ==>
      var (s', pid) := r.value;
      var user := RoleByName(s, "USER");
      && pid !in s.persons.rows
      && s'.persons.rows == s.persons.rows[pid := Person(req.firstName.value, req.lastName.value,
           req.nationalCode.value, req.phoneNumber.value, MajorByName(s, req.majorName.value).value, [user.value], [])]
      && s.accounts.next !in s.accounts.rows
      && s'.accounts.rows == s.accounts.rows[s.accounts.next :=
           Account(req.username.value, enc.encode(req.password.value), Some(Pending), pid, user)]
      && s' == s.(persons := s'.persons, accounts := s'.accounts)
  {
    var majorId :- MajorByName(s, req.majorName.value).OrFail(NotFound);
    var (persons, pid) :- BaseService.Persist(s.persons, Applicant(req, majorId),
      (x: Person) => PrePersist(s, x, req.majorName.value));
    var s1 := s.(persons := persons);
    match PostPersist(s1, pid, Some(Account(req.username.value, req.password.value, None, pid, None)), enc)
    case Ok((s2, _)) => Ok((s2, pid))
    case Err(e) => Err(e)
  }

  /** The same national code and phone number cannot register twice. */
  lemma RegisterTwiceRefused(s: Store, req: RegisterRequest, other: RegisterRequest, enc: Encoder)
    requires Complete(req) && Complete(other)
    requires Register(s, req, enc).Ok?
    requires other.nationalCode == req.nationalCode && other.phoneNumber == req.phoneNumber
    requires other.majorName == req.majorName
    ensures Register(Register(s, req, enc).value.0, other, enc) == Err(AlreadyExists)
  {
    var (s1, pid) := Register(s, req, enc).value;
    assert s1.persons.rows[pid].nationalCode == req.nationalCode.value;
    FindFirstAgrees(s.majors, s1.majors, (m: Major) => m.name == req.majorName.value, (m: Major) => m.name == req.majorName.value);
    FindFirstAgrees(s.roles, s1.roles, (x: Role) => x.name == "USER", (x: Role) => x.name == "USER");
  }

  /** A newly registered user whose username was free can change the
      password, giving the registered password as the old one. */
  lemma RegisteredCanChangePassword(s: Store, req: RegisterRequest, enc: Encoder, next: string)
    requires Sound(enc)
    requires Complete(req)
    requires AccountByUsername(s, req.username.value).None?
    requires Register(s, req, enc).Ok?
    ensures AccountService.ChangePassword(Register(s, req, enc).value.0,
      ChangePasswordRequest(req.password, Some(next)), req.username.value, enc).Ok?
  {
    var p := (a: Account) => a.username == req.username.value;
    var a := Account(req.username.value, enc.encode(req.password.value), Some(Pending),
      Register(s, req, enc).value.1, RoleByName(s, "USER"));
    FindFirstAfterInsert(s.accounts, a, p);
  }

  /** `update(id, person)`: first name, last name, national code and phone
      number are copied; nothing else changes. */
  function Update(s: Store, id: Id, p: Person): (r: Result<Store>)
    ensures r.Ok? <==> id in s.persons.rows
    ensures r.Err? ==> r.error == NotFound
    ensures r.Ok? ==>
      && r.value.persons.rows == s.persons.rows[id := s.persons.rows[id].(firstName := p.firstName,
           lastName := p.lastName, nationalCode := p.nationalCode, phoneNumber := p.phoneNumber)]
      && r.value == s.(persons := r.value.persons)
  {
    var found :- Lookup(s.persons, id, NotFound);
    Ok(s.(persons := Put(s.persons, id, found.(firstName := p.firstName, lastName := p.lastName,
      nationalCode := p.nationalCode, phoneNumber := p.phoneNumber))))
  }

  /** `assignRoleToPerson(role, personId)`: the role (looked up
      upper-cased) and then the person must exist; the role is appended to
      the person's roles even when already there. */
  function AssignRole(s: Store, roleName: string, personId: Id): (r: Result<Store>)
    ensures RoleByName(s, ToUpper(roleName)).None? ==> r == Err(NotFound)
    ensures r.Ok? <==> RoleByName(s, ToUpper(roleName)).Some? && personId in s.persons.rows
    ensures r.Err? ==> r.error == NotFound
    ensures r.Ok? ==>
      && r.value.persons.rows == s.persons.rows[personId := s.persons.rows[personId].(
           roles := s.persons.rows[personId].roles + [RoleByName(s, ToUpper(roleName)).value])]
      && r.value == s.(persons := r.value.persons)
  {
    var role :- RoleByName(s, ToUpper(roleName)).OrFail(NotFound);
    var person :- Lookup(s.persons, personId, NotFound);
    Ok(s.(persons := Put(s.persons, personId, person.(roles := person.roles + [role]))))
  }

  /** Assigning a role twice lists it twice. */
  lemma AssignRoleTwiceDuplicates(s: Store, roleName: string, personId: Id)
    requires AssignRole(s, roleName, personId).Ok?
    ensures var s2 := AssignRole(AssignRole(s, roleName, personId).value, roleName, personId);
      var role := RoleByName(s, ToUpper(roleName)).value;
      && s2.Ok?
      && s2.value.persons.rows[personId].roles == s.persons.rows[personId].roles + [role, role]
  {
  }

  /** Once a role is assigned to the person behind an account, the account
      can switch to it, under the same name. */
  lemma AssignedRoleCanBeActivated(s: Store, username: string, roleName: string)
    requires AccountsLinked(s)
    requires AccountByUsername(s, username).Some?
    requires AssignRole(s, roleName, s.accounts.rows[AccountByUsername(s, username).value].personId).Ok?
    ensures var s1 := AssignRole(s, roleName, s.accounts.rows[AccountByUsername(s, username).value].personId).value;
      && AccountsLinked(s1)
      && AccountService.ChangeRole(s1, username, roleName).Ok?
      && AccountService.ChangeRole(s1, username, roleName).value.accounts.rows[AccountByUsername(s, username).value].activeRole
         == RoleByName(s, ToUpper(roleName))
  {
  }
}
