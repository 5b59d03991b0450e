/** The user service: registration, the two logins, lookup, patching and
    deletion of accounts. Password hashing and comparison are parameters
    (`hash`, `matches`); tokens, cookies and HTTP responses are left out, so
    a successful call yields only the data the response is built from. */
module UserService {
  import opened Common
  import opened Store
  import RoleCodec
  import UserAnswerService

  /** The fields of a login response: the account and its role as loaded. */
  datatype Session = Session(id: Id, name: string, email: string, role: string)

  /** `UpdateUserDto`: every field may be absent. */
  datatype UserPatch = UserPatch(name: Option<string>, email: Option<string>, password: Option<string>, role: Option<string>)

  /** The row the `findOne({ where: { email } })` query returns. */
  function UserByEmail(s: Store, email: string): (r: Option<Id>)
    requires Valid(s)
    ensures r.Some? ==> r.value in s.users && s.users[r.value].email == email
    ensures r.None? <==> forall k :: k in s.users ==> s.users[k].email != email
  {
    LeastKey(s.users, (u: User) => u.email == email, 0, s.next)
  }

  /** An account with this email exists. */
  predicate EmailTaken(s: Store, email: string) {
    exists k :: k in s.users && s.users[k].email == email
  }

  // ---------------------------------------------------------------------------
  // Registration

  /** `doUserRegistration` (and its copy `register`): all four fields must be
      non-empty (BadRequest), the email must be free (Conflict), and the role
      must be one the transformer accepts, else the save throws
      (InternalServerError). The insert hook stores `hash(password)`. */
  function Register(s: Store, name: string, email: string, password: string, role: string,
                    hash: string -> string): (r: Result<(Store, Id)>)
    requires Valid(s)
    ensures r.Err? && r.error == BadRequest <==> name == "" || email == "" || password == "" || role == ""
    ensures r.Err? && r.error == Conflict <==>
      name != "" && email != "" && password != "" && role != "" && EmailTaken(s, email)
    ensures r.Err? && r.error == InternalServerError <==>
      name != "" && email != "" && password != "" && role != "" && !EmailTaken(s, email) && !RoleCodec.IsRole(role)
    ensures r.Err? ==> r.error != NotFound
    ensures r.Ok? ==>
      var (t, id) := r.value;
      && Valid(t)
      && id !in s.users
      && RoleCodec.IsRole(role)
      && t.users == s.users[id := User(name, email, hash(password), RoleCodec.EncodeRole(role).value)]
      && t == s.(users := t.users, next := t.next)
  {
    if name == "" || email == "" || password == "" || role == "" then Err(BadRequest)
    else if UserByEmail(s, email).Some? then Err(Conflict)
    else match RoleCodec.EncodeRole(role)
      case Err(e) => Err(e)
      case Ok(code) =>
        var id := s.next;
        Ok((s.(users := s.users[id := User(name, email, hash(password), code)], next := s.next + 1), id))
  }

  // ---------------------------------------------------------------------------
  // Login

  /** `login`: both fields must be non-empty (BadRequest), an account with
      the email must exist (NotFound), and `matches(password, stored hash)`
      must hold (BadRequest). */
  function Login(s: Store, email: string, password: string, matches: (string, string) -> bool): (r: Result<Session>)
    requires Valid(s)
    ensures r.Err? && r.error == NotFound <==> email != "" && password != "" && !EmailTaken(s, email)
    ensures r.Err? && r.error == BadRequest <==>
      email == "" || password == "" ||
      (EmailTaken(s, email) && !matches(password, s.users[UserByEmail(s, email).value].password))
    ensures r.Err? ==> r.error in {NotFound, BadRequest}
    ensures r.Ok? ==>
      var id := r.value.id;
      && id in s.users
      && s.users[id].email == email
      && matches(password, s.users[id].password)
      && r.value == Session(id, s.users[id].name, email, RoleCodec.DecodeRole(s.users[id].role))
  {
    if email == "" || password == "" then Err(BadRequest)
    else match UserByEmail(s, email)
      case None => Err(NotFound)
      case Some(id) =>
        var user := s.users[id];
        if !matches(password, user.password) then Err(BadRequest)
        else Ok(Session(id, user.name, user.email, RoleCodec.DecodeRole(user.role)))
  }

  /** `loginAdmin`: the same checks as `login`, answering with name and
      email only. It never looks at the role. */
  function LoginAdmin(s: Store, email: string, password: string, matches: (string, string) -> bool): (r: Result<(string, string)>)
    requires Valid(s)
    ensures r.Err? <==> Login(s, email, password, matches).Err?
    ensures r.Err? ==> r.error == Login(s, email, password, matches).error
    ensures r.Ok? ==>
      var id := UserByEmail(s, email).value;
      && matches(password, s.users[id].password)
      && r.value == (s.users[id].name, email)
  {
    if email == "" || password == "" then Err(BadRequest)
    else match UserByEmail(s, email)
      case None => Err(NotFound)
      case Some(id) =>
        var user := s.users[id];
        if !matches(password, user.password) then Err(BadRequest)
        else Ok((user.name, user.email))
  }

  /** An account registered with role 'user' passes the admin login. */
  lemma LoginAdminAdmitsUsers(s: Store, email: string, password: string, matches: (string, string) -> bool)
    requires Valid(s) && Login(s, email, password, matches).Ok?
    requires Login(s, email, password, matches).value.role == RoleCodec.USER
    ensures LoginAdmin(s, email, password, matches).Ok?
  {
  }

  /** Registering and then logging in with the same credentials opens a
      session for the new account, whenever the comparison accepts a
      password against its own hash. */
  lemma RegisterThenLogin(s: Store, name: string, email: string, password: string, role: string,
                          hash: string -> string, matches: (string, string) -> bool)
    requires Valid(s) && Register(s, name, email, password, role, hash).Ok?
    requires matches(password, hash(password))
    ensures var (t, id) := Register(s, name, email, password, role, hash).value;
      Login(t, email, password, matches) == Ok(Session(id, name, email, role))
  {
    var (t, id) := Register(s, name, email, password, role, hash).value;
    assert t.users[id].email == email;
  }

  // ---------------------------------------------------------------------------
  // Lookup, patch, delete

  /** `getUserById`. */
  function GetUserById(s: Store, id: Id): (r: Result<User>)
    ensures r.Err? <==> id !in s.users
    ensures r.Err? ==> r.error == NotFound
    ensures r.Ok? ==> id in s.users && r.value == s.users[id]
  {
    if id in s.users then Ok(s.users[id]) else Err(NotFound)
  }

  /** A field of the DTO overrides the loaded value when present. */
  function Pick<T>(patch: Option<T>, loaded: T): (r: T)
    ensures patch.Some? ==> r == patch.value
    ensures patch.None? ==> r == loaded
  {
    if patch.Some? then patch.value else loaded
  }

  /** The entity as loaded: the role column read through the transformer. */
  datatype Account = Account(name: string, email: string, password: string, role: string)

  function Load(u: User): Account {
    Account(u.name, u.email, u.password, RoleCodec.DecodeRole(u.role))
  }

  /** `Object.assign(user, dto)`. */
  function Assign(a: Account, dto: UserPatch): (r: Account)
    ensures r.name == Pick(dto.name, a.name) && r.email == Pick(dto.email, a.email)
    ensures r.password == Pick(dto.password, a.password) && r.role == Pick(dto.role, a.role)
  {
    Account(Pick(dto.name, a.name), Pick(dto.email, a.email), Pick(dto.password, a.password), Pick(dto.role, a.role))
  }

  /** Another account already uses this email. */
  predicate EmailTakenByOther(s: Store, id: Id, email: string) {
    exists k :: k in s.users && k != id && s.users[k].email == email
  }

  /** `updateUser`: load the account (NotFound when absent), assign the
      DTO's fields over it and save. The save writes nothing when no field
      changed. Otherwise the update hook replaces a non-empty password with
      its hash, the role is re-encoded (an unknown role throws), and the
      unique index rejects an email held by another account; both failures
      surface as InternalServerError. */
  function UpdateUser(s: Store, id: Id, dto: UserPatch, hash: string -> string): (r: Result<Store>)
    requires Valid(s)
    ensures r.Err? && r.error == NotFound <==> id !in s.users
    ensures r.Err? && r.error == InternalServerError <==>
      id in s.users && Assign(Load(s.users[id]), dto) != Load(s.users[id]) &&
      (!RoleCodec.IsRole(Pick(dto.role, Load(s.users[id]).role)) || EmailTakenByOther(s, id, Pick(dto.email, s.users[id].email)))
    ensures r.Err? ==> r.error in {NotFound, InternalServerError}
    ensures r.Ok? ==>
      var t := r.value;
      var u := s.users[id];
      && Valid(t)
      && t == s.(users := t.users)
      && t.users.Keys == s.users.Keys
      && (forall k :: k in s.users && k != id ==> t.users[k] == s.users[k])
      && t.users[id].name == Pick(dto.name, u.name)
      && t.users[id].email == Pick(dto.email, u.email)
      && RoleCodec.DecodeRole(t.users[id].role) == Pick(dto.role, RoleCodec.DecodeRole(u.role))
      && (Assign(Load(u), dto) == Load(u) ==> t == s)
      && (Assign(Load(u), dto) != Load(u) ==>
            var p := Pick(dto.password, u.password);
            t.users[id].password == (if p != "" then hash(p) else p))
  {
    if id !in s.users then Err(NotFound)
    else
      var loaded := Load(s.users[id]);
      var a := Assign(loaded, dto);
      if a == loaded then Ok(s)
      else match RoleCodec.EncodeRole(a.role)
        case Err(e) => Err(e)
        case Ok(code) =>
          if UserByEmailExcept(s, id, a.email).Some? then Err(InternalServerError)
          else
            var password := if a.password != "" then hash(a.password) else a.password;
            Ok(s.(users := s.users[id := User(a.name, a.email, password, code)]))
  }

  /** The row of another account holding this email, if any: what the
      unique index on `users.email` collides with. */
  function UserByEmailExcept(s: Store, id: Id, email: string): (r: Option<Id>)
    requires Valid(s)
    ensures r.Some? ==> r.value in s.users && r.value != id && s.users[r.value].email == email
    ensures r.None? <==> !EmailTakenByOther(s, id, email)
  {
    var p := (u: User) => u.email == email;
    match LeastKey(s.users, p, 0, id)
    case Some(k) => Some(k)
    case None => LeastKey(s.users, p, id + 1, s.next)
  }

  /** Changing only the name re-hashes the stored hash: the update hook
      cannot tell a hash from a password in clear. */
  lemma RenameRehashesPassword(s: Store, id: Id, name: string, hash: string -> string)
    requires Valid(s) && id in s.users && name != s.users[id].name && s.users[id].password != ""
    ensures var r := UpdateUser(s, id, UserPatch(Some(name), None, None, None), hash);
      r.Ok? && r.value.users[id].password == hash(s.users[id].password)
  {
    var dto := UserPatch(Some(name), None, None, None);
    assert Assign(Load(s.users[id]), dto) != Load(s.users[id]);
    assert !EmailTakenByOther(s, id, s.users[id].email);
  }

  /** `deleteUser`: NotFound when absent. Removing the row takes the user's
      answers with it (their foreign key cascades); progress rows are left
      as they are. */
  function DeleteUser(s: Store, id: Id): (r: Result<Store>)
    requires Valid(s)
    ensures r.Err? <==> id !in s.users
    ensures r.Err? ==> r.error == NotFound
    ensures r.Ok? ==>
      var t := r.value;
      && Valid(t)
      && t == s.(users := t.users, answers := t.answers)
      && t.users == s.users - {id}
      && (forall k :: k in t.answers <==> k in s.answers && s.answers[k].user != id)
      && (forall k :: k in t.answers ==> t.answers[k] == s.answers[k])
  {
    if id !in s.users then Err(NotFound)
    else
      var answers := map k | k in s.answers && s.answers[k].user != id :: s.answers[k];
      Ok(s.(users := s.users - {id}, answers := answers))
  }

  /** After a delete no answer of the account remains. */
  lemma DeleteUserLeavesNoAnswers(s: Store, id: Id)
    requires Valid(s) && DeleteUser(s, id).Ok?
    ensures UserAnswerService.FindByUserId(DeleteUser(s, id).value, id) == Err(NotFound)
  {
  }

  /** After a delete the account is gone: a lookup fails and so does a login
      with its email. */
  lemma DeleteThenLookup(s: Store, id: Id, password: string, matches: (string, string) -> bool)
    requires Valid(s) && DeleteUser(s, id).Ok?
    requires s.users[id].email != "" && password != ""
    ensures GetUserById(DeleteUser(s, id).value, id) == Err(NotFound)
    ensures Login(DeleteUser(s, id).value, s.users[id].email, password, matches) == Err(NotFound)
  {
    var t := DeleteUser(s, id).value;
    assert !EmailTaken(t, s.users[id].email) by {
      forall k | k in t.users
        ensures t.users[k].email != s.users[id].email
      {
        assert k in s.users && k != id;
      }
    }
  }
}
