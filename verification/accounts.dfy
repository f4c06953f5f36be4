/** User accounts: registration, login and the self-service profile
    handlers. Password hashing is an abstract function `hash`; comparing a
    password with a stored digest succeeds exactly when the password hashes
    to it. The JWT signer is an abstract function of the user id. */
module Accounts {
  import opened Common
  import Rows

  datatype User = User(id: string, email: string, password: string, name: string, role: string)

  /** The `User` table in storage order. */
  type Table = seq<User>

  /** The column default of `role`. */
  const DefaultRole := "admin"

  /** The unique index on `email`. */
  predicate UniqueEmails(t: Table) {
    forall i, j :: 0 <= i < j < |t| ==> t[i].email != t[j].email
  }

  predicate UniqueIds(t: Table) {
    forall i, j :: 0 <= i < j < |t| ==> t[i].id != t[j].id
  }

  function EmailOf(u: User): string { u.email }

  function IdOf(u: User): string { u.id }

  /** `findOneBy({ email })`. */
  function FindByEmail(t: Table, email: string): (r: Option<nat>)
    ensures r.Some? ==> r.value < |t| && t[r.value].email == email
    ensures r.Some? ==> forall i :: 0 <= i < r.value ==> t[i].email != email
    ensures r.None? <==> forall i :: 0 <= i < |t| ==> t[i].email != email
  {
    Rows.IndexOfKey(t, EmailOf, email)
  }

  /** `findOneBy({ id })`. */
  function FindById(t: Table, id: string): (r: Option<nat>)
    ensures r.Some? ==> r.value < |t| && t[r.value].id == id
    ensures r.Some? ==> forall i :: 0 <= i < r.value ==> t[i].id != id
    ensures r.None? <==> forall i :: 0 <= i < |t| ==> t[i].id != id
  {
    Rows.IndexOfKey(t, IdOf, id)
  }

  /** `bcrypt.compare(plain, digest)`. */
  predicate Compare(hash: string -> string, plain: string, digest: string) {
    hash(plain) == digest
  }

  /** A handler's reply together with the table it leaves behind. */
  datatype Step = Step(reply: Reply, table: Table)

  const EmailInUse := Reply(BadRequest, "Email already in use")
  const Registered := Reply(Created, "User registered")

  /** `register`: refuses an e-mail already on record; otherwise appends a
      user holding the hash of the password (never the password itself)
      with the default role. `freshId` is the generated primary key. */
  function Register(t: Table, email: string, password: string, name: string,
                    hash: string -> string, freshId: string): (out: Step)
    ensures FindByEmail(t, email).Some? ==> out == Step(EmailInUse, t)
    ensures FindByEmail(t, email).None? ==>
              && out.reply == Registered
              && |out.table| == |t| + 1
              && out.table[..|t|] == t
              && out.table[|t|] == User(freshId, email, hash(password), name, DefaultRole)
  {
    if FindByEmail(t, email).Some? then Step(EmailInUse, t)
    else Step(Registered, t + [User(freshId, email, hash(password), name, DefaultRole)])
  }

  /** Registration keeps e-mails unique, and ids too when the generated id
      is new. */
  lemma RegisterPreservesUniqueness(t: Table, email: string, password: string, name: string,
                                    hash: string -> string, freshId: string)
    requires UniqueEmails(t) && UniqueIds(t)
    requires FindById(t, freshId).None?
    ensures UniqueEmails(Register(t, email, password, name, hash, freshId).table)
    ensures UniqueIds(Register(t, email, password, name, hash, freshId).table)
  {
  }

  /** What the handlers show of a user: no password field. */
  datatype Profile = Profile(id: string, email: string, name: string, role: string)

  function ProfileOf(u: User): Profile {
    Profile(u.id, u.email, u.name, u.role)
  }

  datatype LoginReply = Rejected(reply: Reply) | Accepted(token: string, user: Profile)

  const InvalidCredentials := Reply(BadRequest, "Invalid credentials")
  const LoginError := Reply(ServerError, "Login error")

  /** `login`: an unknown e-mail and a wrong password give the same reply;
      success returns a token signed for the user id and the user's public
      fields. For a known e-mail, a password that is not a string makes the
      digest comparison throw, and the handler's catch answers 500; an
      unknown e-mail never reaches the comparison. */
  function Login(t: Table, email: string, password: JsValue,
                 hash: string -> string, sign: string -> string): (r: LoginReply)
    ensures FindByEmail(t, email).None? ==> r == Rejected(InvalidCredentials)
    ensures FindByEmail(t, email).Some? && !password.Str? ==> r == Rejected(LoginError)
    ensures r.Accepted? <==>
              && FindByEmail(t, email).Some? && password.Str?
              && Compare(hash, password.s, t[FindByEmail(t, email).value].password)
    ensures r.Rejected? && password.Str? ==> r.reply == InvalidCredentials
    ensures r.Accepted? ==>
              var u := t[FindByEmail(t, email).value];
              r.token == sign(u.id) && r.user == Profile(u.id, u.email, u.name, u.role)
  {
    match FindByEmail(t, email)
    case None => Rejected(InvalidCredentials)
    case Some(i) =>
      match password
      case Str(p) =>
        if !Compare(hash, p, t[i].password) then Rejected(InvalidCredentials)
        else Accepted(sign(t[i].id), ProfileOf(t[i]))
      case _ => Rejected(LoginError)
  }

  /** With a string password, a failed login does not reveal whether the
      e-mail is registered. */
  lemma LoginFailureIndistinguishable(t: Table, unknown: string, p1: JsValue,
                                      known: string, p2: string,
                                      hash: string -> string, sign: string -> string)
    requires FindByEmail(t, unknown).None?
    requires FindByEmail(t, known).Some? && !Compare(hash, p2, t[FindByEmail(t, known).value].password)
    ensures Login(t, unknown, p1, hash, sign) == Login(t, known, Str(p2), hash, sign) == Rejected(InvalidCredentials)
  {
  }

  /** Without a string password the replies differ: 500 for a registered
      e-mail, 400 for an unknown one. A body that leaves the password out
      thus tells whether an e-mail is registered. */
  lemma MissingPasswordRevealsAccount(t: Table, unknown: string, known: string, password: JsValue,
                                      hash: string -> string, sign: string -> string)
    requires FindByEmail(t, unknown).None? && FindByEmail(t, known).Some?
    requires !password.Str?
    ensures Login(t, known, password, hash, sign).reply.status == ServerError
    ensures Login(t, unknown, password, hash, sign).reply.status == BadRequest
  {
  }

  /** A freshly registered user can log in with the password given at
      registration and gets the default role. */
  lemma {:induction false} LoginAfterRegister(t: Table, email: string, password: string, name: string,
                                              hash: string -> string, sign: string -> string, freshId: string)
    requires FindByEmail(t, email).None?
    ensures Login(Register(t, email, password, name, hash, freshId).table, email, Str(password), hash, sign)
            == Accepted(sign(freshId), Profile(freshId, email, name, DefaultRole))
  {
    var t' := Register(t, email, password, name, hash, freshId).table;
    assert t'[|t|].email == email;
    assert FindByEmail(t', email) == Some(|t|);
  }

  datatype ProfileReply = Missing(reply: Reply) | Found(profile: Profile)

  const UserNotFound := Reply(NotFound, "User not found")

  /** `getProfile` for the user id the authentication step attached. */
  function GetProfile(t: Table, userId: string): (r: ProfileReply)
    ensures r.Missing? <==> FindById(t, userId).None?
    ensures r.Missing? ==> r.reply == UserNotFound
    ensures r.Found? ==> exists i :: 0 <= i < |t| && t[i].id == userId && r.profile == ProfileOf(t[i])
  {
    match FindById(t, userId)
    case None => Missing(UserNotFound)
    case Some(i) => Found(ProfileOf(t[i]))
  }

  const ProfileUpdated := Reply(Ok, "Profile updated")
  const ProfileUpdateFailed := Reply(ServerError, "Failed to update profile")

  /** `updateProfile`: only the name of the authenticated user changes.
      The body's `name` is written as sent: a string becomes the new name;
      a missing field is skipped by the save, so the reply is a success
      that changes nothing; `null` is refused by the non-nullable column
      and the handler's catch answers 500. Numbers, booleans, arrays and
      objects are answered the same way here. */
  function UpdateProfile(t: Table, userId: string, name: JsValue): (out: Step)
    ensures FindById(t, userId).None? ==> out == Step(UserNotFound, t)
    ensures FindById(t, userId).Some? && name.Undefined? ==> out == Step(ProfileUpdated, t)
    ensures FindById(t, userId).Some? && !name.Undefined? && !name.Str? ==> out == Step(ProfileUpdateFailed, t)
    ensures FindById(t, userId).Some? && name.Str? ==>
              var i := FindById(t, userId).value;
              && out.reply == ProfileUpdated
              && |out.table| == |t|
              && out.table[i] == t[i].(name := name.s)
              && forall k :: 0 <= k < |t| && k != i ==> out.table[k] == t[k]
  {
    match FindById(t, userId)
    case None => Step(UserNotFound, t)
    case Some(i) =>
      match name
      case Undefined => Step(ProfileUpdated, t)
      case Str(s) => Step(ProfileUpdated, t[i := t[i].(name := s)])
      case _ => Step(ProfileUpdateFailed, t)
  }

  const WrongCurrentPassword := Reply(BadRequest, "Current password is incorrect")
  const PasswordChanged := Reply(Ok, "Password changed successfully")

  /** `changePassword`: guarded by the current password; on success the
      stored digest becomes the hash of the new password and nothing else
      changes. */
  function ChangePassword(t: Table, userId: string, current: string, newPassword: string,
                          hash: string -> string): (out: Step)
    ensures FindById(t, userId).None? ==> out == Step(UserNotFound, t)
    ensures FindById(t, userId).Some? && !Compare(hash, current, t[FindById(t, userId).value].password) ==>
              out == Step(WrongCurrentPassword, t)
    ensures FindById(t, userId).Some? && Compare(hash, current, t[FindById(t, userId).value].password) ==>
              var i := FindById(t, userId).value;
              && out.reply == PasswordChanged
              && |out.table| == |t|
              && out.table[i] == t[i].(password := hash(newPassword))
              && forall k :: 0 <= k < |t| && k != i ==> out.table[k] == t[k]
  {
    match FindById(t, userId)
    case None => Step(UserNotFound, t)
    case Some(i) =>
      if !Compare(hash, current, t[i].password) then Step(WrongCurrentPassword, t)
      else Step(PasswordChanged, t[i := t[i].(password := hash(newPassword))])
  }

  /** After a successful change the new password logs in, and an old
      password logs in only if it hashes to the same digest. */
  lemma {:induction false} LoginAfterChangePassword(t: Table, userId: string, current: string, newPassword: string,
                                                    other: string, hash: string -> string, sign: string -> string)
    requires UniqueEmails(t)
    requires FindById(t, userId).Some? && Compare(hash, current, t[FindById(t, userId).value].password)
    ensures var t' := ChangePassword(t, userId, current, newPassword, hash).table;
            var u := t[FindById(t, userId).value];
            && Login(t', u.email, Str(newPassword), hash, sign).Accepted?
            && (Login(t', u.email, Str(other), hash, sign).Accepted? <==> hash(other) == hash(newPassword))
  {
    var i := FindById(t, userId).value;
    var t' := ChangePassword(t, userId, current, newPassword, hash).table;
    Rows.SameKeysSameIndex(t, t', EmailOf, t[i].email);
    assert FindByEmail(t, t[i].email) == Some(i);
  }
  /** After a profile update the profile reads back the name just sent,
      with e-mail and role as before; keys and e-mails stay unique; and
      every login answers as it did, since the name takes no part in it. */
  lemma {:induction false} ProfileAfterUpdate(t: Table, userId: string, name: string, email: string, password: JsValue,
                                              hash: string -> string, sign: string -> string)
    requires FindById(t, userId).Some?
    ensures var t' := UpdateProfile(t, userId, Str(name)).table;
            var u := t[FindById(t, userId).value];
            && GetProfile(t', userId) == Found(Profile(userId, u.email, name, u.role))
            && (UniqueIds(t) ==> UniqueIds(t'))
            && (UniqueEmails(t) ==> UniqueEmails(t'))
            && Login(t', email, password, hash, sign).Accepted? == Login(t, email, password, hash, sign).Accepted?
  {
    var i := FindById(t, userId).value;
    var t' := UpdateProfile(t, userId, Str(name)).table;
    assert forall k :: 0 <= k < |t| ==> t'[k].id == t[k].id && t'[k].email == t[k].email
                                        && t'[k].password == t[k].password;
    Rows.SameKeysSameIndex(t, t', IdOf, userId);
    Rows.SameKeysSameIndex(t, t', EmailOf, email);
  }
}
