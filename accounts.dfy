/**
 * The account handlers as functions from the USERS namespace to a reply and
 * the USERS contents they leave behind. bcrypt is an injected function
 * `hash`: `bcrypt.compare(p, h)` holds exactly when `hash(p) == h`.
 */
module Accounts {
  import opened Store

  /** A reply together with the USERS contents after the handler. */
  datatype UStep<R> = UStep(reply: R, users: Users)

  /** The keys a registration writes. */
  function RegisterKeys(id: string, email: string, username: string, token: string): set<UserKey>
  {
    {AccountOf(id), EmailOf(email), UsernameOf(username), VerifiedOf(id), VerifyToken(token)}
  }

  /** Registration. A missing field is 400; an email or username already
      indexed is 409 (email checked first); nothing is written then.
      Otherwise the account is stored under a fresh nanoid, indexed by email
      and username, marked unverified, and a verification token is issued. */
  function Register(
    users: Users, username: string, email: string, password: string,
    hash: string -> string, idBytes: seq<nat>, token: string, now: string): (s: UStep<Reply<PublicUser>>)
    requires |idBytes| == IdLength
    ensures username == "" || email == "" || password == "" ==>
      s == UStep(Err(400, "Username, email, and password are required"), users)
    ensures username != "" && email != "" && password != "" && GetText(users, EmailOf(email)).Some? ==>
      s == UStep(Err(409, "Email already registered"), users)
    ensures (username != "" && email != "" && password != "" && GetText(users, EmailOf(email)).None?
      && GetText(users, UsernameOf(username)).Some?) ==>
      s == UStep(Err(409, "Username already taken"), users)
    ensures s.reply.Ok? <==> (username != "" && email != "" && password != ""
      && GetText(users, EmailOf(email)).None? && GetText(users, UsernameOf(username)).None?)
    ensures s.reply.Ok? ==>
      var id := NanoId(idBytes);
      var u := User(id, username, email, hash(password), now);
      var written := RegisterKeys(id, email, username, token);
      && s.reply.value == Public(u)
      && GetAccount(s.users, id) == Some(u)
      && GetText(s.users, EmailOf(email)) == Some(id)
      && GetText(s.users, UsernameOf(username)) == Some(id)
      && GetText(s.users, VerifiedOf(id)) == Some("false")
      && GetText(s.users, VerifyToken(token)) == Some(id)
      && s.users - written == users - written
    ensures UsersWellTyped(users) ==> UsersWellTyped(s.users)
  {
    if username == "" || email == "" || password == "" then
      UStep(Err(400, "Username, email, and password are required"), users)
    else if GetText(users, EmailOf(email)).Some? then UStep(Err(409, "Email already registered"), users)
    else if GetText(users, UsernameOf(username)).Some? then UStep(Err(409, "Username already taken"), users)
    else
      var id := NanoId(idBytes);
      var u := User(id, username, email, hash(password), now);
      var users' := users[AccountOf(id) := Account(u)]
        [EmailOf(email) := Text(id)]
        [UsernameOf(username) := Text(id)]
        [VerifiedOf(id) := Text("false")]
        [VerifyToken(token) := Text(id)];
      UStep(Ok(Public(u)), users')
  }

  /** Verification. An unknown token throws (the handler has no catch); a
      known one is consumed and its user marked verified, whether or not that
      user's account still exists. */
  function VerifyEmail(users: Users, token: string): (s: UStep<Reply<string>>)
    ensures GetText(users, VerifyToken(token)).None? ==>
      s == UStep(Thrown("Invalid or expired verification token"), users)
    ensures GetText(users, VerifyToken(token)).Some? ==>
      var id := GetText(users, VerifyToken(token)).value;
      var touched := {VerifyToken(token), VerifiedOf(id)};
      && s.reply == Ok("Email verified successfully")
      && VerifyToken(token) !in s.users
      && GetText(s.users, VerifiedOf(id)) == Some("true")
      && s.users - touched == users - touched
    ensures UsersWellTyped(users) ==> UsersWellTyped(s.users)
  {
    match GetText(users, VerifyToken(token))
    case None => UStep(Thrown("Invalid or expired verification token"), users)
    case Some(id) => UStep(Ok("Email verified successfully"), (users - {VerifyToken(token)})[VerifiedOf(id) := Text("true")])
  }

  /** Login. It changes nothing. Unknown email and wrong password give the same
      401; a login succeeds exactly when the email is indexed, the account is
      there, the password matches its hash and the user is marked verified. */
  function Login(users: Users, email: string, password: string, hash: string -> string): (r: Reply<PublicUser>)
    ensures email == "" || password == "" ==> r == Err(400, "Email and password are required")
    ensures email != "" && password != "" && GetText(users, EmailOf(email)).None? ==>
      r == Err(401, "Invalid email or password")
    ensures (email != "" && password != "" && GetText(users, EmailOf(email)).Some?
      && GetAccount(users, GetText(users, EmailOf(email)).value).None?) ==>
      r == Err(404, "User not found")
    ensures r.Ok? <==>
      && email != "" && password != ""
      && GetText(users, EmailOf(email)).Some?
      && var id := GetText(users, EmailOf(email)).value;
      && GetAccount(users, id).Some?
      && hash(password) == GetAccount(users, id).value.passwordHash
      && GetText(users, VerifiedOf(id)) == Some("true")
    ensures email != "" && password != "" && GetText(users, EmailOf(email)).Some? ==>
      var id := GetText(users, EmailOf(email)).value;
      GetAccount(users, id).Some? && hash(password) != GetAccount(users, id).value.passwordHash ==>
      r == Err(401, "Invalid email or password")
    ensures email != "" && password != "" && GetText(users, EmailOf(email)).Some? ==>
      var id := GetText(users, EmailOf(email)).value;
      (GetAccount(users, id).Some? && hash(password) == GetAccount(users, id).value.passwordHash
        && GetText(users, VerifiedOf(id)) != Some("true")) ==>
      r == Err(403, "User not verified")
    ensures r.Ok? ==> r.value == Public(GetAccount(users, GetText(users, EmailOf(email)).value).value)
    ensures r.Err? && r.status == 401 ==> r.error == "Invalid email or password"
    ensures r.Err? && r.status == 403 ==> r.error == "User not verified"
    ensures !r.Thrown?
  {
    if email == "" || password == "" then Err(400, "Email and password are required")
    else match GetText(users, EmailOf(email))
      case None => Err(401, "Invalid email or password")
      case Some(id) =>
        match GetAccount(users, id)
        case None => Err(404, "User not found")
        case Some(u) =>
          if hash(password) != u.passwordHash then Err(401, "Invalid email or password")
          else if GetText(users, VerifiedOf(id)) != Some("true") then Err(403, "User not verified")
          else Ok(Public(u))
  }

  /** Changing the username: the account is rewritten, the new name indexed and
      the old name's index entry deleted, in that order. */
  function ChangeUsername(users: Users, userId: string, newUsername: string): (s: UStep<Reply<PublicUser>>)
    ensures userId == "" || newUsername == "" ==> s == UStep(Err(400, "User ID and new username are required"), users)
    ensures userId != "" && newUsername != "" && GetText(users, UsernameOf(newUsername)).Some? ==>
      s == UStep(Err(409, "Username already taken"), users)
    ensures (userId != "" && newUsername != "" && GetText(users, UsernameOf(newUsername)).None?
      && GetAccount(users, userId).None?) ==>
      s == UStep(Err(404, "User not found"), users)
    ensures s.reply.Ok? <==> (userId != "" && newUsername != ""
      && GetText(users, UsernameOf(newUsername)).None? && GetAccount(users, userId).Some?)
    ensures s.reply.Ok? ==>
      var u := GetAccount(users, userId).value;
      var u' := u.(username := newUsername);
      var touched := {AccountOf(userId), UsernameOf(newUsername), UsernameOf(u.username)};
      && s.reply.value == Public(u')
      && GetAccount(s.users, userId) == Some(u')
      && UsernameOf(u.username) !in s.users
      && (u.username != newUsername ==> GetText(s.users, UsernameOf(newUsername)) == Some(userId))
      && s.users - touched == users - touched
    ensures UsersWellTyped(users) ==> UsersWellTyped(s.users)
  {
    if userId == "" || newUsername == "" then UStep(Err(400, "User ID and new username are required"), users)
    else if GetText(users, UsernameOf(newUsername)).Some? then UStep(Err(409, "Username already taken"), users)
    else match GetAccount(users, userId)
      case None => UStep(Err(404, "User not found"), users)
      case Some(u) =>
        var u' := u.(username := newUsername);
        var users' := users[AccountOf(userId) := Account(u')][UsernameOf(newUsername) := Text(userId)] - {UsernameOf(u.username)};
        UStep(Ok(Public(u')), users')
  }

  /** Changing the password: only the account's hash changes, and only when the
      old password matches. */
  function ChangePassword(
    users: Users, userId: string, oldPassword: string, newPassword: string,
    hash: string -> string): (s: UStep<Reply<PublicUser>>)
    ensures userId == "" || oldPassword == "" || newPassword == "" ==>
      s == UStep(Err(400, "User ID, old password, and new password are required"), users)
    ensures userId != "" && oldPassword != "" && newPassword != "" && GetAccount(users, userId).None? ==>
      s == UStep(Err(404, "User not found"), users)
    ensures (userId != "" && oldPassword != "" && newPassword != "" && GetAccount(users, userId).Some?
      && hash(oldPassword) != GetAccount(users, userId).value.passwordHash) ==>
      s == UStep(Err(401, "Invalid old password"), users)
    ensures s.reply.Ok? <==> (userId != "" && oldPassword != "" && newPassword != ""
      && GetAccount(users, userId).Some? && hash(oldPassword) == GetAccount(users, userId).value.passwordHash)
    ensures s.reply.Ok? ==>
      var u' := GetAccount(users, userId).value.(passwordHash := hash(newPassword));
      && s.reply.value == Public(u')
      && GetAccount(s.users, userId) == Some(u')
      && s.users - {AccountOf(userId)} == users - {AccountOf(userId)}
    ensures UsersWellTyped(users) ==> UsersWellTyped(s.users)
  {
    if userId == "" || oldPassword == "" || newPassword == "" then
      UStep(Err(400, "User ID, old password, and new password are required"), users)
    else match GetAccount(users, userId)
      case None => UStep(Err(404, "User not found"), users)
      case Some(u) =>
        if hash(oldPassword) != u.passwordHash then UStep(Err(401, "Invalid old password"), users)
        else
          var u' := u.(passwordHash := hash(newPassword));
          UStep(Ok(Public(u')), users[AccountOf(userId) := Account(u')])
  }

  /** Changing the email: the account is rewritten, the new address indexed and
      the old address's index entry deleted, in that order. The verified mark
      is left as it was. */
  function ChangeEmail(users: Users, userId: string, newEmail: string): (s: UStep<Reply<PublicUser>>)
    ensures userId == "" || newEmail == "" ==> s == UStep(Err(400, "User ID and new email are required"), users)
    ensures userId != "" && newEmail != "" && GetText(users, EmailOf(newEmail)).Some? ==>
      s == UStep(Err(409, "Email already registered"), users)
    ensures (userId != "" && newEmail != "" && GetText(users, EmailOf(newEmail)).None?
      && GetAccount(users, userId).None?) ==>
      s == UStep(Err(404, "User not found"), users)
    ensures s.reply.Ok? <==> (userId != "" && newEmail != ""
      && GetText(users, EmailOf(newEmail)).None? && GetAccount(users, userId).Some?)
    ensures s.reply.Ok? ==>
      var u := GetAccount(users, userId).value;
      var u' := u.(email := newEmail);
      var touched := {AccountOf(userId), EmailOf(newEmail), EmailOf(u.email)};
      && s.reply.value == Public(u')
      && GetAccount(s.users, userId) == Some(u')
      && EmailOf(u.email) !in s.users
      && (u.email != newEmail ==> GetText(s.users, EmailOf(newEmail)) == Some(userId))
      && s.users - touched == users - touched
    ensures UsersWellTyped(users) ==> UsersWellTyped(s.users)
  {
    if userId == "" || newEmail == "" then UStep(Err(400, "User ID and new email are required"), users)
    else if GetText(users, EmailOf(newEmail)).Some? then UStep(Err(409, "Email already registered"), users)
    else match GetAccount(users, userId)
      case None => UStep(Err(404, "User not found"), users)
      case Some(u) =>
        var u' := u.(email := newEmail);
        var users' := users[AccountOf(userId) := Account(u')][EmailOf(newEmail) := Text(userId)] - {EmailOf(u.email)};
        UStep(Ok(Public(u')), users')
  }

  /** Requesting a reset: for an indexed email a reset token mapping to the
      email is issued and the user id is returned. */
  function RequestPasswordReset(users: Users, email: string, token: string): (s: UStep<Reply<string>>)
    ensures email == "" ==> s == UStep(Err(400, "Email is required"), users)
    ensures email != "" && GetText(users, EmailOf(email)).None? ==> s == UStep(Err(404, "Email not registered"), users)
    ensures s.reply.Ok? <==> email != "" && GetText(users, EmailOf(email)).Some?
    ensures s.reply.Ok? ==>
      && s.reply.value == GetText(users, EmailOf(email)).value
      && GetText(s.users, ResetToken(token)) == Some(email)
      && s.users - {ResetToken(token)} == users - {ResetToken(token)}
    ensures UsersWellTyped(users) ==> UsersWellTyped(s.users)
  {
    if email == "" then UStep(Err(400, "Email is required"), users)
    else match GetText(users, EmailOf(email))
      case None => UStep(Err(404, "Email not registered"), users)
      case Some(id) => UStep(Ok(id), users[ResetToken(token) := Text(email)])
  }

  /** What bcrypt's hash rejects when the password is undefined. */
  const IllegalArguments: string := "Illegal arguments: undefined, string"

  /** Resetting a password with a token. The new password is the one request
      field read without a check, so its absence (None) is modelled: bcrypt's
      hash then throws. An unknown token is 400; an email no longer indexed is
      404 (the token stays); an absent new password throws; an indexed id
      without an account throws too (the handler sets a field on
      `JSON.parse(null)`). A thrown request writes nothing. Otherwise the
      account's hash is replaced and the token consumed. A present but empty
      new password is accepted. */
  function ResetPassword(users: Users, token: string, newPassword: Option<string>, hash: string -> string): (s: UStep<Reply<string>>)
    ensures GetText(users, ResetToken(token)).None? ==> s == UStep(Err(400, "Invalid or expired token"), users)
    ensures GetText(users, ResetToken(token)).Some? && GetText(users, EmailOf(GetText(users, ResetToken(token)).value)).None? ==>
      s == UStep(Err(404, "User not found"), users)
    ensures GetText(users, ResetToken(token)).Some? && GetText(users, EmailOf(GetText(users, ResetToken(token)).value)).Some? ==>
      var id := GetText(users, EmailOf(GetText(users, ResetToken(token)).value)).value;
      && (newPassword.None? ==> s == UStep(Thrown(IllegalArguments), users))
      && (newPassword.Some? && GetAccount(users, id).None? ==> s == UStep(Thrown("Cannot set properties of null"), users))
    ensures s.reply.Ok? <==>
      && GetText(users, ResetToken(token)).Some?
      && var email := GetText(users, ResetToken(token)).value;
      && GetText(users, EmailOf(email)).Some?
      && newPassword.Some?
      && GetAccount(users, GetText(users, EmailOf(email)).value).Some?
    ensures s.reply.Ok? ==>
      var id := GetText(users, EmailOf(GetText(users, ResetToken(token)).value)).value;
      var u' := GetAccount(users, id).value.(passwordHash := hash(newPassword.value));
      var touched := {AccountOf(id), ResetToken(token)};
      && s.reply.value == "Password reset successful."
      && GetAccount(s.users, id) == Some(u')
      && ResetToken(token) !in s.users
      && s.users - touched == users - touched
    ensures s.reply.Thrown? ==> s.users == users
    ensures UsersWellTyped(users) ==> UsersWellTyped(s.users)
  {
    match GetText(users, ResetToken(token))
    case None => UStep(Err(400, "Invalid or expired token"), users)
    case Some(email) =>
      match GetText(users, EmailOf(email))
      case None => UStep(Err(404, "User not found"), users)
      case Some(id) =>
        if newPassword.None? then UStep(Thrown(IllegalArguments), users)
        else match GetAccount(users, id)
        case None => UStep(Thrown("Cannot set properties of null"), users)
        case Some(u) =>
          var u' := u.(passwordHash := hash(newPassword.value));
          UStep(Ok("Password reset successful."), users[AccountOf(id) := Account(u')] - {ResetToken(token)})
  }

  // ---------------------------------------------------------------------------
  // The directory invariant

  /** Every account is reachable from the index entries of its own email and
      username, and every index entry leads to an account carrying that email
      or username. */
  ghost predicate Directory(users: Users)
  {
    && UsersWellTyped(users)
    && (forall id | GetAccount(users, id).Some? ::
          && GetText(users, EmailOf(GetAccount(users, id).value.email)) == Some(id)
          && GetText(users, UsernameOf(GetAccount(users, id).value.username)) == Some(id))
    && (forall e | GetText(users, EmailOf(e)).Some? ::
          && GetAccount(users, GetText(users, EmailOf(e)).value).Some?
          && GetAccount(users, GetText(users, EmailOf(e)).value).value.email == e)
    && (forall n | GetText(users, UsernameOf(n)).Some? ::
          && GetAccount(users, GetText(users, UsernameOf(n)).value).Some?
          && GetAccount(users, GetText(users, UsernameOf(n)).value).value.username == n)
  }

  /** Within the directory no two accounts share an email or a username. */
  lemma DirectoryUnique(users: Users, id1: string, id2: string)
    requires Directory(users)
    requires GetAccount(users, id1).Some? && GetAccount(users, id2).Some?
    requires GetAccount(users, id1).value.email == GetAccount(users, id2).value.email
      || GetAccount(users, id1).value.username == GetAccount(users, id2).value.username
    ensures id1 == id2
  {
  }

  /** Within the directory each account is named by exactly one email key and
      exactly one username key: its own. */
  lemma OneIndexKeyPerAccount(users: Users, id: string, e: string, n: string)
    requires Directory(users)
    requires GetAccount(users, id).Some?
    ensures GetText(users, EmailOf(e)) == Some(id) <==> e == GetAccount(users, id).value.email
    ensures GetText(users, UsernameOf(n)) == Some(id) <==> n == GetAccount(users, id).value.username
  {
  }

  /** Within the directory an indexed email always leads to an account, so a
      password reset with a valid token never reaches the null-account
      exception: it succeeds exactly when the new password is present. */
  lemma ResetPasswordTotal(users: Users, token: string, newPassword: Option<string>, hash: string -> string)
    requires Directory(users)
    requires GetText(users, ResetToken(token)).Some?
    requires GetText(users, EmailOf(GetText(users, ResetToken(token)).value)).Some?
    ensures ResetPassword(users, token, newPassword, hash).reply
      == if newPassword.Some? then Ok("Password reset successful.") else Thrown(IllegalArguments)
  {
  }

  lemma RegisterKeepsDirectory(
    users: Users, username: string, email: string, password: string,
    hash: string -> string, idBytes: seq<nat>, token: string, now: string)
    requires |idBytes| == IdLength
    requires Directory(users)
    requires AccountOf(NanoId(idBytes)) !in users
    ensures Directory(Register(users, username, email, password, hash, idBytes, token, now).users)
  {
    var s := Register(users, username, email, password, hash, idBytes, token, now);
    if s.reply.Ok? {
      var id := NanoId(idBytes);
      var v := s.users;
      forall x | GetAccount(v, x).Some?
        ensures GetText(v, EmailOf(GetAccount(v, x).value.email)) == Some(x)
        ensures GetText(v, UsernameOf(GetAccount(v, x).value.username)) == Some(x)
      {
        if x != id {
          assert GetAccount(v, x) == GetAccount(users, x);
        }
      }
      forall e | GetText(v, EmailOf(e)).Some?
        ensures GetAccount(v, GetText(v, EmailOf(e)).value).Some?
        ensures GetAccount(v, GetText(v, EmailOf(e)).value).value.email == e
      {
        if e != email {
          assert GetText(v, EmailOf(e)) == GetText(users, EmailOf(e));
          assert GetText(users, EmailOf(e)).value != id;
        }
      }
      forall n | GetText(v, UsernameOf(n)).Some?
        ensures GetAccount(v, GetText(v, UsernameOf(n)).value).Some?
        ensures GetAccount(v, GetText(v, UsernameOf(n)).value).value.username == n
      {
        if n != username {
          assert GetText(v, UsernameOf(n)) == GetText(users, UsernameOf(n));
          assert GetText(users, UsernameOf(n)).value != id;
        }
      }
    }
  }

  lemma ChangeUsernameKeepsDirectory(users: Users, userId: string, newUsername: string)
    requires Directory(users)
    ensures Directory(ChangeUsername(users, userId, newUsername).users)
  {
    var s := ChangeUsername(users, userId, newUsername);
    if s.reply.Ok? {
      var u := GetAccount(users, userId).value;
      var v := s.users;
      assert u.username != newUsername;
      forall x | GetAccount(v, x).Some?
        ensures GetText(v, EmailOf(GetAccount(v, x).value.email)) == Some(x)
        ensures GetText(v, UsernameOf(GetAccount(v, x).value.username)) == Some(x)
      {
        if x != userId {
          assert GetAccount(v, x) == GetAccount(users, x);
          assert GetAccount(users, x).value.username != u.username;
        }
      }
      forall e | GetText(v, EmailOf(e)).Some?
        ensures GetAccount(v, GetText(v, EmailOf(e)).value).Some?
        ensures GetAccount(v, GetText(v, EmailOf(e)).value).value.email == e
      {
        assert GetText(v, EmailOf(e)) == GetText(users, EmailOf(e));
      }
      forall n | GetText(v, UsernameOf(n)).Some?
        ensures GetAccount(v, GetText(v, UsernameOf(n)).value).Some?
        ensures GetAccount(v, GetText(v, UsernameOf(n)).value).value.username == n
      {
        if n != newUsername {
          assert GetText(v, UsernameOf(n)) == GetText(users, UsernameOf(n));
          assert GetText(users, UsernameOf(n)).value != userId;
        }
      }
    }
  }

  lemma ChangeEmailKeepsDirectory(users: Users, userId: string, newEmail: string)
    requires Directory(users)
    ensures Directory(ChangeEmail(users, userId, newEmail).users)
  {
    var s := ChangeEmail(users, userId, newEmail);
    if s.reply.Ok? {
      var u := GetAccount(users, userId).value;
      var v := s.users;
      assert u.email != newEmail;
      forall x | GetAccount(v, x).Some?
        ensures GetText(v, EmailOf(GetAccount(v, x).value.email)) == Some(x)
        ensures GetText(v, UsernameOf(GetAccount(v, x).value.username)) == Some(x)
      {
        if x != userId {
          assert GetAccount(v, x) == GetAccount(users, x);
          assert GetAccount(users, x).value.email != u.email;
        }
      }
      forall e | GetText(v, EmailOf(e)).Some?
        ensures GetAccount(v, GetText(v, EmailOf(e)).value).Some?
        ensures GetAccount(v, GetText(v, EmailOf(e)).value).value.email == e
      {
        if e != newEmail {
          assert GetText(v, EmailOf(e)) == GetText(users, EmailOf(e));
          assert GetText(users, EmailOf(e)).value != userId;
        }
      }
      forall n | GetText(v, UsernameOf(n)).Some?
        ensures GetAccount(v, GetText(v, UsernameOf(n)).value).Some?
        ensures GetAccount(v, GetText(v, UsernameOf(n)).value).value.username == n
      {
        assert GetText(v, UsernameOf(n)) == GetText(users, UsernameOf(n));
      }
    }
  }

  /** Rewriting only an account's password hash keeps the directory. */
  lemma RehashKeepsDirectory(users: Users, v: Users, id: string, h: string)
    requires Directory(users)
    requires GetAccount(users, id).Some?
    requires forall k :: k != AccountOf(id) && !k.ResetToken? ==> (k in v <==> k in users)
    requires forall k :: k in v && k != AccountOf(id) && !k.ResetToken? ==> v[k] == users[k]
    requires forall k :: k in v && k.ResetToken? ==> v[k].Text? && v[k].text != ""
    requires GetAccount(v, id) == Some(GetAccount(users, id).value.(passwordHash := h))
    ensures Directory(v)
  {
    forall x | GetAccount(v, x).Some?
      ensures GetText(v, EmailOf(GetAccount(v, x).value.email)) == Some(x)
      ensures GetText(v, UsernameOf(GetAccount(v, x).value.username)) == Some(x)
    {
      if x != id {
        assert GetAccount(v, x) == GetAccount(users, x);
      }
      assert GetText(v, EmailOf(GetAccount(users, x).value.email)) == GetText(users, EmailOf(GetAccount(users, x).value.email));
      assert GetText(v, UsernameOf(GetAccount(users, x).value.username)) == GetText(users, UsernameOf(GetAccount(users, x).value.username));
    }
    forall e | GetText(v, EmailOf(e)).Some?
      ensures GetAccount(v, GetText(v, EmailOf(e)).value).Some?
      ensures GetAccount(v, GetText(v, EmailOf(e)).value).value.email == e
    {
      assert GetText(v, EmailOf(e)) == GetText(users, EmailOf(e));
      var x := GetText(users, EmailOf(e)).value;
      if x != id {
        assert GetAccount(v, x) == GetAccount(users, x);
      }
    }
    forall n | GetText(v, UsernameOf(n)).Some?
      ensures GetAccount(v, GetText(v, UsernameOf(n)).value).Some?
      ensures GetAccount(v, GetText(v, UsernameOf(n)).value).value.username == n
    {
      assert GetText(v, UsernameOf(n)) == GetText(users, UsernameOf(n));
      var x := GetText(users, UsernameOf(n)).value;
      if x != id {
        assert GetAccount(v, x) == GetAccount(users, x);
      }
    }
  }

  lemma ChangePasswordKeepsDirectory(
    users: Users, userId: string, oldPassword: string, newPassword: string, hash: string -> string)
    requires Directory(users)
    ensures Directory(ChangePassword(users, userId, oldPassword, newPassword, hash).users)
  {
    var s := ChangePassword(users, userId, oldPassword, newPassword, hash);
    if s.reply.Ok? {
      RehashKeepsDirectory(users, s.users, userId, hash(newPassword));
    }
  }

  lemma ResetPasswordKeepsDirectory(users: Users, token: string, newPassword: Option<string>, hash: string -> string)
    requires Directory(users)
    ensures Directory(ResetPassword(users, token, newPassword, hash).users)
  {
    var s := ResetPassword(users, token, newPassword, hash);
    if s.reply.Ok? {
      var id := GetText(users, EmailOf(GetText(users, ResetToken(token)).value)).value;
      RehashKeepsDirectory(users, s.users, id, hash(newPassword.value));
    }
  }

  /** A store that agrees with a directory on every account and index entry is one too. */
  lemma SameEntriesKeepDirectory(users: Users, v: Users)
    requires Directory(users) && UsersWellTyped(v)
    requires forall k: UserKey :: k.AccountOf? || k.EmailOf? || k.UsernameOf? ==> (k in v <==> k in users)
    requires forall k :: k in v && (k.AccountOf? || k.EmailOf? || k.UsernameOf?) ==> v[k] == users[k]
    ensures Directory(v)
  {
    forall x | GetAccount(v, x).Some?
      ensures GetText(v, EmailOf(GetAccount(v, x).value.email)) == Some(x)
      ensures GetText(v, UsernameOf(GetAccount(v, x).value.username)) == Some(x)
    {
      assert GetAccount(v, x) == GetAccount(users, x);
      assert GetText(v, EmailOf(GetAccount(users, x).value.email)) == GetText(users, EmailOf(GetAccount(users, x).value.email));
      assert GetText(v, UsernameOf(GetAccount(users, x).value.username)) == GetText(users, UsernameOf(GetAccount(users, x).value.username));
    }
    forall e | GetText(v, EmailOf(e)).Some?
      ensures GetAccount(v, GetText(v, EmailOf(e)).value).Some?
      ensures GetAccount(v, GetText(v, EmailOf(e)).value).value.email == e
    {
      assert GetText(v, EmailOf(e)) == GetText(users, EmailOf(e));
      assert GetAccount(v, GetText(users, EmailOf(e)).value) == GetAccount(users, GetText(users, EmailOf(e)).value);
    }
    forall n | GetText(v, UsernameOf(n)).Some?
      ensures GetAccount(v, GetText(v, UsernameOf(n)).value).Some?
      ensures GetAccount(v, GetText(v, UsernameOf(n)).value).value.username == n
    {
      assert GetText(v, UsernameOf(n)) == GetText(users, UsernameOf(n));
      assert GetAccount(v, GetText(users, UsernameOf(n)).value) == GetAccount(users, GetText(users, UsernameOf(n)).value);
    }
  }

  /** Token handling touches no account and no index entry. */
  lemma TokensKeepDirectory(users: Users, token: string, email: string, resetToken: string)
    requires Directory(users)
    ensures Directory(VerifyEmail(users, token).users)
    ensures Directory(RequestPasswordReset(users, email, resetToken).users)
  {
    SameEntriesKeepDirectory(users, VerifyEmail(users, token).users);
    SameEntriesKeepDirectory(users, RequestPasswordReset(users, email, resetToken).users);
  }

  // ---------------------------------------------------------------------------
  // Scenarios

  /** A fresh registration cannot log in until its verification token is used;
      then it logs in as the registered user. */
  lemma RegisterVerifyLogin(
    users: Users, username: string, email: string, password: string,
    hash: string -> string, idBytes: seq<nat>, token: string, now: string)
    requires |idBytes| == IdLength
    requires Register(users, username, email, password, hash, idBytes, token, now).reply.Ok?
    ensures var s := Register(users, username, email, password, hash, idBytes, token, now);
      && Login(s.users, email, password, hash) == Err(403, "User not verified")
      && var v := VerifyEmail(s.users, token);
      && v.reply == Ok("Email verified successfully")
      && Login(v.users, email, password, hash) == Ok(s.reply.value)
  {
    var s := Register(users, username, email, password, hash, idBytes, token, now);
    var id := NanoId(idBytes);
    var v := VerifyEmail(s.users, token);
    assert GetText(v.users, EmailOf(email)) == Some(id);
    assert GetAccount(v.users, id) == GetAccount(s.users, id);
  }

  /** Tokens are single-use: a second verification with the same token throws,
      and a second reset with the same token is refused. */
  lemma TokensSingleUse(users: Users, token: string, newPassword: Option<string>, again: Option<string>, hash: string -> string)
    ensures var v := VerifyEmail(users, token);
      v.reply.Ok? ==> VerifyEmail(v.users, token).reply == Thrown("Invalid or expired verification token")
    ensures var r := ResetPassword(users, token, newPassword, hash);
      r.reply.Ok? ==> ResetPassword(r.users, token, again, hash).reply == Err(400, "Invalid or expired token")
  {
  }

  /** After a password change the account logs in with the new password
      exactly when it is verified, and an old password with a different hash
      is refused as an invalid login. */
  lemma ChangePasswordThenLogin(
    users: Users, userId: string, oldPassword: string, newPassword: string, hash: string -> string)
    requires Directory(users)
    requires ChangePassword(users, userId, oldPassword, newPassword, hash).reply.Ok?
    requires GetAccount(users, userId).value.email != ""
    ensures var s := ChangePassword(users, userId, oldPassword, newPassword, hash);
      var email := GetAccount(users, userId).value.email;
      && (Login(s.users, email, newPassword, hash).Ok? <==> GetText(users, VerifiedOf(userId)) == Some("true"))
      && (hash(oldPassword) != hash(newPassword) ==>
            Login(s.users, email, oldPassword, hash) == Err(401, "Invalid email or password"))
  {
  }

  /** After a reset the account logs in with the new password exactly when it
      is verified. */
  lemma ResetPasswordThenLogin(users: Users, token: string, newPassword: Option<string>, hash: string -> string)
    requires Directory(users)
    requires ResetPassword(users, token, newPassword, hash).reply.Ok?
    requires newPassword.Some? && newPassword.value != ""
    ensures var s := ResetPassword(users, token, newPassword, hash);
      var email := GetText(users, ResetToken(token)).value;
      var id := GetText(users, EmailOf(email)).value;
      Login(s.users, email, newPassword.value, hash).Ok? <==> GetText(users, VerifiedOf(id)) == Some("true")
  {
  }
}
