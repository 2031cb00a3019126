/**
  The account service: registration, login, profile reads and edits,
  password change and role change. The password hasher is a parameter.
 */
module Users {
  import opened Wrappers
  import opened Domain
  import opened Validation
  import opened Collation
  import Ordering

  /** What registration and login answer with; the issued token is left out. */
  datatype AuthResponse = AuthResponse(userId: int, username: string, email: string, role: string)

  datatype UserResponse = UserResponse(
    userId: int,
    username: string,
    email: string,
    phoneNumber: string,
    address: string,
    role: string,
    createdAt: Time,
    lastLogin: Option<Time>)

  /** The ids of the users the database's `=` matches to `email`: up to letter case and trailing spaces. */
  function UsersWithEmail(s: Store, email: string): set<int> {
    set u | u in s.users && SqlEquals(s.users[u].email, email)
  }

  /** Every user holds one of the two roles the service hands out. */
  predicate RolesKnown(s: Store) {
    forall u :: u in s.users ==> s.users[u].role == RoleUser || s.users[u].role == RoleAdmin
  }

  lemma SingletonHasOnlyMember(s: set<int>)
    requires |s| == 1
    ensures exists x :: s == {x}
  {
    Ordering.NonEmptyHasMember(s);
    var x :| x in s;
    assert |s - {x}| == 0;
    assert s == {x};
  }

  /** The one member of a one-element set. */
  function OnlyMember(s: set<int>): (x: int)
    requires |s| == 1
    ensures s == {x}
  {
    SingletonHasOnlyMember(s);
    var x :| x in s; x
  }

  /** Inserting a new user row under a fresh identity keeps the store's invariants. */
  lemma InsertUserKeepsInvariants(s: Store, row: User)
    requires Wf(s)
    ensures Wf(s.(users := s.users[s.nextUserId := row], nextUserId := s.nextUserId + 1))
    ensures Coherent(s) ==> Coherent(s.(users := s.users[s.nextUserId := row], nextUserId := s.nextUserId + 1))
  {
  }

  /** Rewriting an existing user row keeps the store's invariants. */
  lemma UpdateUserKeepsInvariants(s: Store, uid: int, row: User)
    requires uid in s.users
    ensures Wf(s) ==> Wf(s.(users := s.users[uid := row]))
    ensures Coherent(s) ==> Coherent(s.(users := s.users[uid := row]))
  {
  }

  /**
    `Register`: refuses an email the database matches to a user's; otherwise
    stores one new user with the hashed password and role "User". Null
    fields reach the hasher or the NOT NULL columns and fail there.
   */
  function Register(s: Store, req: RegisterRequest, crypto: Crypto, now: Time): (r: Result<(Store, AuthResponse), Error>)
    requires Wf(s)
    ensures req.email.Some? && UsersWithEmail(s, req.email.value) != {} ==> r == Err(EmailTaken)
    ensures !(req.email.Some? && UsersWithEmail(s, req.email.value) != {}) && req.password.None? ==> r == Err(NullArgument)
    ensures req.password.Some? && (req.username.None? || req.email.None? || req.phoneNumber.None? || req.address.None?) ==> r.Err?
    ensures r.Ok? <==>
      && req.username.Some? && req.email.Some? && req.password.Some? && req.phoneNumber.Some? && req.address.Some?
      && UsersWithEmail(s, req.email.value) == {}
    ensures r.Ok? ==>
      var row := User(req.username.value, crypto.hash(req.password.value), req.email.value, req.phoneNumber.value, req.address.value, RoleUser, now, None);
      && Added(s.users, r.value.0.users, s.nextUserId, row)
      && r.value.0 == s.(users := r.value.0.users, nextUserId := s.nextUserId + 1)
      && r.value.1 == AuthResponse(s.nextUserId, row.username, row.email, RoleUser)
    ensures r.Ok? ==> Wf(r.value.0) && (Coherent(s) ==> Coherent(r.value.0)) && (RolesKnown(s) ==> RolesKnown(r.value.0))
  {
    if req.email.Some? && UsersWithEmail(s, req.email.value) != {} then Err(EmailTaken)
    else if req.password.None? then Err(NullArgument)
    else if req.username.None? || req.email.None? || req.phoneNumber.None? || req.address.None? then Err(WriteRejected)
    else
      var id := s.nextUserId;
      var row := User(req.username.value, crypto.hash(req.password.value), req.email.value, req.phoneNumber.value, req.address.value, RoleUser, now, None);
      InsertUserKeepsInvariants(s, row);
      Ok((s.(users := s.users[id := row], nextUserId := id + 1), AuthResponse(id, row.username, row.email, RoleUser)))
  }

  /**
    `Login`: the single user whose email the database matches to the given
    one, if the password verifies against its hash; that user's last-login time is then set. An unknown
    email and a wrong password give the same error; more than one user with
    the email makes the single-row lookup throw.
   */
  function Login(s: Store, req: LoginRequest, crypto: Crypto, now: Time): (r: Result<(Store, AuthResponse), Error>)
    ensures req.email.None? || UsersWithEmail(s, req.email.value) == {} ==> r == Err(InvalidCredentials)
    ensures req.email.Some? && |UsersWithEmail(s, req.email.value)| > 1 ==> r == Err(AmbiguousEmail)
    ensures req.email.Some? && |UsersWithEmail(s, req.email.value)| == 1 ==>
      var u := OnlyMember(UsersWithEmail(s, req.email.value));
      && (req.password.None? ==> r == Err(NullArgument))
      && (req.password.Some? ==> (r.Ok? <==> crypto.verify(req.password.value, s.users[u].passwordHash)))
      && (r.Err? && req.password.Some? ==> r.error == InvalidCredentials)
    ensures r.Ok? ==>
      && req.email.Some? && |UsersWithEmail(s, req.email.value)| == 1
      && var u := OnlyMember(UsersWithEmail(s, req.email.value));
      && r.value.0 == s.(users := s.users[u := s.users[u].(lastLogin := Some(now))])
      && r.value.1 == AuthResponse(u, s.users[u].username, s.users[u].email, s.users[u].role)
    ensures r.Ok? && Wf(s) ==> Wf(r.value.0) && (Coherent(s) ==> Coherent(r.value.0))
  {
    if req.email.None? then Err(InvalidCredentials)
    else
      var found := UsersWithEmail(s, req.email.value);
      if found == {} then Err(InvalidCredentials)
      else if |found| > 1 then Err(AmbiguousEmail)
      else
        var u := OnlyMember(found);
        var user := s.users[u];
        if req.password.None? then Err(NullArgument)
        else if !crypto.verify(req.password.value, user.passwordHash) then Err(InvalidCredentials)
        else
          var s' := s.(users := s.users[u := user.(lastLogin := Some(now))]);
          UpdateUserKeepsInvariants(s, u, user.(lastLogin := Some(now)));
          Ok((s', AuthResponse(u, user.username, user.email, user.role)))
  }

  /**
    With a hasher that verifies its own hashes, a fresh registration can log
    in at once with the same email and password, as the new user.
   */
  lemma {:induction false} RegisterThenLogin(s: Store, req: RegisterRequest, crypto: Crypto, t1: Time, t2: Time)
    requires Wf(s) && Sound(crypto)
    requires Register(s, req, crypto, t1).Ok?
    ensures var (s', a) := Register(s, req, crypto, t1).value;
      var l := Login(s', LoginRequest(req.email, req.password), crypto, t2);
      l.Ok? && l.value.1 == a
  {
    var (s', a) := Register(s, req, crypto, t1).value;
    var e := req.email.value;
    var id := s.nextUserId;
    assert id in UsersWithEmail(s', e);
    assert UsersWithEmail(s', e) == {id};
    assert crypto.verify(req.password.value, crypto.hash(req.password.value));
  }

  /**
    An email that differs from a user's only in the case of its letters is
    taken: registration refuses it, and login looks up that user.
   */
  lemma CaseVariantEmailTaken(s: Store, u: int, req: RegisterRequest, crypto: Crypto, now: Time)
    requires Wf(s) && u in s.users && req.email.Some?
    requires |req.email.value| == |s.users[u].email|
    requires forall i :: 0 <= i < |req.email.value| ==> FoldCase(req.email.value[i]) == FoldCase(s.users[u].email[i])
    ensures u in UsersWithEmail(s, req.email.value)
    ensures Register(s, req, crypto, now) == Err(EmailTaken)
  {
    CaseIgnored(s.users[u].email, req.email.value);
  }

  /** A user's email followed by spaces is taken too. */
  lemma PaddedEmailTaken(s: Store, u: int, pad: string, req: RegisterRequest, crypto: Crypto, now: Time)
    requires Wf(s) && u in s.users
    requires forall i :: 0 <= i < |pad| ==> pad[i] == ' '
    requires req.email == Some(s.users[u].email + pad)
    ensures u in UsersWithEmail(s, req.email.value)
    ensures Register(s, req, crypto, now) == Err(EmailTaken)
  {
    TrailingSpacesIgnored(s.users[u].email, pad);
  }

  function Response(uid: int, u: User): UserResponse {
    UserResponse(uid, u.username, u.email, u.phoneNumber, u.address, u.role, u.createdAt, u.lastLogin)
  }

  /** `GetUserById`: the user's public fields, or an error for an unknown id. */
  function GetUserById(s: Store, uid: int): (r: Result<UserResponse, Error>)
    ensures r.Err? <==> uid !in s.users
    ensures r.Err? ==> r.error == UserNotFound
    ensures r.Ok? ==> r.value.userId == uid && r.value == Response(uid, s.users[uid])
  {
    if uid !in s.users then Err(UserNotFound) else Ok(Response(uid, s.users[uid]))
  }

  /** `GetAllUsers`: every user's public fields, keyed by id, each as the single-user read gives it. */
  function GetAllUsers(s: Store): (r: map<int, UserResponse>)
    ensures r.Keys == s.users.Keys
    ensures forall u :: u in r ==> GetUserById(s, u) == Ok(r[u])
  {
    map u | u in s.users :: Response(u, s.users[u])
  }

  /** A registered user reads back with the registered fields and role "User". */
  lemma RegisterThenGetUser(s: Store, req: RegisterRequest, crypto: Crypto, now: Time)
    requires Wf(s)
    requires Register(s, req, crypto, now).Ok?
    ensures var (s', a) := Register(s, req, crypto, now).value;
      var g := GetUserById(s', a.userId);
      && g.Ok?
      && g.value == UserResponse(a.userId, req.username.value, req.email.value, req.phoneNumber.value, req.address.value, RoleUser, now, None)
  {
  }

  /** The value a profile field ends up with: the new one when it is non-empty, the old one otherwise. */
  function Patched(current: string, given: Option<string>): (v: string)
    ensures given.Some? && given.value != "" ==> v == given.value
    ensures given.None? || given.value == "" ==> v == current
  {
    if given.Some? && given.value != "" then given.value else current
  }

  /**
    `UpdateProfile`: overwrites the username, phone number and address with
    whichever of them the request gives non-empty; nothing else changes.
   */
  function UpdateProfile(s: Store, uid: int, req: UpdateProfileRequest): (r: Result<(Store, UserResponse), Error>)
    requires Wf(s)
    ensures r.Err? <==> uid !in s.users
    ensures r.Err? ==> r.error == UserNotFound
    ensures r.Ok? ==> ChangedAt(s.users, r.value.0.users, uid) && r.value.0 == s.(users := r.value.0.users)
    ensures r.Ok? ==>
      var (before, after) := (s.users[uid], r.value.0.users[uid]);
      && after.username == (if req.username.Some? && req.username.value != "" then req.username.value else before.username)
      && after.phoneNumber == (if req.phoneNumber.Some? && req.phoneNumber.value != "" then req.phoneNumber.value else before.phoneNumber)
      && after.address == (if req.address.Some? && req.address.value != "" then req.address.value else before.address)
      && after.email == before.email && after.role == before.role && after.passwordHash == before.passwordHash
      && after.createdAt == before.createdAt && after.lastLogin == before.lastLogin
      && r.value.1 == Response(uid, after)
    ensures r.Ok? ==> Wf(r.value.0) && (Coherent(s) ==> Coherent(r.value.0)) && (RolesKnown(s) ==> RolesKnown(r.value.0))
  {
    if uid !in s.users then Err(UserNotFound)
    else
      var before := s.users[uid];
      var after := before.(
        username := Patched(before.username, req.username),
        phoneNumber := Patched(before.phoneNumber, req.phoneNumber),
        address := Patched(before.address, req.address));
      UpdateUserKeepsInvariants(s, uid, after);
      Ok((s.(users := s.users[uid := after]), Response(uid, after)))
  }

  /** Applying the same profile update twice is the same as applying it once. */
  lemma UpdateProfileIdempotent(s: Store, uid: int, req: UpdateProfileRequest)
    requires Wf(s)
    requires UpdateProfile(s, uid, req).Ok?
    ensures var s1 := UpdateProfile(s, uid, req).value.0;
      UpdateProfile(s1, uid, req).Ok? && UpdateProfile(s1, uid, req).value.0 == s1
  {
  }

  /**
    A profile body that passes its checks has all three fields present and
    non-blank, so the update overwrites each of them: the service's
    keep-the-old-value branches only serve callers that skip the checks.
   */
  lemma ValidatedProfileUpdateOverwritesAll(s: Store, uid: int, req: UpdateProfileRequest)
    requires Wf(s) && uid in s.users && ValidUpdateProfile(req)
    ensures var after := UpdateProfile(s, uid, req).value.0.users[uid];
      && after.username == req.username.value
      && after.phoneNumber == req.phoneNumber.value
      && after.address == req.address.value
  {
  }

  /**
    `ChangePassword`: when the current password verifies, the stored hash
    becomes the hash of the new password; nothing else changes.
   */
  function ChangePassword(s: Store, uid: int, req: ChangePasswordRequest, crypto: Crypto): (r: Result<Store, Error>)
    requires Wf(s)
    ensures uid !in s.users ==> r == Err(UserNotFound)
    ensures uid in s.users && req.currentPassword.None? ==> r == Err(NullArgument)
    ensures uid in s.users && req.currentPassword.Some? && !crypto.verify(req.currentPassword.value, s.users[uid].passwordHash) ==>
      r == Err(IncorrectCurrentPassword)
    ensures uid in s.users && req.currentPassword.Some? && crypto.verify(req.currentPassword.value, s.users[uid].passwordHash) ==>
      (r.Ok? <==> req.newPassword.Some?) && (req.newPassword.None? ==> r == Err(NullArgument))
    ensures r.Ok? ==>
      && uid in s.users && req.currentPassword.Some? && req.newPassword.Some?
      && crypto.verify(req.currentPassword.value, s.users[uid].passwordHash)
      && r.value == s.(users := s.users[uid := s.users[uid].(passwordHash := crypto.hash(req.newPassword.value))])
    ensures r.Ok? ==> Wf(r.value) && (Coherent(s) ==> Coherent(r.value)) && (RolesKnown(s) ==> RolesKnown(r.value))
  {
    if uid !in s.users then Err(UserNotFound)
    else
      var user := s.users[uid];
      if req.currentPassword.None? then Err(NullArgument)
      else if !crypto.verify(req.currentPassword.value, user.passwordHash) then Err(IncorrectCurrentPassword)
      else if req.newPassword.None? then Err(NullArgument)
      else
        var row := user.(passwordHash := crypto.hash(req.newPassword.value));
        UpdateUserKeepsInvariants(s, uid, row);
        Ok(s.(users := s.users[uid := row]))
  }

  /** After a password change the new password verifies against the stored hash. */
  lemma ChangedPasswordVerifies(s: Store, uid: int, req: ChangePasswordRequest, crypto: Crypto)
    requires Wf(s) && Sound(crypto)
    requires ChangePassword(s, uid, req, crypto).Ok?
    ensures crypto.verify(req.newPassword.value, ChangePassword(s, uid, req, crypto).value.users[uid].passwordHash)
  {
  }

  /**
    `ChangeUserRole`: an unknown user is reported first; any role other than
    "Admin" or "User" is refused; otherwise only the role changes.
   */
  function ChangeUserRole(s: Store, uid: int, newRole: string): (r: Result<Store, Error>)
    requires Wf(s)
    ensures uid !in s.users ==> r == Err(UserNotFound)
    ensures uid in s.users && newRole != RoleAdmin && newRole != RoleUser ==> r == Err(InvalidRole)
    ensures r.Ok? <==> uid in s.users && (newRole == RoleAdmin || newRole == RoleUser)
    ensures r.Ok? ==> r.value == s.(users := s.users[uid := s.users[uid].(role := newRole)])
    ensures r.Ok? ==> Wf(r.value) && (Coherent(s) ==> Coherent(r.value)) && (RolesKnown(s) ==> RolesKnown(r.value))
  {
    if uid !in s.users then Err(UserNotFound)
    else if newRole != RoleAdmin && newRole != RoleUser then Err(InvalidRole)
    else
      var row := s.users[uid].(role := newRole);
      UpdateUserKeepsInvariants(s, uid, row);
      Ok(s.(users := s.users[uid := row]))
  }
}
