/**
 * The account handlers of backend/controllers/authController.js: registration,
 * login and account deletion over the User collection, with deletion
 * cascading into the VaultSecret collection. The User model's password hook
 * (bcrypt) and `generateToken` (a JWT signed with `JWT_SECRET`) are
 * parameters: a hasher that recognises its own hashes, and a signing function.
 */
module AuthController {
  import opened Wrappers
  import opened Hex
  import opened VaultSecretModel
  import opened Replies

  const ALL_FIELDS_REQUIRED: string := "Please provide all fields"
  const USER_EXISTS: string := "User already exists"
  const REGISTERED: string := "Registration successful! Please login with your credentials."
  const MISSING_CREDENTIALS_MESSAGE: string := "Please provide email and password"
  const INVALID_LOGIN: string := "Invalid email or password"
  const ACCOUNT_DELETED: string := "Account and all data deleted successfully"

  const MISSING_CREDENTIALS: string := "MISSING_CREDENTIALS"
  const USER_NOT_FOUND: string := "USER_NOT_FOUND"
  const INVALID_PASSWORD: string := "INVALID_PASSWORD"

  const BAD_REQUEST: nat := 400
  const CREATED: nat := 201
  const UNAUTHORIZED: nat := 401

  /** A stored user; `passwordHash` is what the save hook put in `password`. */
  datatype User = User(id: UserId, username: string, email: string, passwordHash: string, role: string)

  /** The save hook's `hash(password, salt)` and `matchPassword`'s comparison. */
  datatype Hasher = Hasher(hash: (string, seq<byte>) -> string, matches: (string, string) -> bool)

  /** A password always matches a hash made from it, whatever the salt. */
  ghost predicate RecognisesOwnHashes(h: Hasher) {
    forall p: string, salt: seq<byte> :: h.matches(p, h.hash(p, salt))
  }

  type PasswordHasher = h: Hasher | RecognisesOwnHashes(h)
    witness Hasher((p: string, salt: seq<byte>) => p, (p: string, q: string) => p == q)

  /** The 201 body of a registration: the new account, and no token. */
  datatype Registered = Registered(id: UserId, username: string, email: string, role: string, message: string)

  /** What a login answers: the session (sent with status 200), or a refusal with its code. */
  datatype LoginReply =
    | LoggedIn(id: UserId, username: string, email: string, role: string, token: string)
    | Refused(status: nat, message: string, code: string)

  /** The body `deleteAccount` sends. */
  datatype AccountDeleted = AccountDeleted(message: string, deletedSecrets: nat)

  /** The users collection invariant: ids issued and distinct, emails and usernames distinct. */
  ghost predicate UsersValid(us: seq<User>, nextId: UserId) {
    && (forall u :: u in us ==> u.id < nextId)
    && (forall i, j :: 0 <= i < j < |us| ==>
          us[i].id != us[j].id && us[i].email != us[j].email && us[i].username != us[j].username)
  }

  /**
   * The User collection. `defaultRole` is the role the User model gives a new
   * account; `nextId` stands for the ObjectId generator.
   */
  class UserCollection {
    var users: seq<User>
    var nextId: UserId
    const defaultRole: string

    ghost predicate Valid()
      reads this
    {
      UsersValid(users, nextId)
    }

    constructor (defaultRole: string)
      ensures Valid() && users == [] && this.defaultRole == defaultRole
    {
      users := [];
      nextId := 0;
      this.defaultRole := defaultRole;
    }
  }

  /** `findOne({ email })`: the first user with this email. */
  function FindByEmail(us: seq<User>, email: string): (r: Option<nat>)
    ensures r.Some? ==> r.value < |us| && us[r.value].email == email
    ensures r.Some? ==> forall j :: 0 <= j < r.value ==> us[j].email != email
    ensures r.None? <==> forall i :: 0 <= i < |us| ==> us[i].email != email
  {
    if us == [] then None
    else if us[0].email == email then Some(0)
    else
      match FindByEmail(us[1..], email)
      case None => None
      case Some(i) => Some(i + 1)
  }

  /** `findOne({ $or: [{ email }, { username }] })`: the first user with either. */
  function FindByEmailOrUsername(us: seq<User>, email: string, username: string): (r: Option<nat>)
    ensures r.Some? ==> r.value < |us| && (us[r.value].email == email || us[r.value].username == username)
    ensures r.None? <==> forall i :: 0 <= i < |us| ==> us[i].email != email && us[i].username != username
  {
    if us == [] then None
    else if us[0].email == email || us[0].username == username then Some(0)
    else
      match FindByEmailOrUsername(us[1..], email, username)
      case None => None
      case Some(i) => Some(i + 1)
  }

  /** `findByIdAndDelete` locates the user by id. */
  function FindById(us: seq<User>, id: UserId): (r: Option<nat>)
    ensures r.Some? ==> r.value < |us| && us[r.value].id == id
    ensures r.None? <==> forall i :: 0 <= i < |us| ==> us[i].id != id
  {
    if us == [] then None
    else if us[0].id == id then Some(0)
    else
      match FindById(us[1..], id)
      case None => None
      case Some(i) => Some(i + 1)
  }

  /** Appending a user under a fresh id, with an email and a username nobody has, keeps the invariant. */
  lemma AppendUserKeepsValid(us: seq<User>, nextId: UserId, u: User)
    requires UsersValid(us, nextId) && u.id == nextId
    requires FindByEmailOrUsername(us, u.email, u.username).None?
    ensures UsersValid(us + [u], nextId + 1)
  {
    var us' := us + [u];
    forall i, j | 0 <= i < j < |us'|
      ensures us'[i].id != us'[j].id && us'[i].email != us'[j].email && us'[i].username != us'[j].username
    {
      assert us'[i] == us[i] && us[i] in us;
      if j < |us| {
        assert us'[j] == us[j];
      }
    }
  }

  /**
   * Removing the user at position `i` keeps the invariant, and since ids are
   * distinct it removes exactly the users with that id.
   */
  lemma RemoveUserKeepsValid(us: seq<User>, nextId: UserId, i: nat)
    requires UsersValid(us, nextId) && i < |us|
    ensures UsersValid(us[..i] + us[i + 1..], nextId)
    ensures forall u :: u in us[..i] + us[i + 1..] <==> u in us && u.id != us[i].id
  {
    var us' := us[..i] + us[i + 1..];
    forall k | 0 <= k < |us'| ensures us'[k] == us[if k < i then k else k + 1] && us'[k].id != us[i].id {
    }
    forall u | u in us && u.id != us[i].id ensures u in us' {
      var k :| 0 <= k < |us| && us[k] == u;
      assert us'[if k < i then k else k - 1] == u;
    }
    forall j, k | 0 <= j < k < |us'|
      ensures us'[j].id != us'[k].id && us'[j].email != us'[k].email && us'[j].username != us'[k].username
    {
      var j' := if j < i then j else j + 1;
      var k' := if k < i then k else k + 1;
      assert us'[j] == us[j'] && us'[k] == us[k'];
    }
  }

  /**
   * `registerUser`: all three fields must be truthy; an existing user with
   * the same email or the same username is refused; otherwise the user is
   * created with the hashed password and the default role. Both refusals set
   * 400 before throwing, so the catch block answers 400.
   */
  method RegisterUser(db: UserCollection, hasher: PasswordHasher, username: Option<string>,
                      email: Option<string>, password: Option<string>, salt: seq<byte>)
    returns (reply: Reply<Registered>)
    requires db.Valid()
    modifies db
    ensures db.Valid()
    ensures !(Truthy(username) && Truthy(email) && Truthy(password)) <==>
              reply == ErrorReply(BAD_REQUEST, ALL_FIELDS_REQUIRED)
    ensures Truthy(username) && Truthy(email) && Truthy(password) ==>
              (reply == ErrorReply(BAD_REQUEST, USER_EXISTS) <==>
                 FindByEmailOrUsername(old(db.users), email.value, username.value).Some?)
    ensures Truthy(username) && Truthy(email) && Truthy(password)
            && FindByEmailOrUsername(old(db.users), email.value, username.value).None? ==>
              reply.Reply?
    ensures reply.ErrorReply? ==> db.users == old(db.users) && db.nextId == old(db.nextId)
    ensures reply.Reply? ==>
      && Truthy(username) && Truthy(email) && Truthy(password)
      && var u := User(old(db.nextId), username.value, email.value, hasher.hash(password.value, salt), db.defaultRole);
      && db.users == old(db.users) + [u] && db.nextId == old(db.nextId) + 1
      && reply == Reply(CREATED, Registered(u.id, u.username, u.email, u.role, REGISTERED))
      && hasher.matches(password.value, u.passwordHash)
  {
    if !Truthy(username) || !Truthy(email) || !Truthy(password) {
      return ErrorReply(CatchStatusAsWritten(BAD_REQUEST), ALL_FIELDS_REQUIRED);
    }
    var existing := FindByEmailOrUsername(db.users, email.value, username.value);
    if existing.Some? {
      return ErrorReply(CatchStatusAsWritten(BAD_REQUEST), USER_EXISTS);
    }
    var u := User(db.nextId, username.value, email.value, hasher.hash(password.value, salt), db.defaultRole);
    AppendUserKeepsValid(db.users, db.nextId, u);
    db.users := db.users + [u];
    db.nextId := db.nextId + 1;
    reply := Reply(CREATED, Registered(u.id, u.username, u.email, u.role, REGISTERED));
  }

  /**
   * `loginUser`: both fields must be truthy; an unknown email and a wrong
   * password are told apart only by their code, never by status or message;
   * a token is issued only for a password that matches the stored hash.
   */
  function Login(us: seq<User>, hasher: PasswordHasher, sign: UserId -> string,
                 email: Option<string>, password: Option<string>): (r: LoginReply)
    ensures !(Truthy(email) && Truthy(password)) <==>
              r == Refused(BAD_REQUEST, MISSING_CREDENTIALS_MESSAGE, MISSING_CREDENTIALS)
    ensures Truthy(email) && Truthy(password) && FindByEmail(us, email.value).None? ==>
              r == Refused(UNAUTHORIZED, INVALID_LOGIN, USER_NOT_FOUND)
    ensures Truthy(email) && Truthy(password) && FindByEmail(us, email.value).Some?
            && !hasher.matches(password.value, us[FindByEmail(us, email.value).value].passwordHash) ==>
              r == Refused(UNAUTHORIZED, INVALID_LOGIN, INVALID_PASSWORD)
    ensures r.Refused? && r.status == UNAUTHORIZED ==> r.message == INVALID_LOGIN
    ensures r.LoggedIn? <==>
              && Truthy(email) && Truthy(password)
              && FindByEmail(us, email.value).Some?
              && hasher.matches(password.value, us[FindByEmail(us, email.value).value].passwordHash)
    ensures r.LoggedIn? ==>
              var u := us[FindByEmail(us, email.value).value];
              r == LoggedIn(u.id, u.username, u.email, u.role, sign(u.id))
  {
    if !Truthy(email) || !Truthy(password) then
      Refused(BAD_REQUEST, MISSING_CREDENTIALS_MESSAGE, MISSING_CREDENTIALS)
    else
      match FindByEmail(us, email.value)
      case None => Refused(UNAUTHORIZED, INVALID_LOGIN, USER_NOT_FOUND)
      case Some(i) =>
        if hasher.matches(password.value, us[i].passwordHash) then
          LoggedIn(us[i].id, us[i].username, us[i].email, us[i].role, sign(us[i].id))
        else
          Refused(UNAUTHORIZED, INVALID_LOGIN, INVALID_PASSWORD)
  }

  /** A user who has just registered can log in with the same email and password. */
  lemma RegisteredUserCanLogIn(us: seq<User>, hasher: PasswordHasher, sign: UserId -> string, id: UserId,
                               username: string, email: string, password: string, salt: seq<byte>, role: string)
    requires FindByEmailOrUsername(us, email, username).None?
    requires email != "" && password != ""
    ensures Login(us + [User(id, username, email, hasher.hash(password, salt), role)], hasher, sign,
                  Some(email), Some(password))
            == LoggedIn(id, username, email, role, sign(id))
  {
    var us' := us + [User(id, username, email, hasher.hash(password, salt), role)];
    assert us'[|us|].email == email;
    assert forall k :: 0 <= k < |us| ==> us'[k] == us[k];
  }

  /** Once the user with a given email is removed, that email no longer logs in. */
  lemma RemovedUserCannotLogIn(us: seq<User>, nextId: UserId, i: nat, hasher: PasswordHasher,
                               sign: UserId -> string, password: string)
    requires UsersValid(us, nextId) && i < |us| && us[i].email != "" && password != ""
    ensures Login(us[..i] + us[i + 1..], hasher, sign, Some(us[i].email), Some(password))
            == Refused(UNAUTHORIZED, INVALID_LOGIN, USER_NOT_FOUND)
  {
    var us' := us[..i] + us[i + 1..];
    forall k | 0 <= k < |us'| ensures us'[k].email != us[i].email {
      assert us'[k] == us[if k < i then k else k + 1];
    }
  }

  /**
   * `deleteAccount`: `deleteMany({ user })` removes every secret the user
   * owns and reports how many went; `findByIdAndDelete` then removes the
   * user. Other users' secrets and accounts stay.
   */
  method DeleteAccount(db: UserCollection, vault: SecretCollection, userId: UserId)
    returns (reply: Reply<AccountDeleted>)
    requires db.Valid() && vault.Valid()
    modifies db, vault
    ensures db.Valid() && vault.Valid()
    ensures vault.records == NotOwnedBy(old(vault.records), userId) && vault.nextId == old(vault.nextId)
    ensures forall u :: u in db.users <==> u in old(db.users) && u.id != userId
    ensures db.nextId == old(db.nextId)
    ensures reply == Reply(EXPRESS_DEFAULT_STATUS, AccountDeleted(ACCOUNT_DELETED, |OwnedBy(old(vault.records), userId)|))
    ensures reply.body.deletedSecrets == |old(vault.records)| - |vault.records|
  {
    var before := |vault.records|;
    NotOwnedByKeepsValid(vault.records, userId, vault.nextId);
    PartitionCount(vault.records, userId);
    vault.records := NotOwnedBy(vault.records, userId);
    var deletedCount := before - |vault.records|;
    var found := FindById(db.users, userId);
    if found.Some? {
      RemoveUserKeepsValid(db.users, db.nextId, found.value);
      db.users := db.users[..found.value] + db.users[found.value + 1..];
    }
    reply := Reply(EXPRESS_DEFAULT_STATUS, AccountDeleted(ACCOUNT_DELETED, deletedCount));
  }

  /** After the cascade, the deleted user owns no secret. */
  lemma {:induction false} NothingLeftOwned(rs: seq<VaultSecret>, owner: UserId)
    ensures OwnedBy(NotOwnedBy(rs, owner), owner) == []
  {
    if rs != [] {
      NothingLeftOwned(rs[1..], owner);
    }
  }
}
