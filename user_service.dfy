/**
 * `UserService`: registration, login, profile reads and edits, and soft
 * deletion of accounts, over the `Users` table.
 *
 * Password hashing, password verification and token issuing are injected
 * services whose workings are not modelled: they are the function-valued
 * fields `hashPassword`, `verifyPassword` and `generateToken`. The clock
 * reading `DateTime.UtcNow` is the parameter `now`.
 */
module Accounts {
  import opened Wrappers
  import opened Entities
  import opened UserRepository

  /** `RegisterUserRequest`. */
  datatype RegisterRequest = RegisterRequest(
    email: string,
    password: string,
    level: int,
    nativeLanguage: string,
    targetLanguage: string,
    learningGoals: Option<string>,
    allowLearningDataSharing: bool)

  /** `LoginRequest`. */
  datatype LoginRequest = LoginRequest(email: string, password: string)

  /** `EditUserRequest`: every field may be null. */
  datatype EditRequest = EditRequest(
    nativeLanguage: Option<string>,
    targetLanguage: Option<string>,
    learningGoals: Option<string>,
    allowLearningDataSharing: Option<bool>)

  /** `UserResponse`: what callers see of an account. It has no password hash. */
  datatype UserView = UserView(
    id: Guid,
    email: string,
    createdAt: Instant,
    nativeLanguage: string,
    targetLanguage: string,
    allowLearningDataSharing: bool)

  /** `LoginResponse`: the access token and when it expires. */
  datatype LoginResponse = LoginResponse(accessToken: string, expiresAt: Instant)

  const EmailInUse: string := "Email is already in use."

  const InvalidCredentials: string := "Invalid email or password."

  const UserNotFound: string := "User not found."

  /** `DeleteUserAsync` throws its not-found message without the full stop. */
  const UserNotFoundOnDelete: string := "User not found"

  /** The `User` to `UserResponse` mapping. */
  function ViewOf(u: User): UserView {
    UserView(u.id, u.email, u.createdAt, u.nativeLanguage, u.targetLanguage, u.allowLearningDataSharing)
  }

  /** What callers see of an account does not depend on its hash, its last login or its deletion flag. */
  lemma ViewHidesCredentials(u: User, hash: string, lastLogin: Option<Instant>, deleted: bool)
    ensures ViewOf(u.(passwordHash := hash, lastLogin := lastLogin, isDeleted := deleted)) == ViewOf(u)
  {
  }

  /**
   * The `RegisterUserRequest` to `User` mapping: the profile fields copied,
   * the key, the hash and the creation time ignored (left at their defaults).
   */
  function MappedUser(request: RegisterRequest): User {
    User(0, request.email, [], DefaultInstant, false, None, request.level, request.nativeLanguage,
         request.targetLanguage, request.learningGoals, request.allowLearningDataSharing)
  }

  /**
   * The profile update of `EditUserAsync`: a non-empty language or goals
   * value, or a given sharing flag, replaces the stored one; nothing else changes.
   */
  function ApplyEdit(u: User, request: EditRequest): (r: User)
    ensures r == u.(nativeLanguage := r.nativeLanguage, targetLanguage := r.targetLanguage,
                    learningGoals := r.learningGoals, allowLearningDataSharing := r.allowLearningDataSharing)
    ensures NonEmpty(request.nativeLanguage) ==> r.nativeLanguage == request.nativeLanguage.value
    ensures !NonEmpty(request.nativeLanguage) ==> r.nativeLanguage == u.nativeLanguage
    ensures NonEmpty(request.targetLanguage) ==> r.targetLanguage == request.targetLanguage.value
    ensures !NonEmpty(request.targetLanguage) ==> r.targetLanguage == u.targetLanguage
    ensures NonEmpty(request.learningGoals) ==> r.learningGoals == request.learningGoals
    ensures !NonEmpty(request.learningGoals) ==> r.learningGoals == u.learningGoals
    ensures request.allowLearningDataSharing.Some? ==> r.allowLearningDataSharing == request.allowLearningDataSharing.value
    ensures request.allowLearningDataSharing.None? ==> r.allowLearningDataSharing == u.allowLearningDataSharing
  {
    u.(nativeLanguage := if NonEmpty(request.nativeLanguage) then request.nativeLanguage.value else u.nativeLanguage,
       targetLanguage := if NonEmpty(request.targetLanguage) then request.targetLanguage.value else u.targetLanguage,
       learningGoals := if NonEmpty(request.learningGoals) then request.learningGoals else u.learningGoals,
       allowLearningDataSharing :=
         if request.allowLearningDataSharing.Some? then request.allowLearningDataSharing.value
         else u.allowLearningDataSharing)
  }

  /** An edit of null and empty values changes nothing, and repeating an edit changes nothing more. */
  lemma ApplyEditIdempotent(u: User, request: EditRequest)
    ensures ApplyEdit(ApplyEdit(u, request), request) == ApplyEdit(u, request)
    ensures (&& !NonEmpty(request.nativeLanguage) && !NonEmpty(request.targetLanguage)
             && !NonEmpty(request.learningGoals) && request.allowLearningDataSharing.None?)
            ==> ApplyEdit(u, request) == u
  {
  }

  /** Keys are unique, as the primary key of `Users` demands. */
  ghost predicate KeysUnique(users: seq<User>) {
    forall j, k :: 0 <= j < k < |users| ==> users[j].id != users[k].id
  }

  /** No two accounts that are not soft-deleted share an email. */
  ghost predicate ActiveEmailsUnique(users: seq<User>) {
    forall j, k :: 0 <= j < k < |users| && !users[j].isDeleted && !users[k].isDeleted ==> users[j].email != users[k].email
  }

  /**
   * How the table may change: rows are only added at the end, keep their
   * key, and a soft-deleted row never changes again.
   */
  ghost predicate UserHistory(before: seq<User>, after: seq<User>) {
    && |before| <= |after|
    && forall k :: 0 <= k < |before| ==> after[k].id == before[k].id && (before[k].isDeleted ==> after[k] == before[k])
  }

  /**
   * Rewriting a row that is not deleted, keeping its key and its email and
   * at most setting its deletion flag, keeps the table's invariants.
   */
  lemma RewriteActive(users: seq<User>, i: nat, u: User)
    requires i < |users| && !users[i].isDeleted
    requires u.id == users[i].id && u.email == users[i].email
    ensures KeysUnique(users) ==> KeysUnique(users[i := u])
    ensures ActiveEmailsUnique(users) ==> ActiveEmailsUnique(users[i := u])
    ensures UserHistory(users, users[i := u])
  {
  }

  /** Appending an account under an unused key, with an email no account that is not deleted has, keeps the invariants. */
  lemma AppendFresh(users: seq<User>, u: User)
    requires forall k :: 0 <= k < |users| ==> users[k].id != u.id
    requires forall k :: 0 <= k < |users| ==> !ActiveWithEmail(users[k], u.email)
    ensures KeysUnique(users) ==> KeysUnique(users + [u])
    ensures ActiveEmailsUnique(users) ==> ActiveEmailsUnique(users + [u])
    ensures UserHistory(users, users + [u])
  {
  }

  /** The account `GetByIdAsync` finds under that key, unless it is missing or soft-deleted. */
  function ActiveUser(users: seq<User>, id: Guid): (r: Option<nat>)
    ensures r.Some? ==> r.value < |users| && users[r.value].id == id && !users[r.value].isDeleted
    ensures KeysUnique(users) ==>
              (r.None? <==> forall k :: 0 <= k < |users| && users[k].id == id ==> users[k].isDeleted)
  {
    match FindUser(users, id)
    case None => None
    case Some(i) => if users[i].isDeleted then None else Some(i)
  }

  class UserService {
    var users: seq<User>
    const hashPassword: string -> string
    /** `VerifyPassword(hashedPassword, providedPassword)`: the stored hash first, then the password given. */
    const verifyPassword: (string, string) -> bool
    /** `GenerateToken`: the token for an account, and its expiry counted from the clock reading. */
    const generateToken: (User, Instant) -> LoginResponse

    ghost predicate Valid()
      reads this
    {
      KeysUnique(users)
    }

    constructor (users: seq<User>, hashPassword: string -> string, verifyPassword: (string, string) -> bool,
                 generateToken: (User, Instant) -> LoginResponse)
      requires KeysUnique(users)
      ensures this.users == users && this.hashPassword == hashPassword
      ensures this.verifyPassword == verifyPassword && this.generateToken == generateToken
      ensures Valid()
    {
      this.users := users;
      this.hashPassword := hashPassword;
      this.verifyPassword := verifyPassword;
      this.generateToken := generateToken;
    }

    /**
     * `RegisterAsync`: refuses an email an account that is not deleted
     * already has; otherwise stores one new account under a fresh key,
     * with the hash of the password and the clock reading as creation time.
     */
    method Register(request: RegisterRequest, now: Instant) returns (r: Result<UserView, ServiceError>)
      requires Valid()
      modifies this
      ensures Valid()
      ensures GetByEmail(old(users), request.email).Some? ==>
                r == Err(InvalidOperation(EmailInUse)) && users == old(users)
      ensures GetByEmail(old(users), request.email).None? ==>
                && r.Ok?
                && (forall k :: 0 <= k < |old(users)| ==> old(users)[k].id != r.value.id)
                && users == old(users) + [MappedUser(request).(id := r.value.id, createdAt := now,
                                                               passwordHash := hashPassword(request.password))]
                && r.value == ViewOf(users[|users| - 1])
      ensures UserHistory(old(users), users)
      ensures ActiveEmailsUnique(old(users)) ==> ActiveEmailsUnique(users)
    {
      var existingUser := GetByEmail(users, request.email);
      if existingUser.Some? {
        return Err(InvalidOperation(EmailInUse));
      }
      var user := MappedUser(request);
      var keys := set u | u in users :: u.id;
      FreshGuidExists(keys);
      var id :| id !in keys;
      user := user.(id := id);
      user := user.(createdAt := now);
      user := user.(passwordHash := hashPassword(request.password));
      assert forall k :: 0 <= k < |users| ==> users[k].id in keys;
      AppendFresh(users, user);
      users := users + [user];
      r := Ok(ViewOf(user));
    }

    /**
     * `LoginAsync`: the same refusal for an unknown email and for a failed
     * verification, which passes the password given first and the stored
     * hash second; on success only the last login time is recorded and the
     * token of the updated account is returned.
     */
    method Login(request: LoginRequest, now: Instant) returns (r: Result<LoginResponse, ServiceError>)
      requires Valid()
      modifies this
      ensures Valid()
      ensures GetByEmail(old(users), request.email).None? ==>
                r == Err(Unauthorized(InvalidCredentials)) && users == old(users)
      ensures GetByEmail(old(users), request.email).Some? ==>
                var i := GetByEmail(old(users), request.email).value;
                if verifyPassword(request.password, old(users)[i].passwordHash) then
                  && users == old(users)[i := old(users)[i].(lastLogin := Some(now))]
                  && r == Ok(generateToken(users[i], now))
                else
                  r == Err(Unauthorized(InvalidCredentials)) && users == old(users)
      ensures UserHistory(old(users), users)
      ensures ActiveEmailsUnique(old(users)) ==> ActiveEmailsUnique(users)
    {
      var user := GetByEmail(users, request.email);
      if user.None? || !verifyPassword(request.password, users[user.value].passwordHash) {
        return Err(Unauthorized(InvalidCredentials));
      }
      var i := user.value;
      RewriteActive(users, i, users[i].(lastLogin := Some(now)));
      users := users[i := users[i].(lastLogin := Some(now))];
      var token := generateToken(users[i], now);
      r := Ok(token);
    }

    /** `GetByIdAsync`: the view of the account, unless it is missing or soft-deleted. */
    method GetById(id: Guid) returns (r: Result<UserView, ServiceError>)
      ensures ActiveUser(users, id).None? ==> r == Err(InvalidOperation(UserNotFound))
      ensures ActiveUser(users, id).Some? ==> r == Ok(ViewOf(users[ActiveUser(users, id).value]))
    {
      var user := FindUser(users, id);
      if user.None? || users[user.value].isDeleted {
        return Err(InvalidOperation(UserNotFound));
      }
      r := Ok(ViewOf(users[user.value]));
    }

    /**
     * `EditUserAsync`: overwrites each of the native language, the target
     * language and the learning goals only with a non-empty value, and the
     * sharing flag only when one is given; every other column is kept.
     */
    method EditUser(id: Guid, request: EditRequest) returns (r: Result<UserView, ServiceError>)
      requires Valid()
      modifies this
      ensures Valid()
      ensures ActiveUser(old(users), id).None? ==> r == Err(InvalidOperation(UserNotFound)) && users == old(users)
      ensures ActiveUser(old(users), id).Some? ==>
                var i := ActiveUser(old(users), id).value;
                users == old(users)[i := ApplyEdit(old(users)[i], request)] && r == Ok(ViewOf(users[i]))
      ensures UserHistory(old(users), users)
      ensures ActiveEmailsUnique(old(users)) ==> ActiveEmailsUnique(users)
    {
      var found := FindUser(users, id);
      if found.None? || users[found.value].isDeleted {
        return Err(InvalidOperation(UserNotFound));
      }
      var i := found.value;
      var user := users[i];
      ghost var edited := ApplyEdit(users[i], request);
      if NonEmpty(request.nativeLanguage) {
        user := user.(nativeLanguage := request.nativeLanguage.value);
      }
      if NonEmpty(request.targetLanguage) {
        user := user.(targetLanguage := request.targetLanguage.value);
      }
      if NonEmpty(request.learningGoals) {
        user := user.(learningGoals := request.learningGoals);
      }
      if request.allowLearningDataSharing.Some? {
        user := user.(allowLearningDataSharing := request.allowLearningDataSharing.value);
      }
      assert user.nativeLanguage == edited.nativeLanguage && user.targetLanguage == edited.targetLanguage;
      assert user.learningGoals == edited.learningGoals;
      assert user.allowLearningDataSharing == edited.allowLearningDataSharing;
      assert user == edited;
      RewriteActive(users, i, user);
      users := users[i := user];
      r := Ok(ViewOf(user));
    }

    /**
     * `DeleteUserAsync`: marks the account deleted and changes nothing else;
     * afterwards the key finds no account, so a second delete is refused.
     */
    method DeleteUser(id: Guid) returns (r: Result<(), ServiceError>)
      requires Valid()
      modifies this
      ensures Valid()
      ensures ActiveUser(old(users), id).None? ==> r == Err(InvalidOperation(UserNotFoundOnDelete)) && users == old(users)
      ensures ActiveUser(old(users), id).Some? ==>
                var i := ActiveUser(old(users), id).value;
                users == old(users)[i := old(users)[i].(isDeleted := true)] && r == Ok(())
      ensures ActiveUser(users, id).None?
      ensures UserHistory(old(users), users)
      ensures ActiveEmailsUnique(old(users)) ==> ActiveEmailsUnique(users)
    {
      var user := FindUser(users, id);
      if user.None? || users[user.value].isDeleted {
        return Err(InvalidOperation(UserNotFoundOnDelete));
      }
      var i := user.value;
      RewriteActive(users, i, users[i].(isDeleted := true));
      users := users[i := users[i].(isDeleted := true)];
      r := Ok(());
    }
  }
}
