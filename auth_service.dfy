/** The credential store of `src/services/authService.ts`: the registered users and the
    single current-user session key.

    The persisted `users` list and `current_user` key are the fields of `CredentialStore`.
    The password hash (SHA-256 in `src/utils/crypto.ts`) is the store's `hash` function, taken as
    given; the clock is a parameter. Sign-up and sign-in are computed by the functions
    `SignUpOutcome` and `SignInOutcome`, which the methods then commit. */
module AuthService {
  import opened Wrappers
  import opened JsStrings
  import opened Sequences
  import opened AuthTypes

  const UsernameRequired := AuthError("Username is required", Some(UsernameField))
  const UsernameTooShort := AuthError("Username must be at least 3 characters", Some(UsernameField))
  const PasswordRequired := AuthError("Password is required", Some(PasswordField))
  const PasswordTooShort := AuthError("Password must be at least 6 characters", Some(PasswordField))
  const UsernameExists := AuthError("Username already exists", Some(UsernameField))
  const UnknownUsername := AuthError("Invalid username or password", Some(UsernameField))
  const WrongPassword := AuthError("Invalid username or password", Some(PasswordField))

  /** `verifyPassword`: the password hashes to the stored hash. */
  function VerifyPassword(hash: string -> string, password: string, hashedPassword: string): bool {
    hash(password) == hashedPassword
  }

  /** No two users share a username. */
  predicate UniqueUsernames(users: seq<User>) {
    forall i, j :: 0 <= i < j < |users| ==> users[i].username != users[j].username
  }

  /** Some stored user has exactly this username. */
  predicate Registered(users: seq<User>, name: string) {
    exists k :: 0 <= k < |users| && users[k].username == name
  }

  /** `users.find(u => u.username === name)`. */
  function FindUser(users: seq<User>, name: string): (r: Option<User>)
    ensures r.None? <==> !Registered(users, name)
    ensures r.Some? ==> r.value in users && r.value.username == name
  {
    match FirstIndex(users, (u: User) => u.username == name)
    case None => None
    case Some(i) => Some(users[i])
  }

  /** The sign-up input checks, in `signUp`'s order; the first failing check wins. Every
      username problem is reported before any password problem. The length check reads the
      untrimmed username. */
  function ValidateSignUp(username: string, password: string): (r: Option<AuthError>)
    ensures r.None? <==> !IsBlank(username) && JsLength(username) >= 3 && JsLength(password) >= 6
    ensures r.Some? ==> (r.value.field == Some(UsernameField) <==> IsBlank(username) || JsLength(username) < 3)
    ensures IsBlank(username) ==> r == Some(UsernameRequired)
    ensures !IsBlank(username) && JsLength(username) < 3 ==> r == Some(UsernameTooShort)
    ensures !IsBlank(username) && JsLength(username) >= 3 && password == [] ==> r == Some(PasswordRequired)
    ensures !IsBlank(username) && JsLength(username) >= 3 && 0 < JsLength(password) < 6 ==> r == Some(PasswordTooShort)
  {
    TrimEmptyIffBlank(username);
    if Trim(username) == [] then Some(UsernameRequired)
    else if JsLength(username) < 3 then Some(UsernameTooShort)
    else if password == [] then Some(PasswordRequired)
    else if JsLength(password) < 6 then Some(PasswordTooShort)
    else None
  }

  /** The sign-in input checks: only presence is checked, username first. */
  function ValidateSignIn(username: string, password: string): (r: Option<AuthError>)
    ensures r.None? <==> !IsBlank(username) && password != []
    ensures IsBlank(username) ==> r == Some(UsernameRequired)
    ensures !IsBlank(username) && password == [] ==> r == Some(PasswordRequired)
  {
    TrimEmptyIffBlank(username);
    if Trim(username) == [] then Some(UsernameRequired)
    else if password == [] then Some(PasswordRequired)
    else None
  }

  /** What `signUp` returns against the registered `users`: the validation error, the
      duplicate-name error, or the new user, named by the trimmed username. */
  function SignUpOutcome(users: seq<User>, hash: string -> string, username: string, password: string,
                         now: int): (r: Result<User, AuthError>)
    ensures r.Success? <==> ValidateSignUp(username, password).None? && !Registered(users, Trim(username))
    ensures r.Success? ==> r.value == User(Trim(username), hash(password), now)
    ensures ValidateSignUp(username, password).Some? ==> r == Failure(ValidateSignUp(username, password).value)
    ensures ValidateSignUp(username, password).None? && Registered(users, Trim(username))
            ==> r == Failure(UsernameExists)
  {
    match ValidateSignUp(username, password)
    case Some(e) => Failure(e)
    case None =>
      if FindUser(users, Trim(username)).Some? then Failure(UsernameExists)
      else Success(User(Trim(username), hash(password), now))
  }

  /** What `signIn` returns against the registered `users`: the validation error, the
      unknown-user error, the wrong-password error, or the stored user untouched. The two
      credential errors share their message and differ in the field tag. */
  function SignInOutcome(users: seq<User>, hash: string -> string, username: string, password: string)
    : (r: Result<User, AuthError>)
    ensures r.Success? ==> r.value in users && r.value.username == Trim(username)
                           && VerifyPassword(hash, password, r.value.passwordHash)
    ensures ValidateSignIn(username, password).Some? ==> r == Failure(ValidateSignIn(username, password).value)
    ensures ValidateSignIn(username, password).None? && !Registered(users, Trim(username))
            ==> r == Failure(UnknownUsername)
    ensures r.Failure? && ValidateSignIn(username, password).None? && Registered(users, Trim(username))
            ==> r == Failure(WrongPassword)
  {
    match ValidateSignIn(username, password)
    case Some(e) => Failure(e)
    case None =>
      match FindUser(users, Trim(username))
      case None => Failure(UnknownUsername)
      case Some(u) => if VerifyPassword(hash, password, u.passwordHash) then Success(u) else Failure(WrongPassword)
  }

  /** When names are unique, a user whose password verifies signs in. */
  lemma SignInSucceeds(users: seq<User>, hash: string -> string, username: string, password: string, k: nat)
    requires UniqueUsernames(users)
    requires k < |users| && users[k].username == Trim(username) && users[k].username != []
    requires password != [] && hash(password) == users[k].passwordHash
    ensures SignInOutcome(users, hash, username, password) == Success(users[k])
  {
    TrimEmptyIffBlank(username);
    var found := FindUser(users, Trim(username));
    var i :| 0 <= i < |users| && users[i] == found.value;
    assert i == k;
  }

  /** The stored names are trimmed and non-empty, and the session names a stored user. */
  predicate WellFormed(users: seq<User>, currentUser: Option<string>) {
    UniqueUsernames(users)
    && (forall k :: 0 <= k < |users| ==> users[k].username != [] && IsTrimmed(users[k].username))
    && (currentUser.Some? ==> Registered(users, currentUser.value))
  }

  /** Registering an unused, trimmed, non-empty name and making it the session keeps the
      store well formed. */
  lemma AppendKeepsWellFormed(users: seq<User>, currentUser: Option<string>, u: User)
    requires WellFormed(users, currentUser)
    requires !Registered(users, u.username) && u.username != [] && IsTrimmed(u.username)
    ensures WellFormed(users + [u], Some(u.username))
  {
    var users' := users + [u];
    forall i, j | 0 <= i < j < |users'| ensures users'[i].username != users'[j].username {
      if j == |users| {
        assert users'[i] == users[i];
      } else {
        assert users'[i] == users[i] && users'[j] == users[j];
      }
    }
    forall k | 0 <= k < |users'| ensures users'[k].username != [] && IsTrimmed(users'[k].username) {
      if k < |users| {
        assert users'[k] == users[k];
      }
    }
    assert users'[|users|].username == u.username;
  }

  /** When names are unique, a registered user whose password does not verify is
      refused with the password-tagged error. */
  lemma SignInRejectsWrongPassword(users: seq<User>, hash: string -> string, username: string, password: string, k: nat)
    requires UniqueUsernames(users)
    requires k < |users| && users[k].username == Trim(username) && users[k].username != []
    requires password != [] && hash(password) != users[k].passwordHash
    ensures SignInOutcome(users, hash, username, password) == Failure(WrongPassword)
  {
    TrimEmptyIffBlank(username);
    var found := FindUser(users, Trim(username));
    var i :| 0 <= i < |users| && users[i] == found.value;
    assert i == k;
  }

  /** A successful sign-up keeps the store well formed: the new name is trimmed,
      non-empty and unused, and it is the new session. */
  lemma SignUpKeepsWellFormed(users: seq<User>, currentUser: Option<string>, hash: string -> string,
                              username: string, password: string, now: int)
    requires WellFormed(users, currentUser)
    requires SignUpOutcome(users, hash, username, password, now).Success?
    ensures WellFormed(users + [SignUpOutcome(users, hash, username, password, now).value], Some(Trim(username)))
  {
    var u := SignUpOutcome(users, hash, username, password, now).value;
    TrimEmptyIffBlank(username);
    TrimParts(username);
    AppendKeepsWellFormed(users, currentUser, u);
  }

  lemma AbTrimStart()
    ensures TrimStart("ab ") == "ab "
  {
    assert "ab "[0] == 'a';
  }

  lemma AbTrimEnd()
    ensures TrimEnd("ab ") == "ab"
  {
    assert "ab "[2] == ' ' && "ab "[..2] == "ab";
    assert "ab"[1] == 'b';
  }

  lemma AbLength()
    ensures JsLength("ab ") == 3 && JsLength("ab") == 2
  {
    assert "ab "[..2] == "ab" && "ab"[..1] == "a" && "a"[..0] == [];
  }

  /** `"ab "` trims to `"ab"`, and only its untrimmed form has a length of 3. */
  lemma TrimmedAb()
    ensures Trim("ab ") == "ab" && !IsBlank("ab ")
    ensures JsLength("ab ") == 3 && JsLength("ab") == 2
  {
    AbTrimStart();
    AbTrimEnd();
    AbLength();
    assert !IsWhitespace("ab "[0]);
  }

  /** The length check counts the untrimmed input, so `"ab "` passes it and registers the
      two-character name `"ab"`. */
  lemma UntrimmedLengthCheck(users: seq<User>, hash: string -> string, password: string, now: int)
    requires JsLength(password) >= 6 && !Registered(users, "ab")
    ensures SignUpOutcome(users, hash, "ab ", password, now).Success?
    ensures SignUpOutcome(users, hash, "ab ", password, now).value.username == "ab"
    ensures JsLength("ab") < 3
  {
    TrimmedAb();
    assert ValidateSignUp("ab ", password) == None;
  }

  /** The session of a well-formed store is a non-empty name that trimming leaves as it is. */
  lemma SessionIsTrimmed(users: seq<User>, name: string)
    requires WellFormed(users, Some(name))
    ensures name != [] && Trim(name) == name
  {
    var k :| 0 <= k < |users| && users[k].username == name;
    TrimmedUnchanged(name);
  }

  class CredentialStore {
    /** The persisted `users` list. */
    var users: seq<User>
    /** The persisted `current_user` key; `None` when it is absent. */
    var currentUser: Option<string>
    /** The password hash. */
    const hash: string -> string

    ghost predicate Valid()
      reads this
    {
      WellFormed(users, currentUser)
    }

    /** Opens the store over what is persisted. */
    constructor (hash: string -> string, users: seq<User>, currentUser: Option<string>)
      requires WellFormed(users, currentUser)
      ensures Valid()
      ensures this.hash == hash && this.users == users && this.currentUser == currentUser
    {
      this.hash := hash;
      this.users := users;
      this.currentUser := currentUser;
    }

    /** `isUsernameTaken`: some stored user has the trimmed name. */
    function IsUsernameTaken(username: string): (taken: bool)
      reads this
      ensures taken <==> exists k :: 0 <= k < |users| && users[k].username == Trim(username)
    {
      FindUser(users, Trim(username)).Some?
    }

    /** `getCurrentUser`: the session key, which always names a registered user. */
    function GetCurrentUser(): (r: Option<string>)
      reads this
      requires Valid()
      ensures r.Some? ==> r.value != [] && Registered(users, r.value)
    {
      currentUser
    }

    /** `signUp`: on success the new user is appended and becomes the session; on failure
        nothing changes. */
    method SignUp(username: string, password: string, now: int) returns (r: Result<User, AuthError>)
      requires Valid()
      modifies this
      ensures Valid()
      ensures r == SignUpOutcome(old(users), hash, username, password, now)
      ensures r.Failure? ==> users == old(users) && currentUser == old(currentUser)
      ensures r.Success? ==> users == old(users) + [r.value] && currentUser == Some(Trim(username))
                             && IsUsernameTaken(username)
    {
      r := SignUpOutcome(users, hash, username, password, now);
      if r.Success? {
        SignUpKeepsWellFormed(users, currentUser, hash, username, password, now);
        users := users + [r.value];
        currentUser := Some(Trim(username));
      }
    }

    /** `signIn`: on success the session becomes the trimmed name; the users never change. */
    method SignIn(username: string, password: string) returns (r: Result<User, AuthError>)
      requires Valid()
      modifies this
      ensures Valid()
      ensures r == SignInOutcome(old(users), hash, username, password)
      ensures users == old(users)
      ensures r.Failure? ==> currentUser == old(currentUser)
      ensures r.Success? ==> currentUser == Some(Trim(username))
    {
      r := SignInOutcome(users, hash, username, password);
      if r.Success? {
        currentUser := Some(Trim(username));
      }
    }

    /** `signOut`: the session key is removed; doing it again changes nothing more. */
    method SignOut()
      requires Valid()
      modifies this
      ensures Valid()
      ensures currentUser == None && users == old(users)
      ensures GetCurrentUser() == None
    {
      currentUser := None;
    }
  }
}
