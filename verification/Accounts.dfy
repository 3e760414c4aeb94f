/**
 * Registration, login and the username change of the settings page.
 * Password hashing and hash comparison (bcrypt) are opaque functions
 * supplied by the caller; the field validation of a new registration
 * (`models.ValidateUser`) is too, since it is not part of this model.
 */
module Accounts {
  import opened Text
  import opened Results
  import opened Store
  import opened Http
  import Password

  // ----- Lookups -----

  /** The id of the user with this name, if any. */
  function UserIdByName(st: Store, name: Text): (r: Option<Id>)
    requires UniqueUsernames(st.users)
    ensures r.Some? ==> r.value in st.users && st.users[r.value].username == name
    ensures r.None? ==> forall id :: id in st.users ==> st.users[id].username != name
  {
    if exists id | id in st.users :: st.users[id].username == name then
      var id :| id in st.users && st.users[id].username == name;
      Some(id)
    else None
  }

  /**
   * `SELECT * FROM users WHERE username = ? LIMIT 1` scanned into a User:
   * the row with its id, or the zero User (id 0, empty fields) when there
   * is none.
   */
  function ScanUserByName(st: Store, name: Text): (r: (Id, User))
    requires UniqueUsernames(st.users)
  {
    match UserIdByName(st, name)
    case Some(id) => (id, st.users[id])
    case None => (0, User([], []))
  }

  /** Whether some user has this name. */
  predicate NameTaken(st: Store, name: Text) {
    exists id :: id in st.users && st.users[id].username == name
  }

  /** In a valid store the scanned id is non-zero exactly when the name is taken. */
  lemma ScanFindsTakenName(st: Store, name: Text)
    requires Valid(st)
    ensures ScanUserByName(st, name).0 != 0 <==> NameTaken(st, name)
    ensures NameTaken(st, name) ==> ScanUserByName(st, name).1 == st.users[ScanUserByName(st, name).0]
  {
    match UserIdByName(st, name)
    case Some(id) =>
    case None =>
  }

  /** The number of users whose name is `name` (at most one in a valid store). */
  function CountUsersNamed(st: Store, name: Text): (n: nat)
    ensures n > 0 <==> NameTaken(st, name)
  {
    var named := set id | id in st.users && st.users[id].username == name;
    assert NameTaken(st, name) ==> named != {} by {
      if NameTaken(st, name) {
        var id :| id in st.users && st.users[id].username == name;
        assert id in named;
      }
    }
    |named|
  }

  /** Adding a user under a new non-zero id with an unused name keeps the store valid. */
  lemma AddUserValid(st: Store, id: Id, u: User)
    requires Valid(st)
    requires id != 0 && id !in st.users
    requires !NameTaken(st, u.username)
    ensures Valid(st.(users := st.users[id := u]))
  {
  }

  // ----- Registration -----

  /** The error-map keys and messages the registration handler adds itself. */
  const UsernameKey: Text := "username"
  const GeneralKey: Text := "general"
  const UsernameExistsMessage: Text := "username already exists"
  const RegistrationFailedMessage: Text := "registration failed, please try again"

  /**
   * RegisterHandler (POST).  The trimmed name and password go through
   * `validateUser`; when that reports nothing, a user of the same name is
   * an error.  Otherwise the row is created, which runs BeforeSave.  The
   * result is the new store and the error map shown on the form (empty
   * on success).
   */
  function Register(st: Store, rawUsername: Text, rawPassword: Text,
                    validateUser: (Text, Text) -> map<Text, Text>,
                    hash: Text -> Option<Text>): (r: (Store, map<Text, Text>))
    requires Valid(st)
    ensures Valid(r.0)
    ensures r.1 != map[] ==> r.0 == st
  {
    var username := Trim(rawUsername);
    var password := Trim(rawPassword);
    var errors := validateUser(username, password);
    if errors != map[] then (st, errors)
    else if ScanUserByName(st, username).0 != 0 then (st, map[UsernameKey := UsernameExistsMessage])
    else
      var (saved, saveError) := Password.BeforeSave(User(username, password), hash);
      if saveError.Some? then (st, map[GeneralKey := RegistrationFailedMessage])
      else
        ScanFindsTakenName(st, username);
        var id := FreshId(st.users.Keys);
        AddUserValid(st, id, saved);
        (st.(users := st.users[id := saved]), map[])
  }

  /** A taken name is reported under "username" and nothing is created. */
  lemma RegisterTakenName(st: Store, rawUsername: Text, rawPassword: Text,
                          validateUser: (Text, Text) -> map<Text, Text>,
                          hash: Text -> Option<Text>)
    requires Valid(st)
    requires validateUser(Trim(rawUsername), Trim(rawPassword)) == map[]
    requires NameTaken(st, Trim(rawUsername))
    ensures Register(st, rawUsername, rawPassword, validateUser, hash)
      == (st, map[UsernameKey := UsernameExistsMessage])
  {
    ScanFindsTakenName(st, Trim(rawUsername));
  }

  /**
   * A registration succeeds exactly when the validator, the name check,
   * the password policy and the hash all pass.
   */
  lemma RegisterSucceedsWhen(st: Store, rawUsername: Text, rawPassword: Text,
                             validateUser: (Text, Text) -> map<Text, Text>,
                             hash: Text -> Option<Text>)
    requires Valid(st)
    ensures var name := Trim(rawUsername);
      var password := Trim(rawPassword);
      Register(st, rawUsername, rawPassword, validateUser, hash).1 == map[] <==>
        && validateUser(name, password) == map[]
        && !NameTaken(st, name)
        && Password.ValidatePassword(password).None?
        && hash(password).Some?
  {
    var name := Trim(rawUsername);
    var password := Trim(rawPassword);
    var r := Register(st, rawUsername, rawPassword, validateUser, hash);
    ScanFindsTakenName(st, name);
    if validateUser(name, password) == map[] {
      if NameTaken(st, name) {
        assert UsernameKey in r.1;
      } else if Password.BeforeSave(User(name, password), hash).1.Some? {
        assert GeneralKey in r.1;
      }
    }
  }

  /** A successful registration adds one user, with the trimmed name and the hashed password, under the next serial id. */
  lemma RegisterAddsUser(st: Store, rawUsername: Text, rawPassword: Text,
                         validateUser: (Text, Text) -> map<Text, Text>,
                         hash: Text -> Option<Text>)
    requires Valid(st)
    requires Register(st, rawUsername, rawPassword, validateUser, hash).1 == map[]
    ensures hash(Trim(rawPassword)).Some?
    ensures FreshId(st.users.Keys) !in st.users
    ensures Register(st, rawUsername, rawPassword, validateUser, hash).0
      == st.(users := st.users[FreshId(st.users.Keys) := User(Trim(rawUsername), hash(Trim(rawPassword)).value)])
  {
    var name := Trim(rawUsername);
    var password := Trim(rawPassword);
    var r := Register(st, rawUsername, rawPassword, validateUser, hash);
    RegisterSucceedsWhen(st, rawUsername, rawPassword, validateUser, hash);
    ScanFindsTakenName(st, name);
  }

  // ----- Login -----

  /** The errors shown on the login form: which of the two fields were left empty. */
  datatype LoginResult =
    | MissingFields(usernameMissing: bool, passwordMissing: bool)
    | InvalidCredentials
    | LoggedIn(session: Session)

  /**
   * LoginHandler (POST): both trimmed fields are required; then the stored
   * hash of the user of that name (the zero user's empty hash if there is
   * none) is compared with the password, and only a match opens a session.
   */
  function Login(st: Store, rawUsername: Text, rawPassword: Text,
                 compare: (Text, Text) -> bool): (r: LoginResult)
    requires UniqueUsernames(st.users)
    ensures var name := Trim(rawUsername);
      var password := Trim(rawPassword);
      && (r.MissingFields? <==> name == [] || password == [])
      && (r.MissingFields? ==>
            r.usernameMissing == (name == []) && r.passwordMissing == (password == []))
      && (r.LoggedIn? <==>
            name != [] && password != [] && compare(ScanUserByName(st, name).1.password, password))
      && (r.LoggedIn? ==>
            r.session == Session(true, Some(name), Some(ScanUserByName(st, name).0)))
  {
    var name := Trim(rawUsername);
    var password := Trim(rawPassword);
    if name == [] || password == [] then
      MissingFields(name == [], password == [])
    else
      var (id, user) := ScanUserByName(st, name);
      if !compare(user.password, password) then InvalidCredentials
      else LoggedIn(Session(true, Some(name), Some(id)))
  }

  /** With a field missing, the store and the hash comparison are never consulted. */
  lemma LoginMissingFieldsReadsNothing(st1: Store, st2: Store, rawUsername: Text, rawPassword: Text,
                                       compare1: (Text, Text) -> bool, compare2: (Text, Text) -> bool)
    requires UniqueUsernames(st1.users) && UniqueUsernames(st2.users)
    requires Trim(rawUsername) == [] || Trim(rawPassword) == []
    ensures Login(st1, rawUsername, rawPassword, compare1)
         == Login(st2, rawUsername, rawPassword, compare2)
  {
  }

  /** An unknown name is checked against the empty hash, so it fails whenever that hash matches nothing. */
  lemma LoginUnknownUser(st: Store, rawUsername: Text, rawPassword: Text,
                         compare: (Text, Text) -> bool)
    requires UniqueUsernames(st.users)
    requires Trim(rawUsername) != [] && Trim(rawPassword) != []
    requires !NameTaken(st, Trim(rawUsername))
    requires !compare([], Trim(rawPassword))
    ensures Login(st, rawUsername, rawPassword, compare) == InvalidCredentials
  {
  }

  // ----- Username change -----

  const MinUsernameLength: nat := 3
  const MaxUsernameLength: nat := 20

  datatype SettingsError =
    | NewUsernameRequired
    | UsernameLength
    | PasswordRequired
    | IncorrectPassword
    | UsernameTaken

  datatype SettingsMessage = NoMessage | Error(error: SettingsError) | Updated

  /** The settings page's data. */
  datatype SettingsPage = SettingsPage(currentUsername: Text, newUsername: Text, message: SettingsMessage)

  datatype ChangeOutcome =
    | InvalidUserSession                 // no user id in the session: an error response
    | ToLogin                            // the user row is gone: the session is de-authenticated
    | Page(page: SettingsPage)

  /** The settings page redisplayed with an error; nothing changes. */
  function Refused(st: Store, session: Session, currentUsername: Text, newName: Text,
                   e: SettingsError): (Store, Session, ChangeOutcome) {
    (st, session, Page(SettingsPage(currentUsername, newName, Error(e))))
  }

  /**
   * handleUsernameChange: the trimmed new name must be non-empty and of 3
   * to 20 bytes, the (untrimmed) password non-empty and matching the
   * stored hash, and no user may already have the new name; the checks
   * run in that order and the first failing one decides the message.
   * Then only that user's name changes, the session follows, the page
   * shows the new name as current and the input field is cleared.
   */
  function ChangeUsername(st: Store, session: Session, currentUsername: Text,
                          rawNewUsername: Text, password: Text,
                          compare: (Text, Text) -> bool): (r: (Store, Session, ChangeOutcome))
    requires Valid(st)
    ensures Valid(r.0)
    ensures !r.2.Page? || r.2.page.message != Updated ==> r.0 == st
    ensures r.2 == InvalidUserSession <==> session.userId.None?
    ensures session.userId.Some? ==>
      var newName := Trim(rawNewUsername);
      var id := session.userId.value;
      && (newName == [] ==> r == Refused(st, session, currentUsername, newName, NewUsernameRequired))
      && (newName != [] && (|newName| < MinUsernameLength || |newName| > MaxUsernameLength) ==>
            r == Refused(st, session, currentUsername, newName, UsernameLength))
      && (MinUsernameLength <= |newName| <= MaxUsernameLength ==>
            && (password == [] ==> r == Refused(st, session, currentUsername, newName, PasswordRequired))
            && (password != [] && id !in st.users ==>
                  r == (st, session.(authenticated := false), ToLogin))
            && (password != [] && id in st.users ==>
                  && (!compare(st.users[id].password, password) ==> r == Refused(st, session, currentUsername, newName, IncorrectPassword))
                  && (compare(st.users[id].password, password) && NameTaken(st, newName) ==>
                        r == Refused(st, session, currentUsername, newName, UsernameTaken))
                  && (compare(st.users[id].password, password) && !NameTaken(st, newName) ==>
                        && r.0 == st.(users := st.users[id := User(newName, st.users[id].password)])
                        && r.1 == session.(username := Some(newName))
                        && r.2 == Page(SettingsPage(newName, [], Updated)))))
  {
    if session.userId.None? then (st, session, InvalidUserSession)
    else
      var id := session.userId.value;
      var newName := Trim(rawNewUsername);
      var page := SettingsPage(currentUsername, newName, NoMessage);
      if newName == [] then (st, session, Page(page.(message := Error(NewUsernameRequired))))
      else if |newName| < MinUsernameLength || |newName| > MaxUsernameLength then
        (st, session, Page(page.(message := Error(UsernameLength))))
      else if password == [] then (st, session, Page(page.(message := Error(PasswordRequired))))
      else if id !in st.users then (st, session.(authenticated := false), ToLogin)
      else if !compare(st.users[id].password, password) then
        (st, session, Page(page.(message := Error(IncorrectPassword))))
      else if CountUsersNamed(st, newName) > 0 then
        (st, session, Page(page.(message := Error(UsernameTaken))))
      else
        var st' := st.(users := st.users[id := st.users[id].(username := newName)]);
        (st', session.(username := Some(newName)), Page(SettingsPage(newName, [], Updated)))
  }
}
