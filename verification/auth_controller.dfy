/**
 * The Mongo-backed auth controller: register, login, the profile of the
 * caller, and the two not-yet-implemented Google endpoints. Each handler
 * maps a store and a request to the new store and the response.
 */
module AuthController {
  import opened Util
  import opened Text
  import opened Http
  import opened Crypto
  import opened UserModel

  datatype RegisterBody = RegisterBody(username: Option<string>, email: Option<string>, password: Option<string>)

  datatype LoginBody = LoginBody(email: Option<string>, password: Option<string>)

  /**
   * What a handler takes from outside the request: bcrypt, jsonwebtoken, the
   * JWT_SECRET setting, the e-mail pattern, the id MongoDB assigns to a new
   * document, and the clock in milliseconds.
   */
  datatype Env = Env(hasher: Hasher, jwt: Jwt, jwtSecret: Option<string>, emailPattern: string -> bool,
                     newId: string, nowMs: nat)

  datatype Handled = Handled(db: Db, response: Response)

  /** The duplicate query `findOne({$or: [{email}, {username}]})`, the setters applied to the query values. */
  function FindExisting(users: seq<UserDoc>, username: string, email: string): (r: Option<nat>)
    ensures r.None? <==> forall k :: 0 <= k < |users| ==>
              users[k].email != NormalizeEmail(email) && users[k].username != Trim(username)
  {
    FindFirst(users, (d: UserDoc) => d.email == NormalizeEmail(email) || d.username == Trim(username))
  }

  /** The catch block of registerUser: MongoDB's duplicate-key error (code 11000) is a 400, anything else a 500. */
  function RegisterFailure(e: StoreError): (r: Response)
    ensures r.status == BAD_REQUEST <==> e == DuplicateKey
    ensures r.status == SERVER_ERROR <==> e != DuplicateKey
  {
    if e == DuplicateKey then Reply(BAD_REQUEST, EmailOrUsernameTaken) else Reply(SERVER_ERROR, RegisterServerError)
  }

  /** The document registerUser asks the store to create. */
  function NewUserInput(username: string, email: string, password: string): UserInput {
    UserInput(Some(username), Some(email), Some(password), Some("manual"), None)
  }

  /** The document registration stores for the request fields: hashed password, normalised names. */
  predicate IsNewUser(d: UserDoc, username: string, email: string, password: string, env: Env) {
    && d.id == env.newId && d.authMethod == Manual && d.googleId.None? && d.createdAt == env.nowMs
    && FieldsValid(d)
    && d.username == Trim(username) && d.email == NormalizeEmail(email)
    && d.password == Some(env.hasher.hash(password))
  }

  /** `User.create` as registerUser calls it. */
  function CreateUser(db: Db, username: string, email: string, password: string, env: Env)
    : (r: Result<(Db, UserDoc), StoreError>)
    requires db.online
    ensures r.Success? ==> r.value.0 == db.(users := db.users + [r.value.1])
    ensures r.Success? ==> IsNewUser(r.value.1, username, email, password, env)
    ensures r.Success? ==> forall k :: 0 <= k < |db.users| ==> !Conflict(db.users[k], r.value.1)
  {
    var input := NewUserInput(username, email, password);
    var r := Create(db, input, env.newId, env.nowMs, env.emailPattern, env.hasher);
    if r.Success? then
      ValidatedWellFormed(input, env.newId, env.nowMs, env.emailPattern);
      r
    else r
  }

  /** The part of registerUser after the duplicate query found nothing. */
  function RegisterNew(db: Db, username: string, email: string, password: string, env: Env): (r: Handled)
    requires db.online
    ensures r.response.status in {CREATED, BAD_REQUEST, SERVER_ERROR}
    ensures r.response.status != CREATED ==> r.response.body.Message?
    ensures r.response.status == BAD_REQUEST ==> r.db == db
    ensures r.db == db || exists d :: r.db == db.(users := db.users + [d]) && IsNewUser(d, username, email, password, env)
    ensures r.response.status == CREATED ==> r.db != db && Truthy(env.jwtSecret)
    ensures r.response.status == CREATED ==> var d := r.db.users[|r.db.users| - 1];
      r.response.body == Account(d.id, d.username, d.email, "manual",
                                 GenerateToken(env.jwt, env.jwtSecret, d.id, env.nowMs).value, Registered)
    ensures CreateUser(db, username, email, password, env).Failure? ==>
              r == Handled(db, RegisterFailure(CreateUser(db, username, email, password, env).error))
    ensures CreateUser(db, username, email, password, env).Success? && !Truthy(env.jwtSecret) ==>
              r.response == Reply(SERVER_ERROR, RegisterServerError)
  {
    match CreateUser(db, username, email, password, env)
    case Failure(e) => Handled(db, RegisterFailure(e))
    case Success((db', d)) =>
      assert db'.users[|db'.users| - 1] == d;
      // the token is signed after the document is stored: a failure here leaves it stored
      match GenerateToken(env.jwt, env.jwtSecret, d.id, env.nowMs)
      case None => Handled(db', Reply(SERVER_ERROR, RegisterServerError))
      case Some(token) =>
        Handled(db', Response(CREATED, Account(d.id, d.username, d.email, MethodName(d.authMethod), token, Registered)))
  }

  /** `registerUser`. */
  function RegisterUser(db: Db, body: RegisterBody, env: Env): (r: Handled)
    ensures !Truthy(body.username) || !Truthy(body.email) || !Truthy(body.password) ==>
              r == Handled(db, Reply(BAD_REQUEST, EnterAllFields))
    ensures r.response.status in {CREATED, BAD_REQUEST, SERVER_ERROR}
    ensures r.response.status != CREATED ==> r.response.body.Message?
    ensures r.response.status == BAD_REQUEST ==> r.db == db
    ensures r.db == db || exists d :: r.db == db.(users := db.users + [d])
                                     && IsNewUser(d, body.username.value, body.email.value, body.password.value, env)
    ensures r.db != db ==> forall k :: 0 <= k < |db.users| ==>
              db.users[k].email != NormalizeEmail(body.email.value) && db.users[k].username != Trim(body.username.value)
    ensures r.response.status == CREATED ==> r.db != db && Truthy(env.jwtSecret)
    ensures r.response.status == CREATED ==> var d := r.db.users[|r.db.users| - 1];
      r.response.body == Account(d.id, d.username, d.email, "manual",
                                 GenerateToken(env.jwt, env.jwtSecret, d.id, env.nowMs).value, Registered)
    ensures Truthy(body.username) && Truthy(body.email) && Truthy(body.password) && !db.online ==>
              r == Handled(db, Reply(SERVER_ERROR, RegisterServerError))
    ensures Truthy(body.username) && Truthy(body.email) && Truthy(body.password) && db.online
            && FindExisting(db.users, body.username.value, body.email.value).None?
            && CreateUser(db, body.username.value, body.email.value, body.password.value, env).Failure? ==>
              r == Handled(db, RegisterFailure(CreateUser(db, body.username.value, body.email.value,
                                                          body.password.value, env).error))
  {
    if !Truthy(body.username) || !Truthy(body.email) || !Truthy(body.password) then
      Handled(db, Reply(BAD_REQUEST, EnterAllFields))
    else
      var username, email, password := body.username.value, body.email.value, body.password.value;
      if !db.online then Handled(db, Reply(SERVER_ERROR, RegisterServerError))
      else if FindExisting(db.users, username, email).Some? then Handled(db, Reply(BAD_REQUEST, UserAlreadyExists))
      else RegisterNew(db, username, email, password, env)
  }

  /** `loginUser`. */
  function LoginUser(db: Db, body: LoginBody, env: Env): (r: Handled)
    ensures r.db == db
    ensures !Truthy(body.email) || !Truthy(body.password) ==> r.response == Reply(BAD_REQUEST, EnterEmailAndPassword)
    ensures r.response.status in {OK, BAD_REQUEST, UNAUTHORIZED, SERVER_ERROR}
    ensures r.response.status == OK ==>
      var k := FindManualByEmail(db.users, body.email.value);
      && k.Some? && ComparePassword(db.users[k.value], body.password.value, env.hasher) && Truthy(env.jwtSecret)
      && var d := db.users[k.value];
         r.response.body == Account(d.id, d.username, d.email, "manual",
                                    GenerateToken(env.jwt, env.jwtSecret, d.id, env.nowMs).value, LoggedIn)
    ensures Truthy(body.email) && Truthy(body.password) && !db.online ==>
              r.response == Reply(SERVER_ERROR, LoginServerError)
    ensures Truthy(body.email) && Truthy(body.password) && db.online
            && !BadCredentials(db, body.email.value, body.password.value, env.hasher) ==>
              (r.response.status == OK <==> Truthy(env.jwtSecret))
              && (r.response.status != OK ==> r.response == Reply(SERVER_ERROR, LoginServerError))
  {
    if !Truthy(body.email) || !Truthy(body.password) then
      Handled(db, Reply(BAD_REQUEST, EnterEmailAndPassword))
    else if !db.online then Handled(db, Reply(SERVER_ERROR, LoginServerError))
    else
      var email, password := body.email.value, body.password.value;
      var k := FindManualByEmail(db.users, email);
      if k.Some? && ComparePassword(db.users[k.value], password, env.hasher) then
        var d := db.users[k.value];
        match GenerateToken(env.jwt, env.jwtSecret, d.id, env.nowMs)
        case None => Handled(db, Reply(SERVER_ERROR, LoginServerError))
        case Some(token) =>
          Handled(db, Response(OK, Account(d.id, d.username, d.email, MethodName(d.authMethod), token, LoggedIn)))
      else Handled(db, Reply(UNAUTHORIZED, WrongEmailOrPassword))
  }

  /** `getMe`: the caller's public fields when the middleware attached a user, 404 otherwise. */
  function GetMe(user: Option<PublicUser>): (r: Response)
    ensures r.status == OK <==> user.Some?
    ensures user.None? ==> r == Reply(NOT_FOUND, UserNotFound)
    ensures user.Some? ==> Keys(r.body) == ["_id", "username", "email", "authMethod"]
    ensures user.Some? ==> r.body.id == user.value.id && r.body.username == user.value.username
                           && r.body.email == user.value.email
                           && r.body.authMethod == MethodName(user.value.authMethod)
  {
    match user
    case None => Reply(NOT_FOUND, UserNotFound)
    case Some(u) => Response(OK, Profile(u.id, u.username, u.email, MethodName(u.authMethod)))
  }

  /** `googleAuth`: a stub answering 501 whatever the request. */
  function GoogleAuth<Req>(req: Req): (r: Response)
    ensures r.status == NOT_IMPLEMENTED && r.body == Message(GoogleAuthNotImplemented)
  {
    Reply(NOT_IMPLEMENTED, GoogleAuthNotImplemented)
  }

  /** `googleAuthCallback`: a stub answering 501 whatever the request. */
  function GoogleAuthCallback<Req>(req: Req): (r: Response)
    ensures r.status == NOT_IMPLEMENTED && r.body == Message(GoogleCallbackNotImplemented)
  {
    Reply(NOT_IMPLEMENTED, GoogleCallbackNotImplemented)
  }

  /** The condition under which registration creates a user and answers 201. */
  predicate RegisterSucceeds(db: Db, body: RegisterBody, env: Env) {
    && Truthy(body.username) && Truthy(body.email) && Truthy(body.password)
    && db.online
    && FindExisting(db.users, body.username.value, body.email.value).None?
    && Violations(NewUserInput(body.username.value, body.email.value, body.password.value), env.emailPattern) == {}
    && (forall k :: 0 <= k < |db.users| ==> db.users[k].id != env.newId)
    && Truthy(env.jwtSecret)
  }

  /** A pre-existing user with the same e-mail or username makes registration a 400 that changes nothing. */
  lemma RegisterRejectsTaken(db: Db, body: RegisterBody, env: Env, k: nat)
    requires Truthy(body.username) && Truthy(body.email) && Truthy(body.password) && db.online
    requires k < |db.users|
    requires db.users[k].email == NormalizeEmail(body.email.value) || db.users[k].username == Trim(body.username.value)
    ensures RegisterUser(db, body, env) == Handled(db, Reply(BAD_REQUEST, UserAlreadyExists))
  {
  }

  /**
   * Fields the schema rejects make the store throw a validation error, which
   * the catch block answers with the generic 500: not the 400 of a taken name.
   */
  lemma RegisterInvalidIsServerError(db: Db, body: RegisterBody, env: Env)
    requires Truthy(body.username) && Truthy(body.email) && Truthy(body.password) && db.online
    requires FindExisting(db.users, body.username.value, body.email.value).None?
    requires Violations(NewUserInput(body.username.value, body.email.value, body.password.value), env.emailPattern) != {}
    ensures RegisterUser(db, body, env) == Handled(db, Reply(SERVER_ERROR, RegisterServerError))
  {
    var username, email, password := body.username.value, body.email.value, body.password.value;
    var input := NewUserInput(username, email, password);
    assert CreateUser(db, username, email, password, env)
        == Failure(ValidationError(Violations(input, env.emailPattern)));
  }

  /**
   * Valid fields that nobody has taken, under an id already in the
   * collection, make the store throw code 11000: the 400 of the catch block.
   */
  lemma RegisterIdCollisionIsBadRequest(db: Db, body: RegisterBody, env: Env, k: nat)
    requires Truthy(body.username) && Truthy(body.email) && Truthy(body.password) && db.online
    requires FindExisting(db.users, body.username.value, body.email.value).None?
    requires Violations(NewUserInput(body.username.value, body.email.value, body.password.value), env.emailPattern) == {}
    requires k < |db.users| && db.users[k].id == env.newId
    ensures RegisterUser(db, body, env) == Handled(db, Reply(BAD_REQUEST, EmailOrUsernameTaken))
  {
    var username, email, password := body.username.value, body.email.value, body.password.value;
    var input := NewUserInput(username, email, password);
    var v := Validate(input, env.newId, env.nowMs, env.emailPattern);
    var hooked := PreSave(v.value, true, env.hasher);
    assert hooked.value.id == env.newId;
    assert Conflict(db.users[k], hooked.value);
    assert CreateUser(db, username, email, password, env) == Failure(DuplicateKey);
  }

  /**
   * Once the duplicate query found nothing, the store's duplicate-key error
   * can only come from an id collision: the username and e-mail indexes cannot fire.
   */
  lemma CreateDuplicateOnlyById(db: Db, username: string, email: string, password: string, env: Env)
    requires db.online && FindExisting(db.users, username, email).None?
    requires CreateUser(db, username, email, password, env) == Failure(DuplicateKey)
    ensures exists k :: 0 <= k < |db.users| && db.users[k].id == env.newId
  {
    var input := NewUserInput(username, email, password);
    var c := Create(db, input, env.newId, env.nowMs, env.emailPattern, env.hasher);
    assert c == Failure(DuplicateKey);
    var v := Validate(input, env.newId, env.nowMs, env.emailPattern);
    assert v.Success?;
    var saved := v.value.(password := Some(env.hasher.hash(password)));
    assert PreSave(v.value, true, env.hasher) == Success(saved);
    assert Insert(db, saved) == Failure(DuplicateKey);
    var k :| 0 <= k < |db.users| && Conflict(db.users[k], saved);
    assert db.users[k].email != saved.email && db.users[k].username != saved.username;
  }

  lemma RegisterDuplicateKeyOnlyById(db: Db, body: RegisterBody, env: Env)
    requires RegisterUser(db, body, env).response == Reply(BAD_REQUEST, EmailOrUsernameTaken)
    ensures exists k :: 0 <= k < |db.users| && db.users[k].id == env.newId
  {
    var username, email, password := body.username.value, body.email.value, body.password.value;
    assert CreateUser(db, username, email, password, env) == Failure(DuplicateKey);
    CreateDuplicateOnlyById(db, username, email, password, env);
  }

  /** The store accepts the new user when the fields validate, nothing is taken and the id is fresh. */
  lemma CreateUserSucceeds(db: Db, username: string, email: string, password: string, env: Env)
    requires db.online && FindExisting(db.users, username, email).None?
    requires Violations(NewUserInput(username, email, password), env.emailPattern) == {}
    requires forall k :: 0 <= k < |db.users| ==> db.users[k].id != env.newId
    ensures CreateUser(db, username, email, password, env).Success?
  {
    var input := NewUserInput(username, email, password);
    var d := Validate(input, env.newId, env.nowMs, env.emailPattern).value;
    var saved := d.(password := Some(env.hasher.hash(password)));
    assert PreSave(d, true, env.hasher) == Success(saved);
    forall k | 0 <= k < |db.users|
      ensures !Conflict(db.users[k], saved)
    {
      assert db.users[k].email != saved.email && db.users[k].username != saved.username;
    }
    assert Insert(db, saved).Success?;
  }

  /** The store accepts the new user only when the fields validate and the id is fresh. */
  lemma CreateUserSucceedsOnlyIf(db: Db, username: string, email: string, password: string, env: Env)
    requires db.online
    requires CreateUser(db, username, email, password, env).Success?
    ensures Violations(NewUserInput(username, email, password), env.emailPattern) == {}
    ensures forall k :: 0 <= k < |db.users| ==> db.users[k].id != env.newId
  {
    var saved := CreateUser(db, username, email, password, env).value.1;
    assert saved.id == env.newId;
    forall k | 0 <= k < |db.users|
      ensures db.users[k].id != env.newId
    {
      assert !Conflict(db.users[k], saved);
    }
  }

  /** Registration answers 201 exactly under RegisterSucceeds. */
  lemma RegisterCreatedIff(db: Db, body: RegisterBody, env: Env)
    ensures RegisterUser(db, body, env).response.status == CREATED <==> RegisterSucceeds(db, body, env)
  {
    if RegisterSucceeds(db, body, env) {
      CreateUserSucceeds(db, body.username.value, body.email.value, body.password.value, env);
    }
    if RegisterUser(db, body, env).response.status == CREATED {
      var username, email, password := body.username.value, body.email.value, body.password.value;
      assert RegisterNew(db, username, email, password, env).response.status == CREATED;
      assert CreateUser(db, username, email, password, env).Success?;
      CreateUserSucceedsOnlyIf(db, username, email, password, env);
    }
  }

  /** Registration keeps the unique indexes of the collection. */
  lemma RegisterKeepsUniqueIndexes(db: Db, body: RegisterBody, env: Env)
    requires UniqueIndexes(db.users)
    ensures UniqueIndexes(RegisterUser(db, body, env).db.users)
  {
    var r := RegisterUser(db, body, env);
    if r.db != db {
      var username, email, password := body.username.value, body.email.value, body.password.value;
      assert r == RegisterNew(db, username, email, password, env);
      var c := CreateUser(db, username, email, password, env);
      assert c.Success?;
      var saved := c.value.1;
      assert Insert(db, saved) == Success(r.db);
      InsertKeepsUniqueIndexes(db, saved);
    }
  }

  /**
   * With JWT_SECRET unset, a registration that passes every check answers
   * 500 yet leaves the new user stored: the token is signed after the insert.
   */
  lemma RegisterWithoutSecretStoresUser(db: Db, body: RegisterBody, env: Env)
    requires !Truthy(env.jwtSecret)
    requires RegisterSucceeds(db, body, env.(jwtSecret := Some("k")))
    ensures RegisterUser(db, body, env).response == Reply(SERVER_ERROR, RegisterServerError)
    ensures |RegisterUser(db, body, env).db.users| == |db.users| + 1
  {
    var env' := env.(jwtSecret := Some("k"));
    var username, email, password := body.username.value, body.email.value, body.password.value;
    RegisterCreatedIff(db, body, env');
    assert CreateUser(db, username, email, password, env') == CreateUser(db, username, email, password, env);
  }

  /** The rejection of login: no manual user with that e-mail, or a password that does not compare. */
  predicate BadCredentials(db: Db, email: string, password: string, h: Hasher) {
    var k := FindManualByEmail(db.users, email);
    k.None? || !ComparePassword(db.users[k.value], password, h)
  }

  /**
   * An unknown e-mail and a wrong password get the very same 401 response,
   * and that response is given for nothing else.
   */
  lemma LoginRejectionIndistinguishable(db: Db, body: LoginBody, env: Env)
    requires Truthy(body.email) && Truthy(body.password) && db.online
    ensures BadCredentials(db, body.email.value, body.password.value, env.hasher)
        <==> LoginUser(db, body, env).response == Reply(UNAUTHORIZED, WrongEmailOrPassword)
    ensures LoginUser(db, body, env).response.status == UNAUTHORIZED
        ==> LoginUser(db, body, env).response == Reply(UNAUTHORIZED, WrongEmailOrPassword)
  {
  }

  /**
   * Every stored manual user can log in: with the e-mail it was stored under
   * and a password bcrypt accepts for its digest, login answers 200 for that
   * very user, provided the store's unique indexes hold and a secret is set.
   */
  lemma StoredUserLogsIn(db: Db, k: nat, password: string, env: Env)
    requires db.online && UniqueIndexes(db.users)
    requires k < |db.users| && WellFormed(db.users[k]) && db.users[k].authMethod == Manual
    requires password != "" && ComparePassword(db.users[k], password, env.hasher)
    requires Truthy(env.jwtSecret)
    ensures var r := LoginUser(db, LoginBody(Some(db.users[k].email), Some(password)), env).response;
      && r.status == OK
      && r.body.id == db.users[k].id
  {
    var d := db.users[k];
    NormalEmailFixed(d.email);
    var found := FindManualByEmail(db.users, d.email);
    assert found.Some?;
    var m := found.value;
    assert db.users[m].email == d.email;
    assert m == k;
  }

  /** A user just registered can log in with the same e-mail and password, and gets a token for its id. */
  lemma RegisterThenLogin(db: Db, body: RegisterBody, env: Env, later: Env)
    requires HasherSound(env.hasher) && later.hasher == env.hasher && Truthy(later.jwtSecret)
    requires RegisterUser(db, body, env).response.status == CREATED
    ensures var db' := RegisterUser(db, body, env).db;
      var r := LoginUser(db', LoginBody(body.email, body.password), later);
      && r.response.status == OK
      && r.response.body.id == env.newId
      && r.response.body.token == GenerateToken(later.jwt, later.jwtSecret, env.newId, later.nowMs).value
  {
    var db' := RegisterUser(db, body, env).db;
    var email, password := body.email.value, body.password.value;
    var d :| db' == db.(users := db.users + [d]) && IsNewUser(d, body.username.value, email, password, env);
    var p := (u: UserDoc) => u.email == NormalizeEmail(email) && u.authMethod == Manual;
    assert forall k :: 0 <= k < |db.users| ==> !p(db.users[k]);
    FindFirstAppendFresh(db.users, d, p);
    assert FindManualByEmail(db'.users, email) == Some(|db.users|);
    assert db'.users[|db.users|] == d;
    assert ComparePassword(d, password, env.hasher);
  }
}
