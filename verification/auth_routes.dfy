/**
 * The router mounted at /api/auth: registration and login over a plain
 * in-process list of users rather than the document store. E-mails are
 * compared exactly as given (no trimming or lowercasing), ids come from the
 * millisecond clock, and tokens are signed with JWT_SECRET or a built-in
 * fallback.
 */
module AuthRoutes {
  import opened Util
  import opened Text
  import opened Crypto
  import opened Http

  /** One element of the `users` list; `password` holds the bcrypt digest. */
  datatype MemUser = MemUser(id: string, name: string, email: string, password: string, createdAt: nat)

  datatype RegisterBody = RegisterBody(name: Option<string>, email: Option<string>, password: Option<string>)

  datatype LoginBody = LoginBody(email: Option<string>, password: Option<string>)

  /** The router's collaborators: bcrypt, jsonwebtoken, the JWT_SECRET setting and the clock in milliseconds. */
  datatype Env = Env(hasher: Hasher, jwt: Jwt, jwtSecret: Option<string>, nowMs: nat)

  datatype Routed = Routed(users: seq<MemUser>, response: Response)

  /** `users.find(user => user.email === email)`. */
  function FindByEmail(users: seq<MemUser>, email: string): (r: Option<nat>)
    ensures r.Some? ==> r.value < |users| && users[r.value].email == email
    ensures r.None? <==> forall k :: 0 <= k < |users| ==> users[k].email != email
  {
    FindFirst(users, (u: MemUser) => u.email == email)
  }

  /** The response body of both handlers: id, name, e-mail and a fresh token, never the digest. */
  function MemberOf(u: MemUser, env: Env): (b: Body)
    ensures b.Member? && b.id == u.id && b.name == u.name && b.email == u.email
    ensures b.token == RouterToken(env.jwt, env.jwtSecret, u.id, u.email, env.nowMs)
  {
    Member(u.id, u.name, u.email, RouterToken(env.jwt, env.jwtSecret, u.id, u.email, env.nowMs))
  }

  /** POST /register. */
  function Register(users: seq<MemUser>, body: RegisterBody, env: Env): (r: Routed)
    ensures !Truthy(body.name) || !Truthy(body.email) || !Truthy(body.password) ==>
              r == Routed(users, Reply(BAD_REQUEST, AllFieldsRequired))
    ensures r.response.status == CREATED || r.response.status == BAD_REQUEST
    ensures r.response.status == BAD_REQUEST <==> r.users == users
    ensures r.response.status == CREATED <==>
              Truthy(body.name) && Truthy(body.email) && Truthy(body.password)
              && forall k :: 0 <= k < |users| ==> users[k].email != body.email.value
    ensures r.response.status == CREATED ==>
              var u := MemUser(DecimalString(env.nowMs), body.name.value, body.email.value,
                               env.hasher.hash(body.password.value), env.nowMs);
              r.users == users + [u] && r.response.body == MemberOf(u, env)
    ensures r.response.status == BAD_REQUEST ==> r.response.body.Message?
    ensures Truthy(body.name) && Truthy(body.email) && Truthy(body.password)
            && (exists k :: 0 <= k < |users| && users[k].email == body.email.value) ==>
              r == Routed(users, Reply(BAD_REQUEST, EmailAlreadyUsed))
  {
    if !Truthy(body.name) || !Truthy(body.email) || !Truthy(body.password) then
      Routed(users, Reply(BAD_REQUEST, AllFieldsRequired))
    else if FindByEmail(users, body.email.value).Some? then
      Routed(users, Reply(BAD_REQUEST, EmailAlreadyUsed))
    else
      var u := MemUser(DecimalString(env.nowMs), body.name.value, body.email.value,
                       env.hasher.hash(body.password.value), env.nowMs);
      Routed(users + [u], Response(CREATED, MemberOf(u, env)))
  }

  /** POST /login. */
  function Login(users: seq<MemUser>, body: LoginBody, env: Env): (r: Routed)
    ensures r.users == users
    ensures !Truthy(body.email) || !Truthy(body.password) ==> r.response == Reply(BAD_REQUEST, AllFieldsRequired)
    ensures r.response.status == OK || r.response.status == BAD_REQUEST
    ensures r.response.status == OK <==>
              Truthy(body.email) && Truthy(body.password)
              && exists k :: 0 <= k < |users| && users[k].email == body.email.value
                             && (forall j :: 0 <= j < k ==> users[j].email != body.email.value)
                             && env.hasher.compare(body.password.value, users[k].password)
    ensures r.response.status == OK ==>
              exists k :: 0 <= k < |users| && users[k].email == body.email.value
                          && (forall j :: 0 <= j < k ==> users[j].email != body.email.value)
                          && r.response.body == MemberOf(users[k], env)
  {
    if !Truthy(body.email) || !Truthy(body.password) then
      Routed(users, Reply(BAD_REQUEST, AllFieldsRequired))
    else
      match FindByEmail(users, body.email.value)
      case None => Routed(users, Reply(BAD_REQUEST, InvalidCredentials))
      case Some(k) =>
        if env.hasher.compare(body.password.value, users[k].password) then
          Routed(users, Response(OK, MemberOf(users[k], env)))
        else
          Routed(users, Reply(BAD_REQUEST, InvalidCredentials))
  }

  /** No two users of the list share an e-mail. */
  predicate EmailsDistinct(users: seq<MemUser>) {
    forall i, j :: 0 <= i < j < |users| ==> users[i].email != users[j].email
  }

  /** Registration keeps e-mails pairwise distinct. */
  lemma RegisterKeepsEmailsDistinct(users: seq<MemUser>, body: RegisterBody, env: Env)
    requires EmailsDistinct(users)
    ensures EmailsDistinct(Register(users, body, env).users)
  {
    var r := Register(users, body, env);
    if r.response.status == CREATED {
      forall i, j | 0 <= i < j < |r.users|
        ensures r.users[i].email != r.users[j].email
      {
        if j == |users| {
          assert r.users[i] == users[i];
        } else {
          assert r.users[i] == users[i] && r.users[j] == users[j];
        }
      }
    }
  }

  /**
   * While e-mails are distinct, login succeeds exactly when some user has
   * that e-mail and a digest matching the password.
   */
  lemma LoginIffMatchingUser(users: seq<MemUser>, body: LoginBody, env: Env)
    requires EmailsDistinct(users)
    requires Truthy(body.email) && Truthy(body.password)
    ensures Login(users, body, env).response.status == OK <==>
              exists k :: 0 <= k < |users| && users[k].email == body.email.value
                          && env.hasher.compare(body.password.value, users[k].password)
  {
    var email, password := body.email.value, body.password.value;
    if k :| 0 <= k < |users| && users[k].email == email && env.hasher.compare(password, users[k].password) {
      forall j | 0 <= j < k
        ensures users[j].email != email
      {
        assert users[j].email != users[k].email;
      }
    }
  }

  /** Only the e-mail is checked for duplicates: a second user with a taken name is accepted. */
  lemma RepeatedNameAccepted(users: seq<MemUser>, body: RegisterBody, env: Env, k: nat)
    requires Truthy(body.name) && Truthy(body.email) && Truthy(body.password)
    requires k < |users| && users[k].name == body.name.value
    requires forall j :: 0 <= j < |users| ==> users[j].email != body.email.value
    ensures Register(users, body, env).response.status == CREATED
    ensures |Register(users, body, env).users| == |users| + 1
  {
  }

  /** A created user's stored password is the digest of the one sent, not the one sent. */
  lemma StoredPasswordIsDigest(users: seq<MemUser>, body: RegisterBody, env: Env)
    requires HasherSound(env.hasher)
    requires Register(users, body, env).response.status == CREATED
    ensures var u := Register(users, body, env).users[|users|];
      && u.password == env.hasher.hash(body.password.value)
      && env.hasher.compare(body.password.value, u.password)
  {
  }

  /** Both handlers' bodies carry exactly id, name, email and token. */
  lemma MemberKeys(users: seq<MemUser>, rb: RegisterBody, lb: LoginBody, env: Env)
    ensures var r := Register(users, rb, env).response;
      r.status == CREATED ==> Keys(r.body) == ["id", "name", "email", "token"]
    ensures var r := Login(users, lb, env).response;
      r.status == OK ==> Keys(r.body) == ["id", "name", "email", "token"]
  {
  }

  /** The credentials that cannot log in: no user with that e-mail, or the first such user's digest does not match. */
  predicate BadCredentials(users: seq<MemUser>, email: string, password: string, h: Hasher) {
    match FindByEmail(users, email)
    case None => true
    case Some(k) => !h.compare(password, users[k].password)
  }

  /** An unknown e-mail and a wrong password get one and the same answer. */
  lemma LoginRejectionIndistinguishable(users: seq<MemUser>, body: LoginBody, env: Env)
    requires Truthy(body.email) && Truthy(body.password)
    ensures BadCredentials(users, body.email.value, body.password.value, env.hasher) <==>
              Login(users, body, env).response == Reply(BAD_REQUEST, InvalidCredentials)
  {
  }

  /**
   * Register then login with the same e-mail and password succeeds and
   * returns the new user, whatever the clock reads at login.
   */
  lemma RegisterThenLogin(users: seq<MemUser>, body: RegisterBody, env: Env, later: Env)
    requires HasherSound(env.hasher) && later.hasher == env.hasher
    requires Register(users, body, env).response.status == CREATED
    ensures var users' := Register(users, body, env).users;
      Login(users', LoginBody(body.email, body.password), later)
        == Routed(users', Response(OK, MemberOf(users'[|users|], later)))
  {
    var users' := Register(users, body, env).users;
    var email := body.email.value;
    var p := (u: MemUser) => u.email == email;
    assert users' == users + [users'[|users|]];
    FindFirstAppendFresh(users, users'[|users|], p);
    assert FindByEmail(users', email) == Some(|users|);
  }
}
