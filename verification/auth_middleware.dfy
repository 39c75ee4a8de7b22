/**
 * The `protect` middleware: a gate in front of the protected routes. It
 * reads a bearer token from the Authorization header (the scheme of section
 * 2.1 of RFC 6750, checked loosely), verifies it, loads the user it names
 * without the password, and either lets the request through or answers 401
 * with one of five reasons.
 */
module AuthMiddleware {
  import opened Util
  import opened Text
  import opened Crypto
  import opened Http
  import opened UserModel
  import AuthController

  /** What the gate does: call `next()` with the loaded user attached, or answer. */
  datatype Gate = Next(user: PublicUser) | Deny(response: Response)

  /**
   * `authorization.split(" ")[1]`: the text between the first space and the
   * next space or the end of the header, undefined when there is no space.
   */
  function ExtractToken(header: string): (r: Option<string>)
    ensures r.Some? <==> ' ' in header
    ensures r.Some? ==> ' ' !in r.value
    ensures r.Some? ==> exists i :: FieldAfterSpace(header, i, r.value)
  {
    var fields := Split(header, ' ');
    SplitFieldsWithoutSpace(header);
    if |fields| >= 2 then
      SecondFieldAfterFirstSpace(header);
      Some(fields[1])
    else None
  }

  /** Position `i` holds the first space of `header`, and `t` runs from just after it up to the next space or the end. */
  predicate FieldAfterSpace(header: string, i: nat, t: string) {
    && i < |header| && header[i] == ' ' && ' ' !in header[..i]
    && StartsWith(header[i + 1..], t)
    && (i + 1 + |t| == |header| || header[i + 1 + |t|] == ' ')
  }

  /** The first space and a space-free field after it determine the field: ExtractToken's contract fixes its value. */
  lemma FieldAfterSpaceUnique(header: string, i: nat, t: string, i': nat, t': string)
    requires FieldAfterSpace(header, i, t) && ' ' !in t
    requires FieldAfterSpace(header, i', t') && ' ' !in t'
    ensures i == i' && t == t'
  {
  }

  /** The second field of a split starts right after the first space. */
  lemma SecondFieldAfterFirstSpace(header: string)
    requires |Split(header, ' ')| >= 2
    ensures FieldAfterSpace(header, |Split(header, ' ')[0]|, Split(header, ' ')[1])
  {
    var fields := Split(header, ' ');
    var a, t := fields[0], fields[1];
    JoinSplit(header, ' ');
    var tail := if |fields| == 2 then "" else [' '] + Join(fields[2..], ' ');
    assert fields[1..][1..] == fields[2..];
    assert Join(fields[1..], ' ') == t + tail;
    assert header == a + [' '] + (t + tail);
    assert header[..|a|] == a;
    assert header[|a| + 1..] == t + tail;
  }

  /** A string splits into more than one field exactly when it contains the separator. */
  lemma {:induction false} SplitFieldsWithoutSpace(s: string)
    ensures |Split(s, ' ')| >= 2 <==> ' ' in s
  {
    if |s| > 0 {
      SplitFieldsWithoutSpace(s[1..]);
      assert ' ' in s <==> s[0] == ' ' || ' ' in s[1..];
    }
  }

  /**
   * `jwt.verify(token, JWT_SECRET)`: jsonwebtoken rejects a missing or empty
   * token and a missing or empty secret with JsonWebTokenError before looking
   * at the token; otherwise the library decides.
   */
  function VerifyToken(j: Jwt, token: Option<string>, secret: Option<string>, nowMs: nat): (v: Verdict)
    ensures !Truthy(token) || !Truthy(secret) ==> v == Rejected(JsonWebTokenError)
    ensures Truthy(token) && Truthy(secret) ==> v == j.verify(token.value, secret.value, Seconds(nowMs))
  {
    if !Truthy(token) || !Truthy(secret) then Rejected(JsonWebTokenError)
    else j.verify(token.value, secret.value, Seconds(nowMs))
  }

  /** The 401 the catch block picks for an error's name. */
  function RejectionReply(name: ErrorName): (r: Response)
    ensures r.status == UNAUTHORIZED
    ensures name == JsonWebTokenError <==> r.body == Message(NotAuthorizedTokenInvalid)
    ensures name == TokenExpiredError <==> r.body == Message(NotAuthorizedTokenExpired)
    ensures name == OtherError <==> r.body == Message(NotAuthorizedTokenError)
  {
    match name
    case JsonWebTokenError => Reply(UNAUTHORIZED, NotAuthorizedTokenInvalid)
    case TokenExpiredError => Reply(UNAUTHORIZED, NotAuthorizedTokenExpired)
    case OtherError => Reply(UNAUTHORIZED, NotAuthorizedTokenError)
  }

  /** The request carries a header the gate looks into: present, non-empty, and starting with "Bearer". */
  predicate BearerHeader(header: Option<string>) {
    Truthy(header) && StartsWith(header.value, "Bearer")
  }

  /** The verdict the gate reaches for a header it looks into. */
  function HeaderVerdict(header: string, j: Jwt, secret: Option<string>, nowMs: nat): Verdict {
    VerifyToken(j, ExtractToken(header), secret, nowMs)
  }

  /** `protect`. */
  function Protect(header: Option<string>, db: Db, j: Jwt, secret: Option<string>, nowMs: nat): (r: Gate)
    ensures r.Deny? ==> r.response.status == UNAUTHORIZED && r.response.body.Message?
    ensures !BearerHeader(header) ==> r == Deny(Reply(UNAUTHORIZED, NotAuthorizedNoToken))
    ensures BearerHeader(header) ==> r != Deny(Reply(UNAUTHORIZED, NotAuthorizedNoToken))
    ensures BearerHeader(header) ==>
              var v := HeaderVerdict(header.value, j, secret, nowMs);
              && (v.Rejected? ==> r == Deny(RejectionReply(v.name)))
              && (v.Verified? && !db.online ==> r == Deny(Reply(UNAUTHORIZED, NotAuthorizedTokenError)))
              && ((v.Verified? && db.online && forall k :: 0 <= k < |db.users| ==> db.users[k].id != v.id)
                  ==> r == Deny(Reply(UNAUTHORIZED, NotAuthorizedUserMissing)))
    ensures r.Next? <==>
              BearerHeader(header) && db.online
              && exists k :: 0 <= k < |db.users|
                             && HeaderVerdict(header.value, j, secret, nowMs) == Verified(db.users[k].id)
    ensures r.Next? ==> exists k :: 0 <= k < |db.users| && r.user == ToPublic(db.users[k])
                                    && HeaderVerdict(header.value, j, secret, nowMs) == Verified(db.users[k].id)
  {
    if !BearerHeader(header) then Deny(Reply(UNAUTHORIZED, NotAuthorizedNoToken))
    else
      match HeaderVerdict(header.value, j, secret, nowMs)
      case Rejected(name) => Deny(RejectionReply(name))
      case Verified(id) =>
        match FindById(db, id)
        case Failure(_) => Deny(Reply(UNAUTHORIZED, NotAuthorizedTokenError))
        case Success(None) => Deny(Reply(UNAUTHORIZED, NotAuthorizedUserMissing))
        case Success(Some(d)) => Next(ToPublic(d))
  }

  /** The header the clients send: the scheme, one space, the token. */
  function BearerOf(token: string): string {
    "Bearer " + token
  }

  /** Two space-free words joined by one space split back into those two words. */
  lemma SplitTwoWords(a: string, b: string)
    requires ' ' !in a && ' ' !in b
    ensures Split(a + [' '] + b, ' ') == [a, b]
  {
    var fields := [a, b];
    assert fields[1..] == [b];
    assert Join(fields, ' ') == a + [' '] + b;
    SplitJoin(fields, ' ');
  }

  /** From a header built as "Bearer " + token, the gate extracts exactly that token. */
  lemma BearerOfExtracts(token: string)
    requires ' ' !in token
    ensures BearerHeader(Some(BearerOf(token)))
    ensures ExtractToken(BearerOf(token)) == Some(token)
  {
    assert BearerOf(token) == "Bearer" + [' '] + token;
    SplitTwoWords("Bearer", token);
    assert BearerOf(token)[..6] == "Bearer";
  }

  /**
   * The prefix check is a plain `startsWith("Bearer")`: a header whose
   * scheme word merely begins with "Bearer" is looked into as well.
   */
  lemma LooseSchemeAccepted()
    ensures BearerHeader(Some("BearerX tok"))
    ensures ExtractToken("BearerX tok") == Some("tok")
  {
    assert "BearerX tok"[..6] == "Bearer";
    assert "BearerX tok" == "BearerX" + [' '] + "tok";
    SplitTwoWords("BearerX", "tok");
  }

  /** A header of the scheme word alone yields no token, which jsonwebtoken rejects as invalid, not as missing. */
  lemma SchemeWithoutToken(db: Db, j: Jwt, secret: Option<string>, nowMs: nat)
    ensures Protect(Some("Bearer"), db, j, secret, nowMs) == Deny(Reply(UNAUTHORIZED, NotAuthorizedTokenInvalid))
  {
    assert "Bearer"[..6] == "Bearer";
  }

  /** Behind the gate, getMe always finds its user: the 404 branch is unreachable. */
  lemma ProtectedGetMeIsOk(header: Option<string>, db: Db, j: Jwt, secret: Option<string>, nowMs: nat)
    requires Protect(header, db, j, secret, nowMs).Next?
    ensures var u := Protect(header, db, j, secret, nowMs).user;
      AuthController.GetMe(Some(u)).status == OK
  {
  }

  /**
   * A token issued for a stored user opens the gate for that user until it
   * expires, and is reported expired from then on.
   */
  lemma IssuedTokenOpensGate(db: Db, j: Jwt, secret: Option<string>, d: UserDoc, issuedMs: nat, nowMs: nat)
    requires JwtSound(j) && Truthy(secret)
    requires FindById(db, d.id) == Success(Some(d))
    ensures var header := Some(BearerOf(GenerateToken(j, secret, d.id, issuedMs).value));
      && (Seconds(nowMs) < Seconds(issuedMs) + TOKEN_LIFETIME ==>
            Protect(header, db, j, secret, nowMs) == Next(ToPublic(d)))
      && (Seconds(nowMs) >= Seconds(issuedMs) + TOKEN_LIFETIME ==>
            Protect(header, db, j, secret, nowMs) == Deny(Reply(UNAUTHORIZED, NotAuthorizedTokenExpired)))
  {
    var token := GenerateToken(j, secret, d.id, issuedMs).value;
    assert ' ' !in token && token != "";
    BearerOfExtracts(token);
    TokenLifetime(j, secret, d.id, issuedMs, nowMs);
    assert HeaderVerdict(BearerOf(token), j, secret, nowMs) == j.verify(token, secret.value, Seconds(nowMs));
  }

  /**
   * End to end over the document store: the token a successful registration
   * returns opens the gate for the new user during the thirty days after
   * issue, and is reported expired from then on.
   */
  lemma RegisteredTokenOpensGate(db: Db, body: AuthController.RegisterBody, env: AuthController.Env, nowMs: nat)
    requires JwtSound(env.jwt)
    requires AuthController.RegisterUser(db, body, env).response.status == CREATED
    ensures var r := AuthController.RegisterUser(db, body, env);
      var header := Some(BearerOf(r.response.body.token));
      var d := r.db.users[|db.users|];
      && (Seconds(nowMs) < Seconds(env.nowMs) + TOKEN_LIFETIME ==>
            Protect(header, r.db, env.jwt, env.jwtSecret, nowMs) == Next(ToPublic(d)))
      && (Seconds(nowMs) >= Seconds(env.nowMs) + TOKEN_LIFETIME ==>
            Protect(header, r.db, env.jwt, env.jwtSecret, nowMs) == Deny(Reply(UNAUTHORIZED, NotAuthorizedTokenExpired)))
  {
    var r := AuthController.RegisterUser(db, body, env);
    AuthController.RegisterCreatedIff(db, body, env);
    var d :| r.db == db.(users := db.users + [d])
             && AuthController.IsNewUser(d, body.username.value, body.email.value, body.password.value, env);
    assert r.db.users[|db.users|] == d;
    assert r.db.users[|r.db.users| - 1] == d;
    assert r.response.body.token == GenerateToken(env.jwt, env.jwtSecret, d.id, env.nowMs).value;
    var p := (u: UserDoc) => u.id == d.id;
    FindFirstAppendFresh(db.users, d, p);
    assert FindById(r.db, d.id) == Success(Some(d));
    IssuedTokenOpensGate(r.db, env.jwt, env.jwtSecret, d, env.nowMs, nowMs);
  }
}
