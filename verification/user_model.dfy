/**
 * The Mongo user model: the schema's casting and validation rules, its
 * unique indexes, the pre-save hook that hashes the password, the
 * `comparePassword` method, and the store queries the auth code issues.
 */
module UserModel {
  import opened Util
  import opened Text
  import opened Crypto

  datatype AuthMethod = Manual | Google

  /** The enum strings of the `authMethod` path. */
  function MethodName(m: AuthMethod): string {
    match m
    case Manual => "manual"
    case Google => "google"
  }

  /** Enum membership: the method a string names, if it names one. */
  function ParseMethod(s: string): (r: Option<AuthMethod>)
    ensures r.Some? <==> s == "manual" || s == "google"
    ensures r.Some? ==> MethodName(r.value) == s
  {
    if s == "manual" then Some(Manual) else if s == "google" then Some(Google) else None
  }

  lemma ParseMethodName(m: AuthMethod)
    ensures ParseMethod(MethodName(m)) == Some(m)
  {
  }

  const USERNAME_MIN: nat := 4
  const USERNAME_MAX: nat := 25
  const PASSWORD_MIN: nat := 6

  /** A stored user document; once saved, `password` holds the bcrypt digest. */
  datatype UserDoc = UserDoc(
    id: string,
    username: string,
    email: string,
    password: Option<string>,
    authMethod: AuthMethod,
    googleId: Option<string>,
    createdAt: nat)

  /** A document as `select("-password")` returns it: every field but the password. */
  datatype PublicUser = PublicUser(
    id: string,
    username: string,
    email: string,
    authMethod: AuthMethod,
    googleId: Option<string>,
    createdAt: nat)

  function ToPublic(d: UserDoc): (p: PublicUser)
    ensures p.id == d.id && p.username == d.username && p.email == d.email
    ensures p.authMethod == d.authMethod && p.googleId == d.googleId && p.createdAt == d.createdAt
  {
    PublicUser(d.id, d.username, d.email, d.authMethod, d.googleId, d.createdAt)
  }

  /** The values a document is created from, before the schema casts them; None is undefined. */
  datatype UserInput = UserInput(
    username: Option<string>,
    email: Option<string>,
    password: Option<string>,
    authMethod: Option<string>,
    googleId: Option<string>)

  datatype Field = Username | Email | Password | Method

  /** The `trim` and `lowercase` setters of the `email` path. */
  function NormalizeEmail(e: string): string {
    Lower(Trim(e))
  }

  /** A normalised e-mail has no white space at either end and no capital letter. */
  predicate IsNormalEmail(e: string) {
    IsTrimmed(e) && NoUpper(e)
  }

  lemma NormalizeEmailNormal(e: string)
    ensures IsNormalEmail(NormalizeEmail(e))
  {
    LowerKeepsTrimmed(Trim(e));
    LowerNormalises(Trim(e));
  }

  /** Normalising an address that is already normal changes nothing. */
  lemma NormalEmailFixed(e: string)
    requires IsNormalEmail(e)
    ensures NormalizeEmail(e) == e
  {
    TrimOfTrimmed(e);
    LowerOfNoUpper(e);
  }

  lemma NormalizeEmailIdempotent(e: string)
    ensures NormalizeEmail(NormalizeEmail(e)) == NormalizeEmail(e)
  {
    NormalizeEmailNormal(e);
    NormalEmailFixed(NormalizeEmail(e));
  }

  /** The method a document gets: the given string, or the default "manual" when undefined. */
  function MethodString(m: Option<string>): string {
    if m.Some? then m.value else "manual"
  }

  /** `username`: required, trimmed, 4 to 25 characters after trimming. */
  predicate UsernameOk(u: Option<string>) {
    u.Some? && USERNAME_MIN <= |Trim(u.value)| <= USERNAME_MAX
  }

  /** `email`: required after normalisation, and matching the e-mail pattern (an opaque predicate here). */
  predicate EmailOk(e: Option<string>, pattern: string -> bool) {
    e.Some? && NormalizeEmail(e.value) != "" && pattern(NormalizeEmail(e.value))
  }

  /** `password`: required only for the manual method, and at least 6 characters whenever given. */
  predicate PasswordOk(p: Option<string>, methodName: string) {
    (methodName == "manual" ==> Truthy(p)) && (p.Some? ==> |p.value| >= PASSWORD_MIN)
  }

  /** `authMethod`: one of the enum strings (the default makes an undefined one "manual"). */
  predicate MethodOk(m: Option<string>) {
    ParseMethod(MethodString(m)).Some?
  }

  /** The fields whose verdict is false. */
  function Failing(usernameOk: bool, emailOk: bool, passwordOk: bool, methodOk: bool): (r: set<Field>)
    ensures Username in r <==> !usernameOk
    ensures Email in r <==> !emailOk
    ensures Password in r <==> !passwordOk
    ensures Method in r <==> !methodOk
  {
    (if usernameOk then {} else {Username}) + (if emailOk then {} else {Email})
    + (if passwordOk then {} else {Password}) + (if methodOk then {} else {Method})
  }

  /** Every field whose validators fail. */
  function Violations(input: UserInput, pattern: string -> bool): (r: set<Field>)
    ensures Username in r <==> !UsernameOk(input.username)
    ensures Email in r <==> !EmailOk(input.email, pattern)
    ensures Password in r <==> !PasswordOk(input.password, MethodString(input.authMethod))
    ensures Method in r <==> !MethodOk(input.authMethod)
  {
    Failing(UsernameOk(input.username), EmailOk(input.email, pattern),
            PasswordOk(input.password, MethodString(input.authMethod)), MethodOk(input.authMethod))
  }

  /**
   * Casting and validation of a new document: the setters run, the default
   * method is filled in, and either every validator passes or the set of
   * failing fields is reported.
   */
  function Validate(input: UserInput, id: string, createdAt: nat, pattern: string -> bool): (r: Result<UserDoc, set<Field>>)
    ensures r.Success? <==> Violations(input, pattern) == {}
    ensures r.Failure? ==> r.error == Violations(input, pattern) && r.error != {}
    ensures r.Success? ==> r.value.id == id && r.value.createdAt == createdAt
    ensures r.Success? ==> r.value.username == Trim(input.username.value)
    ensures r.Success? ==> r.value.email == NormalizeEmail(input.email.value)
    ensures r.Success? ==> r.value.password == input.password && r.value.googleId == input.googleId
    ensures r.Success? ==> MethodName(r.value.authMethod) == MethodString(input.authMethod)
  {
    var bad := Violations(input, pattern);
    if bad != {} then Failure(bad)
    else
      Success(UserDoc(id, Trim(input.username.value), NormalizeEmail(input.email.value), input.password,
                      ParseMethod(MethodString(input.authMethod)).value, input.googleId, createdAt))
  }

  /** The username and e-mail of every document the schema accepted. */
  predicate FieldsValid(d: UserDoc) {
    && IsTrimmed(d.username) && USERNAME_MIN <= |d.username| <= USERNAME_MAX
    && d.email != "" && IsNormalEmail(d.email)
  }

  /** What every document the schema accepted satisfies. */
  predicate WellFormed(d: UserDoc) {
    FieldsValid(d) && (d.authMethod == Manual ==> Truthy(d.password))
  }

  lemma ValidatedWellFormed(input: UserInput, id: string, createdAt: nat, pattern: string -> bool)
    requires Validate(input, id, createdAt, pattern).Success?
    ensures WellFormed(Validate(input, id, createdAt, pattern).value)
  {
    NormalizeEmailNormal(input.email.value);
  }

  /** Validation accepts exactly when all four rules hold; each rule's failure alone rejects. */
  lemma ValidateAcceptsIffRules(input: UserInput, id: string, createdAt: nat, pattern: string -> bool)
    ensures Validate(input, id, createdAt, pattern).Success?
        <==> UsernameOk(input.username) && EmailOk(input.email, pattern)
             && PasswordOk(input.password, MethodString(input.authMethod)) && MethodOk(input.authMethod)
  {
    var v := Violations(input, pattern);
    if !UsernameOk(input.username) { assert Username in v; }
    if !EmailOk(input.email, pattern) { assert Email in v; }
    if !PasswordOk(input.password, MethodString(input.authMethod)) { assert Password in v; }
    if !MethodOk(input.authMethod) { assert Method in v; }
  }

  /** The errors a store call can throw: only DuplicateKey carries MongoDB code 11000. */
  datatype StoreError = ValidationError(fields: set<Field>) | DuplicateKey | HashFailed | Unavailable

  /**
   * The `pre("save")` hook: hashes the password only when it was modified
   * and the method is manual; bcrypt rejects a missing password.
   */
  function PreSave(d: UserDoc, passwordModified: bool, h: Hasher): (r: Result<UserDoc, StoreError>)
    ensures !passwordModified || d.authMethod != Manual ==> r == Success(d)
    ensures r.Failure? ==> r.error == HashFailed && d.password.None?
    ensures r.Success? ==> r.value == d.(password := r.value.password)
    ensures r.Success? && r.value.password != d.password ==>
              passwordModified && d.authMethod == Manual && d.password.Some?
              && r.value.password == Some(h.hash(d.password.value))
    ensures passwordModified && d.authMethod == Manual && d.password.Some? ==>
              r == Success(d.(password := Some(h.hash(d.password.value))))
    ensures passwordModified && d.authMethod == Manual && d.password.None? ==> r == Failure(HashFailed)
  {
    if !passwordModified || d.authMethod != Manual then Success(d)
    else if d.password.None? then Failure(HashFailed)
    else Success(d.(password := Some(h.hash(d.password.value))))
  }

  /** The hook keeps the schema's guarantees. */
  lemma PreSaveWellFormed(d: UserDoc, passwordModified: bool, h: Hasher)
    requires WellFormed(d) && HasherSound(h)
    ensures PreSave(d, passwordModified, h).Success?
    ensures WellFormed(PreSave(d, passwordModified, h).value)
  {
  }

  /** `comparePassword`: false without consulting bcrypt unless the user is manual with a stored password. */
  function ComparePassword(d: UserDoc, entered: string, h: Hasher): (r: bool)
    ensures d.authMethod != Manual || !Truthy(d.password) ==> !r
    ensures d.authMethod == Manual && Truthy(d.password) ==> r == h.compare(entered, d.password.value)
  {
    if d.authMethod != Manual || !Truthy(d.password) then false
    else h.compare(entered, d.password.value)
  }

  /** A manual user saved with password `p` is matched by `p`. */
  lemma SavedPasswordMatches(input: UserInput, id: string, createdAt: nat, pattern: string -> bool, h: Hasher)
    requires HasherSound(h)
    requires Validate(input, id, createdAt, pattern).Success?
    requires Validate(input, id, createdAt, pattern).value.authMethod == Manual
    ensures var d := Validate(input, id, createdAt, pattern).value;
      && PreSave(d, true, h).Success?
      && ComparePassword(PreSave(d, true, h).value, input.password.value, h)
  {
  }

  /** Two documents that one of the unique indexes (_id, username, email, sparse googleId) forbids together. */
  predicate Conflict(a: UserDoc, b: UserDoc) {
    || a.id == b.id
    || a.username == b.username
    || a.email == b.email
    || (a.googleId.Some? && a.googleId == b.googleId)
  }

  predicate UniqueIndexes(users: seq<UserDoc>) {
    forall i, j :: 0 <= i < j < |users| ==> !Conflict(users[i], users[j])
  }

  /** The googleId index is sparse: users without one never collide on it, however many there are. */
  lemma SparseGoogleId(users: seq<UserDoc>)
    requires forall i :: 0 <= i < |users| ==> users[i].googleId.None?
    requires forall i, j :: 0 <= i < j < |users| ==>
               users[i].id != users[j].id && users[i].username != users[j].username && users[i].email != users[j].email
    ensures UniqueIndexes(users)
  {
  }

  /** The collection: the documents in insertion order, and whether the server can be reached. */
  datatype Db = Db(users: seq<UserDoc>, online: bool)

  /** Index enforcement on insert: MongoDB refuses a document with error code 11000 when an index forbids it. */
  function Insert(db: Db, d: UserDoc): (r: Result<Db, StoreError>)
    ensures r.Success? <==> forall k :: 0 <= k < |db.users| ==> !Conflict(db.users[k], d)
    ensures r.Success? ==> r.value == db.(users := db.users + [d])
    ensures r.Failure? ==> r.error == DuplicateKey
  {
    if exists k :: 0 <= k < |db.users| && Conflict(db.users[k], d) then Failure(DuplicateKey)
    else Success(db.(users := db.users + [d]))
  }

  lemma InsertKeepsUniqueIndexes(db: Db, d: UserDoc)
    requires UniqueIndexes(db.users)
    requires Insert(db, d).Success?
    ensures UniqueIndexes(Insert(db, d).value.users)
  {
    var users := Insert(db, d).value.users;
    forall i, j | 0 <= i < j < |users|
      ensures !Conflict(users[i], users[j])
    {
      if j == |db.users| {
        assert users[j] == d && users[i] == db.users[i];
      }
    }
  }

  /**
   * `Model.create(fields)`: cast and validate, run the pre-save hook (the
   * password counts as modified when it was given), then insert.
   */
  function Create(db: Db, input: UserInput, id: string, nowMs: nat, pattern: string -> bool, h: Hasher)
    : (r: Result<(Db, UserDoc), StoreError>)
    ensures !db.online ==> r == Failure(Unavailable)
    ensures r.Success? ==> r.value.0 == db.(users := db.users + [r.value.1])
    ensures r.Success? ==> Validate(input, id, nowMs, pattern).Success?
    ensures r.Success? ==> WellFormed(Validate(input, id, nowMs, pattern).value)
    ensures r.Success? ==> PreSave(Validate(input, id, nowMs, pattern).value, input.password.Some?, h) == Success(r.value.1)
    ensures r.Success? ==> forall k :: 0 <= k < |db.users| ==> !Conflict(db.users[k], r.value.1)
    ensures r.Failure? && r.error.ValidationError? ==> r.error.fields == Violations(input, pattern)
    ensures db.online && Violations(input, pattern) != {} ==>
              r == Failure(ValidationError(Violations(input, pattern)))
    ensures db.online && Violations(input, pattern) == {} ==>
              var hooked := PreSave(Validate(input, id, nowMs, pattern).value, input.password.Some?, h);
              && hooked.Success?
              && (r.Success? <==> forall k :: 0 <= k < |db.users| ==> !Conflict(db.users[k], hooked.value))
              && (r.Success? ==> r.value.1 == hooked.value)
              && (r.Failure? ==> r.error == DuplicateKey)
  {
    if !db.online then Failure(Unavailable)
    else
      match Validate(input, id, nowMs, pattern)
      case Failure(fields) => Failure(ValidationError(fields))
      case Success(d) =>
        ValidatedWellFormed(input, id, nowMs, pattern);
        match PreSave(d, input.password.Some?, h)
        case Failure(e) => Failure(e)
        case Success(saved) =>
          match Insert(db, saved)
          case Failure(e) => Failure(e)
          case Success(db') => Success((db', saved))
  }

  /** `findOne({email, authMethod: "manual"})`: the query value goes through the email setters too. */
  function FindManualByEmail(users: seq<UserDoc>, email: string): (r: Option<nat>)
    ensures r.Some? ==> r.value < |users| && users[r.value].email == NormalizeEmail(email)
                        && users[r.value].authMethod == Manual
    ensures r.None? ==> forall k :: 0 <= k < |users| ==>
              !(users[k].email == NormalizeEmail(email) && users[k].authMethod == Manual)
  {
    FindFirst(users, (d: UserDoc) => d.email == NormalizeEmail(email) && d.authMethod == Manual)
  }

  /** `findById(id)`: the first document with that id, or an error when the server is unreachable. */
  function FindById(db: Db, id: string): (r: Result<Option<UserDoc>, StoreError>)
    ensures !db.online <==> r.Failure?
    ensures r.Success? && r.value.Some? ==> r.value.value in db.users && r.value.value.id == id
    ensures r.Success? && r.value.None? ==> forall k :: 0 <= k < |db.users| ==> db.users[k].id != id
  {
    if !db.online then Failure(Unavailable)
    else
      match FindFirst(db.users, (d: UserDoc) => d.id == id)
      case None => Success(None)
      case Some(k) => Success(Some(db.users[k]))
  }
}
