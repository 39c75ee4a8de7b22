# QR code service back end: a Dafny model

A model of the request-handling layer of a small Express service. The service registers and logs in users, guards private routes with a JSON Web Token, and turns URLs into QR codes: a base64 data URI, a PNG download, or a one-page PDF. The model covers these pieces:

- **User schema** (`UserModel`): field rules, the pre-save hook and password comparison. Covers mongoose setters (trim, lowercase), validators (required, length bounds, enum, e-mail pattern), the `pre("save")` bcrypt hook, `comparePassword`, and the unique indexes enforced on insert. The collection is a sequence of documents plus an "is the server reachable" flag.
- **Mongo-backed auth controller** (`AuthController`): `registerUser`, `loginUser`, `getMe` and the two Google stubs. Each handler is a pure function from the store and the request to the new store and the response.
- **In-memory router mounted at `/api/auth`** (`AuthRoutes`): its `/register` and `/login` over the process-local `users` list.
- **`protect` middleware** (`AuthMiddleware`): a total decision function from the Authorization header, the store and the verifier to `next()` with a password-free user, or a 401 with one of five reasons.
- **Links router** (`LinksRoutes`): input checks in order, the data-URI and Content-Disposition strings, and the PDF page arithmetic. Also covers the header-character check Node applies to `res.set`.

Supporting modules:

- `Util`: Option, Result, bytes, JavaScript truthiness of a string field, first-match search.
- `Text`: ECMAScript `trim`, ASCII `toLowerCase`, `startsWith`, `split`/`join`, decimal rendering.
- `Base64`: section 4 of RFC 4648, with both round trips proved.
- `Crypto`: bcrypt and jsonwebtoken as function parameters, plus the facts the code relies on (`HasherSound`, `JwtSound`).
- `Http`: status codes, one message kind per distinct message sentence, and the response body shapes.

Library calls are parameters, not implementations:

- `hash`, `compare`, `sign`, `verify`
- the e-mail pattern and `new URL`
- `QRCode.toBuffer`, `embedPng`, `pdfDoc.save`
- the id MongoDB assigns, and `Date.now()`

## Model

| member | source | states |
|---|---|---|
| Util.FindFirst | src/routes/auth.routes.js:20 | `Array.prototype.find`: the result is the first index whose element matches; None means no element matches |
| Util.FindFirstAppendFresh | src/routes/auth.routes.js:20-39 | after an append to a list where nothing matched, the first match is the appended element when it matches, otherwise there is none |
| Text.Trim | src/models/user.model.js:5-20 | `trim` returns an infix of the input, with only white space cut from either end and none left at either end |
| Text.TrimIdempotent | src/models/user.model.js:5-20 | trimming twice is trimming once |
| Text.LowerNormalises | src/models/user.model.js:13-20 | after lower-casing no ASCII capital is left, and lower-casing again changes nothing |
| Text.LowerOfNoUpper | src/models/user.model.js:13-20 | lower-casing a string without ASCII capitals leaves it unchanged |
| Text.LowerKeepsTrimmed | src/models/user.model.js:13-20 | lower-casing a trimmed string leaves it trimmed |
| Text.JoinSplit | src/middleware/auth.middleware.js:10 | joining the fields of `split(" ")` gives back the header |
| Text.SplitJoin | src/middleware/auth.middleware.js:10 | splitting a join of space-free fields gives back exactly those fields |
| Text.DecimalString | src/routes/auth.routes.js:31 | `Date.now().toString()` is a non-empty string of digits with no leading zero |
| Text.DecimalRoundTrip | src/routes/links.routes.js:30 | the decimal id reads back as the clock value it came from |
| Base64.Encode | src/routes/links.routes.js:31 | the encoding is 4 characters per started group of 3 bytes, each from the alphabet or '=' |
| Base64.DecodeEncode | src/routes/links.routes.js:31 | decoding the encoding of any byte string gives it back |
| Base64.EncodeDecode | src/routes/links.routes.js:31 | every string the strict decoder accepts is the encoding of what it decodes to |
| Crypto.IssuedClaims | src/controllers/auth.controller.js:6-10 | the payload carries the given id and e-mail (none for the controller's `{id}` payload, the address for the router's `{id, email}`), is issued at the current second, and expires 30 days (2592000 s) later |
| Crypto.GenerateToken | src/controllers/auth.controller.js:6-10 | a token exists exactly when JWT_SECRET is set and non-empty, and is the signature of `{id}` with it |
| Crypto.TokenLifetime | src/controllers/auth.controller.js:6-10 | a generated token verifies to its id before 30 days have passed and is reported expired from then on |
| Crypto.RouterSecret | src/routes/auth.routes.js:42-46 | the router's signing key is never empty; it is JWT_SECRET whenever that is set |
| Crypto.RouterToken | src/routes/auth.routes.js:42-46 | the router's `jwt.sign` of `{id, email}` with JWT_SECRET or the fallback key is total and, under a sound signer, yields a non-empty token without spaces; its lifetime is stated by RouterTokenLifetime |
| Crypto.RouterTokenLifetime | src/routes/auth.routes.js:42-46 | the router's token (register, and the identical call at login) is a non-empty, space-free string that verifies to its id under the router's key before 30 days have passed and is reported expired from then on, whether or not JWT_SECRET is set |
| Http.NoPasswordKey | src/routes/auth.routes.js:49-54 | no response body shape has a `password` key |
| UserModel.ParseMethod | src/models/user.model.js:27-32 | exactly "manual" and "google" name a method |
| UserModel.ParseMethodName | src/models/user.model.js:27-32 | every method's name parses back to that method |
| UserModel.ToPublic | src/models/user.model.js:21-26 | `select("-password")` keeps every field except the password |
| UserModel.NormalizeEmailNormal | src/models/user.model.js:13-20 | a normalised e-mail is trimmed and has no ASCII capital |
| UserModel.NormalEmailFixed | src/models/user.model.js:13-20 | normalising an already trimmed, lower-case e-mail leaves it unchanged |
| UserModel.NormalizeEmailIdempotent | src/models/user.model.js:13-20 | normalising twice is normalising once |
| UserModel.Violations | src/models/user.model.js:3-41 | a field is reported exactly when its validator fails: username length after trim in [4, 25]; e-mail non-empty and matching the pattern; password present for the manual method and at least 6 long; method in the enum |
| UserModel.Validate | src/models/user.model.js:3-41 | a document is accepted exactly when no field is violated. An accepted document has the username trimmed, the e-mail trimmed and lower-cased, the method defaulted to "manual", and password and googleId as given |
| UserModel.ValidateAcceptsIffRules | src/models/user.model.js:3-41 | validation accepts exactly when all four field rules hold |
| UserModel.ValidatedWellFormed | src/models/user.model.js:5-32 | an accepted document has a trimmed 4-25 character username, a normal non-empty e-mail, and a password whenever it is manual |
| UserModel.PreSave | src/models/user.model.js:45-52 | when the password was modified and the method is manual, a present password becomes `hash(password)` and a missing one makes bcrypt fail; otherwise the document is unchanged; the hook never changes any other field |
| UserModel.PreSaveWellFormed | src/models/user.model.js:45-52 | the hook succeeds on every accepted document and keeps it well formed |
| UserModel.ComparePassword | src/models/user.model.js:55-58 | false without consulting bcrypt for a non-manual user or one with no stored password; otherwise exactly bcrypt's verdict on the entered password and the stored digest |
| UserModel.SavedPasswordMatches | src/models/user.model.js:45-58 | a manual user saved with password p is matched by p |
| UserModel.SparseGoogleId | src/models/user.model.js:33-37 | any number of users without a googleId satisfy every unique index, provided ids, usernames and e-mails are distinct |
| UserModel.Insert | src/models/user.model.js:5-37 | an insert succeeds exactly when no stored document shares its id, username, e-mail or a present googleId; a refused insert is the duplicate-key error |
| UserModel.InsertKeepsUniqueIndexes | src/models/user.model.js:5-37 | a successful insert keeps the collection free of index conflicts |
| UserModel.Create | src/models/user.model.js:3-52 | an unreachable server fails; on a reachable one, invalid fields give a validation error naming exactly the failing fields; valid fields are hooked and then inserted exactly when no stored document conflicts with the result, a conflict giving the duplicate-key error; a success appends that one document |
| UserModel.FindManualByEmail | src/controllers/auth.controller.js:68 | a user with the normalised e-mail and the manual method, or none when no such user exists |
| UserModel.FindById | src/middleware/auth.middleware.js:16 | the lookup fails exactly when the store is unreachable; a found user has the id, and none means no user has it |
| AuthController.FindExisting | src/controllers/auth.controller.js:23 | the duplicate query finds nothing exactly when no user has the normalised e-mail or the trimmed username |
| AuthController.RegisterFailure | src/controllers/auth.controller.js:47-54 | a thrown error is a 400 exactly when it is the duplicate-key error, and a 500 otherwise |
| AuthController.CreateUser | src/controllers/auth.controller.js:28-33 | a created user is appended: manual, with no googleId, the new id, the trimmed and normalised names, and the hashed password |
| AuthController.RegisterNew | src/controllers/auth.controller.js:28-54 | 201, 400 or 500; a 400 changes nothing; a failed create is answered by the catch block (400 for duplicate key, 500 for anything else) with the store unchanged; a stored user without a secret gets 500; a 201 body carries the stored user's fields and its generated token |
| AuthController.RegisterUser | src/controllers/auth.controller.js:15-55 | missing fields give 400 with the store unchanged. An unreachable store gives 500 with the store unchanged. When the duplicate query finds nothing and create throws, the answer is the catch block's: 400 for duplicate key, 500 otherwise. Any other 400 also changes nothing, and at most one new user is appended, and only when nobody had its e-mail or username. A 201 carries the new user's id, names, "manual" and the token for its id |
| AuthController.RegisterRejectsTaken | src/controllers/auth.controller.js:23-26 | a user with the same e-mail or the same username makes registration a 400 that changes nothing |
| AuthController.RegisterInvalidIsServerError | src/controllers/auth.controller.js:28-53 | present fields that nobody has taken but that the schema rejects make create throw a validation error, answered by the catch block's generic 500 with the store unchanged |
| AuthController.RegisterIdCollisionIsBadRequest | src/controllers/auth.controller.js:28-51 | valid, untaken fields under an id already in the collection make create throw code 11000, answered with the catch block's 400 and the store unchanged |
| AuthController.CreateDuplicateOnlyById | src/controllers/auth.controller.js:28-52 | after the duplicate query passed, a duplicate-key error can only come from an id already in use |
| AuthController.RegisterDuplicateKeyOnlyById | src/controllers/auth.controller.js:47-52 | the code-11000 400 is answered only when the new id was already taken |
| AuthController.CreateUserSucceeds | src/controllers/auth.controller.js:28-33 | the store accepts the new user when its fields validate, nobody has its e-mail or username, and the id is fresh |
| AuthController.CreateUserSucceedsOnlyIf | src/controllers/auth.controller.js:28-33 | the store accepts the new user only when its fields validate and the id is fresh |
| AuthController.RegisterCreatedIff | src/controllers/auth.controller.js:15-55 | 201 exactly when the fields are present, nothing is taken, the fields validate, the id is fresh, the store is reachable and JWT_SECRET is set |
| AuthController.RegisterKeepsUniqueIndexes | src/controllers/auth.controller.js:28-33 | registration keeps the collection free of index conflicts |
| AuthController.RegisterWithoutSecretStoresUser | src/controllers/auth.controller.js:28-54 | with JWT_SECRET unset, a registration that would otherwise succeed answers 500 yet leaves the user stored |
| AuthController.LoginUser | src/controllers/auth.controller.js:60-86 | login never changes the store; missing fields give 400; an unreachable store gives 500; with credentials that match a manual user, the answer is 200 exactly when JWT_SECRET is set and 500 otherwise; a 200 means the manual user the query found compared equal, and carries the token for its id |
| AuthController.StoredUserLogsIn | src/controllers/auth.controller.js:60-80 | every well-formed stored manual user (trimmed, lower-case e-mail and a valid username, as every document `Create` stores) logs in with its stored e-mail and any non-empty password bcrypt accepts for its digest, and the 200 answer is for that very user, while the unique indexes hold and a secret is set |
| AuthController.LoginRejectionIndistinguishable | src/controllers/auth.controller.js:68-81 | an unknown e-mail and a wrong password get the identical 401, and that 401 is given for nothing else |
| AuthController.RegisterThenLogin | src/controllers/auth.controller.js:15-86 | right after a successful registration, logging in with the same e-mail and password succeeds with the new id and a token for it |
| AuthController.GetMe | src/controllers/auth.controller.js:91-103 | 200 exactly when a user is attached, with exactly `_id, username, email, authMethod`; 404 otherwise |
| AuthController.GoogleAuth | src/controllers/auth.controller.js:112-116 | 501 whatever the request |
| AuthController.GoogleAuthCallback | src/controllers/auth.controller.js:121-130 | 501 whatever the request |
| AuthRoutes.FindByEmail | src/routes/auth.routes.js:20 | exact e-mail comparison; none exactly when no user has that e-mail |
| AuthRoutes.MemberOf | src/routes/auth.routes.js:42-54 | the body is the user's id, name and e-mail plus an `{id, email}` token signed with the router's key |
| AuthRoutes.Register | src/routes/auth.routes.js:10-59 | missing fields give 400 with the list unchanged; present fields with an e-mail already in the list give the 400 "e-mail already used" with the list unchanged; 201 exactly when all fields are present and no user has that e-mail. It then appends exactly one user with the clock id and `hash(password)`, and answers with that user |
| AuthRoutes.Login | src/routes/auth.routes.js:62-101 | the list never changes; 200 exactly when the first user with that e-mail compares equal, with the body of that first user; otherwise 400 |
| AuthRoutes.RegisterKeepsEmailsDistinct | src/routes/auth.routes.js:20-39 | registration keeps e-mails pairwise distinct |
| AuthRoutes.LoginIffMatchingUser | src/routes/auth.routes.js:72-81 | while e-mails are distinct, login succeeds exactly when some user has that e-mail and a matching digest |
| AuthRoutes.RepeatedNameAccepted | src/routes/auth.routes.js:20-23 | a taken name does not stop registration |
| AuthRoutes.StoredPasswordIsDigest | src/routes/auth.routes.js:26-39 | the stored password is the digest of the one sent, and it compares equal to it |
| AuthRoutes.MemberKeys | src/routes/auth.routes.js:49-54 | register and login bodies carry exactly `id, name, email, token` |
| AuthRoutes.LoginRejectionIndistinguishable | src/routes/auth.routes.js:72-81 | an unknown e-mail and a wrong password give the same 400 and message, and only they do |
| AuthRoutes.RegisterThenLogin | src/routes/auth.routes.js:10-101 | after a successful registration, logging in with the same e-mail and password answers 200 with the new user |
| AuthMiddleware.ExtractToken | src/middleware/auth.middleware.js:10 | there is a token exactly when the header contains a space; it is the text between the first space and the next space or the end of the header |
| AuthMiddleware.FieldAfterSpaceUnique | src/middleware/auth.middleware.js:10 | that description fixes the token: two space-free fields after the first space are the same field |
| AuthMiddleware.SplitFieldsWithoutSpace | src/middleware/auth.middleware.js:10 | `split(" ")` has a second field exactly when there is a space |
| AuthMiddleware.VerifyToken | src/middleware/auth.middleware.js:13 | a missing or empty token or secret is JsonWebTokenError; otherwise the library's verdict at the current second |
| AuthMiddleware.RejectionReply | src/middleware/auth.middleware.js:23-31 | each error name gets its own 401 message: invalid, expired, or the generic token error |
| AuthMiddleware.Protect | src/middleware/auth.middleware.js:4-38 | every outcome is `next()` or a 401. No Bearer-prefixed header gives "no token", and only then. A rejected token, an unreachable store and an unknown id get their own 401s. `next()` happens exactly when the token verifies to the id of a stored user, whose password-free record is attached |
| AuthMiddleware.SplitTwoWords | src/middleware/auth.middleware.js:10 | two space-free words joined by a space split back into them |
| AuthMiddleware.BearerOfExtracts | src/middleware/auth.middleware.js:7-10 | from `"Bearer " + token` the gate extracts exactly the token |
| AuthMiddleware.LooseSchemeAccepted | src/middleware/auth.middleware.js:7-10 | the prefix check is a plain `startsWith`: "BearerX tok" is looked into and yields "tok" |
| AuthMiddleware.SchemeWithoutToken | src/middleware/auth.middleware.js:7-27 | the header "Bearer" alone gets the invalid-token 401, not the no-token one |
| AuthMiddleware.ProtectedGetMeIsOk | src/controllers/auth.controller.js:91-103 | behind the gate getMe always answers 200; its 404 branch is unreachable |
| AuthMiddleware.IssuedTokenOpensGate | src/middleware/auth.middleware.js:7-30 | a generated token for a stored user opens the gate for that user before expiry, and gets the expired 401 afterwards |
| AuthMiddleware.RegisteredTokenOpensGate | src/middleware/auth.middleware.js:4-38 | the token returned by a successful registration opens the gate for the new user for 30 days, and is reported expired afterwards |
| LinksRoutes.DataUri | src/routes/links.routes.js:31 | the data URI starts with `data:image/png;base64,` and has the base64 length |
| LinksRoutes.DataUriRoundTrip | src/routes/links.routes.js:29-32 | parsing the data URI gives back exactly the rendered bytes |
| LinksRoutes.DataUriCanonical | src/routes/links.routes.js:31 | every parseable PNG data URI is the one built for its bytes |
| LinksRoutes.GenerateQr | src/routes/links.routes.js:9-37 | a missing url gives 400 and an unparseable one a different 400, both before rendering. A failed render gives 500, and only that does. 201 carries the decimal clock id and a data URI that decodes to the rendered bytes |
| LinksRoutes.LinkIdIsClock | src/routes/links.routes.js:30 | the link id reads back as the clock value |
| LinksRoutes.RejectionBeforeRendering | src/routes/links.routes.js:14-26 | a rejected url gets the same 400 whatever the renderer and the clock do |
| LinksRoutes.DispositionNamesId | src/routes/links.routes.js:52-55 | the filename is `qrcode-<id>` plus the extension, with the id recoverable verbatim from the header |
| LinksRoutes.DispositionValidAppend | src/routes/links.routes.js:52-55 | a header built around the id is acceptable to Node exactly when the id is |
| LinksRoutes.DispositionValidIff | src/routes/links.routes.js:106-109 | for both extensions the header is acceptable exactly when the path parameter is |
| LinksRoutes.DownloadPng | src/routes/links.routes.js:40-63 | 400 exactly when the url is missing, with no syntax check. 200 exactly when rendering succeeds and the id is a valid header value, carrying the rendered bytes as `image/png` with the attachment filename. Every other outcome with a url is the single 500 "download failed" |
| LinksRoutes.CentredImage | src/routes/links.routes.js:79-91 | the image is half the pixel size, with equal left/right and top/bottom margins on the 500-point page |
| LinksRoutes.ImageFitsIff | src/routes/links.routes.js:79-91 | the image lies within the page exactly when its scaled sides are at most 500 points (pixels at most 1000) |
| LinksRoutes.CaptionClearIff | src/routes/links.routes.js:86-100 | the caption band at y 50-62 is below the image exactly when the PNG is at most 752 pixels high |
| LinksRoutes.Caption | src/routes/links.routes.js:95 | the caption is the prefix followed by the url, so its length is the sum of theirs |
| LinksRoutes.Page | src/routes/links.routes.js:78-100 | one 500 x 500 page with the rendered PNG centred and the caption at (50, 50) in size 12 |
| LinksRoutes.DownloadPdf | src/routes/links.routes.js:66-117 | 400 exactly when the url is missing. 200 exactly when rendering, PNG reading and caption encoding succeed and the id is a valid header value, carrying the saved page as `application/pdf`. Every other outcome with a url is the single 500 "download failed" |
| LinksRoutes.DownloadsSkipUrlCheck | src/routes/links.routes.js:40-75 | a url that generate-qr rejects as malformed is still rendered by both downloads |
| LinksRoutes.CaptionNotWinAnsi | src/routes/links.routes.js:94-100 | no caption can be encoded in WinAnsi, since its first letter U+0627 is not in it |
| LinksRoutes.DownloadPdfAsWritten | src/routes/links.routes.js:66-117 | the handler as written, drawing the caption in the default Helvetica, never answers 200 |
| LinksRoutes.AsWrittenPdfAlwaysFails | src/routes/links.routes.js:94-100 | with the default font, every PDF request that passes the url check answers 500 |
| LinksRoutes.DownloadPdfDelivers | src/routes/links.routes.js:66-117 | with a font covering the caption, a renderable url yields the PDF with the centred image and the url printed verbatim after the prefix |

## Findings

| source | as written | input that shows it | evidently intended | confidence | as-written member | corrected member |
|---|---|---|---|---|---|---|
| src/routes/links.routes.js:94-100 | the caption, which starts with an Arabic word, is drawn without embedding a font, so pdf-lib uses standard Helvetica with WinAnsi encoding, which has no Arabic letters and throws | `GET /api/links/1/download-pdf?url=https://example.com` gives 500 | the PDF with the QR image and the captioned URL | high in the encoding argument; not executed | LinksRoutes.DownloadPdfAsWritten (exhibited by LinksRoutes.AsWrittenPdfAlwaysFails) | LinksRoutes.DownloadPdf with a font that covers the caption (LinksRoutes.DownloadPdfDelivers) |

## Left out

- I/O, the HTTP framework, JSON parsing and async scheduling. Each handler is one pure function, and concurrent requests and races on the store are not modelled.
- Request fields of types other than string (numbers, arrays, objects from JSON or repeated query keys). A field is absent, or a string. The 500 answers of the in-memory router (`RegistrationFailed`, `LoginFailed`) arise only from such inputs, so the model never produces them.
- The `error` detail (`error.message`) that the controller's 500 answers carry next to the message.
- The `else` branch of registerUser answering 400 "invalid user data". `User.create` either returns a document or throws, so the branch is unreachable and not modelled.
- Mongoose's CastError and other thrown errors besides validation, duplicate key, failed hashing and an unreachable server. Ids are plain strings here. A token id that is not an ObjectId makes `findById` throw, which `protect` would answer with the generic token-error 401.
- The e-mail regular expression: an opaque predicate. bcrypt salting and cost, JWT signing and signature checking: function parameters with only the facts in `HasherSound` and `JwtSound`.
- QR symbol encoding, PNG bytes and PDF serialisation: opaque parameters. pdf-lib's line splitting and tab replacement in `drawText` are not modelled; the caption is checked as one line. Captions wider than the page are drawn past its edge, and no wrapping policy is modelled.
- UserModel.UsernameOk: lengths are counted in code points. JavaScript counts UTF-16 code units, so the two differ for characters outside the Basic Multilingual Plane.
- UserModel.PasswordOk: the same code-point caveat as UsernameOk.
- Text.Lower: lower-cases ASCII letters only. `toLowerCase` also maps non-ASCII capitals.
- `createdAt` of the in-memory router is the millisecond clock, not a Date object. Two registrations in the same millisecond get the same id, because the router does not check id uniqueness.
- server.js (bootstrap, CORS, body parsing, mounting, the error middleware) and src/models/link.model.js (a schema no handler uses) are not part of this model.
- Behaviours of the code that a reader of the route names might not expect, which the model reproduces as written:
  - a schema validation failure during registration answers 500, not 400;
  - the download endpoints do not check URL syntax;
  - the router mounted at `/api/auth` is the in-memory one, whose duplicate check is by exact e-mail only.
