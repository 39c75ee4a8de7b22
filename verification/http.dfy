/**
 * HTTP responses as the handlers produce them: a status code and a body.
 * The service's message texts are Arabic sentences; each distinct sentence
 * is one message kind here, and two places that send the same sentence use
 * the same kind.
 */
module Http {
  import opened Util

  const OK: nat := 200
  const CREATED: nat := 201
  const BAD_REQUEST: nat := 400
  const UNAUTHORIZED: nat := 401
  const NOT_FOUND: nat := 404
  const SERVER_ERROR: nat := 500
  const NOT_IMPLEMENTED: nat := 501

  datatype MsgKind =
    // Mongo-backed auth controller
    | EnterAllFields
    | UserAlreadyExists
    | InvalidUserData
    | EmailOrUsernameTaken
    | RegisterServerError
    | Registered
    | EnterEmailAndPassword
    | WrongEmailOrPassword
    | LoginServerError
    | LoggedIn
    | UserNotFound
    | GoogleAuthNotImplemented
    | GoogleCallbackNotImplemented
    // protect middleware
    | NotAuthorizedUserMissing
    | NotAuthorizedTokenInvalid
    | NotAuthorizedTokenExpired
    | NotAuthorizedTokenError
    | NotAuthorizedNoToken
    // in-memory auth router
    | AllFieldsRequired
    | EmailAlreadyUsed
    | RegistrationFailed
    | InvalidCredentials
    | LoginFailed
    // links router
    | EnterUrl
    | EnterValidUrl
    | QrCreationFailed
    | UrlRequired
    | QrDownloadFailed

  datatype Body =
    | Message(kind: MsgKind)
      /** `{_id, username, email, authMethod, token, message}` of the Mongo-backed register and login. */
    | Account(id: string, username: string, email: string, authMethod: string, token: string, kind: MsgKind)
      /** `{_id, username, email, authMethod}` of getMe. */
    | Profile(id: string, username: string, email: string, authMethod: string)
      /** `{id, name, email, token}` of the in-memory register and login. */
    | Member(id: string, name: string, email: string, token: string)
      /** `{linkId, qrCode}` of generate-qr. */
    | QrCode(linkId: string, qrCode: string)
      /** A binary download with its Content-Type and Content-Disposition headers. */
    | Attachment(contentType: string, disposition: string, data: seq<byte>)

  datatype Response = Response(status: nat, body: Body)

  function Reply(status: nat, kind: MsgKind): Response {
    Response(status, Message(kind))
  }

  /** The keys of the JSON object a body is serialised to (none for a binary download). */
  function Keys(b: Body): seq<string> {
    match b
    case Message(_) => ["message"]
    case Account(_, _, _, _, _, _) => ["_id", "username", "email", "authMethod", "token", "message"]
    case Profile(_, _, _, _) => ["_id", "username", "email", "authMethod"]
    case Member(_, _, _, _) => ["id", "name", "email", "token"]
    case QrCode(_, _) => ["linkId", "qrCode"]
    case Attachment(_, _, _) => []
  }

  /** No body shape the handlers send has a password key. */
  lemma NoPasswordKey(b: Body)
    ensures "password" !in Keys(b)
  {
  }
}
