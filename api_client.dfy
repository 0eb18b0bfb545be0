/**
 * The outcomes of the two fetch wrappers in frontend/src/api/client.ts, as the
 * two page flows see them. The HTTP exchange itself is an input: a network
 * failure (fetch rejects) or a status with its parsed JSON body.
 */
module ApiClient {
  import opened Wrappers
  import opened SecretSchemas

  const NOT_FOUND_MESSAGE: string := "Secret not found or no longer available"

  datatype Http<T> = NetworkFailure(message: string) | Response(status: int, statusText: string, body: T)

  /** `response.ok`. */
  predicate ResponseOk(status: int) {
    200 <= status <= 299
  }

  /** `createSecret`: the new id, or the message it throws. */
  function CreateSecret(reply: Http<CreateSecretResponse>): (r: Result<string, string>)
    ensures r.Ok? <==> reply.Response? && ResponseOk(reply.status)
    ensures r.Ok? ==> r.value == reply.body.id
    ensures reply.Response? && !ResponseOk(reply.status) ==> r == Err("Failed to create secret: " + reply.statusText)
    ensures reply.NetworkFailure? ==> r == Err(reply.message)
  {
    match reply
    case NetworkFailure(message) => Err(message)
    case Response(status, statusText, body) =>
      if !ResponseOk(status) then Err("Failed to create secret: " + statusText) else Ok(body.id)
  }

  /** `getSecret`: the envelope, or the message it throws; a 404 gets the one not-found message. */
  function GetSecret(reply: Http<GetSecretResponse>): (r: Result<GetSecretResponse, string>)
    ensures r.Ok? <==> reply.Response? && ResponseOk(reply.status)
    ensures r.Ok? ==> r.value == reply.body
    ensures reply.Response? && reply.status == 404 ==> r == Err(NOT_FOUND_MESSAGE)
    ensures reply.Response? && reply.status != 404 && !ResponseOk(reply.status) ==>
      r == Err("Failed to retrieve secret: " + reply.statusText)
    ensures reply.NetworkFailure? ==> r == Err(reply.message)
  {
    match reply
    case NetworkFailure(message) => Err(message)
    case Response(status, statusText, body) =>
      if status == 404 then Err(NOT_FOUND_MESSAGE)
      else if !ResponseOk(status) then Err("Failed to retrieve secret: " + statusText)
      else Ok(body)
  }
}
