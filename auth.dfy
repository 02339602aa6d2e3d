/** The API-key gate applied to every request. */
module Auth {
  import opened Models

  /** The shared secret every request must present. */
  const ExpectedApiKey: string := "mi-api-key-secreta"

  /** The gate's decision: the key is accepted, or the request is refused
      with an HTTP status. */
  datatype AuthResult = Accepted(key: string) | Unauthorized(status: int)

  /** `require_api_key`: a missing header is refused with 401, a wrong key
      with 403, and the expected key is accepted and handed back. */
  function RequireApiKey(header: Option<string>): (r: AuthResult)
    ensures header.None? <==> r == Unauthorized(401)
    ensures (header.Some? && header.value != ExpectedApiKey) <==> r == Unauthorized(403)
    ensures header == Some(ExpectedApiKey) <==> r.Accepted?
    ensures r.Accepted? ==> r.key == ExpectedApiKey
  {
    match header
    case None => Unauthorized(401)
    case Some(k) => if k != ExpectedApiKey then Unauthorized(403) else Accepted(k)
  }
}
