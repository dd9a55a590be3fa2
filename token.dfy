/** Reading the session token out of the create-token response. */
module Token {
  import opened Payload

  /** The response's `data` object, reduced to its `token` field. */
  datatype TokenData = TokenData(token: Option<string>)

  /** The decoded create-token response: its `data` field and its raw body text. */
  datatype TokenResponse = TokenResponse(data: Option<TokenData>, text: string)

  const NO_TOKEN_PREFIX := "No token in response: "

  /** `(r.json().get("data") or {}).get("token")`, raising when the token is falsy;
      the error carries the message of the `RuntimeError`. */
  function CreateStreamingToken(resp: TokenResponse): (r: Result<string, string>)
    ensures r.Ok? <==> resp.data.Some? && Truthy(resp.data.value.token)
    ensures r.Ok? ==> r.value != "" && resp.data.value.token == Some(r.value)
    ensures r.Err? ==> r.error == NO_TOKEN_PREFIX + resp.text
  {
    var data := if resp.data.Some? then resp.data.value else TokenData(None);
    var token := data.token;
    if !Truthy(token) then Err(NO_TOKEN_PREFIX + resp.text) else Ok(token.value)
  }
}
