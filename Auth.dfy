/** The API-key middleware that runs before every route (server.js:27-55). */
module Auth {
  import opened Responses
  import opened JsValues

  /** Paths served without a key. */
  const PublicRoutes: seq<string> := ["/", "/favicon.ico"]
  /** `PUBLIC_ROUTES.includes(path)`: the root and the favicon need no key. */
  predicate IsPublic(path: string)
    ensures IsPublic(path) <==> path == "/" || path == "/favicon.ico"
  {
    path in PublicRoutes
  }

  /** The key used when the environment does not configure one. */
  const DefaultApiKey := "secret-api-key"
  const BearerPrefix := "Bearer "

  /** The middleware either calls `next()` or answers with an error. */
  datatype Decision = Next | Deny(error: Error)

  /** `process.env.API_KEY || 'secret-api-key'`: an unset or empty variable
      falls back to the default, so the key in force is never empty. */
  function ApiKey(env: Option<string>): (key: string)
    ensures key != []
    ensures env.Some? && env.value != [] ==> key == env.value
    ensures env.None? || env.value == [] ==> key == DefaultApiKey
  {
    if env.Some? && env.value != [] then env.value else DefaultApiKey
  }

  /** The candidate key: the header without its `Bearer ` prefix, or the raw header. */
  function Token(header: string): (t: string)
    ensures StartsWith(header, BearerPrefix) ==> header == BearerPrefix + t
    ensures !StartsWith(header, BearerPrefix) ==> t == header
  {
    if StartsWith(header, BearerPrefix) then header[|BearerPrefix|..] else header
  }

  /** The decision for a request to `path` carrying the `Authorization`
      header `authHeader` when the configured key is `apiKey`. */
  function Gate(path: string, authHeader: Option<string>, apiKey: string): (d: Decision)
    ensures IsPublic(path) ==> d == Next
    ensures d.Deny? ==> d.error.status == 401
  {
    if IsPublic(path) then Next
    else if authHeader.None? || authHeader.value == [] then Deny(NoApiKey)
    else if Token(authHeader.value) == apiKey then Next
    else Deny(InvalidApiKey)
  }

  /** A protected path without a (non-empty) header is refused as keyless. */
  lemma MissingHeaderDenied(path: string, authHeader: Option<string>, apiKey: string)
    requires !IsPublic(path)
    requires authHeader.None? || authHeader.value == []
    ensures Gate(path, authHeader, apiKey) == Deny(NoApiKey)
  {
  }

  /** A request passes exactly when its path is public or its token is the key;
      every other request with a header is refused as carrying an invalid key. */
  lemma GateIff(path: string, authHeader: Option<string>, apiKey: string)
    ensures Gate(path, authHeader, apiKey) == Next <==>
      IsPublic(path) || (authHeader.Some? && authHeader.value != [] && Token(authHeader.value) == apiKey)
    ensures !IsPublic(path) && authHeader.Some? && authHeader.value != [] && Token(authHeader.value) != apiKey ==>
      Gate(path, authHeader, apiKey) == Deny(InvalidApiKey)
  {
  }

  /** `Authorization: Bearer <key>` is accepted for every key. */
  lemma BearerKeyAccepted(path: string, apiKey: string)
    ensures Gate(path, Some(BearerPrefix + apiKey), apiKey) == Next
  {
    StartsWithConcat(BearerPrefix, apiKey);
  }

  /** `Authorization: <key>` is accepted when the key itself is non-empty
      and does not begin with `Bearer `. */
  lemma RawKeyAccepted(path: string, apiKey: string)
    requires apiKey != []
    requires !StartsWith(apiKey, BearerPrefix)
    ensures Gate(path, Some(apiKey), apiKey) == Next
  {
  }

  /** A key that begins with `Bearer ` cannot be sent raw: the prefix is
      stripped and what is left is shorter than the key. */
  lemma RawBearerKeyRefused(path: string, apiKey: string)
    requires !IsPublic(path)
    requires StartsWith(apiKey, BearerPrefix)
    ensures Gate(path, Some(apiKey), apiKey) == Deny(InvalidApiKey)
  {
    assert |Token(apiKey)| < |apiKey|;
  }
}
