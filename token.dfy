/** Per-call bearer-token credentials attached to every outgoing request. */
module Token {
  import opened Common

  /** The metadata key that carries the credential. */
  const AuthorizationKey: string := "authorization"

  /** The scheme marker put in front of the token. */
  const BearerPrefix: string := "Bearer "

  /** A bearer token used as per-RPC credentials. */
  datatype TokenAuth = TokenAuth(token: string)

  /**
   * The request metadata for one call: a map with the single key
   * "authorization" whose value is "Bearer " followed by the token, and no
   * error. The request URIs passed in `uris` play no part.
   */
  function GetRequestMetadata(t: TokenAuth, uris: seq<string>): (r: (map<string, string>, Option<Error>))
    ensures r.1 == None
    ensures r.0.Keys == {AuthorizationKey}
    ensures |r.0[AuthorizationKey]| == |BearerPrefix| + |t.token|
    ensures r.0[AuthorizationKey][..|BearerPrefix|] == BearerPrefix
    ensures r.0[AuthorizationKey][|BearerPrefix|..] == t.token
  {
    (map[AuthorizationKey := BearerPrefix + t.token], None)
  }

  /** The credential does not insist on a secure transport. */
  function RequireTransportSecurity(t: TokenAuth): (required: bool)
    ensures !required
  {
    false
  }

  /**
   * The token a receiver reads back from request metadata: the value under
   * "authorization" with the "Bearer " marker taken off, if it has one.
   */
  function BearerToken(metadata: map<string, string>): (t: Option<string>)
    ensures t.Some? <==> AuthorizationKey in metadata
                         && |metadata[AuthorizationKey]| >= |BearerPrefix|
                         && metadata[AuthorizationKey][..|BearerPrefix|] == BearerPrefix
    ensures t.Some? ==> metadata[AuthorizationKey] == BearerPrefix + t.value
  {
    if AuthorizationKey in metadata then
      var v := metadata[AuthorizationKey];
      if |v| >= |BearerPrefix| && v[..|BearerPrefix|] == BearerPrefix then
        assert v == BearerPrefix + v[|BearerPrefix|..];
        Some(v[|BearerPrefix|..])
      else None
    else None
  }

  /** The token placed in the metadata is the token a receiver reads back. */
  lemma MetadataRoundTrip(t: TokenAuth, uris: seq<string>)
    ensures BearerToken(GetRequestMetadata(t, uris).0) == Some(t.token)
  {
    var v := GetRequestMetadata(t, uris).0[AuthorizationKey];
    assert v[|BearerPrefix|..] == t.token;
  }

  /** The metadata depends on the token only, not on the request URIs. */
  lemma MetadataIgnoresUris(t: TokenAuth, uris1: seq<string>, uris2: seq<string>)
    ensures GetRequestMetadata(t, uris1) == GetRequestMetadata(t, uris2)
  {
  }

  /** Different tokens give different metadata. */
  lemma MetadataDistinguishesTokens(t1: TokenAuth, t2: TokenAuth, uris: seq<string>)
    requires t1 != t2
    ensures GetRequestMetadata(t1, uris) != GetRequestMetadata(t2, uris)
  {
    MetadataRoundTrip(t1, uris);
    MetadataRoundTrip(t2, uris);
  }
}
