/** `authenticate` and `refresh_token`: the pair of tokens the collector holds
    and how a token reply replaces it. */
module Session {
  import opened Common
  import opened Json

  /** ACCESS_TOKEN and REFRESH_TOKEN; both start as Python's `None`. */
  datatype Tokens = Tokens(access: Option<Value>, refresh: Option<Value>)

  const Initial: Tokens := Tokens(None, None)

  /** What a POST to a token endpoint gives back: a status and the decoded
      JSON object, or an exception from the HTTP library. */
  datatype TokenReply = TokenReply(status: int, body: Record) | TokenUnreachable

  /** The tokens after a call, and the exception it raised, if any. */
  datatype Step = Step(tokens: Tokens, failure: Option<Failure>)

  /** A reply that grants tokens: status 200 and both fields present. */
  predicate Grants(reply: TokenReply) {
    reply.TokenReply? && reply.status == 200 &&
    Lookup(reply.body, "access_token").Some? && Lookup(reply.body, "refresh_token").Some?
  }

  /** The shared body of both calls. On a granting reply the two tokens are
      taken from it together; otherwise the call raises and both stay as they
      were. `refused` is the exception a non-200 status raises. A missing
      field raises KeyError before either global is assigned, because Python
      builds the whole right-hand tuple first. */
  function Apply(t: Tokens, reply: TokenReply, refused: Failure): (s: Step)
    ensures s.failure.None? <==> Grants(reply)
    ensures s.failure.Some? ==> s.tokens == t
    ensures Grants(reply) ==>
      s.tokens == Tokens(Lookup(reply.body, "access_token"), Lookup(reply.body, "refresh_token"))
    ensures reply.TokenReply? && reply.status != 200 ==> s.failure == Some(refused)
    ensures reply.TokenUnreachable? ==> s.failure == Some(ConnectionFailed)
    ensures reply.TokenReply? && reply.status == 200 && Lookup(reply.body, "access_token").None? ==>
      s.failure == Some(MissingKey("access_token"))
    ensures (reply.TokenReply? && reply.status == 200 &&
             Lookup(reply.body, "access_token").Some? && Lookup(reply.body, "refresh_token").None?) ==>
      s.failure == Some(MissingKey("refresh_token"))
  {
    match reply
    case TokenUnreachable => Step(t, Some(ConnectionFailed))
    case TokenReply(status, body) =>
      if status != 200 then Step(t, Some(refused))
      else
        match (Lookup(body, "access_token"), Lookup(body, "refresh_token"))
        case (None, _) => Step(t, Some(MissingKey("access_token")))
        case (Some(_), None) => Step(t, Some(MissingKey("refresh_token")))
        case (Some(a), Some(r)) => Step(Tokens(Some(a), Some(r)), None)
  }

  /** `authenticate()`: the reply of the init endpoint replaces both tokens on
      status 200 and raises "Authentication failed" otherwise. */
  function Authenticate(t: Tokens, reply: TokenReply): (s: Step)
    ensures s.failure.None? <==> Grants(reply)
    ensures s.failure.Some? ==> s.tokens == t
    ensures Grants(reply) ==>
      s.tokens == Tokens(Lookup(reply.body, "access_token"), Lookup(reply.body, "refresh_token"))
    ensures reply.TokenReply? && reply.status != 200 ==> s.failure == Some(AuthenticationFailed)
  {
    Apply(t, reply, AuthenticationFailed)
  }

  /** The JSON value the refresh request carries in its `token` field:
      the current refresh token, or `null` while there is none. */
  function Sent(t: Tokens): Value {
    match t.refresh
    case None => Null
    case Some(v) => v
  }

  /** `refresh_token()`: the refresh endpoint, modelled as `exchange`, receives
      the current refresh token; its reply replaces both tokens on status 200
      and raises "Token refresh failed" otherwise. */
  function Refresh(t: Tokens, exchange: Value -> TokenReply): (s: Step)
    ensures s.failure.None? <==> Grants(exchange(Sent(t)))
    ensures s.failure.Some? ==> s.tokens == t
    ensures Grants(exchange(Sent(t))) ==>
      s.tokens == Tokens(Lookup(exchange(Sent(t)).body, "access_token"),
                         Lookup(exchange(Sent(t)).body, "refresh_token"))
    ensures exchange(Sent(t)).TokenReply? && exchange(Sent(t)).status != 200 ==>
      s.failure == Some(TokenRefreshFailed)
  {
    Apply(t, exchange(Sent(t)), TokenRefreshFailed)
  }

  /** The two tokens were issued together by one reply. */
  predicate IssuedBy(t: Tokens, reply: TokenReply) {
    reply.TokenReply? &&
    t.access == Lookup(reply.body, "access_token") && t.refresh == Lookup(reply.body, "refresh_token")
  }
}
