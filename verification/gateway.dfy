/**
 The decisions the relay's WebSocket gateway makes around the rewrite
 engine: whether a bot client may connect, how the upstream access token is
 presented, and which frames pass through the engine.
 */
module Gateway {
  import opened Wrappers
  import opened Json
  import opened Rewrite
  import opened Commands

  const BearerPrefix: string := "Bearer "

  /** The inbound check: with a server token configured, the header must be exactly `Bearer <token>`. */
  predicate Authorized(serverToken: string, authorization: Option<string>) {
    serverToken == "" || authorization == Some(BearerPrefix + serverToken)
  }

  /** A connection the gateway refuses with 401, and one it upgrades. */
  datatype Admission = Unauthorized | Upgrade

  function Admit(serverToken: string, authorization: Option<string>): (r: Admission)
    ensures r == Upgrade <==> serverToken == "" || authorization == Some(BearerPrefix + serverToken)
    ensures serverToken != "" && authorization.None? ==> r == Unauthorized
  {
    if serverToken != "" && authorization != Some(BearerPrefix + serverToken) then Unauthorized else Upgrade
  }

  /** The upstream dial: the `Authorization` header to send, if any, and the URL to dial. */
  datatype Dial = Dial(authorization: Option<string>, url: string)

  /**
   The token goes in the header unless query mode is chosen; in query mode it
   is set as `access_token` on the URL, and when the URL does not parse
   (`withToken` gives None) the URL is used as it is, without any token.
   */
  function UpstreamDial(upstreamUrl: string, token: string, useQuery: bool,
                        withToken: (string, string) -> Option<string>): (r: Dial)
    ensures token == "" ==> r == Dial(None, upstreamUrl)
    ensures token != "" && !useQuery ==> r == Dial(Some(BearerPrefix + token), upstreamUrl)
    ensures token != "" && useQuery ==>
      && r.authorization.None?
      && r.url == withToken(upstreamUrl, token).GetOr(upstreamUrl)
    ensures r.authorization.Some? ==> r.url == upstreamUrl
  {
    var header := if token != "" && !useQuery then Some(BearerPrefix + token) else None;
    var url := if token != "" && useQuery then withToken(upstreamUrl, token).GetOr(upstreamUrl) else upstreamUrl;
    Dial(header, url)
  }

  datatype FrameKind = TextFrame | BinaryFrame

  datatype Frame = Frame(kind: FrameKind, payload: seq<Text.byte>)

  /** A frame from the bot client on its way upstream: text frames pass through the engine, others are untouched. */
  function ForwardUpstream(codec: Codec, resolve: ResolveFn, frame: Frame): (r: Frame)
    ensures r.kind == frame.kind
    ensures frame.kind == BinaryFrame ==> r == frame
    ensures frame.kind == TextFrame ==> r.payload == RewriteFrame(codec, resolve, frame.payload)
  {
    match frame.kind
    case TextFrame => Frame(TextFrame, RewriteFrame(codec, resolve, frame.payload))
    case BinaryFrame => frame
  }

  /** With nothing to resolve, the gateway forwards every client frame unchanged. */
  lemma ForwardUnresolvable(codec: Codec, resolve: ResolveFn, frame: Frame)
    requires NeverUploads(resolve)
    ensures ForwardUpstream(codec, resolve, frame) == frame
  {
    UnresolvableFramesPassThrough(codec, resolve, frame.payload);
  }
}
