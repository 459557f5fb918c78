/** The application `main` wires up: every POST to `/` passes the
    `VerifySignature` middleware, then the JSON extractor, then `index`,
    whose message `respond_to` turns into the reply. */
module Server {
  import opened Wrappers
  import opened Hex
  import opened Signature
  import opened Http
  import opened Json
  import opened Config
  import opened Dispatch
  import opened Gate

  /** The JSON extractor: the `ref` of the push event in a body, or nothing
      when the body is not a push event. */
  type PushDecoder = seq<byte> -> Option<string>

  /** What one request comes to: the reply, and the build request sent, if any. */
  datatype Exchange = Exchange(reply: Reply, sent: Option<OutboundRequest>)

  /** One request through the application. `outcome` is what sending the
      build request would come to. The extractor is given the bytes the
      middleware read and checked: the code itself passes nothing on from
      the middleware, and has the extractor read the payload again, so this
      hand-off is an assumption of the model. */
  function Serve(cfg: Config, mac: Mac, decode: PushDecoder, outcome: SendOutcome, req: Request): (x: Exchange)
    ensures x.sent.Some? ==> Start(mac, cfg.githubSecret, req).Admitted?
  {
    match Start(mac, cfg.githubSecret, req)
    case Rejected(e) => Exchange(Err(e), None)
    case Admitted(body) =>
      match decode(body)
      case None => Exchange(Err(JsonPayload), None)
      case Some(reference) =>
        var d := Index(cfg, reference, outcome);
        Exchange(RespondTo(d.reply), d.sent)
  }

  /** A build request goes out exactly when the request is authentic, its
      body is a push event, and the pushed ref ends with `master`; the
      request carries the configured token. */
  lemma SentIff(cfg: Config, mac: Mac, decode: PushDecoder, outcome: SendOutcome, req: Request)
    ensures var x := Serve(cfg, mac, decode, outcome, req);
            x.sent.Some? <==>
              Start(mac, cfg.githubSecret, req).Admitted?
              && req.body.Body?
              && decode(req.body.bytes).Some?
              && EndsWith(decode(req.body.bytes).value, MasterSuffix)
    ensures var x := Serve(cfg, mac, decode, outcome, req);
            x.sent.Some? ==> x.sent.value.authorization == AuthStr(cfg.travisToken)
  {
  }

  /** A request without the signature header is answered 401 and reaches
      neither the extractor nor the handler: nothing is sent. */
  lemma MissingHeaderNeverDispatches(cfg: Config, mac: Mac, decode: PushDecoder, outcome: SendOutcome, body: Body)
    ensures Serve(cfg, mac, decode, outcome, Request(None, body)) ==
            Exchange(Err(Unauthorized(HeaderParseError)), None)
    ensures Status(Serve(cfg, mac, decode, outcome, Request(None, body)).reply) == 401
  {
  }

  /** The extractor only ever sees the authenticated body: two extractors
      that agree on it give the same exchange. */
  lemma DecoderSeesSignedBodyOnly(cfg: Config, mac: Mac, d1: PushDecoder, d2: PushDecoder, outcome: SendOutcome, req: Request)
    requires req.body.Body? ==> d1(req.body.bytes) == d2(req.body.bytes)
    ensures Serve(cfg, mac, d1, outcome, req) == Serve(cfg, mac, d2, outcome, req)
  {
  }

  /** An authentic request whose body is not a push event gets the
      extractor's error, not the authentication failure. */
  lemma MalformedPayloadIsNotAuthFailure(cfg: Config, mac: Mac, decode: PushDecoder, outcome: SendOutcome, body: seq<byte>)
    requires decode(body).None?
    ensures var req := Request(Some(Sha1Prefix + ExpectedSignature(mac, cfg.githubSecret, body)), Body(body));
            Serve(cfg, mac, decode, outcome, req) == Exchange(Err(JsonPayload), None)
            && Status(Serve(cfg, mac, decode, outcome, req).reply) != 401
  {
  }

  /** End to end: an authentic push to master whose build request got a
      response is answered 200 with a message naming the Travis URL; an
      authentic push to another branch is answered 200 with the
      not-master message, and nothing is sent. */
  lemma AuthenticPushReplies(cfg: Config, mac: Mac, decode: PushDecoder, status: nat, outcome: SendOutcome, body: seq<byte>)
    requires decode(body).Some?
    ensures var req := Request(Some(Sha1Prefix + ExpectedSignature(mac, cfg.githubSecret, body)), Body(body));
            var x := Serve(cfg, mac, decode, Responded(status), req);
            EndsWith(decode(body).value, MasterSuffix) ==>
              x.sent == Some(TravisRequest(cfg.travisToken))
              && x.reply.Ok? && ParseMessage(x.reply.response.body) == Some(SentMessage(cfg.travisUrl))
    ensures var req := Request(Some(Sha1Prefix + ExpectedSignature(mac, cfg.githubSecret, body)), Body(body));
            var x := Serve(cfg, mac, decode, outcome, req);
            !EndsWith(decode(body).value, MasterSuffix) ==>
              x.sent.None? && x.reply.Ok? && ParseMessage(x.reply.response.body) == Some(NotMasterMessage)
  {
  }

  /** An authentic push to master whose build request got no response is
      answered 500. */
  lemma FailedSendIsInternalError(cfg: Config, mac: Mac, decode: PushDecoder, body: seq<byte>)
    requires decode(body).Some? && EndsWith(decode(body).value, MasterSuffix)
    ensures var req := Request(Some(Sha1Prefix + ExpectedSignature(mac, cfg.githubSecret, body)), Body(body));
            Serve(cfg, mac, decode, SendFailed, req).reply == Err(InternalServerError(TravisSend))
            && Status(Serve(cfg, mac, decode, SendFailed, req).reply) == 500
  {
  }
}
