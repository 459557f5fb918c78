/** The push handler `index`: the branch policy, the build request it sends
    to Travis CI, and the `ServerMessage` it answers with, which
    `respond_to` turns into the HTTP reply. */
module Dispatch {
  import opened Wrappers
  import opened Http
  import opened Json
  import opened Config

  /** The handler's answer: a message, or an error that replaces it. */
  datatype ServerMessage = ServerMessage(message: string, e: Option<Error>)

  /** `ServerMessage::success`. */
  function Success(s: string): (m: ServerMessage)
    ensures RespondTo(m).Ok?
    ensures ParseMessage(RespondTo(m).response.body) == Some(s)
  {
    ServerMessage(s, None)
  }

  /** `ServerMessage::error`: the message is left empty. */
  function Failure(e: Error): (m: ServerMessage)
    ensures RespondTo(m) == Err(e) && m.message == ""
  {
    ServerMessage("", Some(e))
  }

  /** `respond_to`: an error is passed on as the reply's error; otherwise
      the reply is 200 with a JSON body that reads back as the message. */
  function RespondTo(m: ServerMessage): (r: Reply)
    ensures r.Err? <==> m.e.Some?
    ensures r.Err? ==> r.error == m.e.value
    ensures r.Ok? ==> r.response.status == 200 && r.response.contentType == "application/json"
    ensures r.Ok? ==> ParseMessage(r.response.body) == Some(m.message)
  {
    match m.e
    case Some(e) => Err(e)
    case None =>
      Ok(Response(200, "application/json", SerializeMessage(m.message)))
  }

  const AuthPrefix: string := "token "

  /** `auth_str`: the `Authorization` value for the Travis API token. */
  function AuthStr(token: string): (r: string)
    ensures |r| == |AuthPrefix| + |token|
    ensures r[..|AuthPrefix|] == AuthPrefix && r[|AuthPrefix|..] == token
  {
    AuthPrefix + token
  }

  const TravisEndpoint: string := "https://api.travis-ci.org/repo/19145006/requests"
  const TravisApiVersion: nat := 3
  const TriggerMessage: string := "API Request triggered by zigbee2mqtt update"
  const MasterSuffix: string := "master"

  /** The JSON payload of the build request. */
  datatype TravisPayload = TravisPayload(message: string, branch: string)

  /** The POST `travis_request` sends: endpoint, content type, API version
      header, authorisation header and payload. */
  datatype OutboundRequest = OutboundRequest(
    url: string, contentType: string, apiVersion: nat, authorization: string, payload: TravisPayload)

  function TravisRequest(token: string): (r: OutboundRequest)
    ensures r.url == TravisEndpoint && r.contentType == "application/json" && r.apiVersion == 3
    ensures |r.authorization| == |AuthPrefix| + |token|
    ensures r.authorization[..|AuthPrefix|] == AuthPrefix && r.authorization[|AuthPrefix|..] == token
    ensures r.payload.branch == "master"
  {
    OutboundRequest(TravisEndpoint, "application/json", TravisApiVersion, AuthStr(token),
                    TravisPayload(TriggerMessage, MasterSuffix))
  }

  /** What sending the build request came to. The HTTP client reports an
      error only when no response arrives; any response, whatever its
      status, is a successful send. */
  datatype SendOutcome = Responded(status: nat) | SendFailed

  /** `str::ends_with`: the text is some prefix followed by the suffix. */
  predicate EndsWith(s: string, suffix: string): (r: bool)
    ensures r <==> |suffix| <= |s| && s == s[..|s| - |suffix|] + suffix
  {
    |suffix| <= |s| && s[|s| - |suffix|..] == suffix
  }

  /** Anything followed by `master` ends with it. */
  lemma EndsWithAppended(prefix: string, suffix: string)
    ensures EndsWith(prefix + suffix, suffix)
  {
    assert (prefix + suffix)[|prefix|..] == suffix;
  }

  function SentMessage(travisUrl: string): string {
    "PushEvent on branch master found, request sent to " + travisUrl
  }

  const NotMasterMessage: string := "PushEvent is not for master branch"

  /** One run of the handler: the build request it sent, if any, and its answer. */
  datatype Handled = Handled(sent: Option<OutboundRequest>, reply: ServerMessage)

  /** `index`: a push whose ref ends with `master` sends the build request,
      and the answer reports how sending went; any other push is answered at
      once without a request. `outcome` is what sending would come to and is
      consulted only when a request is sent. */
  function Index(cfg: Config, reference: string, outcome: SendOutcome): (d: Handled)
    ensures d.sent.Some? <==> EndsWith(reference, MasterSuffix)
    ensures d.sent.Some? ==> d.sent.value.authorization == AuthStr(cfg.travisToken)
                             && d.sent.value.url == TravisEndpoint
                             && d.sent.value.payload.branch == MasterSuffix
  {
    if EndsWith(reference, MasterSuffix) then
      Handled(Some(TravisRequest(cfg.travisToken)),
               match outcome
               case Responded(_) => Success(SentMessage(cfg.travisUrl))
               case SendFailed => Failure(InternalServerError(TravisSend)))
    else
      Handled(None, Success(NotMasterMessage))
  }

  /** A push for another branch is answered with the same success whatever
      the network would have done: no request is attempted. */
  lemma OtherBranchIgnoresNetwork(cfg: Config, reference: string, o1: SendOutcome, o2: SendOutcome)
    requires !EndsWith(reference, MasterSuffix)
    ensures Index(cfg, reference, o1) == Index(cfg, reference, o2)
    ensures RespondTo(Index(cfg, reference, o1).reply) ==
            Ok(Response(200, "application/json", SerializeMessage(NotMasterMessage)))
  {
  }

  /** A push for master is answered 200 with a message naming the
      configured Travis URL when any response came back, whatever its
      status, and with the client's error, as an internal error, when none did. */
  lemma MasterPushReplies(cfg: Config, reference: string, status: nat)
    requires EndsWith(reference, MasterSuffix)
    ensures RespondTo(Index(cfg, reference, Responded(status)).reply) ==
            Ok(Response(200, "application/json", SerializeMessage(SentMessage(cfg.travisUrl))))
    ensures RespondTo(Index(cfg, reference, SendFailed).reply) == Err(InternalServerError(TravisSend))
    ensures Index(cfg, reference, SendFailed).reply.message == ""
  {
  }

  /** The suffix rule is loose: it matches any ref ending in `master`, and
      only those. */
  lemma BranchPolicyExamples()
    ensures EndsWith("refs/heads/master", MasterSuffix)
    ensures EndsWith("refs/heads/not-master", MasterSuffix)
    ensures EndsWith("refs/heads/feature/master", MasterSuffix)
    ensures !EndsWith("refs/heads/masterful", MasterSuffix)
    ensures !EndsWith("refs/heads/develop", MasterSuffix)
  {
  }

  /** `auth_str` with the token of the repository's own test. */
  lemma AuthStrExample()
    ensures AuthStr("ablkjdfsoiuwre") == "token ablkjdfsoiuwre"
  {
  }
}
