/**
 * The `POST /api/chat` handler of the chat server (server.js, lines 91-145),
 * reached only after the JSON body parser has accepted the body and the
 * rate-limiting middleware has admitted the request.
 *
 * HTTP is reduced to the outcome a request gets. The remote completion call is
 * an injected result (`None` when it throws), and the random embellishment is
 * an injected choice.
 */
module Chat {
  import opened RateLimit

  datatype Option<T> = None | Some(value: T)

  /** A parsed JSON value. Numbers are kept as integers: only their truthiness could matter. */
  datatype Json =
    | JNull
    | JBool(b: bool)
    | JNumber(n: int)
    | JString(s: string)
    | JArray(items: seq<Json>)
    | JObject(fields: map<string, Json>)

  /** What the server answers, with its HTTP status. */
  datatype Response =
    | Ok(response: string)   // 200
    | BadRequest             // 400
    | TooManyRequests        // 429
    | ServerError            // 500

  /** JavaScript truthiness of a JSON value. */
  predicate Truthy(v: Json)
  {
    match v
    case JNull => false
    case JBool(b) => b
    case JNumber(n) => n != 0
    case JString(s) => s != ""
    case JArray(_) => true
    case JObject(_) => true
  }

  /** The `message` property of the request body; `None` stands for `undefined`. */
  function MessageOf(body: Json): Option<Json>
  {
    if body.JObject? && "message" in body.fields then Some(body.fields["message"]) else None
  }

  /**
   * The handler's check on `message`: present, truthy and a string. It holds
   * exactly for the non-empty strings, so a missing field, the empty string and
   * every non-string are refused.
   */
  function ValidMessage(message: Option<Json>): (ok: bool)
    ensures ok <==> message.Some? && message.value.JString? && message.value.s != ""
  {
    message.Some? && Truthy(message.value) && message.value.JString?
  }

  /** The decorative lines one of which may follow a reply. */
  const ElizaInterjections: seq<string> := [
    "\U{1F354} McLiquidation special coming right up! \U{1F354}",
    "Sir, our nuggets have more value than your NFTs",
    "Would you like to supersize that copium?",
    "Our secret sauce is less mysterious than blockchain technology",
    "Sorry, we don't accept Bitcoin, it's more volatile than our milkshake machine",
    "Your portfolio is dipping harder than our french fries",
    "Want some salt with that loss porn?",
    "Our Dollar Menu has better returns than your crypto wallet"
  ]

  /**
   * The reply as formatted for the caller. `pick` is the random draw: `None`
   * when no line is added, `Some(i)` when line `i` of the catalog is.
   */
  function Embellish(reply: string, pick: Option<nat>): (r: string)
    requires pick.Some? ==> pick.value < |ElizaInterjections|
    ensures r == reply || exists i | 0 <= i < |ElizaInterjections| :: r == reply + "\n\n" + ElizaInterjections[i]
    ensures |reply| <= |r| && r[..|reply|] == reply
  {
    match pick
    case None => reply
    case Some(i) => reply + "\n\n" + ElizaInterjections[i]
  }

  /**
   * The response to a chat request, given the limiter's decision, the body's
   * `message` and the completion call's result.
   */
  function Respond(admitted: bool, message: Option<Json>, completion: Option<string>, pick: Option<nat>): (r: Response)
    requires pick.Some? ==> pick.value < |ElizaInterjections|
    ensures r == TooManyRequests <==> !admitted
    ensures r == BadRequest <==> admitted && !ValidMessage(message)
    ensures r == ServerError <==> admitted && ValidMessage(message) && completion.None?
    ensures r.Ok? <==> admitted && ValidMessage(message) && completion.Some?
    ensures r.Ok? ==> r.response == Embellish(completion.value, pick)
  {
    if !admitted then TooManyRequests
    else if !ValidMessage(message) then BadRequest
    else match completion
      case None => ServerError
      case Some(reply) => Ok(Embellish(reply, pick))
  }

  /**
   * The completion service is consulted only for an admitted request with a
   * valid message: in every other case the response does not depend on it.
   */
  lemma CompletionOnlyAfterChecks(admitted: bool, message: Option<Json>, c1: Option<string>, c2: Option<string>, pick: Option<nat>)
    requires pick.Some? ==> pick.value < |ElizaInterjections|
    requires !admitted || !ValidMessage(message)
    ensures Respond(admitted, message, c1, pick) == Respond(admitted, message, c2, pick)
  {
  }

  /** A body `{"message": 123}`, `{"message": ""}` or `{}` gets a 400 once admitted. */
  lemma MalformedBodiesRejected(completion: Option<string>)
    ensures Respond(true, MessageOf(JObject(map["message" := JNumber(123)])), completion, None) == BadRequest
    ensures Respond(true, MessageOf(JObject(map["message" := JString("")])), completion, None) == BadRequest
    ensures Respond(true, MessageOf(JObject(map[])), completion, None) == BadRequest
  {
  }

  /**
   * One `POST /api/chat` request from `ip` at time `now` whose body the JSON
   * parser has accepted: the rate-limiting middleware runs before the handler,
   * so a request the handler refuses for its `message`, or one that fails
   * upstream, has still used up budget; the completion's outcome never changes
   * the limiter's table.
   */
  method HandleChat(limiter: Limiter, ip: string, now: int, body: Json, completion: Option<string>, pick: Option<nat>)
    returns (res: Response)
    requires limiter.Valid()
    requires body.JObject? || body.JArray?
    requires pick.Some? ==> pick.value < |ElizaInterjections|
    modifies limiter
    ensures limiter.Valid()
    ensures var s := Step(old(limiter.requestCounts), ip, now, limiter.limit, limiter.window);
      limiter.requestCounts == s.table && res == Respond(s.admitted, MessageOf(body), completion, pick)
  {
    var admitted := limiter.Admit(ip, now);
    if !admitted {
      return TooManyRequests;
    }
    if !ValidMessage(MessageOf(body)) {
      return BadRequest;
    }
    match completion
    case None =>
      res := ServerError;
    case Some(reply) =>
      res := Ok(Embellish(reply, pick));
  }
}
