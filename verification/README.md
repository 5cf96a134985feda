# Verified model of the McAI chat server's rate limiter

The chat server (`server.js`) answers `POST /api/chat` by forwarding the
caller's message to a remote completion service. A per-caller sliding-window
rate limiter runs before any route. It sees every request except those that an
earlier middleware answers itself: OPTIONS preflight requests (answered 204 by
the CORS middleware), static assets, and bodies the JSON parser refuses. A
process-wide table, `requestCounts`, maps each caller's address to the
millisecond timestamps of that caller's admitted requests. On each request the limiter does four things:

- it drops the timestamps that are a full window (`RATE_WINDOW`, one hour) old or older;
- it answers 429 when `RATE_LIMIT` (50) timestamps remain;
- otherwise it records the current time;
- it passes the request on.

The chat handler then refuses (400) any `message` that is missing, falsy or not
a string. It asks the completion service for a reply, and answers 500 when that
call throws. It may append one line from a fixed catalogue to the reply.

The model has two modules:

- `RateLimit` (`rate_limit.dfy`) holds the limiter:
  - `Recent` is the window filter, a pure function;
  - `Step` is one admission check on a table value;
  - `Replay` runs a series of checks for one caller;
  - the class `Limiter` holds the mutable `requestCounts` map, and its method
    `Admit` is one pass through the middleware, proved against `Step`.
- `Chat` (`chat.dfy`) holds the handler:
  - `Json` values with JavaScript truthiness;
  - `ValidMessage`, the message check;
  - `Embellish`, the reply decoration with an injected choice;
  - `Respond`, the outcome of a request (`Ok | BadRequest | TooManyRequests | ServerError`);
  - `HandleChat`, which runs the limiter and then the handler.

The clock (`Date.now()`), the caller address (`req.ip`), the completion
service's result and the random draw are all parameters.

## Model

| member | source | states |
|---|---|---|
| `RateLimit.Recent` | server.js:65 | The pruned sequence is no longer than the stored one. A timestamp occurs in it exactly when it occurs in the stored sequence and `now - t < window` (strict: a timestamp exactly one window old is dropped). |
| `RateLimit.RecentMultiplicity` | server.js:65 | Pruning keeps every occurrence of a timestamp inside the window and drops every occurrence of one outside it. |
| `RateLimit.RecentLength` | server.js:65-67 | The pruned length, which the limiter compares with the limit, equals the number of stored positions whose timestamp is inside the window. |
| `RateLimit.RecentAppend` | server.js:65 | Pruning commutes with concatenation, so it keeps the stored order. |
| `RateLimit.RecentKeepsAll` | server.js:65 | When every stored timestamp is inside the window, pruning returns the sequence unchanged. |
| `RateLimit.RecentDropsExpired` | server.js:65 | If any stored timestamp has left the window, the pruned sequence is strictly shorter. |
| `RateLimit.RecentLater` | server.js:62-65 | Pruning at `now` and then at a later time gives the same result as pruning only at the later time. Lazy, per-access pruning therefore never changes a later decision. |
| `RateLimit.RecentSorted` | server.js:65 | Pruning a non-decreasing sequence gives a non-decreasing sequence. |
| `RateLimit.Step` | server.js:59-77 | A request is admitted exactly when fewer than `limit` of the caller's stored timestamps are inside the window. A rejection leaves the whole table unchanged. An admission sets the caller's entry to its pruned timestamps, in order, followed by `now`; that entry then holds at most `limit` timestamps. The key set grows only by the caller's id, and no other caller's entry changes. |
| `RateLimit.FirstRequestAdmitted` | server.js:62-67 | A caller with no entry is admitted whenever the limit is positive, and its entry becomes `[now]`. |
| `RateLimit.FirstServerRequestAdmitted` | server.js:56-67 | With the server's constants (50 requests per 3600000 ms), a caller's first request is admitted. |
| `RateLimit.AdmittedWithinWindow` | server.js:65-75 | After an admission, the caller holds at most `limit` timestamps, and every one of them satisfies `now - t < window`. |
| `RateLimit.RejectedHoldsOnlyRecent` | server.js:62-72 | Under the per-caller limit invariant, a rejection happens only when every stored timestamp of the caller is still inside the window, so the entry a rejection leaves unchanged holds nothing stale. |
| `RateLimit.StepKeepsWithinLimit` | server.js:67-75 | Every check preserves the invariant that no caller holds more than `limit` timestamps. |
| `RateLimit.StepKeepsOrdered` | server.js:65-74 | If `now` is never earlier than any stored timestamp, every stored sequence stays non-decreasing after the check. |
| `RateLimit.StepIndependent` | server.js:62-75 | A check for one caller does not change the decision of a later check for a different caller. |
| `RateLimit.ReplayOthersUnchanged` | server.js:62-75 | Any series of checks for one caller leaves every other caller's presence in the table and its entry unchanged. Exhausting one caller's budget does not affect another. |
| `RateLimit.BurstAdmitted` | server.js:59-77 | Take checks whose timestamps, together with the caller's stored ones, lie pairwise within one window and number at most `limit`. They are all admitted, and the caller's entry ends as the stored timestamps followed by the new ones. |
| `RateLimit.NextRejected` | server.js:65-72 | Once the caller holds `limit` timestamps, a check made before any of them leaves the window is rejected. |
| `RateLimit.AdmittedAfterExpiry` | server.js:65-67 | A caller holding at most `limit` timestamps is admitted again once one of them has left the window, even if it was rejected before. |
| `RateLimit.SmallScenario` | server.js:59-77 | With limit 2 and a 1000 ms window, caller "x" is admitted at 0 and 100, rejected at 200 and admitted at 1001. Its entry ends as `[100, 1001]`. |
| `RateLimit.Limiter.constructor` | server.js:55-57 | A limiter starts with an empty table and the given limit and window. |
| `RateLimit.Limiter.Server` | server.js:55-57 | The server's limiter starts with an empty table, limit 50 and a window of 3600000 ms. |
| `RateLimit.Limiter.Admit` | server.js:59-77 | One pass of the middleware updates the `requestCounts` map in place. The decision and the new map are exactly those of `Step`. On rejection the map is unchanged. On admission only the caller's entry is replaced, by its pruned timestamps followed by `now`. The invariant that no caller exceeds the limit is kept. |
| `Chat.ValidMessage` | server.js:93-100 | The check "present, truthy and a string" holds exactly for non-empty strings. A missing field, `""`, `null`, booleans, numbers, arrays and objects are all refused. |
| `Chat.MalformedBodiesRejected` | server.js:93-100 | Admitted bodies `{"message": 123}`, `{"message": ""}` and `{}` get a 400. |
| `Chat.Embellish` | server.js:80-88 | The formatted reply is either the reply itself or the reply followed by a blank line and one catalogue line. Either way it starts with the reply. |
| `Chat.Respond` | server.js:91-145 | The outcome is 429 exactly when the limiter rejected. It is 400 exactly when admitted with an invalid message, and 500 exactly when admitted and valid but the completion call failed. It is 200 exactly when admitted, valid and the call succeeded, and its payload is then the completion's reply as `Embellish` formats it. |
| `Chat.CompletionOnlyAfterChecks` | server.js:95-102 | For a rejected request, or one with an invalid message, the response does not depend on the completion service. |
| `Chat.HandleChat` | server.js:91-145 | For a body the JSON parser accepted, the limiter runs before the handler. Its table changes exactly as `Step` says, whatever the `message` or the completion outcome. A request the handler refuses for its `message` (its own 400), or one that fails upstream, has therefore still used budget. The response is `Respond` applied to the limiter's decision. |

## Left out

- Express setup is not modelled because it is framework plumbing. This covers CORS, JSON body parsing, static file serving and `app.listen` (server.js:1-23, 155-157). The strict JSON parser admits only object and array bodies, and `HandleChat` requires that of its body.
- Requests that never reach the limiter are not modelled, and none of them uses budget:
  - The CORS middleware (server.js:17-21) answers every OPTIONS request itself with 204, so a browser's preflight before a cross-origin `POST /api/chat` never reaches the limiter.
  - The JSON parser (server.js:22) answers a body it refuses with a 4xx (400, 413 or 415): malformed JSON, a top-level primitive, a body over the size limit, or an unsupported charset or content encoding.
  - Static assets (server.js:23) are served before the limiter.
- The remote completion call (server.js:102-131) is an injected `Option<string>`, with `None` standing for any exception caught at server.js:138-144. The request it sends (model name, prompt text, token and temperature settings) is not modelled, and neither is the logging of the error. A `null` reply content from the service is not modelled.
- `Embellish`: the random draw (`Math.random() > 0.7`, then a uniform index, server.js:80-85) is an injected `Option<nat>`. The probability and uniformity of the choice are not modelled.
- `MARKET_JOKES` (server.js:38-52) is never used by the code. The prompt text (server.js:107-122) has no logic.
- `/health` (server.js:148-153) has no logic and is not modelled. It also passes through the limiter in the source.
- JSON numbers are integers in the model. Their truthiness never changes an outcome, because every non-string message is refused.
- Concurrency is not modelled: each `Admit` is atomic, as the middleware does not suspend between its lookup and its update. The unbounded growth of the table (keys are never evicted) is a resource matter, and the model's maps are unbounded.
- Timestamps are mathematical integers. JavaScript numbers are exact for millisecond clock values, so no wrap-around exists to model.
