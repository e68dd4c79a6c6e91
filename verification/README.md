# Fixed-window rate limiter, modelled in Dafny

This project models the core of a Go HTTP rate limiter. The model has three parts.

- **Admission decision engine** (`limiter.dfy`, `keys.dfy`, `window.dfy`).
  - It counts requests per identity in a fixed window.
  - An address is counted under `limiter:ip:<ip>` and a token under `limiter:token:<token>`.
  - A non-empty token always wins over the address.
  - A token may carry an override of limit and block duration, held in two parallel tables.
  - A check reads the count and denies without writing once the count reaches the limit.
    Otherwise it increments the count. It arms the key's time-to-live only when the increment produced 1.
  - `Reset` deletes the key that the same precedence rule chooses.
- **Counter store contract** (`strategy.dfy`). The store is a `map<string, Entry>`, where an entry holds a count and an optional time-to-live.
  - Its operations mean what the in-memory test doubles make them mean: an absent key reads as 0, an increment creates the key at 1, and a delete makes the key absent.
  - Store failures come from an oracle, `Call -> Option<Err>`. The model assumes that a call which reports an error did not take effect (see `Limiter.Check` under "Left out").
  - Every engine operation returns the store calls it issued. That lets the contracts state which calls are made, in which order, and that none follows a failure.
- **Request admission adapter** (`middleware.dfy`, `text.dfy`).
  - It takes the client address from the first `X-Forwarded-For` hop (trimmed), else from `X-Real-IP`, else from the host part of the peer address.
  - It takes the token from the `API_KEY` header.
  - It maps the engine's answer to one of three outcomes: pass-through, 429 with the fixed JSON body, or 500.
  - `text.dfy` models the Go standard-library procedures the adapter calls: `strings.Split`, `strings.TrimSpace` (over the `unicode.IsSpace` set), and `net.SplitHostPort`; it also models `net.JoinHostPort`, the inverse that `SplitHostPort` is proved against.

Everything is a pure function over immutable values. The limiter's configuration is a `RateLimiter` value, and the store is passed in and returned.

Behaviours of the code worth knowing, all kept by the model:

- There is no separate default policy for tokens. An unregistered token is checked under the same `defaultLimit`/`defaultBlockDuration` as addresses (`TokenPolicy`).
- With a token, the address key is never built. `Allow` is the check of the token's key (its contract), so every call it issues goes to a key in the token namespace, and `Keys.ClassesDisjoint` puts that key outside the address namespace: no address key is read. `TokenPrecedence` adds that no address key's record changes.
- `NewRateLimiter` and `ConfigureToken` accept any `int` as a limit. A limit of 0 or below denies every request, because a count is never below 0.
- With neither a token nor an address, `Reset` does nothing and returns no error. A decision in that case still counts under the key `limiter:ip:`, which `Reset` therefore never clears (`ResetWithoutIdentityKeepsEmptyAddress`).
- If arming the expiry fails after a successful increment, the key is left at count 1 with no time-to-live. Later decisions never arm it, so that window does not end by itself. `Check` and `Window.KeepsTtl` state this.

## Model

| member | source | states |
|---|---|---|
| Strategy.GetCounter | internal/limiter/limiter_test.go:31-33 | an absent key reads as 0; a present key reads as its stored count |
| Strategy.IncrementCounter | internal/limiter/limiter_test.go:22-25 | returns the previous count + 1; an absent key is created at 1 with no time-to-live; a present key keeps its time-to-live; every other key is unchanged |
| Strategy.SetExpiration | internal/strategy/strategy.go:10-11 | arms the given time-to-live on a present key; leaves the count, the key's presence and every other key unchanged |
| Strategy.Exists | internal/limiter/limiter_test.go:35-38 | true exactly when a record is present |
| Strategy.Delete | internal/limiter/limiter_test.go:40-43 | the key is absent afterwards and every other key is unchanged |
| Strategy.DeleteMakesAbsent | internal/strategy/strategy.go:16-20 | after a delete the key does not exist and reads as 0 |
| Strategy.IncrementMakesPresent | internal/strategy/strategy.go:7-8 | after an increment the key exists with a count of at least 1 |
| Strategy.ExpirationSurvivesIncrement | internal/strategy/strategy.go:7-11 | an increment after arming keeps the armed time-to-live and adds one to the count |
| Strategy.Locality | internal/limiter/limiter_test.go:22-43 | increment, arming and delete on one key leave every other key's record, count and existence as they were |
| Keys.ClassesDisjoint | internal/limiter/limiter.go:52-58 | no key lies in both the address and the token namespace |
| Keys.KeyOf | internal/limiter/limiter.go:52-58 | an address's key is in the `limiter:ip:` namespace and not in `limiter:token:`; a token's key is in `limiter:token:` and not in `limiter:ip:` (the same keys are built again at lines 107 and 112) |
| Keys.ParseKeyOf | internal/limiter/limiter.go:52-58 | parsing a key gives back the identity it was built from |
| Keys.KeyOfParse | internal/limiter/limiter.go:52-58 | every key in either namespace is the key of the identity it parses to |
| Keys.KeyInjective | internal/limiter/limiter.go:52-58 | two identities share a key iff they have the same class and the same value |
| Limiter.TokenPolicy | internal/limiter/limiter.go:56-69 | a registered token gets its own limit and duration; an unregistered one gets the defaults that addresses use |
| Limiter.NewRateLimiter | internal/limiter/limiter.go:19-32 | starts with the given defaults, no registered token, and the override tables on the same (empty) key set |
| Limiter.ConfigureToken | internal/limiter/limiter.go:34-38 | afterwards the token resolves to the given policy; every other token's registration and policy are unchanged, and so is the address policy; the two tables keep the same key set |
| Limiter.Check | internal/limiter/limiter.go:74-102 | the calls are a prefix of read, increment, arm; a failing call is the last one and its error is the result; a read or increment failure writes nothing; deny iff the count is at or above the limit, with nothing written; admit iff the count is below the limit and every call succeeds, always after issuing the increment, with the count up by exactly 1; the expiry is armed, with the policy's duration, iff the increment produced 1; only this key changes, and never past the limit |
| Limiter.Allow | internal/limiter/limiter.go:40-72 | the decision is the check of the precedence-chosen identity's key under that identity's policy: the token's key under its resolved override when a token is given, else the address's key under the defaults; so every store call goes to that key, which is in the token namespace when a token is given and in the address namespace otherwise, and no other key changes |
| Limiter.Reset | internal/limiter/limiter.go:104-117 | with neither token nor address: no call, no error, store unchanged; otherwise exactly one delete, of the precedence-chosen key, whose error is returned; on success that key is absent and nothing else changed |
| Limiter.TokenPrecedence | internal/limiter/limiter.go:41-48 | with a token, the answer, store and calls do not depend on the address, and no address key changes |
| Limiter.AllowReadsOnlyItsKey | internal/limiter/limiter.go:75-102 | a decision depends only on the record under the chosen key |
| Limiter.OverrideIsolation | internal/limiter/limiter.go:60-69 | registering token A changes no decision for another token B, nor for any address, even when A is the empty token |
| Limiter.WithinLimitPreserved | internal/limiter/limiter.go:82-91 | if the count is within the limit before a decision, it still is afterwards, whatever the store does |
| Limiter.ResetReopensWindow | internal/limiter/limiter.go:104-117 | after a reset the next decision for that identity is admitted at count 1 with the expiry armed anew (limit at least 1) |
| Limiter.ResetWithoutIdentityKeepsEmptyAddress | internal/limiter/limiter.go:111-116 | a reset with no identity leaves the store alone, while a decision with no identity counts under `limiter:ip:` |
| Window.OneStep | internal/limiter/limiter.go:82-101 | with a reliable store, a decision is admitted iff the count is below the limit; it raises the count by one exactly then, and arms the expiry once iff it opens the window |
| Window.CheckStep | internal/limiter/limiter.go:82-101 | with a reliable store, a check is admitted iff the count is below the limit; it raises the count by one exactly then, changes no other key, and arms the expiry once iff it opens the window |
| Window.ReplayIsDecisions | internal/limiter/limiter.go:40-48 | n consecutive decisions for one identity are n consecutive checks of its key under its policy |
| Window.DecisionsStore | internal/limiter/limiter.go:82-91 | n consecutive checks from count c leave every other key alone and end at min(c + n, limit), or at c if c is already at the limit |
| Window.DecisionsAnswers | internal/limiter/limiter.go:82-91 | the i-th of n consecutive checks from count c is admitted iff c + i < limit |
| Window.DecisionsArmings | internal/limiter/limiter.go:93-99 | n consecutive checks arm the expiry once iff the run opens the window, and never otherwise |
| Window.DecisionsKeepTtl | internal/limiter/limiter.go:93-99 | checks of a key that already has a count keep its time-to-live and a positive count |
| Window.ReplayCounts | internal/limiter/limiter.go:82-101 | in n consecutive decisions from count c, the i-th is admitted iff c + i < limit; the count ends at min(c + n, limit), or stays at c if c is already at the limit; the expiry is armed at most once, and exactly once iff the run opens the window |
| Window.ExactlyLimitAdmitted | internal/limiter/limiter_test.go:57-75 | from an absent key, exactly `limit` decisions are admitted, the next is denied, and the count ends at `limit` |
| Window.TtlKeptAfterArming | internal/limiter/limiter.go:93-99 | the time-to-live armed by a run's first admission is still the policy's duration at the end of the run |
| Window.KeepsTtl | internal/limiter/limiter.go:93-99 | decisions on a key that already has a count never re-arm or clear its time-to-live |
| Window.AddressScenario | internal/limiter/limiter_test.go:49-76 | limit 5: five admissions and then a denial for one address |
| Window.TokenScenario | internal/limiter/limiter_test.go:78-108 | default limit 5, token limit 10: ten admissions and then a denial with the token, whatever the address, and the token's 600-second window is armed |
| Window.ResetScenario | internal/limiter/limiter_test.go:133-163 | after the limit is reached and a reset, the next decision is admitted |
| Window.DistinctAddressesScenario | internal/middleware/middleware_test.go:166-208 | at limit 1, exhausting one address leaves any other address admitted |
| Text.Split | internal/middleware/middleware.go:46 | at least one field; no field holds the separator; joining the fields gives back the input |
| Text.SplitJoin | internal/middleware/middleware.go:46 | splitting separator-free fields that were joined gives the fields back |
| Text.SplitFirst | internal/middleware/middleware.go:46-48 | the first field is everything before the first separator |
| Text.TrimSpace | internal/middleware/middleware.go:48 | the result has no space at either end and is no longer than the input |
| Text.TrimSpaceInfix | internal/middleware/middleware.go:48 | the input is its leading space, then the result, then its trailing space |
| Text.TrimSpaceStrips | internal/middleware/middleware.go:48 | a trimmed core wrapped in space comes back exactly as the core |
| Text.TrimSpaceIdempotent | internal/middleware/middleware.go:48 | trimming twice is trimming once |
| Text.SplitHostPort | internal/middleware/middleware.go:58 | on success the input is `host:port` or `[host]:port`; the port has no colon or bracket; the host has no bracket, and has no colon unless the input starts with `[`; an input without a colon fails with a missing port |
| Text.SplitBracketed | internal/middleware/middleware.go:58 | `[host]:port` splits into (host, port) for any bracket-free host, with or without a colon in it, and any port without a colon or bracket |
| Text.SplitJoinHostPort | internal/middleware/middleware.go:58-63 | splitting `JoinHostPort(host, port)` gives back host and port, for any bracket-free host and any port without a colon or bracket |
| Middleware.ClientIP | internal/middleware/middleware.go:43-64 | a non-empty X-Forwarded-For gives a trimmed, comma-free address; otherwise a non-empty X-Real-IP is returned verbatim; otherwise the host part of the peer address, or the whole peer address when it does not split |
| Middleware.ForwardedForFirstHop | internal/middleware/middleware.go:45-50 | the address is the first comma-separated hop of X-Forwarded-For with its surrounding space removed, whatever follows |
| Middleware.ForwardedForOverrides | internal/middleware/middleware.go:44-56 | with a non-empty X-Forwarded-For, neither X-Real-IP nor the peer address changes the result |
| Middleware.RemoteAddrHost | internal/middleware/middleware.go:58-63 | with both proxy headers empty, a peer address `JoinHostPort(host, port)` yields `host` |
| Middleware.RemoteAddrWithoutPort | internal/middleware/middleware.go:58-61 | with both proxy headers empty, a peer address without a colon is used whole |
| Middleware.Respond | internal/middleware/middleware.go:22-37 | hand the request on unchanged iff admitted; 500 iff the engine failed; 429 with `application/json` and the exact body iff denied |
| Middleware.ExactlyOneOutcome | internal/middleware/middleware.go:22-37 | every engine answer yields exactly one of: hand on, 429, 500 |
| Middleware.Handle | internal/middleware/middleware.go:14-37 | the limiter is asked, under the given store and oracle, with the client address as the address and exactly the API_KEY header as the token, and its answer is turned into the response by `Respond`; the request is handed on iff the engine admits it; 500 iff the engine failed; 429 with `application/json` and the fixed JSON body iff it denied, and a denial writes nothing to the store; with an API_KEY every store call goes to that token's key, and without one to the client address's key |
| Middleware.ApiKeyDecides | internal/middleware/middleware.go:16-22 | two requests with the same non-empty API_KEY get the same engine outcome and the same response, whatever their addresses |

## Left out

- Limiter.Check: the model assumes that a store call which reports an error did not take effect, so a failed read or increment writes nothing. A real store can apply an increment, a delete or an expiry and still report an error (a context deadline that passes after the command ran, for instance). Such an increment leaves the count one higher than the model says. When it opens the window it also leaves the key at count 1 with no time-to-live, the same stuck window as a failed arming.
- Concurrency: the read-then-increment sequence is not atomic across goroutines or processes. The model has one sequential caller.
- Real time: a time-to-live is recorded as data and never elapses. Its elapse is the same transition as `Strategy.Delete`, so `ResetReopensWindow` also covers a window that expired.
- `Close` on the limiter and on the store: connection lifecycle, with no logic.
- `context.Context` cancellation, and the `net/http` response-writer mechanics beyond status, content type and body. The `X-Content-Type-Options` header that `http.Error` adds is not modelled.
- Header-name canonicalisation in `Header.Get`: headers are looked up by the exact names the code passes. Only each header's first value is modelled.
- Go strings are byte strings. The model works on sequences of Unicode code points, which matches well-formed UTF-8 input. Invalid UTF-8 is not modelled.
- Integer width: counts and limits are unbounded integers. `Check` states that an increment never takes a count past the limit, so with a 64-bit limit the store's 64-bit counter cannot overflow through the engine.
- The Redis-backed store (`internal/strategy/redis.go`) is not part of this model. Its only engine-visible rule, that a missing key reads as 0, is the store contract's. It also deletes a key when the time-to-live given is 0 or negative; the abstract store just records the value.
- Configuration loading (`internal/config/config.go`), the server wiring, the health-check route and the signal handling (`cmd/main.go`) are not part of this model.
