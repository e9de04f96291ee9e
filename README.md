# RedChat relay core, modelled in Dafny

RedChat is a realtime chat relay written in Go. Clients push chat messages over a WebSocket. The server checks each one, stamps it with the server time, stores it in a Redis sorted set per conversation and publishes it on the private Redis topic of every member of the conversation. HTTP handlers create conversations, join and leave them, rename them, list them and page through their history. A per-IP rate limiter is defined beside them.

This project models that core as Dafny code and proves properties of it:

- `ratelimit.dfy` (module `RateLimit`) models the admission controller of `config.go`. The class `Limiter` holds `requestInfoMap` as a `map<string, RequestInfo>`. `Admit` makes the decision of `RateLimitMiddleware` step by step. The clock is an explicit input in nanoseconds.
- `redis.dfy` (module `Redis`) gives the Redis commands the handlers issue as pure functions over a keyspace: `SADD`, `SREM`, `SMEMBERS`, `EXISTS`, `HSET`, `HDEL`, `HGET`, `HKEYS`, `ZADD` and `ZRANGE`. As in Redis, a set or hash that loses its last element no longer exists, and `ZRANGE` accepts negative indexes and clamps out-of-range ones.
- `membership.dfy` (module `Membership`) covers the two directions of the membership registry: `conv:<id>:users` and `user:<id>:convs`. It shows how create, join and leave write them, and that they stay consistent.
- `paging.dfy` (module `Paging`) covers the arithmetic of `getChatHistory`: parameter defaults, the `ZRANGE` window and `hasNextPage`.
- `relay.dfy` (module `Relay`) holds the class `Store`. Its fields are the Redis keys the relay uses, plus the sequence of every `PUBLISH`. Its methods are the handlers `handleWebSocketMessage`, `createConversation`, `joinOrLeaveConversation`, `renameConversation`, `getConversationInfo`, `getConversationsByUser` and `getConversation`.
- `strconv.dfy` (module `Strconv`) models Go's `%d` formatting and `strconv.Atoi`. User ids cross between `int` and Redis strings through these.
- `utf8.dfy` (module `Utf8`) models Go's `len` on a string, which counts UTF-8 bytes.
- `common.dfy` (module `Common`) defines `Option`, `Result` and the handlers' error cases.

Some of the relay's behaviour differs from what one might expect of a chat relay. The model follows the code:

- The content bound of 650 is checked against Go's `len`, which counts bytes. So a message of 650 two-byte characters is dropped (`Relay.MultiByteContentDropped`). The bound is 650 bytes, not 650 characters.
- A message is published only to the members of its conversation. A connection is subscribed under the raw `userId` string of its WebSocket request: the query is read at main.go:67 and subscribed at main.go:82. It gets the message back iff that exact string is in the member set (`Relay.SenderEchoedIffMember`). So the sender is not echoed unconditionally. The frame's own `userId` is never checked against the connection: a client connected as "007", or a frame that names another user, is not echoed even if the frame's id is a member.
- The member check of `createConversation` counts list entries, not distinct users. So `[x, x]` passes and creates a conversation with one member (`Relay.RepeatedMemberCollapses`).
- Conversations are created only with a generated id. No pairwise `{from, to}` id scheme appears in the code.

## Model

| member | source | states |
|---|---|---|
| RateLimit.Limiter.constructor | config.go:26 | the IP map starts empty |
| RateLimit.Decide | config.go:42-69 | a request is allowed iff the record it writes has count at most 30. An allowed request moves the timestamp to `now`. A denied one happens only inside the window of an existing record, and raises its count by one with the timestamp kept |
| RateLimit.Limiter.Admit | config.go:36-70 | the decision and the IP's new record are `Decide` of its old record. The map's domain grows by at most the requesting IP. Every other entry is unchanged. Every count stays at least 1 |
| RateLimit.FirstRequestAllowed | config.go:42-48 | an IP with no record is allowed, and its record becomes count 1 at `now` |
| RateLimit.WindowExpiry | config.go:50-56 | strictly more than 5 s after the last allowed access resets to count 1 at `now` and allows. At exactly 5 s there is no reset and the count grows |
| RateLimit.InWindowCounting | config.go:58-69 | inside the window the count grows by exactly one. The request is denied iff the new count exceeds 30. A denial keeps the timestamp and an allowed request moves it to `now` |
| RateLimit.DecideCountPositive | config.go:42-69 | every record written has count at least 1 |
| RateLimit.ReplayInWindow | config.go:50-69 | from a record with count c, when each request comes within 5 s of the last allowed one (the window re-anchors at every allowed request), the k-th request is allowed iff c + k + 1 <= 30 |
| RateLimit.WithinWindowChained | config.go:50-69 | requests that all fall within 5 s of a start no later than the record's timestamp never reach a reset |
| RateLimit.GapsChained | config.go:50-69 | requests at most 5 s apart never reach a reset while all but the last are still allowed |
| RateLimit.BurstAllowsThirty | config.go:42-69 | a new IP's burst in which each request comes within 5 s of the last allowed one has its first 30 requests allowed and every later one denied |
| RateLimit.BurstWithinWindow | config.go:42-69 | the same holds for a burst that stays within 5 s of its first request |
| RateLimit.ThirtyFirstDenied | config.go:42-69 | 31 requests from a new IP, each at most 5 s after the one before: requests 1 to 30 pass and the 31st is denied |
| RateLimit.OneSecondApart | config.go:42-69 | 31 requests one second apart span 30 s, yet the 31st is denied and the 30th allowed |
| Strconv.Atoi | main.go:161-166 | a parsed value always lies in Go's 64-bit `int` range |
| Strconv.DigitsValueOfDigits | main.go:224 | the digits `%d` prints for a natural number have that number as their value |
| Strconv.AtoiItoa | main.go:273-281 | `strconv.Atoi` of the `%d` rendering of any Go `int` gives the same `int` back |
| Strconv.ItoaInjective | main.go:221-226 | distinct ints give distinct member strings |
| Strconv.AtoiNonCanonical | main.go:246-281 | `Atoi` accepts "007" and "+7" as 7, but `%d` writes "7". So a user joined under another spelling is a different member |
| Utf8.Width | main.go:116 | one code point takes 1 to 4 bytes, and 1 exactly for ASCII |
| Utf8.ByteLenBounds | main.go:116 | Go's `len` of a string lies between its character count and four times that. It equals the character count iff the string is ASCII |
| Utf8.ByteLenRepeat | main.go:116 | n copies of a character take n times its width in bytes |
| Redis.SetCommands | main.go:250-254 | SADD adds exactly the given members and SREM removes exactly one. Both touch only their key, and no set key is left empty |
| Redis.ExistsIffMembers | main.go:366-367 | a set key exists iff it has members |
| Redis.SAddIdempotent | main.go:250 | adding the same members twice equals adding them once |
| Redis.SRemUndoesSAdd | main.go:250-254 | removing a member that was just added, and was not there before, restores the keyspace, including a key that did not exist |
| Redis.HashCommands | main.go:251-255 | HSET sets exactly one field and HDEL removes exactly one. Both touch only their key, and no hash is left empty |
| Redis.HSetIdempotent | main.go:251 | setting a field to the same value twice equals setting it once |
| Redis.HDelUndoesHSet | main.go:251-255 | deleting a field that was just set, and was not there before, restores the keyspace |
| Redis.WithoutCount | main.go:127-130 | removing a member drops every entry that holds it and keeps each other entry exactly as often as it occurred |
| Redis.WithoutSpec | main.go:127-130 | removing a member keeps the entries that hold other members, and sorted order |
| Redis.InsertPermutes | main.go:127-130 | inserting by score adds exactly the one entry: the result is a permutation of the old run plus it |
| Redis.InsertSpec | main.go:127-130 | inserting by score keeps the run sorted and adds exactly the one entry (a permutation of old + new) |
| Redis.ZAddKeepsSortedSet | main.go:127-130 | ZADD keeps the log sorted by score with each member once. Afterwards it holds the member at the new score and every other entry it held before |
| Redis.ZAddLatestAppends | main.go:127-130 | ZADD of a new member at a score no lower than any present appends it at the end |
| Redis.ZRangeSlice | main.go:175 | for 0 <= start <= stop, ZRANGE is the slice [start, stop + 1) cut at the set's length |
| Paging.PositiveParamSpec | main.go:157-169 | `page` and `pageSize` take the query value iff it parses as a positive Go `int`. Otherwise they take the defaults 1 and 100 |
| Paging.History | main.go:150-195 | without `convId` the answer is the missing-parameter error, and otherwise it succeeds. `page` and `pageSize` are the query values when they parse as positive ints, else 1 and 100, and the messages are the log's page-th block of pageSize entries cut at its end (`PageSlice`) |
| Paging.PageOfSlice | main.go:171-175 | a page is the log's slice from (page-1)*pageSize, of length min(pageSize, what remains), and empty past the end |
| Paging.HasNextPageIff | main.go:189-194 | `hasNextPage` is true iff the log reaches page*pageSize entries, and a page never exceeds pageSize |
| Paging.HistoryNeedsConvId | main.go:151-155 | without `convId` the answer is the missing-parameter error |
| Paging.ThreeMessagesTwoPerPage | main.go:172-193 | with 3 messages and pageSize 2, page 1 gives the first 2 with `hasNextPage`, and page 2 gives the last one without it |
| Paging.WindowAsWritten | main.go:172-173 | the code's 64-bit window, whose properties are `WindowAsWrittenAgrees` and `WindowAsWrittenWraps` |
| Paging.WindowAsWrittenAgrees | main.go:172-173 | while page*pageSize fits in a Go `int`, the code's window is the intended one |
| Paging.WindowAsWrittenWraps | main.go:172-175 | page 2^62+1 with pageSize 4 wraps the offset to 0. So a one-message log returns its message for a page far past its end |
| Membership.AddConvStep | main.go:222-226 | each HSET of create's loop adds one more user to the set of users that list the new id |
| Membership.Join | main.go:248-251 | join's two writes, whose properties are `JoinKeepsWellFormed`, `JoinIdempotent` and `JoinThenLeaveRestores` |
| Membership.Leave | main.go:252-256 | leave's two writes, whose properties are `LeaveKeepsWellFormed` and `JoinThenLeaveRestores` |
| Membership.Create | main.go:221-227 | create's writes, whose properties are `CreateKeepsWellFormed` and `AddConvStep` |
| Membership.JoinKeepsWellFormed | main.go:248-251 | join keeps both directions consistent and makes the user a member in both |
| Membership.LeaveKeepsWellFormed | main.go:252-256 | leave keeps both directions consistent and removes the user from both |
| Membership.CreateKeepsWellFormed | main.go:221-227 | create with a fresh id keeps both directions consistent. The new member set is exactly the supplied users, and exactly they list the id |
| Membership.JoinIdempotent | main.go:248-251 | joining twice equals joining once |
| Membership.JoinThenLeaveRestores | main.go:248-256 | join followed by leave, for a user who was not a member, restores both directions |
| Relay.TopicInjective | main.go:135 | distinct users have distinct `user:<id>:msgs` topics |
| Relay.AcceptsByCharacters | main.go:116 | ASCII content passes iff it has at most 650 characters. Content over 650 characters never passes. Content of at most 162 characters always does |
| Relay.MultiByteContentDropped | main.go:116 | 650 copies of U+00E9 are 650 characters but are dropped |
| Relay.Fanout | main.go:134-136 | one publication per enumerated member, whose properties are `FanoutExactlyOnce` and `SenderEchoedIffMember` |
| Relay.FanoutExactlyOnce | main.go:134-136 | the fan-out carries the stamped message once on each member's topic and on no other topic |
| Relay.SenderEchoedIffMember | main.go:134-136 | a connection subscribed under the query string `q` (read at main.go:67, subscribed at main.go:82) receives the message iff `q` itself is in the member set. The frame's `userId` plays no part |
| Relay.ParsedMemberKeys | main.go:221-227 | reading back the members create wrote gives exactly the distinct supplied ints |
| Relay.RepeatedMemberCollapses | main.go:208-227 | `[x, x]` passes the two-member check yet yields one member key |
| Relay.CreateOutcome | main.go:218-229 | the state after create is consistent. The member set is the supplied ids. The name is stored and the members read back as the supplied ints |
| Relay.ListedIffMember | main.go:298-321 | in a consistent store, a conversation is in a user's list iff the user is a member and the conversation has a name |
| Relay.Store.constructor | main.go:25-31 | the store starts with no keys and no publications |
| Relay.Store.HandleMessage | main.go:114-137 | a frame that did not decode, or whose content is over 650 bytes, changes nothing. Otherwise the message gets the server time and is ZADDed to `conv:<id>` at score `now`. The TTL becomes 30 days, and the message is published once to each member enumerated from the member set. Membership and metadata are untouched |
| Relay.Store.Publish | main.go:134-136 | the publish loop appends exactly one publication per member, each member once |
| Relay.Store.CreateConversation | main.go:197-235 | a body that does not bind, fewer than two members (checked first) or an empty name fail and change nothing. Otherwise it succeeds and returns the new id. Success writes both directions and the name. The member set is the supplied ids, collapsed. `getConversationInfo` then reports exactly the supplied ints and the name |
| Relay.Store.JoinOrLeave | main.go:237-262 | an empty `userId` or `conversationId` fails and changes nothing. Join and leave update both directions symmetrically. Afterwards the user is a member iff the action was join |
| Relay.Store.Rename | main.go:350-380 | bad body, empty fields, and a missing member set (NotFound) fail and leave metadata alone. NotFound happens iff the conversation has no members. A bound body with both fields set, for a conversation that has members, succeeds. On success only the name changes |
| Relay.Store.ChatHistory | main.go:150-195 | `convId` is required. `page` and `pageSize` are the query values when they parse as positive ints, else 1 and 100. The messages are the stored log's page-th block of pageSize entries, oldest first, never more than pageSize. `hasNextPage` holds iff the log reaches page*pageSize entries |
| Relay.Store.GetConversationInfo | main.go:265-295 | the members are the parsed member strings, and the result is None when the conversation has no name |
| Relay.Store.GetConversationsByUser | main.go:298-326 | `userId` is required. The list holds exactly the named conversations in the user's hash, each once, each as `getConversationInfo` reports it |
| Relay.Store.GetConversation | main.go:329-347 | `convId` is required. The result is the conversation's info, or a server error when it has no name |

## Findings

| source | as written | input that shows it | evidently intended | confidence | as-written member | corrected member |
|---|---|---|---|---|---|---|
| main.go:172-175 | `start := int64((page - 1) * pageSize)` and `end := start + int64(pageSize) - 1` are computed in Go's 64-bit `int` and wrap silently. `ZRANGE` then reads a wrapped or negative index, and a negative index counts from the end | `page=4611686018427387905` (2^62+1), `pageSize=4`, a log with one message: the offset wraps to 0 and the message is returned | a page past the end of the log is empty; page p reads positions (p-1)*pageSize to p*pageSize-1 | not executed; high | Paging.WindowAsWrittenWraps | Paging.PageOfSlice |

`Paging.History` and `Relay.Store.ChatHistory` use the corrected window. `Paging.WindowAsWrittenAgrees` shows that the two agree whenever page*pageSize fits in 64 bits.

## Left out

- Gin routing, CORS, JSON response shaping and `main` (main.go:382-408) are framework wiring. The rate limiter is never registered there, so `RateLimit` is modelled on its own.
- The WebSocket endpoint, its upgrade and read loop, the `handleRedisMessages` forwarder and `writeMux` (main.go:66-111) are transport and concurrency. Pub/sub appears only as the recorded sequence `Store.published`.
- Redis client setup (main.go:33-47) and every store failure branch are foreign calls. The model's Redis never fails. `getConversationInfo`'s `HGET` error appears only as its missing-name case.
- JSON decoding and encoding are not modelled. A frame or request body arrives already decoded, as an `Option` whose `None` means the decode failed. The marshalled payload is the `Message` value itself. So the decode filter of `getChatHistory` (main.go:181-187) keeps every entry, because every stored member is a marshalled `Message`.
- RFC 3339 formatting of the server time (main.go:122) is not modelled. `HandleMessage` takes the formatted `stamp` and the Unix second `now` as inputs.
- UUID generation (main.go:218) is not modelled. `CreateConversation` takes the id as an input and requires it to be fresh, with no member set and no metadata yet.
- Key expiry is not modelled: `ttl` records the 30-day TTL each append sets, and nothing ever expires. Scores are integer seconds instead of `float64`, which is exact below 2^53.
- Relay.Store.HandleMessage: entries of equal score are kept in arrival order. Redis orders them by the bytes of the marshalled JSON, which the model does not have.
- Relay.Store.GetConversationInfo: members are reported as a set of ints. The Go slice follows the unspecified `SMEMBERS` order, and it repeats an id that was joined under two spellings, such as "7" and "007".
- Redis keys of different kinds are separate maps in the model. In Redis a conversation id containing `:users` or `:meta` could make two key names coincide.
- Every handler runs as one atomic step. The rate limiter's mutex (config.go:27,38-39) and the interleaving of concurrent handlers are not modelled.
- RateLimit.Limiter.Admit: `time.Since` and `time.Now` are read as one instant `now`. The request count is an unbounded integer rather than a Go `int`.
- `maxMessagesPerChannel` (main.go:21) is never used by the code, so there is no cap on a log.
- Rate-limit entries are never evicted, in the code and in the model.
