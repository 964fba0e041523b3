# Verified model of the MaskChain gateway

MaskChain is an LLM gateway written in Go: it masks sensitive text before a prompt leaves the
house and restores it in the response, enforces budgets and rate limits, authenticates virtual
keys, keeps sessions and mask entries behind caches, talks to providers over server-sent events
with retries and a circuit breaker, and stores provider secrets encrypted. This project models
those parts in Dafny and proves properties of the model. `dafny verify dfyconfig.toml` checks it.

Objects that the Go code updates in place are classes here, its loops are loops, and each such
method is proved against a value-level specification whose own properties are lemmas. Code that
runs concurrently is a system of atomic steps; the theorems about it hold for every run.

Files, one module each:

- `Texts`, `Masking`, `AllOrders`, `Tokens`, `Overlaps`, `Splices`, `Shield`, `ShieldRequest`,
  `StreamEvents`, `JsonText`: reversible masking. `Texts` is string search and
  `strings.ReplaceAll`. `Masking` has the main string theorems: a text is a list of pieces
  (literals and masked parts), restoring is one `ReplaceAll` per map entry in an arbitrary order,
  and `Unmask` is the simultaneous left-to-right substitution it is compared with. Two strings are
  `Apart` when neither contains the other and no end of one is a beginning of the other.
  `AllOrders` shows that a text on which all orders agree can only be the one that was masked.
  `Splices` is the splice loop on any matches, empty ones included, `StreamEvents` the streamed
  response, event by event, and `JsonText` answers inside JSON strings.
- `Calendar`, `Budgets`, `BudgetRuns`, `BudgetMiddleware`: budget periods over the Gregorian calendar,
  the check-then-charge protocol as interleaved steps, and the handler as code whose every call is
  proved to be a run of that step system. Money is `real`, time is integer nanoseconds.
- `RateLimit`: the stored sliding-window script, with the full history as ghost state.
- `VirtualKeys`, `VirtualKeyRuns`, `KeySpend`: authentication through an index over the key table,
  revocation under interleaving, and the gateway's own update of a key's spend.
- `ReadThrough`, `Sessions`, `MaskStore`: the cache protocol under any interleaving, and the two
  decorators, each of whose methods states the store commands it amounts to.
- `Sse`, `Egress`: reader and printer of event streams; circuit breaker, retry loop and client.
- `Workers`, `ConversationLogs`: batching workers, each record with its own conversion, and the audit
  log; encryption of captured records.
- `Secrets`: sealing of provider secrets and the re-encryption pass.
- `ConfigMerge`: the in-place merge of configuration maps on the heap.
- `Wrappers`: `Option` and `Result`. `Sequences`, `Folding`: a fact about sequences, and a small device
  that keeps predicates folded in proofs.

Go map iteration is an arbitrary permutation or an arbitrary choice of the next entry. Clocks,
nonces, random draws, failures of stores and of the network, and the outcome of every race in a
`select` are parameters. A `string` of the model stands for the bytes of a Go string.

## Where the code falls short of a stated or natural property

Each of these is a lemma with a concrete input or an exact condition.

- Streamed responses are restored write by write. The gateway writes one whole event at a time, so
  no write ever cuts a token (`StreamEvents.WholeLinesUncut`); but the model may spread a token over
  the text deltas of two events, and then the client reads it unrestored. `docs/SHIELD.md:282`
  promises restoration across boundaries; `StreamEvents.DeltasExact` shows that the client gets the
  restored answer if and only if no delta boundary cuts a token, and
  `StreamEvents.SpreadTokenExample` is a stream of two events where one does.
  `StreamEvents.IssuedStreamRestored` and `StreamEvents.IssuedDeltasExact` say so of the tokens that
  are issued. The same page shows tokens `[MASK_<ID>.<N>]`; the middleware issues `[MASK.<N>]`.
- Originals go back into the encoded response as they are. For every encoded answer the client
  decodes the restored answer if and only if no original needs an escape in a JSON string
  (`JsonText.OriginalsExact`); a name in quotes breaks the document (`JsonText.QuotedNameBreaks`).
- An empty regular-expression match spliced before a longer one with the same start makes the second
  splice eat the token just written. Whatever the matches, every order of passes restores a text
  without tokens if and only if there is no such pair (`Splices.MessageExact`,
  `Shield.EmptiesExact`). The kept matches come longest first, so it takes a sort that exchanges
  equal starts, as the library's documentation allows; one that keeps their order never gives such a
  pair (`Overlaps.StableSortDescends`). `ShieldRequest.EmptyMatchCorrupts` is an input.
- A message that already holds an issued token does not survive restoring
  (`ShieldRequest.HeldTokenLost` is one). Together with the condition before, that is exact for a
  whole request (`Shield.DictionaryExact`, `Shield.RequestExact`).
- A lookup that read a key before its revocation and stores it in the index after the next refresh
  brings the key back (`VirtualKeyRuns.LateStoreRevives`); `VirtualKeyRuns.RevocationExact` says
  exactly when a revoked key is safe.
- The gateway updates a key's spend by writing back the whole row it read, so it can itself undo a
  revocation that came in between (`KeySpend.SpendRevives`); a revoked row stays revoked if and only
  if no update that read it before is still under way (`KeySpend.RevokedExact`). A key's spend is
  what it was plus all costs written, if and only if no update is written after another one was
  since it read the row (`KeySpend.SpendExact`); `KeySpend.SpendLost` is a run that loses a cost.
- A reader that fetched a row before it was changed or deleted may put it into the cache afterwards
  (`ReadThrough.StaleAnswer`, `ReadThrough.DeletedReturns`). While the row stays as it is,
  everything cached and answered later is the primary's row if and only if the cache holds no other
  version and none is on its way there (`ReadThrough.FreshExact`).
- Streamed requests are checked against every budget and charged to none, so any number of them is
  served under any limit above zero (`BudgetRuns.StreamsAreFree`, `BudgetRuns.NeverCharged`).
- An increment whose reply is lost counts but is neither recorded nor notified; serial requests
  notify a threshold if and only if no lost reply took the counter there (`BudgetRuns.SerialOnce`,
  `BudgetRuns.LostReplyUnheard`).
- Closing the response body on cancellation lets a line cut short be taken for a whole one
  (`Sse.TruncatedChunk`); `Sse.CancelledRead` says exactly when what a cancelled read emits is a
  prefix.
- A session is shown as expired but never stored as such, so extending revives it at any time
  (`Sessions.ExtendRevives`, `Sessions.ExpiredExtended`), and another tenant's `Get` is answered
  when the cache holds the session (`Sessions.CachedGetExact`, `Sessions.ReadByAnother`).
- A budget of an unknown period type, which an update may store, keeps its counter longer than its
  key (`Budgets.OtherPeriodsDrift`, `Budgets.WeeklyAtNoon`).
- The rate limiter records `limit` requests per window but lets at most `limit - 1` through, since a
  request that takes the last place is reported as not allowed (`RateLimit.WindowBound`).

## Model

| member | source | states |
|---|---|---|
| Masking.RestoresInAnyOrder | src/internal/api/middleware/shield.go:71-75 | one replacement pass per mapping entry, in any order, puts back every masked part, given that no token shows up by accident in any intermediate text |
| Masking.RoundTrip | src/internal/api/middleware/shield.go:68-79 | a text that held none of the tokens comes back whatever order the passes run in |
| Masking.RoundTripExact | src/internal/api/middleware/shield.go:68-79 | with every original apart from its own token, all orders restore the text if and only if it held none of the tokens |
| Masking.PassErases | src/internal/api/middleware/shield.go:72-75 | after the pass for a token none of that token is left, wherever it came from |
| Masking.RestoreIsUnmask | src/internal/api/middleware/shield.go:68-79 | for an arbitrary body, restoring in any order is the simultaneous substitution of all tokens |
| Masking.UnmaskSplit | src/internal/api/middleware/shield.go:96-102 | cutting a body where no token straddles the cut changes nothing |
| Masking.ChunksExact | src/internal/api/middleware/shield.go:96-102 | restoring chunk by chunk, each chunk in its own order, equals restoring the whole body if and only if no chunk boundary cuts a token |
| AllOrders.OnlyReading | src/internal/api/middleware/shield.go:68-79 | if every order of passes leads from a masked text to the same text without tokens, then the masked parts put back are that text |
| Texts.ReplaceFirst | src/internal/api/middleware/shield.go:73-75 | replacement is leftmost and resumes right after the replaced occurrence |
| Texts.Straddle | src/internal/api/middleware/shield.go:73-75 | an occurrence next to a string it is apart from lies wholly on one side of it |
| Texts.ReplaceEmpty | src/internal/api/middleware/shield.go:318-322 | an empty string is replaced before every character and at the end |
| Texts.DecimalReads | src/internal/api/middleware/shield.go:254-254 | the printed number stands for the number, without leading zeros |
| Tokens.DictTokenShape | src/internal/api/middleware/shield.go:254-254 | a dictionary token is a bracketed text without inner brackets |
| Tokens.DictTokenInjective | src/internal/api/middleware/shield.go:249-256 | different counter values give different tokens |
| Tokens.PiiTokenShape | src/internal/app/usecase/shield/scan_usecase.go:123-123 | a rule token is a doubly bracketed text without inner brackets if and only if its label holds no bracket |
| Tokens.TokensPrinted | src/internal/app/usecase/shield/scan_usecase.go:123-123 | one token of each form as it is printed |
| Tokens.IssuedTokenSet | src/internal/api/middleware/shield.go:254-254 | tokens of both forms are border-free and pairwise apart, whatever their numbers and labels |
| Overlaps.ResolveOverlaps | src/internal/domain/shield/mask/usecase.go:129-158 | the kept matches are matches, longest first, pairwise without overlap, and every match was kept or overlaps a kept one that is longer, or equally long and no further right |
| Overlaps.ChosenOnce | src/internal/domain/shield/mask/usecase.go:129-158 | this leaves no choice: two lists that satisfy it hold the same matches |
| Overlaps.SortSorted | src/internal/domain/shield/mask/usecase.go:133-142 | sorting by the candidate order sorts, and keeps the matches |
| Overlaps.DescendingExact | src/internal/api/middleware/shield.go:250-252 | spliced right to left, matches without overlap never reach into an earlier splice if and only if no empty match comes before a non-empty one with the same start |
| Overlaps.KeptDescending | src/internal/api/middleware/shield.go:249-252 | non-empty kept matches are always in that position |
| Overlaps.StableSortDescends | src/internal/api/middleware/shield.go:249-252 | a sort that keeps the order of equal starts puts all kept matches in that position, empty ones included |
| Splices.InBounds | src/internal/api/middleware/shield.go:250-258 | no splice ever reaches beyond the end of the message, whatever empty matches there are |
| Splices.MessageRestored | src/internal/api/middleware/shield.go:250-258 | without an empty match spliced before a longer one with its start, every order of passes gives back a text without tokens |
| Splices.MessageExact | src/internal/api/middleware/shield.go:250-258 | for all matches without overlap, spliced right to left into a text without tokens, every order of passes gives the text back if and only if no empty match was spliced before a longer one with its start |
| Shield.SpliceStep | src/internal/api/middleware/shield.go:252-258 | one round of the right-to-left splice loop turns the simultaneous substitution of the first matches into that of one more |
| Shield.CutFull | src/internal/api/middleware/shield.go:252-258 | putting the fragments back into the substituted text gives the text |
| Shield.MessageFull | src/internal/api/middleware/shield.go:235-259 | the masked pieces of each message put together are the message |
| Shield.DictionaryRoundTrip | src/internal/api/middleware/shield.go:235-259 | if no message held an issued token and no empty match was spliced before a longer one with its start, every order of passes restores every message of the request |
| Shield.DictionaryExact | src/internal/api/middleware/shield.go:235-259 | both conditions together are exact when no fragment can overlap its own token |
| Shield.EmptiesExact | src/internal/api/middleware/shield.go:235-259 | for a request whose messages hold no token, the condition on empty matches is exact whatever the fragments |
| Shield.CoverIsReplace | src/internal/api/middleware/shield.go:318-322 | replacing an original that overlaps no token masks more literal text and leaves the tokens in place |
| Shield.PiiRoundTrip | src/internal/api/middleware/shield.go:317-331 | whatever order the replacements ran in and the restoring passes run in, the merged mapping gives back the text |
| Shield.PiiHidden | src/internal/api/middleware/shield.go:317-331 | whatever order the replacements ran in, none of the originals is left in the text, when originals and rule tokens cannot overlap |
| Shield.RequestRoundTrip | src/internal/api/middleware/shield.go:235-331 | both passes over a whole request, then any restoring order, give back every message, given that tokens and originals cannot overlap |
| Shield.RequestExact | src/internal/api/middleware/shield.go:235-331 | ... if and only if no message held a token and no empty match was spliced before a longer one with its start, when no fragment can overlap its own token either |
| Shield.PlainLabels | src/internal/api/middleware/shield.go:254-331 | with rule labels that hold no bracket, the tokens of both passes can never overlap |
| ShieldRequest.RestoreLoop | src/internal/api/middleware/shield.go:71-75 | the loop over the map is one pass per entry in some order, and for a well-formed mapping it is the simultaneous substitution |
| ShieldRequest.Request.SpliceMessage | src/internal/api/middleware/shield.go:252-258 | the splice loop on any kept matches, empty ones included: the message is what the splices make of it, one after the other, and the mapping holds their tokens and fragments |
| ShieldRequest.Request.MaskDictionary | src/internal/api/middleware/shield.go:235-259 | the dictionary pass masks every message, with tokens numbered through the request and no others in the mapping |
| ShieldRequest.PiiLoop | src/internal/api/middleware/shield.go:319-321 | the replacement loop over one message is one replacement per entry in some order |
| ShieldRequest.Request.MaskPii | src/internal/api/middleware/shield.go:317-331 | every message takes the replacements in an order of its own, the mapping takes all of them, and no message holds an original any more, when originals and rule tokens cannot overlap |
| ShieldRequest.Request.Mask | src/internal/api/middleware/shield.go:225-331 | with tokens and originals that cannot overlap, no message holds an original of the PII pass any more, and every order of restoring gives back every message if no message held a token and no empty match was spliced before a longer one with its start; and only then, when no original can overlap its own token |
| ShieldRequest.BufferedWriter.Write | src/internal/api/middleware/shield.go:56-58 | appends to the buffer and reports the full length |
| ShieldRequest.BufferedWriter.WriteHeader | src/internal/api/middleware/shield.go:60-66 | only the first status is kept |
| ShieldRequest.BufferedWriter.Flush | src/internal/api/middleware/shield.go:68-79 | sends the restored buffer once, with the kept status or 200 |
| ShieldRequest.StreamWriter.Write | src/internal/api/middleware/shield.go:96-102 | sends the chunk restored by itself |
| ShieldRequest.StreamWriter.WriteAll | src/internal/api/middleware/shield.go:96-102 | for any writes, the stream equals the restored body if and only if no boundary between writes cuts a token |
| StreamEvents.WholeLinesUncut | src/internal/api/provider_handler.go:21-23 | writes that are whole events never cut a token that holds no line feed |
| StreamEvents.PrintedStreamRestored | src/internal/api/provider_handler.go:199-218 | so a printed stream, restored write by write, equals the restored body |
| StreamEvents.IssuedStreamRestored | src/internal/api/middleware/shield.go:96-102 | the same for every set of tokens that are issued, with rule labels free of brackets, line feeds and quotes, given that no original can overlap a token |
| StreamEvents.EventsRestored | src/internal/api/middleware/shield.go:96-102 | restoring the written events restores the text delta of each by itself and leaves its frame alone |
| StreamEvents.DeltasExact | src/internal/api/middleware/shield.go:96-102 | the deltas that the client puts together are the restored answer if and only if no boundary between deltas cuts a token |
| StreamEvents.IssuedDeltasExact | src/internal/api/middleware/shield.go:96-102 | the same for every set of tokens that are issued, in events whose frame opens no token |
| StreamEvents.SpreadTokenLost | src/internal/api/middleware/shield.go:96-102 | a token in two parts, each in a delta of its own, is not restored |
| StreamEvents.SpreadTokenExample | src/internal/api/middleware/shield.go:96-102 | a concrete answer in two deltas that goes out masked although it would be restored as a whole |
| JsonText.RestoredReads | src/internal/api/middleware/shield.go:68-79 | with originals that need no escape, decoding the restored body gives the restored decoded answer, escapes in the answer included |
| JsonText.OriginalsExact | src/internal/api/middleware/shield.go:68-79 | this holds for every encoded answer if and only if no original holds a quote, a backslash or a control character |
| JsonText.EscapesExact | src/internal/api/middleware/shield.go:68-79 | the escapes that the client decodes |
| JsonText.QuotedNameBreaks | src/internal/api/middleware/shield.go:68-79 | an original in quotes, after which the restored answer is no JSON string any more |
| ShieldRequest.EmptyMatchCorrupts | src/internal/api/middleware/shield.go:250-258 | two matches that overlap resolution keeps, spliced in an order that a sort by start allows, leave a message that no order of passes restores |
| ShieldRequest.RestoredByAccident | src/internal/api/middleware/shield.go:250-258 | such a message that one order of passes gives back by accident, so that the exact conditions must speak of all orders |
| ShieldRequest.HeldTokenLost | src/internal/api/middleware/shield.go:252-258 | a message that holds the text of a token beside a dictionary hit is not given back by the one order there is |
| ConfigMerge.MergeLooks | src/internal/infra/config/diff.go:38-53 | a merged file decides every path it speaks about and leaves all others as they were |
| ConfigMerge.LastFileWins | src/internal/infra/config/config.go:397-408 | at every path the merged configuration shows what the last file says that sets the path or sets a prefix of it to a non-map |
| ConfigMerge.NoFileSpeaks | src/internal/infra/config/config.go:397-408 | a path that no file speaks about holds nothing |
| ConfigMerge.Node.Put | src/internal/infra/config/diff.go:50-50 | storing an entry changes the tree at that key only, and shares the maps of the entry |
| ConfigMerge.MergeChild | src/internal/infra/config/diff.go:40-47 | merging below a key changes the tree at that key only |
| ConfigMerge.DeepMerge | src/internal/infra/config/diff.go:38-53 | terminates and leaves in the destination the merge of both trees, whatever order the keys come in, with sub-maps shared and not copied |
| ConfigMerge.MergeFiles | src/internal/infra/config/config.go:397-408 | the result is the fold of all files as they were read, although later merges change maps shared with earlier files |
| Calendar.MonthDayClosed | src/internal/domain/budget/entity.go:138-141 | month starts counted month by month agree with the closed form of the Gregorian calendar |
| Calendar.MonthIsUnique | src/internal/domain/budget/entity.go:104-106 | every day lies in exactly one month |
| Calendar.YearMonthInjective | src/internal/domain/budget/entity.go:104-106 | two days print the same year and month exactly when they lie in the same month |
| Calendar.DateInjective | src/internal/domain/budget/entity.go:107-108 | two days print the same date exactly when they are the same |
| Calendar.DateParts | src/internal/domain/budget/entity.go:104-108 | year, month and day of a date by the closed form of the Gregorian calendar |
| Calendar.LeapDay | src/internal/domain/budget/entity.go:104-108 | a leap day as an example of both layouts |
| Budgets.SameKeySamePeriod | src/internal/domain/budget/entity.go:102-119 | period keys are equal exactly for instants of the same period, so no key ever comes back |
| Budgets.PeriodsTile | src/internal/domain/budget/entity.go:102-155 | from an instant on, the key stays exactly until the end of the period; the remaining time is positive, ends there unless the duration type saturates, and whole seconds of it miss less than one second |
| Budgets.PeriodFits | src/internal/domain/budget/entity.go:134-155 | months, days and custom windows of up to 106751 days fit the duration type |
| Budgets.WindowLength | src/internal/domain/budget/entity.go:109-114 | a custom window starts at a multiple of its days, as many as are set, and 30 when none are |
| Budgets.OtherPeriodsDrift | src/internal/domain/budget/entity.go:115-118 | for any other period type the key lasts as long as the remaining time only at midnight |
| Budgets.WeeklyAtNoon | src/internal/domain/budget/entity.go:118-155 | such a budget at noon: its counter is kept for 24 hours, its key changes after 12 |
| Budgets.CounterPerPeriod | src/internal/domain/budget/entity.go:122-131 | a budget changes its counter exactly when its period ends |
| Budgets.CounterKeyExact | src/internal/domain/budget/entity.go:122-131 | two budgets share a counter exactly when they have the same scope, bound the same tenant, key, or model of a tenant, and are in periods of the same key; for model budgets, with tenant ids free of colons |
| Budgets.KeysPrinted | src/internal/domain/budget/entity.go:122-131 | the printed keys of the three scopes |
| Budgets.CrossedCounts | src/internal/domain/budget/entity.go:168-183 | every entry of the notify list is reported exactly when its own threshold was crossed |
| Budgets.CrossedThresholds | src/internal/domain/budget/entity.go:168-183 | the loop reports, in list order, exactly the percentages from 0 to 100 whose share of a positive limit lies above the spend before and not above the spend now |
| BudgetRuns.Overshoot | src/internal/api/middleware/budget.go:77-120 | in every interleaved run with at most K requests between check and charge and costs of at most C, a counter owned by one budget stays strictly below its hard limit plus K*C |
| BudgetRuns.RoomStep | src/internal/api/middleware/budget.go:112-120 | every step keeps the invariant behind the bound: the counter plus what the remaining requests may add stays within it |
| BudgetRuns.NeverMissed | src/internal/api/middleware/budget.go:112-148 | under any interleaving every notify percentage whose threshold the counter has reached was notified at least once per list entry, unless a lost reply took the counter there |
| BudgetRuns.SerialOnce | src/internal/api/middleware/budget.go:112-148 | in serial runs it was notified exactly once per list entry, and not before the threshold was reached, if and only if no lost reply took the counter past it |
| BudgetRuns.LostReplyUnheard | src/internal/api/middleware/budget.go:112-128 | a run in which a lost reply takes a counter past a threshold and nobody is notified |
| BudgetRuns.CounterIsSumOfCharges | src/internal/adapters/repository/budget/valkey_spendcounter.go:24-37 | in every run a counter equals the sum of all that was added to it since it last expired: the charges to its key, and those whose reply was lost |
| BudgetRuns.ExpiryStep | src/internal/adapters/repository/budget/valkey_spendcounter.go:24-37 | a counter may expire at any time, then reads zero, and no other counter changes |
| BudgetRuns.UndisturbedCounter | src/internal/adapters/repository/budget/valkey_spendcounter.go:24-37 | without an expiry or a lost reply a counter is the sum of all charges to its key |
| BudgetRuns.CounterIsRecordedSpend | src/internal/api/middleware/budget.go:112-139 | a counter that stands for one budget equals that budget's charges since it last expired, plus what was added while the reply was lost |
| BudgetRuns.UndisturbedSpend | src/internal/api/middleware/budget.go:112-139 | without an expiry or a lost reply, a counter that stands for one budget is all of its charges |
| BudgetRuns.ChargedOncePerBudget | src/internal/api/middleware/budget.go:112-139 | when m matched budgets share a counter key, a finished request has added its cost to that counter exactly m times, replies lost or not |
| BudgetRuns.NeverCharged | src/internal/api/middleware/budget.go:94-110 | in every run without a cost in any response, as when all are streamed, nothing is charged and no budget with a limit above zero rejects |
| BudgetRuns.StreamsAreFree | src/internal/api/middleware/budget.go:94-97 | a run of any number of streamed requests, all served, that leaves every counter empty |
| BudgetMiddleware.Middleware.CheckAll | src/internal/api/middleware/budget.go:77-92 | rejects exactly when some counter that could be read is over its hard limit |
| BudgetMiddleware.Middleware.ChargeOne | src/internal/api/middleware/budget.go:112-148 | counters, key spend, records, alerts and the recorded steps after one charge, and nothing else |
| BudgetMiddleware.Middleware.ChargeAll | src/internal/api/middleware/budget.go:112-153 | all of these after the whole charge loop: one entry, one record and its alerts for each successful charge, in order |
| BudgetMiddleware.Middleware.Handle | src/internal/api/middleware/budget.go:50-155 | one request: rejected exactly when some readable counter is over its hard limit, which changes nothing; else every counter and key grows by the cost per successful charge, with exactly their records and alerts appended; and the steps of the call follow those recorded before |
| BudgetMiddleware.Middleware.CountersAreCharges | src/internal/api/middleware/budget.go:112-139 | after any calls each counter is the sum of the charges recorded for its key |
| BudgetMiddleware.Middleware.NotifiedOnce | src/internal/api/middleware/budget.go:112-148 | after any calls whose reads succeeded, a budget that alone owns its counter has notified each list entry exactly once if its threshold was reached, else not at all |
| BudgetMiddleware.RunExtends | src/internal/api/middleware/budget.go:50-155 | a longer list of steps extends the run, so earlier states stay as they were |
| BudgetMiddleware.ChargeIsTwoSteps | src/internal/api/middleware/budget.go:113-128 | charging one budget is the read step followed by the increment step |
| RateLimit.WindowBound | src/internal/adapters/repository/budget/valkey_ratelimit.go:15-46 | no interval of one window length holds more than limit recorded requests, nor more than limit minus one allowed ones |
| RateLimit.ResetIsExact | src/internal/adapters/repository/budget/valkey_ratelimit.go:25-32 | after a full-window rejection the reported reset time is exactly the first instant at which a lone call is recorded |
| RateLimit.ExpiryUnseen | src/internal/adapters/repository/budget/valkey_ratelimit.go:34-35 | expiry of the key never changes an outcome |
| RateLimit.SlidingWindow.Script | src/internal/adapters/repository/budget/valkey_ratelimit.go:15-46 | the stored set and the script's answers are those of the full history of requests |
| RateLimit.SlidingWindow.Allow | src/internal/adapters/repository/budget/valkey_ratelimit.go:66-114 | the caller is let through exactly when a place is left after its own request, which is recorded whenever a place is left for it at all; the remaining places and the reset time are the stated values, with the window in milliseconds; without a positive limit everything passes |
| RateLimit.SlidingWindow.AllowAll | src/internal/adapters/repository/budget/valkey_ratelimit.go:66-114 | of any list of calls on a fresh limiter, at most limit minus one in every interval of one window length are answered with true |
| RateLimit.SlidingWindow.NeverOver | src/internal/adapters/repository/budget/valkey_ratelimit.go:66-114 | however often it is called, the limiter keeps both bounds in every window |
| VirtualKeys.IndexedTry | src/internal/api/middleware/virtualkey_auth.go:94-99 | a disabled key that the index still holds is refused like one that is not found |
| VirtualKeys.Gateway.Refresh | src/internal/api/middleware/virtualkey_cache.go:71-85 | the index becomes exactly the listed rows, disabled ones included |
| VirtualKeys.Gateway.InvalidateKey | src/internal/api/middleware/virtualkey_cache.go:102-110 | drops the entries of the key and no others |
| VirtualKeys.Gateway.InvalidateTenant | src/internal/api/middleware/virtualkey_cache.go:113-121 | drops the entries of the tenant and no others |
| VirtualKeys.Gateway.Lookup | src/internal/api/middleware/virtualkey_auth.go:64-81 | answers from the index, else from the enabled row of the table, which it adds to the index, and keeps the index coherent |
| VirtualKeys.Gateway.Authenticate | src/internal/api/middleware/virtualkey_auth.go:83-107 | authentication through a coherent index gives the tenant and key of a lookup in the table alone; who is accepted presented the key of an enabled row whose time is not over, in the header of the tenant that owns it |
| VirtualKeys.AcceptedExact | src/internal/api/middleware/virtualkey_auth.go:83-107 | one candidate is accepted if and only if its key is that of an enabled row whose time is not over, and the first tenant that owns the row uses the header it came in |
| VirtualKeys.FirstDecides | src/internal/api/middleware/virtualkey_auth.go:83-107 | of several candidates the first one with a usable key that some tenant owns decides, by the header of the first such tenant |
| VirtualKeys.NobodyDecides | src/internal/api/middleware/virtualkey_auth.go:83-107 | without such a candidate nobody is accepted |
| VirtualKeys.RevokeExact | src/internal/adapters/repository/postgres/virtual_key_repo.go:125-135 | revoking disables the rows of the key and changes nothing else |
| VirtualKeys.RevokedRefused | src/internal/adapters/repository/postgres/virtual_key_repo.go:125-135 | a revoked key is refused by the table at once, whatever else is presented with it |
| VirtualKeyRuns.QuietStep | src/internal/api/middleware/virtualkey_auth.go:64-81 | no step brings a copy from before the revocation back once none can reach the index |
| VirtualKeyRuns.LookupAlone | src/internal/api/middleware/virtualkey_auth.go:64-81 | the steps of a lookup on its own answer and fill the index just as the lookup does |
| VirtualKeyRuns.OthersAlone | src/internal/api/middleware/virtualkey_cache.go:71-121 | a refresh, an invalidation and an admin write on their own do what these do |
| VirtualKeyRuns.RevocationExact | src/internal/api/middleware/virtualkey_cache.go:71-100 | a revoked key can never be accepted again by later lookups if and only if no copy from before the revocation is in the index, in a listing, or in a lookup about to store it |
| VirtualKeyRuns.CarriersOnlyFinish | src/internal/adapters/repository/postgres/virtual_key_repo.go:34-37 | once the key is revoked no further lookup picks up an enabled copy |
| VirtualKeyRuns.RefreshEndsRevocation | src/internal/api/middleware/virtualkey_cache.go:71-85 | a refresh whose listing began after the revocation makes the key safe for good, once the lookups started before have finished, as long as nothing enables its row again |
| VirtualKeyRuns.LateStoreRevives | src/internal/api/middleware/virtualkey_auth.go:72-80 | a lookup that read before the revocation and stores after the refresh makes the key acceptable again |
| KeySpend.RevokedExact | src/internal/api/middleware/budget.go:185-199 | whatever updates of key spend follow, a revoked row stays revoked if and only if none of them read the row before its revocation |
| KeySpend.SpendRevives | src/internal/adapters/repository/postgres/virtual_key_repo.go:94-122 | a concrete run in which such an update enables a revoked key again |
| KeySpend.SpendLost | src/internal/api/middleware/budget.go:185-199 | a run of two updates that both read before either writes, which keeps only one of the costs |
| KeySpend.SpendExact | src/internal/api/middleware/budget.go:185-199 | over every run of reads, writes and revocations with positive costs: the spend is what it was plus all costs written if and only if no update is written after another one was since it read; otherwise it is less |
| ReadThrough.AlwaysGenuine | src/internal/adapters/repository/session/cached.go:47-65 | under any interleaving, failing cache writes and evictions, the cache and every answer hold only versions that the primary once held |
| ReadThrough.InsertOnlyIsExact | src/internal/adapters/repository/mask/cached.go:24-45 | over insert-only rows every successful answer is exactly the primary's row |
| ReadThrough.StaleAnswer | src/internal/adapters/repository/session/cached.go:47-65 | a run of both stores' commands, an insertion whose cache write fails and an update read back, that ends in an answer with the old version |
| ReadThrough.DeletedReturns | src/internal/adapters/repository/mask/cached.go:32-53 | a reader that fetched a row before it was deleted from both stores brings it back into the cache |
| ReadThrough.FreshExact | src/internal/adapters/repository/session/cached.go:47-65 | as long as the row of a key is neither put nor dropped, every later cache entry of it, and every answer to a request that begins later, is the primary's row if and only if the cache entry and every version on its way to the cache are so now |
| ReadThrough.GetAlone | src/internal/adapters/repository/mask/cached.go:32-45 | the steps of an undisturbed read lead to the backfilled cache |
| ReadThrough.PutAlone | src/internal/adapters/repository/mask/cached.go:24-30 | the steps of an undisturbed write lead to the written primary and, unless that fails, cache |
| Sessions.ClosedIsFinal | src/internal/adapters/repository/session/postgres.go:71-127 | while its row exists nothing about a closed session ever changes, its counters included |
| Sessions.ExpiredNeverStored | src/internal/adapters/repository/session/postgres.go:28-127 | no update marks a row as expired |
| Sessions.TenantOwnsRow | src/internal/adapters/repository/session/postgres.go:71-127 | a row changes only through its own tenant and id |
| Sessions.CachedGetExact | src/internal/adapters/repository/session/cached.go:47-65 | a fresh cache answers like the primary exactly for sessions it does not hold and for unpurged ones asked for by their own tenant |
| Sessions.CachedStore.SaveSession | src/internal/adapters/repository/session/cached.go:36-44 | a new id is written to the primary and then, best effort, to the cache; a taken id changes nothing |
| Sessions.CachedStore.Get | src/internal/adapters/repository/session/cached.go:47-65 | over a fresh cache the owner gets the primary's row, and the cache stays fresh |
| Sessions.CachedStore.Change | src/internal/adapters/repository/session/cached.go:68-113 | an update goes through exactly for an active row of the tenant, an increment only before the row's time is over; the row becomes what the update says, field by field, no other row changes, and, if the cache write works, freshness is kept |
| Sessions.CachedStore.DeleteExpired | src/internal/adapters/repository/session/cached.go:111-113 | purging removes from the primary only, and there exactly the rows stored as expired or whose time is over |
| Sessions.ReadByAnother | src/internal/adapters/repository/session/cached.go:36-65 | a session saved for one tenant is handed to another by `Get`, although the primary would refuse |
| Sessions.CloseTwice | src/internal/domain/session/usecase.go:91-109 | closing succeeds exactly for open sessions, and after it closing and extending report a closed session |
| Sessions.UseCaseExact | src/internal/domain/session/usecase.go:70-109 | extending and closing, by the row: who is refused with which error, and what the row becomes |
| Sessions.ViewedIs | src/internal/domain/session/usecase.go:53-63 | a session is shown as expired exactly when it is stored as active and its time is over |
| Sessions.ExtendRevives | src/internal/domain/session/usecase.go:70-88 | extending succeeds for every open session however long ago its time ran out, and it is shown as active again |
| Sessions.ExpiredExtended | src/internal/domain/session/usecase.go:70-88 | a concrete session shown as expired, then extended and shown as active |
| MaskStore.CachedMaskRepo.Save | src/internal/adapters/repository/mask/cached.go:24-30 | inserts a new id and refuses a taken one, leaving both stores alone; agreement of cache and primary is kept |
| MaskStore.CachedMaskRepo.Get | src/internal/adapters/repository/mask/cached.go:32-45 | an agreeing cache makes no difference to the answer, and stays agreeing |
| MaskStore.CachedMaskRepo.Delete | src/internal/adapters/repository/mask/cached.go:47-53 | agreement survives exactly when the cache's delete worked or it did not hold the entry |
| Sse.EndsOnce | src/internal/adapters/egress/stream.go:67-101 | an uncancelled read emits data chunks, then exactly one terminal chunk and nothing after |
| Sse.StreamSse | src/internal/adapters/egress/stream.go:67-101 | the reader loop emits the events of the body, cut off exactly at the first send that loses against cancellation |
| Sse.Split | src/internal/adapters/egress/stream.go:67-92 | reading whole lines and then more is reading the lines, then the more |
| Sse.LineExact | src/internal/adapters/egress/stream.go:67-92 | what a single line gives, by its bytes and its length |
| Sse.CancelledRead | src/internal/adapters/egress/stream.go:56-101 | what a read of a body cut off anywhere emits, its error aside, is a prefix of what the whole body gives if and only if reading had stopped before, or the started line gives nothing, or the completed line fits the buffer and gives the same, or the completed line gives nothing and an empty chunk, given by mistake, is what comes next |
| Sse.TruncatedChunk | src/internal/adapters/egress/stream.go:56-101 | a concrete cut after which the reader hands on a chunk that was never sent |
| Sse.StreamFromProvider | src/internal/api/provider_handler.go:199-218 | the printer writes whole chunks in order up to the first terminal one or the client's departure |
| Sse.PrintRead | src/internal/api/provider_handler.go:21-23 | printing a complete stream and reading it back gives the same chunks if and only if every text is free of line feeds and trailing carriage returns, is not the end marker, and fits a line |
| Sse.ReadTextsClean | src/internal/adapters/egress/stream.go:70-82 | every text that was read is of that kind but for a trailing carriage return |
| Sse.ReadPrintRead | src/internal/api/provider_handler.go:199-218 | reading any body to its end, printing and reading again changes nothing if and only if no text ended in a carriage return |
| Sse.FailureReadsAsData | src/internal/api/provider_handler.go:207-210 | a failed stream is printed so that a reader sees the failure as one more data chunk and a proper end, if and only if its text is clean |
| Egress.StreakIsSuffix | src/internal/adapters/egress/circuit_breaker.go:34-50 | the failures that count are those after the last success |
| Egress.CircuitBreaker.Allow | src/internal/adapters/egress/circuit_breaker.go:24-32 | refuses exactly when at least max(1, MaxFailures) failures have occurred since the last success and the cooldown after the last of them is not over |
| Egress.CircuitBreaker.Fail | src/internal/adapters/egress/circuit_breaker.go:34-42 | adds one failure to the history that determines the breaker |
| Egress.CircuitBreaker.Reset | src/internal/adapters/egress/circuit_breaker.go:44-50 | adds one success to that history |
| Egress.ReopensAtOnce | src/internal/adapters/egress/circuit_breaker.go:34-42 | once enough failures are in a row, each further one opens the breaker for a whole cooldown, however late it comes |
| Egress.DoWithRetry | src/internal/adapters/egress/retry.go:48-102 | makes at least one and at most max(0, MaxRetries)+1 attempts; goes on exactly after network failures, refused connections and, for a GET or when configured, server errors, until the context ends; reports the last outcome or the ended context, and never neither response nor error |
| Egress.StopsOnce | src/internal/adapters/egress/retry.go:48-102 | outcomes and context determine the number of attempts |
| Egress.BackoffWindow | src/internal/adapters/egress/retry.go:15-21 | for every 64-bit base: the wait is the base or the number drawn; as long as base * 2^attempt fits, it is below that and not negative, or is the base when that is not positive |
| Egress.BackoffEnds | src/internal/adapters/egress/retry.go:15-21 | from attempt 63 on the wait is the base |
| Egress.Client.Call | src/internal/adapters/egress/client.go:55-119 | a call that reaches the network adds exactly one failure or success to the breaker however many attempts it made; any response that is not retried counts as success, and a call without one returns the last error or that the context ended |
| Egress.Client.Stream | src/internal/adapters/egress/client.go:124-138 | a stream asks the breaker but tells it nothing, starts only on status 200 with an event stream, and otherwise returns the error of the last attempt or that the stream is not one |
| Workers.ReceivingConserves | src/internal/app/conversation/async_worker.go:104-118 | receiving the first record still to come keeps the balance: accepted records are those received followed by the channel, and what these became, each under its own conversion, is what was handed to the store followed by the batch |
| Workers.StepConserves | src/internal/app/conversation/async_worker.go:67-121 | every event keeps the balance: sends, with or without capacity, receipts, ticks and cancellation |
| Workers.StepExact | src/internal/app/conversation/async_worker.go:67-121 | what each event does: a record is accepted with room, leaves the channel when received and is converted; a full batch, a tick or a cancellation empties the batch into the store |
| Workers.EveryRunConserves | src/internal/app/conversation/async_worker.go:67-121 | whatever happens to a worker that started idle, records are neither lost nor doubled nor reordered, and no batch is empty or above its bound |
| Workers.NothingLost | src/internal/app/analytics/async_worker.go:51-76 | without conversions that fail, at every moment of every run the accepted records are those handed to the store, then the batch, then the channel |
| Workers.TakenKeeps | src/internal/app/analytics/async_worker.go:60-65 | a batch is flushed when it reaches the channel's capacity, so it stays within max(1, capacity) |
| Workers.KeptAll | src/internal/app/analytics/async_worker.go:60-65 | conversions that keep each record leave the records as they are |
| Workers.AsyncWorker.Send | src/internal/app/analytics/async_worker.go:70-76 | accepts a record exactly when the channel has room or, without capacity, the worker is waiting |
| Workers.AsyncWorker.Turn | src/internal/app/analytics/async_worker.go:51-66 | one turn of the loop keeps the balance and leaves exactly the channel, batch, calls and conversions that the event makes; ticks and cancellation flush |
| Workers.AsyncWorker.Run | src/internal/app/conversation/async_worker.go:67-121 | over a whole run, senders and loop interleaved in any way, the worker is in the state that its events make in order, and conserves its records |
| Workers.StopsWhenCancelled | src/internal/app/analytics/async_worker.go:51-66 | a run stops exactly when some event cancels it, with the batch handed over, and never takes back an accepted record or a batch handed over |
| Workers.AuditLogStore.Write | src/internal/adapters/repository/postgres/audit_log_store.go:46-55 | accepts, reports a full buffer, or reports the ended context |
| Workers.AuditLogStore.Flush | src/internal/adapters/repository/postgres/audit_log_store.go:57-72 | ends once writers stop, and by then has inserted everything accepted so far, in order |
| Workers.AuditLogStore.Shutdown | src/internal/adapters/repository/postgres/audit_log_store.go:74-86 | every entry accepted before is handed to the insert exactly once and in order |
| ConversationLogs.LogOpens | src/internal/app/conversation/async_worker.go:127-175 | a stored log opens to the captured payloads, each cut to the limit; a record without request carries no payload at all |
| ConversationLogs.DroppedWhen | src/internal/app/conversation/async_worker.go:127-175 | exactly which records are dropped |
| Secrets.SealJsonOpens | src/internal/adapters/repository/postgres/routing_registry.go:98-121 | a sealed JSON value opens to the value |
| Secrets.SealTextOpens | src/internal/adapters/repository/postgres/routing_registry.go:123-143 | a sealed text opens to the text, and the empty text stays empty |
| Secrets.LegacyReads | src/internal/adapters/repository/postgres/routing_registry.go:62-95 | a JSON column from before encryption reads as it always did unless it is a JSON string |
| Secrets.LegacyTextExact | src/internal/adapters/repository/postgres/routing_registry.go:123-143 | a text column from before encryption reads as it always did if and only if it does not begin with the mark; one that does is taken for a sealed one |
| Secrets.NeedUpdateExact | src/internal/adapters/repository/postgres/routing_registry.go:287-317 | a row is skipped exactly when every JSON column and every non-empty text column is sealed |
| Secrets.SealRowOpens | src/internal/adapters/repository/postgres/routing_registry.go:344-372 | the written row opens to the secrets it was sealed from |
| Secrets.SealRowWrites | src/internal/adapters/repository/postgres/routing_registry.go:344-372 | the columns as they are written, each under the nonce drawn for it |
| Secrets.RowKeepsSecrets | src/internal/adapters/repository/postgres/routing_registry.go:264-337 | the pass keeps what a row opens to, leaves it sealed, and does not touch a sealed one |
| Secrets.RowPasses | src/internal/adapters/repository/postgres/routing_registry.go:264-337 | exactly when the pass gets past a row |
| Secrets.Providers.Reencrypt | src/internal/adapters/repository/postgres/routing_registry.go:264-337 | however far the pass gets every row goes on opening as it did; rows before the stop are sealed, rows behind it untouched, and over sealed rows it succeeds and changes nothing |

## Left out

- The admin UI, bootstrap, SQL text, migrations, transports and provider message formats: wiring, or calls into code that is not part of this model.
- AES-GCM, base64, JSON and regular expressions: functions with the round-trip laws they promise.
- The detectors and the scan pipeline: their matches and replacements are inputs.
- Metrics, logging, tracing, pagination, listing and field validation: one branch each.
- Rounding of floating-point money: amounts are exact reals.
- Extraction of usage and prices from a response body: the cost of a request is an input.
- The semantic cache, whose keys are hashes of embeddings.
- Re-sending a request body on retry: a round trip is an outcome, its body is not part of this model.
- The preservation of masked secrets on provider upserts.
- Shield.RequestExact: says nothing of originals or fragments that can overlap a token of the same request; rule labels with brackets are covered as long as the tokens cannot overlap.
- StreamEvents.DeltasExact: the text of an event is enclosed by characters that no token holds, as JSON quotes are; an answer whose JSON escapes a character of a token is not modelled.
- JsonText.OriginalsExact: every \u escape is decoded by itself; the two halves of a surrogate pair are not joined.
- ConfigMerge.MergeFiles: the decoded files are trees of their own; aliases inside one YAML file, which make the decoder share a map, are not modelled.
- BudgetRuns.Overshoot: holds for a counter that one budget owns and for requests whose checks could read it, as the protocol needs.
- BudgetRuns.CounterIsRecordedSpend: the charges are those the handler goes on to record; that the database fails to take an entry is not modelled.
- BudgetMiddleware.Middleware.Handle: one call at a time for the key's own spend; what concurrent updates of it do is the subject of KeySpend. Replies of the counter arrive; lost ones are the subject of BudgetRuns.
- Budgets.PeriodsTile: an expiry of zero whole seconds, in the last second of a period, drops the counter at once; the runs treat that as an expiry step.
- VirtualKeyRuns.RefreshEndsRevocation: the row stays revoked, which KeySpend.RevokedExact settles for the gateway's own updates; an administrator's update that enables it again is excluded.
- VirtualKeys.Gateway.Authenticate: columns of a key that authentication does not read are left out.
- ReadThrough.AlwaysGenuine: a version is a whole row; that the cache writes rows through JSON is not part of this model.
- Sse.StreamSse: a read that reports the end of the body together with its last bytes, when they fill the scanner's buffer exactly, is not modelled.
- Workers.AsyncWorker.Run: handing a batch to the store is one step; the reuse of the batch's memory after the call is not modelled.
