# Standard Red Notes: a verified model of five mechanisms

Dafny models of the parts of the repository where a mistake would be hardest to see by reading, and proofs of what
those parts are for. Code that changes state step by step is a method or a class proved against a specification;
concurrent code is a state machine over its `await` points, with invariants over every run.

* **Runtime dependency layout** (`Packages`, `Collector`, `Preferred`, `Layout`, `LayoutCycles`, `Copier`, `Resolution`,
  `Installation`): the desktop
  packager walks a possibly cyclic dependency graph, hoists one package per name, and nests the others. The graph it
  collects is exactly the needed one; the copier stops exactly when no branch meets the same package with the same
  visible packages twice, that is when no branch enters a cycle around which the versions of every name alternate; its
  "Conflicting runtime packages" branch is unreachable; and Node finds what the installation resolves to if and only if
  no package nested nearer disagrees.
* **OpenClaw agent memory** (`Utf8`, `JsonText`, `AgentText`, `AgentHistory`, `AgentJson`, `AgentLoop`,
  `AgentPairing`, `OllamaReader`):
  truncation by UTF-8 bytes, streaming accumulation, history bounded by the bytes of its JSON, the tool loop, exactly
  when its requests keep tool calls and results together, and the reader of the Ollama stream.
* **MCP bridge concurrency** (`AsyncMutex`, `Bridge`, `HttpSessions`, `AuthErrors`): the promise-chain mutex refines a
  first-in first-out lock; bootstrap, background sync, tools and the wipe after a revoked session interleave safely;
  HTTP sessions stay within their limit exactly as long as no registration arrives, after its own request timed out,
  when every slot is taken.
* **Durable store and pagination** (`WriteChain`, `NodeDevice`, `Cursor`, `NoteListing`, `NotePaging`): what is on disk after any
  failures and a crash at any point, and what a caller who follows note cursors over a changing store receives.
* **Documentation search** (`DocsFolding`, `DocsSearch`): folding with its offset map, greedy scanning, merged highlight
  ranges, and pieces that spell the original text.

`Basics` holds the shared vocabulary. `dafny verify dfyconfig.toml` checks everything.

## Where the code falls short of the obvious claim

Each of these has a concrete input, proved to fail, beside a lemma that says for all inputs when the claim does hold.

* The copier descends forever on an installation where a package needs the other version of itself
  (`Installation.CollectAlternating`; exactly when: `Layout.TerminatesIff` and `LayoutCycles.RepeatsIff`).
* A nested package can shadow the copy its sibling relies on, because `childPackages` records ancestors and the top
  level but not siblings (`Installation.CopyShadowed`; exactly when: `Resolution.LayoutPreservesMeaningIff`).
* Streaming truncation differs from truncating the whole text when a chunk boundary falls right behind a marker that
  is part of the text (`AgentText.MarkerInTextLosesText`; exactly when: `AgentText.StreamingIff`).
* When an assistant message with all its calls exceeds the scratchpad limit, its first calls are dropped but their
  results are kept, so the next request carries a tool result without its call (`AgentPairing.DroppedCallLeavesResult`;
  exactly when: `AgentPairing.BoundingPairsIff` for one history, `AgentPairing.SendsPairedIff` for a whole run).
* Truncation counts bytes before JSON escaping and the limit counts them after, so the newest message can vanish whole
  (`AgentHistory.LineBreaksVanish`; exactly when: `AgentHistory.ForgetsAllIff` and `AgentHistory.NewestSurvivesIff`).
* An HTTP handler that outlives its timeout still registers its session, above the limit
  (`HttpSessions.LateRegistrationExceedsLimit`; exactly when: `HttpSessions.LimitHoldsIff`; by how much:
  `HttpSessions.SessionsBounded` and `HttpSessions.BoundIsTight`).
* A failed request releases the session it had registered by then, but not one it registers while it is being cleaned up
  (`HttpSessions.RegistrationOutlivesCleanUp`; exactly which sessions live: `HttpSessions.LiveIff`).
* A note cursor dated before 1970, or with an id too long, is issued but not accepted back
  (`Cursor.EarlyCursorRejected`; exactly when: `Cursor.RoundTripIff`), so paging through such notes ends in an error
  (`NotePaging.EarlyNotesStopPaging`; exactly when: `NotePaging.FollowListedIff` and `NotePaging.FixedStore`).
* Notes are sorted by `localeCompare` but filtered by `>`: an account on which the two orders differ loses a note
  (`NotePaging.MixedCaseDisagrees`; whenever: `NotePaging.DisagreementLosesNote`; exactly when:
  `NotePaging.PagingCompleteIff`).
* A letter that folds to a surrogate pair shifts every later offset (`DocsSearch.AstralLetterMisplaces`; exactly when:
  `DocsFolding.AlignedIff` and `DocsSearch.NeverOverreachesIff`), and a combining mark after a separator makes the
  `ends` offsets go back (`DocsFolding.EndsCanGoBack`; exactly when: `DocsFolding.EndsNonDecreasingIff`).

## How foreign things enter

Manifests and the resolution of a package name from an issuer are a `Registry`: a partial function and a map. File
system outcomes, timers, server answers, the provider's events and the tools' results are inputs of the models: actions
of a state machine, or arbitrary functions. `JSON.stringify` of tool arguments is the JSON text it gives, or the fact
that it throws or gives `undefined`. Unicode normalization, letter classes and combining marks are data carried by each
source character. `localeCompare` is an arbitrary key per package id and an arbitrary relation on note ids. Regular expressions over error strings are
an arbitrary predicate.

## Model

| member | source | states |
|---|---|---|
| Collector.CollectDependencyGraph | app/packages/desktop/runtime-dependency-copy-patterns.js:56-115 | Terminates on cyclic graphs and succeeds exactly when every needed request that is not optional resolves and every needed manifest is readable. The result has exactly the packages reachable from the application's plain dependencies through plain and optional ones, every edge, and a count per name and package equal to the edges and root requests that reach it; each manifest is read once. |
| Collector.Collector.Visit | app/packages/desktop/runtime-dependency-copy-patterns.js:61-106 | One visit adds only packages reachable from the visited one, leaves earlier packages' edges alone, counts one request, skips only unresolvable optional requests, and throws only when something broken can be reached. |
| Collector.Collector.Expand | app/packages/desktop/runtime-dependency-copy-patterns.js:73-97 | First visit: afterwards the package has all its edges and everything reachable from it is in the graph. |
| Collector.Collector.Follow | app/packages/desktop/runtime-dependency-copy-patterns.js:87-96 | One dependency name adds its edge exactly when it resolves. |
| Collector.Collector.Request | app/packages/desktop/runtime-dependency-copy-patterns.js:99-105 | The candidates of a name stay exactly the packages with a positive count, each listed once, and one count grows by one. |
| Collector.ChildFailed | app/packages/desktop/runtime-dependency-copy-patterns.js:65-70 | An exception from a dependency means a broken package can be reached from the issuer too. |
| Packages.ClosedUnderWalks | app/packages/desktop/runtime-dependency-copy-patterns.js:56-115 | Everything on a walk from a collected package is collected. |
| Preferred.PreferredPackages | app/packages/desktop/runtime-dependency-copy-patterns.js:117-134 | The roots come first and win; every other requested name gets the candidate with the most requests, ties to the smaller collation key; one entry per name. |
| Preferred.RequestIsHoisted | app/packages/desktop/runtime-dependency-copy-patterns.js:120-131 | Every name any copied package requests has a hoisted package. |
| Preferred.MostRequested | app/packages/desktop/runtime-dependency-copy-patterns.js:125-131 | The package hoisted for a name the application does not ask for is asked for by at least as many packages as any other of that name, and comes first among equals. |
| Layout.TerminatesIff | app/packages/desktop/runtime-dependency-copy-patterns.js:162-187 | The nesting depth is bounded if and only if no branch repeats a package with the same visible packages. |
| Layout.OneVersionNeverRepeats | app/packages/desktop/runtime-dependency-copy-patterns.js:174-181 | If within every cycle each requested name means one package, no branch repeats, so the copier stops. |
| Layout.MixedVersionsDiverge | app/packages/desktop/runtime-dependency-copy-patterns.js:177-182 | One concrete graph, two packages that ask for each other under one name, whose layout has no greatest depth. |
| Layout.StaysVisible | app/packages/desktop/runtime-dependency-copy-patterns.js:174-180 | Along a cycle that agrees on names, the package the first step made visible stays the visible one. |
| Layout.Pump | app/packages/desktop/runtime-dependency-copy-patterns.js:162-183 | A repetition on one branch can be repeated to any depth. |
| LayoutCycles.RepeatsIff | app/packages/desktop/runtime-dependency-copy-patterns.js:162-187 | The layout is unbounded if and only if some branch enters a dependency cycle around which every request of a name means another package than the request of that name before it. |
| LayoutCycles.SteadyNeverRepeats | app/packages/desktop/runtime-dependency-copy-patterns.js:174-182 | If around every dependency cycle some name always means the same package, the copier stops. |
| LayoutCycles.OneVersionIsSteady | app/packages/desktop/runtime-dependency-copy-patterns.js:174-182 | Cycles that do not mix versions are of this kind. |
| LayoutCycles.MixedVersionsCanStop | app/packages/desktop/runtime-dependency-copy-patterns.js:174-182 | A concrete cycle that mixes versions of one name and is still laid out in finitely many steps, whatever is hoisted. |
| Copier.Copier.AddPackage | app/packages/desktop/runtime-dependency-copy-patterns.js:162-183 | Copies exactly the layout below its target, one pattern per new target, and never meets a target already copied: neither the conflict exception nor the silent return is reached. |
| Copier.Copier.FollowEdge | app/packages/desktop/runtime-dependency-copy-patterns.js:177-182 | One edge is skipped exactly when the wanted package is already visible, else copied below the target. |
| Copier.CopyAll | app/packages/desktop/runtime-dependency-copy-patterns.js:155-190 | The copied targets are exactly the layout, each holding the right package. |
| Copier.RuntimeDependencyCopyPatterns | app/packages/desktop/runtime-dependency-copy-patterns.js:136-190 | The whole function: collected graph, hoisted packages, layout and one copy pattern per target, with nested `node_modules` copied exactly for packages whose manifest bundles dependencies. |
| Copier.HoistsWellFormed | app/packages/desktop/runtime-dependency-copy-patterns.js:116-134 | What is hoisted is part of the collected graph, one package per name. |
| Resolution.LayoutPreservesMeaningIff | app/packages/desktop/runtime-dependency-copy-patterns.js:155-190 | Node resolves every dependency of every copied package to the recorded package if and only if no import was left to an ancestor's copy while a nearer package nested another of that name. |
| Resolution.ResolvesIff | app/packages/desktop/runtime-dependency-copy-patterns.js:174-182 | For each copied package and dependency the wanted copy is on its path, and Node's walk up finds it exactly when it was nested here or no nearer package disagrees. |
| Resolution.RecordedIsPlaced | app/packages/desktop/runtime-dependency-copy-patterns.js:174-175 | What the map handed down a branch calls visible really was copied, and where. |
| Resolution.TopLevelResolves | app/packages/desktop/runtime-dependency-copy-patterns.js:185-187 | Hoisted packages always resolve every dependency to the recorded package. |
| Resolution.RootsResolve | app/packages/desktop/runtime-dependency-copy-patterns.js:118-118 | The application's own imports get the packages its manifest resolves to. |
| Resolution.SiblingShadows | app/packages/desktop/runtime-dependency-copy-patterns.js:174-181 | A concrete graph where Node finds a sibling's nested version instead of the recorded one. |
| Installation.OneVersionTerminates | app/packages/desktop/runtime-dependency-copy-patterns.js:162-187 | If around every cycle of installed packages a name resolves to one package, whatever is collected and hoisted from the installation is laid out in finitely many steps. |
| Installation.ImportResolvesIff | app/packages/desktop/runtime-dependency-copy-patterns.js:155-190 | From the installation to Node: for each copied package and each resolvable name among its manifest's `dependencies` and `optionalDependencies`, Node finds what the installation resolves that name to if and only if no sibling shadows that import. |
| Installation.EdgesAreRequests | app/packages/desktop/runtime-dependency-copy-patterns.js:83-96 | A collected package has an edge for exactly those of its `dependencies` and `optionalDependencies` that resolve. |
| Installation.CollectAlternating | app/packages/desktop/runtime-dependency-copy-patterns.js:155-187 | An installation that is collected and hoisted, and whose layout has no greatest depth. |
| Installation.CopyShadowed | app/packages/desktop/runtime-dependency-copy-patterns.js:155-190 | An installation whose copy gives a package its sibling's version instead of the one installed for it. |
| Utf8.RoundTrip | openclaw/src/core/agent.ts:45-51 | Encoding and decoding gives the text with unpaired surrogates replaced by U+FFFD, and nothing else changed. |
| Utf8.RepairAt | openclaw/src/core/agent.ts:45-51 | Unit by unit: exactly the surrogates without their partner are replaced. |
| Utf8.FirstIsCharacter | openclaw/src/core/agent.ts:49-51 | Of any bytes, what is decoded is a replacement or exactly the bytes of a character. |
| Utf8.RunIsLongest | openclaw/src/core/agent.ts:49-51 | One replacement stands for the longest beginning of a character there is. |
| Utf8.KnownBytes | openclaw/src/core/agent.ts:45-51 | The examples of section 7 of RFC 3629 have their bytes. |
| Utf8.DecodeClips | openclaw/src/core/agent.ts:49-51 | Decoding the first n bytes of a text gives the characters that fit whole, then at most one replacement character. |
| AgentText.TruncateText | openclaw/src/core/agent.ts:41-59 | The imperative truncation, its shrinking loop included, computes the specified cut: text that fits unchanged, else the longest well-formed prefix with room for the marker, possibly one replacement character, and the marker. |
| AgentText.FitIsLongest | openclaw/src/core/agent.ts:49-57 | The kept prefix fits its bytes, ends at a character boundary, and no longer such prefix fits. |
| AgentText.TruncatedFits | openclaw/src/core/agent.ts:41-59 | The result is within the byte limit, and of a text that does not fit at most two bytes of the limit go unused. |
| AgentText.TruncatedIs | openclaw/src/core/agent.ts:41-59 | Text that fits is unchanged; other text becomes whole characters from its beginning, at most one U+FFFD and the marker, or in 21 bytes or fewer the beginning of the marker. |
| AgentText.StreamingIff | openclaw/src/core/agent.ts:61-68 | For every chunking, appending chunk by chunk equals truncating the whole text if and only if no chunk boundary falls right behind a marker in the text before a loss. |
| AgentText.MarkerInTextLosesText | openclaw/src/core/agent.ts:66-67 | A concrete text that begins with the marker: streamed it loses its last letter, truncated as a whole it fits. |
| AgentText.StreamingWithoutMarker | openclaw/src/core/agent.ts:61-68 | Text that nowhere contains the marker streams correctly however it is cut. |
| AgentText.AppendAfterOverflow | openclaw/src/core/agent.ts:66-67 | Once the limit is exceeded, appending a chunk to the truncated text is truncating the longer text. |
| AgentHistory.BoundedMessage | openclaw/src/core/agent.ts:70-96 | Computes the bounded message: content and arguments cut, then the fewest leading calls dropped that make it fit. |
| AgentHistory.Dropped | openclaw/src/core/agent.ts:86-88 | The number of dropped calls makes the message fit or is all of them, and no smaller number makes it fit. |
| AgentHistory.BoundedKeeps | openclaw/src/core/agent.ts:70-96 | What is left of a message: the same role, name and answered call, its last calls with their own arguments or, if those exceed half the limit, the placeholder, and its content cut to the limit, once more to half of it only if the rest is too long without any calls. |
| AgentHistory.KeepNewest | openclaw/src/core/agent.ts:106-121 | The backward loop keeps exactly the suffix the specification names. |
| AgentHistory.BoundHistory | openclaw/src/core/agent.ts:98-126 | The whole function; an error exactly for limits that are not positive safe integers. |
| AgentHistory.KeepsLongestSuffix | openclaw/src/core/agent.ts:105-125 | The JSON size is within the limit, the result never starts with a tool message, and it is the longest fitting suffix of the bounded messages without its leading tool messages. |
| AgentHistory.ForgetsAllIff | openclaw/src/core/agent.ts:105-125 | Nothing is kept if and only if there was nothing, or the newest message does not fit alone, or everything that fits is a tool result. |
| AgentHistory.NewestKeeps | openclaw/src/core/agent.ts:108-118 | A newest message that fits is left alone; of a longer one the content is cut to the bytes the rest of the message leaves. |
| AgentHistory.NewestSurvivesIff | openclaw/src/core/agent.ts:108-118 | A newest message that is too long survives if and only if it fits without its content and the JSON escape of the cut content fits the bytes left, against which only raw bytes were cut. |
| AgentHistory.LineBreaksVanish | openclaw/src/core/agent.ts:108-119 | A concrete message of 49 line breaks that is forgotten whole under a limit of 100 bytes. |
| AgentHistory.BoundedHistoryAgain | openclaw/src/core/agent.ts:98-126 | Bounding a bounded history changes nothing. |
| AgentHistory.SuffixFits | openclaw/src/core/agent.ts:33-39 | Any suffix of a history that fits, fits. |
| AgentHistory.EscapingNeverShrinks | openclaw/src/core/agent.ts:33-59 | The raw bytes that truncation counts never exceed the JSON bytes that the history limit counts. |
| AgentJson.HistoryBytesAre | openclaw/src/core/agent.ts:33-39 | The size the history limit counts is the UTF-8 length of the JSON text of the history, or both are infinite. |
| AgentJson.MessageBytesAre | openclaw/src/core/agent.ts:33-39 | The same for one message, with its optional fields and calls written out. |
| AgentJson.EscapedBytesAre | openclaw/src/core/agent.ts:33-39 | The escaped bytes counted for a string are the bytes of its JSON escape. |
| AgentLoop.Run | openclaw/src/core/agent.ts:128-243 | Sends and tool dispatches of a whole run: at most one send per step and one more, every send bounded from what the previous turn produced, every call of a turn that did not fail dispatched once in order, and how each outcome follows from the last turn. |
| AgentLoop.ReceiveAll | openclaw/src/core/agent.ts:154-188 | The stream loop computes the folded batch. |
| AgentLoop.BatchIsFaithful | openclaw/src/core/agent.ts:154-188 | A stream that did not fail yields all its calls in order, at most 64 and within the byte limit together, and the streamed text of its deltas. |
| AgentLoop.FailureIsFinal | openclaw/src/core/agent.ts:168-187 | After an error nothing later in the stream counts. |
| AgentLoop.Dispatch | openclaw/src/core/agent.ts:197-219 | Calls the session once per call, in order, and records each. The result message names the call; its content is the returned text if it fits half the limit, else the longest beginning that fits with the marker, and for a thrown error "error: " and the description. |
| AgentLoop.ResultsReport | openclaw/src/core/agent.ts:197-219 | The same of the results in the specification of a whole run. |
| AgentLoop.NextSend | openclaw/src/core/agent.ts:148-220 | The request after a turn is the one before it, then a message with the streamed text of that turn's deltas and all its calls, then the results that report them; bounded. |
| AgentLoop.FailsIff | openclaw/src/core/agent.ts:161-187 | A step fails exactly if an error arrives, or a call that is too many or too large with those before it; otherwise it stops for the last reason given. |
| AgentLoop.ReceiveText | openclaw/src/core/agent.ts:236-241 | The final answer is the bounded text of the summary stream; its errors and calls are ignored. |
| AgentPairing.SendsFit | openclaw/src/core/agent.ts:148-152 | Every history a provider is sent is within the limit, already in bounded form, and does not start with a tool result. |
| AgentPairing.BoundingPairsIff | openclaw/src/core/agent.ts:70-126 | Bounding a history whose calls and results belong together keeps them together if and only if every kept message that is not a result fits the limit alone with all its calls. |
| AgentPairing.NextPairedIff | openclaw/src/core/agent.ts:195-220 | After a turn that began with a paired request the next request is paired exactly when nothing is kept or the assistant message fits the limit with all its calls. |
| AgentPairing.SendsPairedIff | openclaw/src/core/agent.ts:128-220 | All requests of a run have each result directly behind its call, and each call its result, if and only if this holds of every turn that is sent on and of the messages kept from the caller. |
| AgentPairing.DroppedCallLeavesResult | openclaw/src/core/agent.ts:86-88 | A concrete run, two accepted calls of 509 and 469 bytes under a limit of 1000, whose next request has the result of a call it no longer holds. |
| AgentPairing.ShrunkPairs | openclaw/src/core/agent.ts:86-88 | Dropping calls unpairs a paired history as soon as one message loses one. |
| AgentPairing.CutStaysPaired | openclaw/src/core/agent.ts:122-124 | Cutting a paired history anywhere and dropping the leading tool results leaves whole groups. |
| OllamaReader.Read | openclaw/src/providers/ollama.ts:77-121 | For every way of cutting the bytes, the events are those of one pass over the newline-terminated lines of the whole response up to the first `done`. |
| OllamaReader.EncodedIsRead | openclaw/src/providers/ollama.ts:77-121 | A response that encodes a text is read as the lines of that text without a leading mark: the deltas say exactly the contents of its responses up to the first that ends it, and it ends if there is one. |
| OllamaReader.StreamIsDecode | openclaw/src/providers/ollama.ts:85-85 | Streaming decoding produces the decoding of all bytes but an incomplete character at the end. |
| OllamaReader.LinesAre | openclaw/src/providers/ollama.ts:86-87 | The lines with their breaks and the rest make up the text, and none holds a break. |
| OllamaReader.StepTells | openclaw/src/providers/ollama.ts:99-119 | One response adds its text if it has any, its calls in order with the next numbers, and the end with its reason if it is the last. |
| OllamaReader.DecodedSplits | openclaw/src/providers/ollama.ts:78-85 | Streaming UTF-8 decoding in two chunks equals decoding at once, with a byte order mark dropped only at the very beginning. |
| OllamaReader.StreamSplits | openclaw/src/providers/ollama.ts:78-85 | Characters cut by a chunk boundary are withheld and completed by the next chunk. |
| OllamaReader.LinesSplit | openclaw/src/providers/ollama.ts:86-87 | Splitting off complete lines chunk by chunk equals splitting at once. |
| OllamaReader.CallIdsCountUp | openclaw/src/providers/ollama.ts:102-109 | The calls of one response are numbered 0, 1, 2 and so on. |
| AsyncMutex.RefinesLock | mcp/src/AsyncMutex.ts:6-23 | Every step of the promise chain is a step of a first-in first-out lock, and the lock can take a step whenever the chain can. |
| AsyncMutex.MutualExclusion | mcp/src/AsyncMutex.ts:16-21 | At most one operation runs, and operations start in call order. |
| AsyncMutex.EveryWaiterAdvances | mcp/src/AsyncMutex.ts:16-21 | A waiter may start exactly when nobody ahead is unsettled; each settling, by return or exception, brings it one closer; somebody can always move. |
| AsyncMutex.ReachableInv | mcp/src/AsyncMutex.ts:14-21 | In every run the chain is settled calls, then at most one running, then waiting ones, each awaiting the turn before its own. |
| AsyncMutex.Mutex.Begin | mcp/src/AsyncMutex.ts:9-16 | Calling the method is the chain's `Call` step. |
| AsyncMutex.Mutex.Continue | mcp/src/AsyncMutex.ts:16-18 | The continuation is the `Resume` step. |
| AsyncMutex.Mutex.Release | mcp/src/AsyncMutex.ts:19-21 | The `finally` block is the `Settle` step. |
| Bridge.ToolStartsAuthorized | mcp/src/index.ts:145-151 | In every interleaving a tool operation starts only on the current client, whose app has not lost authorization and is neither being erased nor torn down. |
| Bridge.OncePerApp | mcp/src/snjs/bootstrap.ts:251-266 | `onUnauthorized` and the app's teardown each happen at most once per app, the former exactly when authorization was lost. |
| Bridge.OneLoopSync | mcp/src/snjs/bootstrap.ts:271-308 | At most one background sync per app is queued or running. |
| Bridge.TimerIffCurrent | mcp/src/snjs/bootstrap.ts:406-409 | Exactly the current account has a sync timer: none fires for an app that lost authorization or whose erasure or teardown has begun. |
| Bridge.ErasedIffRefused | mcp/src/snjs/bootstrap.ts:239-266 | An app is erased or about to be exactly when the server has refused one of its syncs; no other failure erases anything. |
| Bridge.SyncsAgain | mcp/src/snjs/bootstrap.ts:271-308 | The timer of the current account can always start the next sync once the one before it is done. |
| Bridge.AdmittedInOrder | mcp/src/index.ts:145-151 | Tool operations and background syncs get the gate in the order they arrived, and the others are still waiting. |
| Bridge.HolderAdvances | mcp/src/index.ts:129-235 | Whoever holds the gate can always go on, and every step brings it nearer to giving it back, but for a tool's syncs that change nothing. |
| Bridge.BootstrapAfterErasure | mcp/src/index.ts:155-235 | When a bootstrap begins, every earlier app's erasure or teardown has settled, and no bootstrap is already in progress. |
| Bridge.OneLiveApp | mcp/src/index.ts:167-232 | Only the current account, or one whose end is being awaited, is not retired. |
| Bridge.StepKeepsInv | mcp/src/snjs/bootstrap.ts:239-456 | Every step of tools, sync loop, bootstrap, wipe and teardown keeps the invariant. |
| Bridge.ReachableInv | mcp/src/index.ts:129-235 | The invariant holds in every run. |
| HttpSessions.LimitHoldsIff | mcp/src/index.ts:1017-1052 | A run stays within the limit throughout, sessions and admitted requests together, if and only if no session is registered by a request that is no longer counted while every slot is taken; live sessions are then within the limit. |
| HttpSessions.StepExceedsIff | mcp/src/index.ts:1017-1052 | One step breaks the limit exactly when it is such a registration. |
| HttpSessions.SessionsBounded | mcp/src/index.ts:1017-1052 | In every run live sessions are at most the limit plus the registrations that came after their request had stopped being counted, and the counter equals the pending initializations. |
| HttpSessions.BoundIsTight | mcp/src/index.ts:1026-1050 | For every positive limit and every number of late registrations some run has exactly that many sessions above the limit. |
| HttpSessions.LateRegistrationExceedsLimit | mcp/src/index.ts:1026-1050 | A concrete run in which a handler that outlived its timeout registers a session above the limit. |
| HttpSessions.LiveIff | mcp/src/index.ts:1026-1050 | In every run exactly those sessions are live that were registered and since then neither closed nor cleaned up with their request. |
| HttpSessions.CleanedUpIsGone | mcp/src/httpSecurity.ts:219-227 | The session a failed request had registered when it was cleaned up is never live again. |
| HttpSessions.RegistrationOutlivesCleanUp | mcp/src/httpSecurity.ts:219-227 | A concrete run in which a request registers its session while it is being cleaned up, and the session stays. |
| HttpSessions.StepKeepsInv | mcp/src/httpSecurity.ts:219-247 | Admission, registration, success, cleanup, failure and eviction keep: sessions not owned by a pending request plus initializations are within the limit plus late registrations. |
| HttpSessions.ReachableInv | mcp/src/index.ts:1011-1052 | The invariant holds in every run. |
| AuthErrors.IsUnauthorizedError | mcp/src/snjs/bootstrap.ts:59-106 | On any finite, possibly cyclic error graph it terminates and returns true exactly when a value that says "unauthorized" is reachable through the followed keys. |
| AuthErrors.ScanEntries | mcp/src/snjs/bootstrap.ts:84-102 | The entry loop stops exactly at a revoked status and otherwise queues exactly the followed values. |
| AuthErrors.NothingTells | mcp/src/snjs/bootstrap.ts:60-67 | An exhausted work list has seen everything reachable. |
| WriteChain.EverythingWasHeld | mcp/src/snjs/NodeDevice.ts:110-146 | In every run, every file, every queued snapshot and every temporary file that was written completely holds what its own store really held at some earlier moment. |
| WriteChain.RestartsFromHeld | mcp/src/snjs/NodeDevice.ts:65-97 | After a crash at any point, loading gives such a state. |
| WriteChain.LandsInOrder | mcp/src/snjs/NodeDevice.ts:118-127 | Snapshots land in the order they were queued, each at most once, and the disk is what they leave. |
| WriteChain.NewestLandedMeansDurable | mcp/src/snjs/NodeDevice.ts:99-146 | Once the newest write of a store has landed its file equals the memory, whatever failed before. |
| WriteChain.ChainAdvances | mcp/src/snjs/NodeDevice.ts:115-127 | While writes are queued some step is possible, and every step of the chain, failed or not, leaves fewer. |
| WriteChain.WritesRunOneByOne | mcp/src/snjs/NodeDevice.ts:110-127 | In every run the writes are begun in queue order, each as soon as all before it have settled, by success or failure. |
| WriteChain.ResolvedHasLanded | mcp/src/snjs/NodeDevice.ts:110-146 | In every run a promise rejects for each write of which a file operation failed, and every write whose promise resolved has landed. |
| WriteChain.TempFiles | mcp/src/snjs/NodeDevice.ts:130-146 | Temporary files are numbered by the writes begun; while no clean-up fails there is at most the one of the write under way, and none between writes. |
| WriteChain.StepKeepsInv | mcp/src/snjs/NodeDevice.ts:130-146 | Every step, with any file operation failing, keeps the invariant. |
| WriteChain.ReachableInv | mcp/src/snjs/NodeDevice.ts:99-146 | The invariant holds in every run, across crashes. |
| NodeDevice.NodeDevice.SetRawStorageValue | mcp/src/snjs/NodeDevice.ts:179-183 | Sets one key and queues exactly the new storage. |
| NodeDevice.NodeDevice.RemoveRawStorageValue | mcp/src/snjs/NodeDevice.ts:185-189 | Removes one key and queues exactly the new storage. |
| NodeDevice.NodeDevice.RemoveAllRawStorageValues | mcp/src/snjs/NodeDevice.ts:191-195 | Empties the storage and queues that. |
| NodeDevice.NodeDevice.RemoveRawStorageValuesForIdentifier | mcp/src/snjs/NodeDevice.ts:197-207 | Keeps exactly the keys that do not contain the identifier. |
| NodeDevice.IncludesIff | mcp/src/snjs/NodeDevice.ts:201-205 | A key contains the identifier exactly if some slice of it equals it. |
| NodeDevice.NodeDevice.SaveDatabaseEntry | mcp/src/snjs/NodeDevice.ts:277-284 | Saves one payload under its uuid and queues the new database. |
| NodeDevice.NodeDevice.SaveDatabaseEntries | mcp/src/snjs/NodeDevice.ts:286-295 | Saves all payloads with one write queued after the last. |
| NodeDevice.SavedIff | mcp/src/snjs/NodeDevice.ts:291-293 | The last payload of a uuid wins and other entries stay. |
| NodeDevice.NodeDevice.RemoveDatabaseEntry | mcp/src/snjs/NodeDevice.ts:297-304 | Removes one entry and queues the new database. |
| NodeDevice.NodeDevice.RemoveAllDatabaseEntries | mcp/src/snjs/NodeDevice.ts:306-312 | Empties the database and queues that. |
| NodeDevice.NodeDevice.SetNamespacedKeychainValue | mcp/src/snjs/NodeDevice.ts:323-330 | Sets one keychain value and queues the new keychain. |
| NodeDevice.NodeDevice.ClearNamespacedKeychainValue | mcp/src/snjs/NodeDevice.ts:332-338 | Removes one keychain value and queues the new keychain. |
| NodeDevice.NodeDevice.ClearRawKeychainValue | mcp/src/snjs/NodeDevice.ts:340-344 | Empties the keychain and queues that. |
| NodeDevice.NodeDevice.ClearAllDataFromDevice | mcp/src/snjs/NodeDevice.ts:348-360 | All three stores are empty and an empty snapshot of each is queued. |
| NodeDevice.ErasureIsDurable | mcp/src/snjs/NodeDevice.ts:348-360 | When the three writes of an erasure have landed, the files are empty. |
| NodeDevice.LoadChunks | mcp/src/snjs/NodeDevice.ts:235-246 | No payload is lost, repeated or reordered, and every batch but the last is full. |
| Cursor.RoundTripIff | mcp/src/pagination.ts:10-49 | A position comes back from its cursor if and only if its time is not negative, its id has 1 to 128 units and its text at most 512; otherwise decoding rejects it, and never gives another position. |
| Cursor.DecodeIff | mcp/src/pagination.ts:22-49 | For whatever text a caller sends: it is accepted as a position exactly if it has 1 to 512 units, decodes to a JSON text of that position, and the time and the id are within their bounds. |
| Cursor.LettersSkipped | mcp/src/pagination.ts:27-29 | Reading base64url stops at padding and skips whatever is no letter. |
| Cursor.EarlyCursorRejected | mcp/src/pagination.ts:30-38 | A concrete cursor, one millisecond before 1970, that is written but not accepted back. |
| Cursor.AsciiCursorsRoundTrip | mcp/src/pagination.ts:10-49 | With an id of 1 to 128 printable ASCII characters the cursor has at most 388 characters and comes back. |
| Cursor.LayersRoundTrip | mcp/src/pagination.ts:10-29 | JSON, UTF-8 and base64url reading undo writing for every position, whatever its id contains. |
| Cursor.KnownText | mcp/src/pagination.ts:10-21 | The JSON text of one position, written out. |
| NoteListing.ListNotes | mcp/src/snjs/SnjsBackedClient.ts:225-260 | The summaries of the page, its cursor text, and the errors for bad limits and bad cursors, for any collation; the summaries are of notes of the account, newest first, at most as many as asked for. |
| NoteListing.ListingShows | mcp/src/snjs/SnjsBackedClient.ts:88-97 | Each summary carries the time the server stamped the note with if that is positive, else its creation, else zero; a first page has a cursor exactly if there are more notes, and those left are no newer than any it shows. |
| NoteListing.TextLessIff | mcp/src/pagination.ts:61-69 | Ids compare by the first unit in which they differ, and come after each of their beginnings. |
| NoteListing.PageIsRight | mcp/src/snjs/SnjsBackedClient.ts:240-259 | On notes sorted as the cursors assume, a page is ascending, holds only notes behind the cursor, misses only notes behind the cursor it returns, and is full when it returns one. |
| NoteListing.CallsIsCeiling | mcp/src/snjs/SnjsBackedClient.ts:242-251 | That number of calls is the ceiling of n / limit, and one for an empty store. |
| NoteListing.IssuedCursorContinues | mcp/src/snjs/SnjsBackedClient.ts:233-256 | A cursor the bridge issued continues exactly behind its page if its position is accepted back, and is an error otherwise. |
| NotePaging.FollowListedIff | mcp/src/snjs/SnjsBackedClient.ts:225-260 | Passing cursors back over any changing account that `localeCompare` sorts as `>` does gives the pages of position-by-position paging if and only if the last note of every page that is followed has a position that is accepted back; otherwise those pages up to the first that has not, then an error. |
| NotePaging.ListedAscends | mcp/src/snjs/SnjsBackedClient.ts:240-256 | Over any sequence of snapshots the summaries received have strictly increasing positions, up to an error too. |
| NotePaging.ReturnedExactlyOnce | mcp/src/snjs/SnjsBackedClient.ts:225-260 | A note present and unchanged in every snapshot is received exactly once by a caller who comes to the end. |
| NotePaging.FixedStore | mcp/src/snjs/SnjsBackedClient.ts:225-260 | On a fixed account the caller receives the whole sorted list in ceil(n / limit) calls if every position passed back on the way is accepted, and an error otherwise. |
| NotePaging.EncodableBoundaries | mcp/src/pagination.ts:10-49 | If every note's position is accepted back, so is every position passed back on the way. |
| NotePaging.EarlyNotesStopPaging | mcp/src/snjs/SnjsBackedClient.ts:233-256 | A concrete account of two notes from before 1970 on which the second call is an error. |
| NotePaging.DisagreementLosesNote | mcp/src/pagination.ts:51-69 | On any account that `localeCompare` sorts in another order than `>`, a caller who asks for one note at a time never receives some note. |
| NotePaging.PagingCompleteIff | mcp/src/snjs/SnjsBackedClient.ts:225-260 | If all positions are accepted back, every note of a fixed account is received for every page size if and only if `localeCompare` sorts the account as `>` does. |
| NotePaging.MixedCaseDisagrees | mcp/src/pagination.ts:51-69 | A concrete account, ids `a` and `B` under an order that ignores case, is such an account. |
| NoteListing.AgreeingCollation | mcp/src/pagination.ts:51-69 | Where the collation orders the account's ids as `>` does, sorting gives the order the cursors assume. |
| NoteListing.PositionOrder | mcp/src/pagination.ts:61-69 | The order behind cursors is a strict total order of positions. |
| NoteListing.SortedSorts | mcp/src/pagination.ts:61-69 | Sorting in that order rearranges the notes into ascending positions. |
| NoteListing.CollatedSortIff | mcp/src/pagination.ts:51-59 | Sorting with any collation keeps exactly the notes of the account. |
| DocsFolding.FoldForMatching | docs/assets/docs-search.js:6-47 | The loop computes the specified folding. |
| DocsFolding.FoldSpaces | docs/assets/docs-search.js:23-41 | The folded text has the letters and numbers of the source in order, with single spaces between and none at its ends. |
| DocsFolding.AlignedIff | docs/assets/docs-search.js:24-44 | `starts` and `ends` have equal length at most that of `text`, and exactly that length if and only if no letter or number folds to a surrogate pair. |
| DocsFolding.OffsetsOrdered | docs/assets/docs-search.js:15-44 | Offsets are in bounds, every entry spans something, and the starts never go back. |
| DocsFolding.UnitOffsets | docs/assets/docs-search.js:11-44 | If letters fold to single units, a folded letter starts where the character that produces it starts and ends behind it, or behind the last vanishing mark before any other letter. |
| DocsFolding.PartFolds | docs/assets/docs-search.js:6-47 | Folding a part of a text gives what folding the whole adds for it, up to a separator before it. |
| DocsFolding.EndsNonDecreasingIff | docs/assets/docs-search.js:21-36 | The ends never go back if and only if no letter follows a gap that holds a combining mark. |
| DocsFolding.EndsCanGoBack | docs/assets/docs-search.js:21-36 | A concrete text whose ends are 3, 2, 4. |
| DocsSearch.CountOccurrences | docs/assets/docs-search.js:53-61 | Terminates for a needle that is not empty and returns the greatest size of a set of occurrences that do not overlap. |
| DocsSearch.GreedyIsOptimal | docs/assets/docs-search.js:53-61 | From any position on, no set of occurrences without overlap is larger than the greedy scan. |
| DocsSearch.ScanStops | docs/assets/docs-search.js:159-169 | The scan stops at real occurrences, left to right, without overlap. |
| DocsSearch.OccurrencesAreTouched | docs/assets/docs-search.js:159-169 | Every occurrence overlaps one the scan stopped at. |
| DocsSearch.MergeRanges | docs/assets/docs-search.js:171-181 | Merging sorted ranges gives ordered ranges with a gap between neighbours, covering the same positions. |
| DocsSearch.MatchingRanges | docs/assets/docs-search.js:154-182 | The ranges are ordered, strictly separated, within the text, and cover exactly the scanned occurrences of the terms, unless some scanned occurrence has no offsets. |
| DocsSearch.OccurrenceIsRun | docs/assets/docs-search.js:159-169 | If letters fold to single units, the range of an occurrence of a term that begins and ends with a letter is a run of whole characters, from the one that produces its first unit to the one that ends its last, and the run's own folding holds the term. |
| DocsSearch.LitIffInRun | docs/assets/docs-search.js:159-182 | Then the highlighted units are exactly those of the runs of the scanned occurrences. |
| DocsSearch.NeverOverreachesIff | docs/assets/docs-search.js:159-169 | Every scanned occurrence of every term has its offsets if and only if no letter or number of the text folds to a surrogate pair. |
| DocsSearch.CanonicalIsUnique | docs/assets/docs-search.js:171-181 | Such a list of ranges is determined by the positions it covers. |
| DocsSearch.HighlightingIgnoresTermOrder | docs/assets/docs-search.js:159-171 | The ranges do not depend on the order of the terms or on repetitions. |
| DocsSearch.AppendHighlightedText | docs/assets/docs-search.js:220-236 | The pieces concatenate to the text, and the marked units are exactly those of scanned occurrences. |
| DocsSearch.AstralLetterMisplaces | docs/assets/docs-search.js:34-36 | A concrete text in which the highlight of a letter reaches over its neighbour, and the neighbour's own offsets are missing. |

## Left out

- Manifest lookup on disk, the Plug'n'Play fallback and `path.join`: a registry and paths of names stand for them. A
  dependency name with a slash is one name, and what a bundling package carries in its own `node_modules` is not
  followed.
- Preferred.PreferredPackages: `localeCompare` is an arbitrary integer key per id; packages with equal keys keep the
  order of their candidates, as the stable sort does.
- Copier.RuntimeDependencyCopyPatterns: required to be called only where no branch repeats, because elsewhere the
  source does not return; `Layout.TerminatesIff` says that this is exactly where the layout is finite.
- HttpSessions.SessionsBounded: the limit alone does not hold of the code; `HttpSessions.LimitHoldsIff` says exactly when
  it does. Idle eviction and client closes are single `Close` steps.
- AuthErrors.IsUnauthorizedError: the two regular expressions are one arbitrary predicate on strings, and getters
  that throw are not modelled.
- NoteListing.ListNotes: the ISO string of a summary is its time in milliseconds, and the `sync` before the listing is
  whatever changed the account.
- Cursor.RoundTripIff: `JSON.parse` is modelled on the texts `JSON.stringify` writes for a cursor; other JSON texts of
  the same value (spaces, other key orders) count as invalid. Times are integers up to the greatest safe integer.
- OllamaReader.Read: a read that rejects is not modelled; bytes still withheld at the end are dropped, as the source
  drops them.
- NodeDevice.LoadChunks: requires a positive batch size, since with 0 the source's loop does not end; the priority
  sort before it is foreign code.
- DocsSearch.MatchingRanges: where a scanned occurrence has no offsets the source goes on with `undefined`, whose place
  in a sort is up to the engine; the model says only exactly when that happens (`DocsSearch.NeverOverreachesIff`).
- DocsSearch.CountOccurrences: an empty needle, on which the source's loop does not end, is excluded; callers never
  pass one.
- AgentLoop.Run: the system prompt, the tool descriptions, logging, redaction of error texts and the caller's delta
  callback; a provider stream or an error description that itself throws.
- Authentication challenges, MFA codes, registration and the shutdown handlers of the bridge process; the model's wipe
  settles in one step whether or not the erasure succeeded, and the first load of the device files is done before any
  mutation, so two first calls racing in `ensureLoaded` are not modelled.
- File permissions, `openDatabase` and the getters of `NodeDevice`, and the client's twin of it in `cli/`.
- The client's other operations: note search, updates, tags, attachments, export.
- `scoreDocument`, `rankDocuments` and `snippetFor` of the documentation search, and its DOM code: scoring constants
  with little to prove.
- Providers other than Ollama, configuration parsing, file allowlists, the servers, and the web and mobile clients.
