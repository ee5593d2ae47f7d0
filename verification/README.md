# Verification models for DuDuClaw

Dafny models of the parts of DuDuClaw that make decisions on bytes, clocks and interleavings, each with the properties
its design rests on. Every core lives in its own module and takes the form of its source: objects become classes whose
methods are proved against specification functions, loops stay loops, state shared between callers becomes a state
machine over its atomic steps, and the theorems are about those specification functions and runs.

| modules | what is modelled | main theorems |
|---|---|---|
| `ReleaseMarker`, `ReleaseVerdicts` | the streaming release-marker check | the bounded window decides what the whole binary decides, for every chunking, and accepts exactly the binaries with one identity record; every other verdict by what the binary holds |
| `JsonGrammar`, `JsonCharacters`, `ServiceDocument`, `Lifecycle` | the hand-written JSON recogniser of the health probe | sound and complete against a grammar of RFC 8259 texts, with the nesting limit; the probe says yes exactly for the intended documents, and on everything a JSON writer prints |
| `Utf8`, `Frames`, `FailedReads`, `WebSocket` | the WebSocket client of the browser tool | a read succeeds exactly on the message runs within the limit, and fails exactly where a run breaks off; reading undoes sending; the wire form is unambiguous, and is that of the RFC byte by byte |
| `EditorContext` | UTF-8-safe truncation of a selection | the exact condition under which it is the longest prefix that fits |
| `ProactiveTiming`, `DeferralCount`, `Heartbeat`, `SilenceRuns`, `LeftoverWindows` | the natural-timing gate, its ledger, and the silence breaker | exactly when a message is held back; delayed, never lost, never past six hours; never deferred more than three times, and exactly when more than twice; events are spaced, switched off when evolution is off, and reported in time; when an event inherits an older deferral |
| `DistributorBrand` | brand polling under retargeting | only current replies are shown, etags match the shown name, no lost wake-up, one loop, every answer is shown |
| `TaskBoard` | the task-board pull with stopped trees | the worklist finds exactly the stopped trees, also on cyclic parents, and the pick is a first available one |
| `Contract`, `BracketRules`, `ContractSanitize`, `RuleMeaning` | rule matching and the sanitising of external rules | which rules are matched as the globs they are written as; no kept rule blocks the employee's own wording |
| `Proactive` | the pruned rate limiter | pruning is invisible, and no hour holds more sends than the limit |
| `Rpc`, `RpcRuns`, `Resume` | the editor client's session bookkeeping | in every interleaving a stored or sent session id belongs to the agent it is kept for, and a refused one is not sent again |
| `GatewayPicker` | the capped list of recent gateways | the capped list is the head of the unbounded most-recently-used list |

`Search` holds substring search, `Sequences` facts about concatenation, `Time` the units of time, `Wrappers` the option
and result types. `dafny verify dfyconfig.toml` checks everything.

## Where the code differs from its documentation or its design

- **A cut selection can lose its first character.** The comment on `truncateUtf8Bytes` promises a byte-safe truncation
  at a character boundary. `TextDecoder` drops a leading byte order mark unless told otherwise (WHATWG Encoding, section
  7.1), so a cut text that starts with U+FEFF loses it. For texts without lone surrogates,
  `EditorContext.TruncateUtf8Bytes` states exactly when the result is the longest prefix that fits;
  `EditorContext.MarkIsLost` gives an input.
- **A session id can end up under another gateway's key.** `config.ts` says the key's scope rules out resuming a
  conversation of another gateway. The key is formed when an id is stored, not when the socket was opened, so a setting
  changed under an open socket files the id under the new address (`RpcRuns.GatewayMayDiffer`). The extension reacts
  to the settings event by dropping the client. A socket files every later id under its own gateway if and only if the
  setting is still the one it was opened with (`RpcRuns.FilesUnderOwnGateway`). Over whole runs the promise holds when the
  setting is the socket's own whenever an id is filed (`RpcRuns.StoredIdsKeepGateway`), and in particular when it changes
  only between sockets (`RpcRuns.BetweenSocketsIsCareful`).
- **Wildcard rules with `?` or an escaped character do not match what they say.** `glob_to_regex_pattern` writes regular
  expression syntax, `regex_lite_match` reads only `.*`, leading `^` and trailing `$` of it. A rule with a wildcard is
  matched as the glob it is written as if and only if it has no `?` and no escaped character
  (`Contract.WildcardRulesAgreeWhenPlain`). A rule with `[` and no wildcard is tried as a pattern too. That adds no false
  matches if and only if the rule, but for backslashes at either end, is that bracket followed by characters that need no
  escape (`BracketRules.BracketRulesAgree`); `a[`, for one, blocks `a\[` (`BracketRules.LetterBeforeBracketDisagrees`).
- **The end anchor looks at the first occurrence only.** The comment on `regex_lite_match` promises that a trailing `$`
  anchors to the end of the text. A text that ends with the pattern and holds it before as well is not matched
  (`Contract.EndAnchorMeaning` gives the exact condition); the start anchor does what it says
  (`Contract.StartAnchorMeaning`).
- **`normalize_rule` is not idempotent.** It cuts at 160 characters after trimming; a second pass removes a space that
  the cut leaves at the end. It is idempotent for exactly the rules that are not cut right after a space
  (`ContractSanitize.NormalizeTwice`); `ContractSanitize.CutAfterSpace` gives an input.
- **A deferral can outlive its event.** The ledger calls its anchor the first time this message was deferred. Windows are
  kept by agent name, and a sync that drops the agent or switches it off closes none; the next silence event of that name
  counts its six hours from the old window, and is sent into the user's turn when that window is old enough
  (`LeftoverWindows.LeftoverWindowRun`). An event has an anchor of its own if and only if no window of its name is open
  (`LeftoverWindows.OwnAnchorExactly`), and only such syncs leave one open (`LeftoverWindows.OnlySyncsLeaveWindows`).
- **A skewed clock defers a message a third time.** With a user message recorded in the future, mid-flow can follow
  quiet hours, and quiet hours mid-flow (`DeferralCount.FutureTimestampDefersThrice`). Three deferrals are always the
  maximum; two are, for a message first due at a given time, if and only if its record is not skewed in one stated way
  (`DeferralCount.AtMostTwoExactly`), which needs a timestamp from the future. The six-hour bound holds either way.
- **The capped list needs distinct addresses.** On the lists the picker builds itself the cap hides nothing; on a
  remembered list with a repeated address it can (`GatewayPicker.RepeatedAddressLosesEntry`); `GatewayPicker.CapCommutes`
  says exactly when it does not.

## Model

| member | source | states |
|---|---|---|
| `ReleaseMarker.PlainVersionMeaning` | scripts/verify_release_marker.py:15-17 | A version is plain exactly when it is three numbers below 2^64 as they are printed in decimal, joined by dots |
| `ReleaseMarker.NumeralMeaning` | scripts/verify_release_marker.py:16-17 | The accepted parts are exactly the decimal prints of the numbers below 2^64, and each is read as the number printed |
| `ReleaseMarker.PlainVersionFits` | scripts/verify_release_marker.py:15-17 | Every plain version has at most 62 bytes, no NUL and only ASCII, so neither the `end > 62` cut-off nor the look-ahead rejects a valid record |
| `ReleaseMarker.LongestPlainVersion` | scripts/verify_release_marker.py:27 | The bound of 62 is attained |
| `ReleaseMarker.RecordFaultLocal` | scripts/verify_release_marker.py:39-47 | With one byte of left context and `max_record` bytes of look-ahead, or the end of the data, the record check on the window finds the same fault as on the whole binary |
| `ReleaseMarker.RecordFaultMeaning` | scripts/verify_release_marker.py:39-47 | The record check passes exactly when header, expected version and suffix lie around the magic |
| `ReleaseMarker.ScanMeaning` | scripts/verify_release_marker.py:35-49 | The ordered scan accepts exactly the binaries in which the magic occurs once, overlaps counted, inside the record of the expected version |
| `ReleaseMarker.ScanWindow` | scripts/verify_release_marker.py:35-49 | The inner loop over one window either reports the whole-binary verdict or carries the scan on to `scan_end` without changing it |
| `ReleaseMarker.VerifyMarker` | scripts/verify_release_marker.py:20-56 | For every chunking: accepted exactly when the expected version is plain, the binary is within the limit and carries one identity record; every other verdict but the size error is the whole-buffer scan's; the window never exceeds one record, one byte and one chunk |
| `ReleaseVerdicts.RecordCarriesIdentity` | scripts/verify_release_marker.py:9-11 | The record of any plain version, written out byte for byte, carries this identity |
| `ReleaseVerdicts.VerdictMeaning` | scripts/verify_release_marker.py:37-56 | The verdict on every binary: missing without the magic; otherwise by its first occurrence, a bad header, a record without an end, a version that is not ASCII or another one, a duplicate, or accepted |
| `JsonGrammar.ValueSound` | src-tauri/src/lifecycle.rs:271-337 | Whatever is parsed as a value is the text of a well-formed RFC 8259 tree at its nesting level, followed by exactly the rest |
| `JsonGrammar.ValueComplete` | src-tauri/src/lifecycle.rs:271-337 | The text of every well-formed tree parses back to that tree, whatever follows that cannot extend a number |
| `JsonGrammar.NumberComplete` | src-tauri/src/lifecycle.rs:229-269 | Every RFC 8259 number is read whole, and as itself |
| `JsonGrammar.NumberSound` | src-tauri/src/lifecycle.rs:229-269 | Nothing but RFC 8259 numbers is read as a number |
| `JsonGrammar.BodySound` | src-tauri/src/lifecycle.rs:198-226 | What is read as string contents has only permitted characters and escapes, and ends at its quote |
| `JsonGrammar.BodyComplete` | src-tauri/src/lifecycle.rs:198-226 | Every permitted string body is read up to its own closing quote |
| `JsonCharacters.CharactersMeaning` | src-tauri/src/lifecycle.rs:173-227 | Whitespace, digits, hexadecimal digits and simple escapes by their code points (RFC 8259, sections 2, 6 and 7), form feed counted as whitespace |
| `JsonCharacters.StringBodyMeaning` | src-tauri/src/lifecycle.rs:198-226 | String bodies are exactly the concatenations of units: a character that is no quote, backslash or control, one of eight two-character escapes, or four hexadecimal digits behind a backslash and u |
| `JsonCharacters.EscapedIsRead` | src-tauri/src/lifecycle.rs:190-227 | Every text, escaped as a JSON writer does, is a string body and is read back whole |
| `JsonCharacters.HealthBodyAnswer` | src-tauri/src/lifecycle.rs:339-370 | For every list of notes with any keys but the service's, and any service name, the answer on the body a JSON writer prints is whether the name is the gateway's |
| `JsonCharacters.NestingLimit` | src-tauri/src/lifecycle.rs:271-274 | A value of `n` nested brackets at a level is read exactly when its innermost bracket is at level 64 or above it |
| `ServiceDocument.TopLevelMeaning` | src-tauri/src/lifecycle.rs:339-370 | The answer is `Some(true)` exactly for one object, whitespace around it, with values at level at most 64 and exactly one unescaped `service` key, whose raw value is the gateway's name; it is `None` exactly for texts that are no such object or name a service twice or with a non-string |
| `ServiceDocument.OneReading` | src-tauri/src/lifecycle.rs:339-370 | A text is the text of at most one well-formed document, so the answer does not depend on how it is read |
| `Lifecycle.JsonCursor.String` | src-tauri/src/lifecycle.rs:190-227 | The string loop returns the raw contents, whether they carried an escape, and stops behind the closing quote, or refuses exactly what the grammar refuses |
| `Lifecycle.JsonCursor.Number` | src-tauri/src/lifecycle.rs:229-269 | The digit loops advance over exactly one RFC 8259 number, or report failure exactly when there is none |
| `Lifecycle.JsonCursor.Value` | src-tauri/src/lifecycle.rs:271-286 | The cursor accepts exactly the values of the grammar at its depth and stops where they end; it terminates, stays within the bytes, and the u8 depth never overflows |
| `Lifecycle.JsonCursor.Object` | src-tauri/src/lifecycle.rs:297-316 | The member loop accepts exactly an object whose values are one level down |
| `Lifecycle.JsonCursor.Array` | src-tauri/src/lifecycle.rs:318-337 | The element loop accepts exactly an array whose elements are one level down |
| `Lifecycle.JsonCursor.TopValue` | src-tauri/src/lifecycle.rs:351-359 | One value of the outer object: the service name once and as an unescaped string, any value for every other key |
| `Lifecycle.JsonCursor.ParseTopLevelService` | src-tauri/src/lifecycle.rs:339-370 | The loop over the outer members computes the document-level decision |
| `Lifecycle.TopLevelServiceIsDuduclaw` | src-tauri/src/lifecycle.rs:153-156 | The probe says yes exactly when the body is a well-formed document with exactly one `service`, equal to the gateway's name, and so on everything `HealthBodyAnswer` speaks of |
| `Utf8.DecodeEncode` | clients/vscode/src/editorContext.ts:19-24 | Decoding undoes UTF-8 encoding (RFC 3629, section 3) |
| `Utf8.EncodeDecode` | container/scripts/duduclaw_cdp.py:232 | The strict decoder accepts nothing but encodings: no surrogate, no overlong form, nothing above U+10FFFF |
| `Utf8.EncodeOneMeaning` | clients/vscode/src/editorContext.ts:19-24 | The bytes of every scalar value as the table of RFC 3629, section 3, lays out its bits; there are no surrogates among them |
| `EditorContext.FittingIsLongest` | clients/vscode/src/editorContext.ts:12-17 | A prefix of whole code points fits in the limit exactly when it is no longer than the kept one, which leaves at most three bytes of the limit unused |
| `EditorContext.TruncateUtf8Bytes` | clients/vscode/src/editorContext.ts:18-25 | Cuts exactly when the encoding exceeds the limit, backs off to a code point boundary, and yields the longest prefix that fits if and only if it does not cut a text that starts with a byte order mark the limit has room for |
| `EditorContext.MarkIsLost` | clients/vscode/src/editorContext.ts:24 | An input whose longest prefix is not what comes back |
| `Frames.MaskedTwice` | container/scripts/duduclaw_cdp.py:196 | Masking is its own inverse (RFC 6455, section 5.3) |
| `Frames.MaskedMeaning` | container/scripts/duduclaw_cdp.py:196 | Bit by bit, masked byte `k` has a one exactly where byte `k` and mask byte `k` modulo four differ |
| `Frames.HeaderInverts` | container/scripts/duduclaw_cdp.py:206-216 | The header of every valid frame, in each of the three length forms, masked or not, reads back as its fields and leaves the payload |
| `Frames.HeaderSound` | container/scripts/duduclaw_cdp.py:206-222 | Conversely a header and its payload, once read, are the wire form of one valid frame |
| `Frames.WireInjective` | container/scripts/duduclaw_cdp.py:206-216 | No byte stream starts with two different frames: length forms and masks decode uniquely across the 125/126 and 65535/65536 edges |
| `Frames.ShortestFormIsShortest` | container/scripts/duduclaw_cdp.py:189-194 | The length form chosen fits, and no form that fits is shorter (RFC 6455, section 5.2) |
| `Frames.RunReceived` | container/scripts/duduclaw_cdp.py:202-232 | A run of data frames of which only the last is final, with pings and pongs anywhere between, without close and within 8 MiB, is received as its joined data, every ping is answered in order, and every later byte is left unread (RFC 6455, sections 5.4 and 5.5) |
| `Frames.ReceiveMeaning` | container/scripts/duduclaw_cdp.py:202-232 | A read yields a given message, pongs and rest if and only if the stream starts with a run that says so |
| `FailedReads.FailureMeaning` | container/scripts/duduclaw_cdp.py:202-232 | A read fails with a given error and pongs if and only if the stream is a run of frames without an end, whose pings are those answered, and then: the header of a frame that exceeds the limit (too large), or otherwise a whole close frame, or bytes that end before any frame does (closed) |
| `Frames.SentIsReceived` | container/scripts/duduclaw_cdp.py:186-232 | For every payload within the limit, every mask and every data opcode, reading the bytes of a sent frame gives back the payload |
| `WebSocket.WebSocket.RecvExact` | container/scripts/duduclaw_cdp.py:177-184 | Takes exactly the next `n` bytes of the stream however the transport chunks them, or fails without losing any when fewer will ever come |
| `WebSocket.WebSocket.SendFrame` | container/scripts/duduclaw_cdp.py:186-197 | One call of the transport with the bytes of the payload's frame, by their positions: first byte, length in the shortest form, four mask bytes, and each payload byte combined bit by bit with its mask byte; it fails exactly when the 64-bit length cannot hold it |
| `WebSocket.SentBytes` | container/scripts/duduclaw_cdp.py:186-197 | The wire form of a sent frame has exactly those bytes (RFC 6455, section 5.2) |
| `WebSocket.PongFrames` | container/scripts/duduclaw_cdp.py:225-227 | Every answer to a ping is a masked frame with opcode 10 and the ping's payload |
| `WebSocket.ServerFrame` | container/scripts/duduclaw_cdp.py:206-232 | What a short server frame does by its first byte: final data returns, other data goes on, close fails, ping is answered, pong is passed over |
| `WebSocket.WebSocket.RecvMessage` | container/scripts/duduclaw_cdp.py:202-232 | For every chunking: returns the decoded message of the next run or the first error, sends one pong for each ping in order with its payload, and leaves every later byte unread |
| `WebSocket.TextRoundTrip` | container/scripts/duduclaw_cdp.py:199-232 | A text sent is the text read at the other end, with nothing after it consumed |
| `WebSocket.TextOfMeaning` | container/scripts/duduclaw_cdp.py:232 | A message decodes to a text exactly when it is that text's encoding |
| `ProactiveTiming.FromTimestamps` | crates/duduclaw-agent/src/proactive_timing.rs:151-161 | The learned rhythm holds the number of messages of every hour of day, their total, and the latest one |
| `ProactiveTiming.LearnedIsUsable` | crates/duduclaw-agent/src/proactive_timing.rs:240-261 | A history learned from messages always has an active hour to defer to, so the fallback after the scan is never reached |
| `ProactiveTiming.DeferralLedger.GateKeyedSend` | crates/duduclaw-agent/src/proactive_timing.rs:465-545 | Defers to a given moment for a given reason if and only if natural timing is on and either the open window, still running, says so, or the history could be loaded and holds the message back; otherwise sends, and the key has no window afterwards; every other key is left alone |
| `ProactiveTiming.GateMeaning` | crates/duduclaw-agent/src/proactive_timing.rs:199-265 | The same for the per-key step that the theorems on runs use, with the anchor kept from the first deferral |
| `ProactiveTiming.EvaluateMeaning` | crates/duduclaw-agent/src/proactive_timing.rs:199-265 | A history holds a message back exactly when six hours from the anchor are not over and the user wrote within ten minutes, until ten minutes after that, or, with twenty messages or more, none ever in this hour of day, until half past the next hour with one; never past the six hours |
| `ProactiveTiming.DeferralLedger.Mark` | crates/duduclaw-agent/src/proactive_timing.rs:433-444 | A repeated deferral keeps the anchor of the first one |
| `ProactiveTiming.StepKeepsAnchor` | crates/duduclaw-agent/src/proactive_timing.rs:199-265 | Every call, whatever the history and the kill switch, keeps an open window within six hours of its anchor; a deferral points strictly ahead; at six hours the answer is to send |
| `ProactiveTiming.DeferredRun` | crates/duduclaw-agent/src/proactive_timing.rs:42-51 | While a message is only deferred, the anchor stays that of the first deferral and every call lies before it plus six hours |
| `ProactiveTiming.NeverPastSixHours` | crates/duduclaw-agent/src/proactive_timing.rs:42-51 | In every run with non-decreasing time, a call six hours or more after the anchor has seen the message sent |
| `DeferralCount.LastThenSent` | crates/duduclaw-agent/src/proactive_timing.rs:239-262 | An evaluation within half an hour after the end of a window sends, when that end is at the cap, or in an active hour with the user's last turn over |
| `DeferralCount.AtMostThreeDeferrals` | crates/duduclaw-agent/src/proactive_timing.rs:199-265 | With an unchanged history, whatever its timestamps, a message looked at again within half an hour of each target is deferred at most three times |
| `DeferralCount.AtMostTwoExactly` | crates/duduclaw-agent/src/proactive_timing.rs:199-265 | For every first call and history, no such run has more than two deferrals, if and only if not: the first call is in a quiet hour, the last user message is recorded less than ten minutes before or half an hour after the planned end of the quiet hours, the hour after that one is quiet, and both that hour and the end of the recorded turn come before the cap |
| `DeferralCount.SkewedRun` | crates/duduclaw-agent/src/proactive_timing.rs:221-262 | Every such skewed record has a run with three deferrals |
| `DeferralCount.AtMostTwoDeferrals` | crates/duduclaw-agent/src/proactive_timing.rs:199-265 | With an unchanged history and no future timestamp, a punctual message is deferred at most twice |
| `DeferralCount.OpenWindowDeferrals` | crates/duduclaw-agent/src/proactive_timing.rs:199-265 | An open window that ends after the user's last turn is deferred at most once more, and not at all when it ends in an active hour |
| `DeferralCount.FutureTimestampDefersThrice` | crates/duduclaw-agent/src/proactive_timing.rs:221-234 | A concrete history with a future timestamp, and a punctual run of three deferrals |
| `Heartbeat.HeartbeatScheduler.SyncFromRegistry` | crates/duduclaw-agent/src/heartbeat.rs:278-317 | Exactly the operational listed agents stay or join, known ones keep their trigger, new ones start with a fresh one, and open deferrals are untouched |
| `Heartbeat.HeartbeatScheduler.Tick` | crates/duduclaw-agent/src/heartbeat.rs:415-535 | One tick emits exactly one event for every agent that is due, permitted and not deferred, resets exactly their triggers, and moves every agent's deferral as the gate says, in any order of the candidates |
| `SilenceRuns.EventsAreSpaced` | crates/duduclaw-agent/src/heartbeat.rs:131-150 | In every run, two silence events of one agent are more than its threshold apart, also when it was removed and added again in between |
| `SilenceRuns.SilentWhileSwitchedOff` | crates/duduclaw-agent/src/heartbeat.rs:425-449 | Nothing fires unless the last sync listed the agent as operational, enabled and with evolution on, and both permission checks passed |
| `SilenceRuns.ReportedWithinSixHours` | crates/duduclaw-agent/src/heartbeat.rs:472-535 | An agent that stays eligible has its event no later than the first tick six hours after a tick that saw the threshold crossed |
| `SilenceRuns.RunIsSound` | crates/duduclaw-agent/src/heartbeat.rs:146 | In every run the trigger is set and never lies in the future, so the fallback for a missing one is never used, and an open deferral is anchored |
| `SilenceRuns.FiresExactly` | crates/duduclaw-agent/src/heartbeat.rs:415-535 | In every run, a step emits the agent's event if and only if it is a tick, the agent is listed, enabled, with evolution on, more whole minutes than its threshold have passed since the trigger, both checks permit it, and the gate does not hold it back |
| `SilenceRuns.SentAtOnce` | crates/duduclaw-agent/src/proactive_timing.rs:474-513 | A due and permitted agent has its event at the very tick at which natural timing is off, or at which the history cannot be loaded and no window is running |
| `SilenceRuns.NoticedWithinAMinute` | crates/duduclaw-agent/src/heartbeat.rs:441-448 | A silence of the threshold and one more minute is noticed, and one up to the threshold is not |
| `LeftoverWindows.OldWindowSendsAtOnce` | crates/duduclaw-agent/src/proactive_timing.rs:205-211 | With a window of the agent's name that is older than six hours, a silence event is sent by the tick that sees it, whatever the history |
| `LeftoverWindows.OwnAnchorExactly` | crates/duduclaw-agent/src/proactive_timing.rs:398-404 | For every event that is due, the tick decides on all histories as for a message never deferred before, if and only if no window of the agent's name is open |
| `LeftoverWindows.OnlySyncsLeaveWindows` | crates/duduclaw-agent/src/heartbeat.rs:278-310 | An open window keeps belonging to a silence that is due over every tick, and over a sync exactly when that keeps the agent, switched on, with a threshold its silence has crossed |
| `LeftoverWindows.LeftoverWindowRun` | crates/duduclaw-agent/src/heartbeat.rs:472-505 | A run in which an agent is deferred, removed and added again, and its next event is sent while the user is writing, which it would not have been without the leftover window |
| `DistributorBrand.ReachableInv` | src-tauri/src/distributor_brand.rs:58-108 | Every reachable state of every interleaving keeps the invariants on the loop, the etag, the wake-up and the generation |
| `DistributorBrand.NameOnlyFromCurrentTarget` | src-tauri/src/distributor_brand.rs:89-101 | As a corollary, the shown name changes only when a named reply to a request for the current port and generation lands |
| `DistributorBrand.EtagMatchesShownName` | src-tauri/src/distributor_brand.rs:85-97 | A conditional request carries an etag only when the shown name came with it from the very target that is asked |
| `DistributorBrand.NeverSleepsThroughRetargeting` | src-tauri/src/distributor_brand.rs:65-70 | A loop that sleeps on an outdated target has a stored wake-up, or a caller still has its notify to run |
| `DistributorBrand.LoopIsSpawnedOnce` | src-tauri/src/distributor_brand.rs:67-73 | Spawning finds no loop running, and in every state that any run leads to afterwards the loop runs and no spawn is enabled |
| `DistributorBrand.ReplyLandsExactly` | src-tauri/src/distributor_brand.rs:30-34 | A named reply becomes the shown name, with its etag, exactly when the readiness calls since its request are a multiple of 2^64 and end on the port asked: below that many, exactly when there was none; otherwise nothing shown changes |
| `DistributorBrand.PollShowsAnswer` | src-tauri/src/distributor_brand.rs:76-105 | A poll without a readiness call in between shows the name it was answered with, and the next request carries its etag |
| `DistributorBrand.PollWithoutNews` | src-tauri/src/distributor_brand.rs:85-105 | An answer without news keeps name, origin and etag, and the first request after a readiness call carries no etag |
| `DistributorBrand.PermitMeaning` | src-tauri/src/distributor_brand.rs:104-105 | In every run a wake-up is stored exactly when a caller has notified since the loop was last woken by one |
| `TaskBoard.AncestorRows` | crates/duduclaw-agent/src/heartbeat.rs:2114-2118 | The recursive query ends on cyclic parents too and yields exactly the ancestors of each candidate within 64 parent hops |
| `TaskBoard.StoppedCandidates` | crates/duduclaw-agent/src/heartbeat.rs:2105-2122 | Marks exactly the candidates that are, or have within 64 hops, the root of a stop request |
| `TaskBoard.LimitHidesNothing` | crates/duduclaw-agent/src/heartbeat.rs:2105-2108 | For chains that end, or close a cycle, within the limit, a stop at any distance is seen |
| `TaskBoard.OnlyStopSeen` | crates/duduclaw-agent/src/heartbeat.rs:2118 | A stop that is the only one above a row counts exactly up to 64 hops |
| `TaskBoard.TodoMeaning` | crates/duduclaw-agent/src/heartbeat.rs:2135-2137 | A row is eligible exactly when it is the employee's, in one of the two open statuses, without goal mode, and of one of the two kinds if the table has kinds |
| `TaskBoard.PrecedesMeaning` | crates/duduclaw-agent/src/heartbeat.rs:2141-2147 | One row comes before another by the place of its priority in the named list, unnamed ones last, and then by creation time |
| `TaskBoard.ClosedIsComplete` | crates/duduclaw-agent/src/heartbeat.rs:2114-2118 | A row set that starts at every candidate and is closed under the join holds every ancestor row |
| `TaskBoard.TodoQuery` | crates/duduclaw-agent/src/heartbeat.rs:2134-2152 | The pick is an eligible row outside every stopped tree, first by priority rank and creation time among all such rows, and empty only when there is none |
| `Contract.GlobToRegexPattern` | crates/duduclaw-agent/src/contract.rs:119-133 | The loop's translation is the character-wise one, which `SplitTranslated` and `PatternSearch` relate to the rule |
| `Contract.SplitTranslated` | crates/duduclaw-agent/src/contract.rs:153 | Cutting a translated rule at `.*` gives the translations of the pieces between its stars, also where an escaped dot stands before a star |
| `Contract.FirstPiece` | crates/duduclaw-agent/src/contract.rs:156-166 | Placing a piece where it first occurs succeeds exactly when placing it somewhere does |
| `Contract.GreedyMeansGlob` | crates/duduclaw-agent/src/contract.rs:156-170 | For a rule without `?`, leftmost greedy search over the pieces succeeds exactly when the glob matches some excerpt |
| `Contract.RegexLiteMatch` | crates/duduclaw-agent/src/contract.rs:142-178 | The loop over parts and anchors decides the pattern semantics that the theorems on rules are about, on lowered pattern and text |
| `Contract.PatternSearch` | crates/duduclaw-agent/src/contract.rs:149-177 | The pattern of a rule that does not end in a dollar sign has no effective anchor: its search is the greedy one over the translated pieces |
| `Contract.ValidateResponse` | crates/duduclaw-agent/src/contract.rs:80-113 | Reports the violated rules in the contract's order, each as often as it stands there, and passes exactly when there is none |
| `Contract.PlainRuleMeaning` | crates/duduclaw-agent/src/contract.rs:86-107 | A rule of stars and unescaped characters is violated exactly when it matches an excerpt of the response as a glob, case aside |
| `Contract.WildcardRulesAgreeWhenPlain` | crates/duduclaw-agent/src/contract.rs:115-133 | For a rule with a wildcard, the code and the glob reading agree on all responses if and only if the rule has no `?` and no escaped character |
| `Contract.OtherRulesAgree` | crates/duduclaw-agent/src/contract.rs:87-98 | A rule that is never tried as a pattern is matched as what it says, escaped characters included |
| `Contract.PlainMeaning` | crates/duduclaw-agent/src/contract.rs:122-129 | A rule is plain exactly when it has no question mark and none of the twelve escaped characters, by their code points |
| `Contract.StartAnchorMeaning` | crates/duduclaw-agent/src/contract.rs:146-165 | With a caret in front, a literal pattern matches exactly the texts that begin with it |
| `Contract.EndAnchorMeaning` | crates/duduclaw-agent/src/contract.rs:147-175 | With a dollar sign behind it, a literal pattern matches exactly the texts that end with it and hold it nowhere before |
| `BracketRules.BracketRulesAgree` | crates/duduclaw-agent/src/contract.rs:97-108 | For a rule with `[` and no wildcard, which is also tried as a pattern, code and glob reading agree on all responses if and only if the rule, without the backslashes at its ends, is a bracket followed by characters that need no escape |
| `BracketRules.LetterBeforeBracketDisagrees` | crates/duduclaw-agent/src/contract.rs:97-108 | The rule `a[` blocks a response in which it does not occur |
| `ContractSanitize.NormalizedFacts` | crates/duduclaw-agent/src/contract_sanitize.rs:61-69 | A normalised rule has at most 160 characters, no glob character and no other blank than single inner spaces, but for a cut after a space |
| `ContractSanitize.NormalizeTwice` | crates/duduclaw-agent/src/contract_sanitize.rs:61-69 | Normalising again changes nothing if and only if the collapsed rule is not cut right after a space |
| `ContractSanitize.CutAfterSpace` | crates/duduclaw-agent/src/contract_sanitize.rs:67-68 | An input that is cut right after a space and changes when it is normalised again |
| `ContractSanitize.SpokenText` | crates/duduclaw-agent/src/contract_sanitize.rs:73-89 | Keeps exactly the lines that are no heading and whose last heading, if any, names no red line, in order |
| `ContractSanitize.SanitizeList` | crates/duduclaw-agent/src/contract_sanitize.rs:91-118 | Keeps the first eight distinct qualifying normalised rules in order and reports every other input once, as given, with its reason |
| `ContractSanitize.SanitizedFacts` | crates/duduclaw-agent/src/contract_sanitize.rs:97-116 | Kept rules are distinct and at most eight, the distinct qualifying rules are exactly those some input normalises to, and kept and dropped ones account for every input |
| `ContractSanitize.KeptRulesAllowOwnWording` | crates/duduclaw-agent/src/contract_sanitize.rs:12-14 | No kept `must_not` rule makes validation fail on any contiguous excerpt of the persona's spoken text |
| `ContractSanitize.SanitizeBoundaries` | crates/duduclaw-agent/src/contract_sanitize.rs:122-135 | Both lists are filtered as stated with their own limits, `must_not` against the persona, all drops are reported in order, and with a persona none of its excerpts is blocked |
| `RuleMeaning.NormalizeKeeps` | crates/duduclaw-agent/src/contract_sanitize.rs:61-69 | Normalising keeps every character that is no blank and no glob character, in order, adds only spaces, and loses beyond that only what lies behind the first 160 characters |
| `RuleMeaning.CleanRuleIsKept` | crates/duduclaw-agent/src/contract_sanitize.rs:61-69 | A rule of at most 160 characters without glob characters and with single inner spaces is kept as it is |
| `RuleMeaning.NormalizedCharacters` | crates/duduclaw-agent/src/contract_sanitize.rs:61-69 | No star, question mark, bracket or blank but the space is left |
| `RuleMeaning.ReasonMeaning` | crates/duduclaw-agent/src/contract_sanitize.rs:101-111 | Each reason holds exactly for the rules it names: too short; long enough but own wording; a repetition of an earlier qualifying rule; or beyond eight distinct ones |
| `RuleMeaning.FirstEightMeaning` | crates/duduclaw-agent/src/contract_sanitize.rs:107 | What is kept is the first eight of the distinct qualifying rules, or all of them |
| `RuleMeaning.ContractLimits` | crates/duduclaw-agent/src/contract_sanitize.rs:23-27 | At most eight `must_not` rules of 10 to 160 characters and eight `must_always` rules of 4 to 160 are kept |
| `RuleMeaning.RedLineMeaning` | crates/duduclaw-agent/src/contract_sanitize.rs:31-33 | A heading names red lines exactly when, in lower case, it holds one of the seven listed words |
| `RuleMeaning.HeadingMeaning` | crates/duduclaw-agent/src/contract_sanitize.rs:77-78 | A line is a heading exactly when its first character after leading blanks is a number sign |
| `RuleMeaning.SpokenMeaning` | crates/duduclaw-agent/src/contract_sanitize.rs:74-88 | A line below a heading is spoken exactly when it is no heading and the last heading above it names no red lines |
| `RuleMeaning.SpokenBeforeHeadings` | crates/duduclaw-agent/src/contract_sanitize.rs:75-86 | Above the first heading every line is spoken |
| `Proactive.ProactiveState.PruningIsInvisible` | crates/duduclaw-agent/src/proactive.rs:75-80 | The pruned list counts as many recent sends as the full history |
| `Proactive.ProactiveState.CanSend` | crates/duduclaw-agent/src/proactive.rs:60-69 | The answer is that of the full send history, up to the 32-bit width of the count |
| `Proactive.ProactiveState.RecordSent` | crates/duduclaw-agent/src/proactive.rs:72-81 | Adds one send to the history it stands for and prunes only what no later answer can see |
| `Proactive.NoHourOverLimit` | crates/duduclaw-agent/src/proactive.rs:59-69 | When every send kept the limit, no half-open hour anywhere holds more sends than the limit |
| `Proactive.RecentMeaning` | crates/duduclaw-agent/src/proactive.rs:61-67 | The count is the number of sends less than 3600 seconds before the moment |
| `Proactive.ProactiveState.SendIfAllowed` | crates/duduclaw-agent/src/heartbeat.rs:1370-1381 | Check and record under one lock keep that every send found room, also when the clock advances between the reads |
| `Proactive.ProactiveState.MessagesThisHour` | crates/duduclaw-agent/src/proactive.rs:89-100 | The dashboard's count is the limiter's own, also in the first hour after boot |
| `Rpc.GatewayClient.Receive` | clients/vscode/src/rpc.ts:123-202 | A refusal of a pending resume removes the current key's id and no other, a confirmation stores the echoed id under it, nothing happens on a replaced socket, and every other frame moves the fields as the step function says |
| `Rpc.GatewayClient.Send` | clients/vscode/src/rpc.ts:243-271 | The id sent is this connection's, else the remembered one of this gateway and agent, else none; a resume is pending exactly when one is sent; nothing stored changes |
| `RpcRuns.ReachableInv` | clients/vscode/src/rpc.ts:99-271 | Every interleaving of sends, switches, openings, closings and frames keeps the provenance invariant |
| `RpcRuns.StoredIdsBelong` | clients/vscode/src/rpc.ts:227-233 | An id stored under an agent's name was echoed on a socket opened while that agent was selected, or is that socket's first announced base id extended with that agent |
| `RpcRuns.SentIdsBelong` | clients/vscode/src/rpc.ts:243-268 | The id sent along with a message belongs in that sense to the agent the message is addressed to |
| `RpcRuns.ReplacedSocketsStayDead` | clients/vscode/src/rpc.ts:75-92 | Frames of a replaced socket change nothing, and a replaced socket never becomes current again |
| `RpcRuns.BaseIsFirstAnnounced` | clients/vscode/src/rpc.ts:140-150 | The base id in use is the first one announced on the current socket, which was opened for the current agent |
| `RpcRuns.SharedNames` | clients/vscode/src/config.ts:92-94 | Two agents share a key's name exactly when they are equal, or one is unset and the other is called like the default |
| `RpcRuns.GatewayMayDiffer` | clients/vscode/src/config.ts:79-94 | A run that stores one gateway's id under another gateway's key |
| `RpcRuns.FilesUnderOwnGateway` | clients/vscode/src/rpc.ts:227-233 | In every reachable state, whatever frames come in next on the current socket are filed under the gateway it was opened to, if and only if the setting is still the one it was opened with |
| `RpcRuns.StoredIdsKeepGateway` | clients/vscode/src/config.ts:79-94 | When the setting is the socket's own whenever a frame files an id, every stored id came from a socket of its key's gateway and agent, also when the setting changed and came back in between |
| `Resume.ErrorMeaning` | clients/vscode/src/rpc.ts:152-183 | An error forgets the current key's id, and the next message carries none, exactly when a resume is pending and the token is not being refreshed; any other error changes nothing |
| `Resume.RefusedIdIsNotSent` | clients/vscode/src/rpc.ts:168-183 | In every run after a refusal, no message to that agent over that gateway carries the refused id until a frame files it anew, or the setting comes back to the gateway while the id is in use for another |
| `Resume.StaysForgotten` | clients/vscode/src/rpc.ts:168-183 | A forgotten id stays forgotten over a step if and only if the step is none of those two |
| `Resume.ConfirmationMeaning` | clients/vscode/src/rpc.ts:145-149 | A confirmed resume stores its id for the current gateway and agent, and the next message carries it |
| `Resume.AnnouncementMeaning` | clients/vscode/src/rpc.ts:140-145 | The first session frame of a socket announces its base id and stores nothing; a refresh changes nothing |
| `Resume.FirstReplyMeaning` | clients/vscode/src/rpc.ts:184-202 | The first finished reply without a resume stores the base id, extended with the agent's name if one is selected, and the next message carries it |
| `Resume.LaterErrorsKeepTheId` | clients/vscode/src/rpc.ts:184-186 | A finished reply settles a pending resume, so that a later error does not cost the conversation its id |
| `Resume.NewSocketResumes` | clients/vscode/src/rpc.ts:243-258 | On a new socket, after a switch or not, the next message carries what is remembered for that agent, or nothing |
| `Resume.SocketMeaning` | clients/vscode/src/rpc.ts:104-213 | A new socket becomes the current one and starts without a base id; a closed one is current no more, and its later frames do nothing |
| `RpcRuns.BetweenSocketsIsCareful` | clients/vscode/src/config.ts:79-94 | Runs whose setting changes only between sockets meet that condition |
| `GatewayPicker.WithSelection` | src-tauri/src/gateway_picker.rs:118-134 | The loop with its early exit yields the first five of: the selection, then the other addresses in their order |
| `GatewayPicker.SameUrlMeaning` | src-tauri/src/gateway_picker.rs:138-141 | Addresses count as one exactly when, but for trailing slashes, they differ in the case of ASCII letters only |
| `GatewayPicker.CapCommutes` | src-tauri/src/gateway_picker.rs:121-129 | On any list, capping before a selection shows the same entries as capping only after it if and only if the list is short, its first five keep four without the chosen address, or nothing behind them has another address |
| `GatewayPicker.CapLosesNothing` | src-tauri/src/gateway_picker.rs:121-129 | On lists of distinct addresses, capping before a selection shows the same five as capping only after it |
| `GatewayPicker.RecentIsMostRecent` | src-tauri/src/gateway_picker.rs:118-134 | After any selections from the empty state, the list is the first five of the unbounded most-recently-used list, and the last gateway is its head |
| `GatewayPicker.RepeatedAddressLosesEntry` | src-tauri/src/gateway_picker.rs:121-129 | Lists with a repeated address for which that fails |

## Left out

- Bytes: in the release-marker and JSON models a byte is the character with its code; the JSON theorems hold for any such text, valid UTF-8 or not.
- Release archives, signing and the command line (scripts/verify_release_marker.py:59 onward); Python's limit on converting very long digit strings, which only changes which error rejects the expected version.
- ReleaseMarker.VerifyMarker: for a binary over the size limit it is not stated which error comes first, the size error or a fault that the whole-buffer scan finds too; acceptance and every other verdict are stated for all.
- WebSocket handshake, timeouts, JSON commands and the matching of answers to command ids (`call`, `send_command`); the mask is any four bytes.
- Health probe: the split of the HTTP response and its status line (`is_duduclaw_health_response`), and the port plan (`decide_plan_with_probes`, `candidate_ports`), which would add only case tables.
- EditorContext.TruncateUtf8Bytes: a text is a sequence of Unicode scalar values; lone surrogates, which `TextEncoder` replaces, are not modelled.
- Natural timing: loading the history from SQLite and the configuration file are inputs (a history or a failure, a switch); the number of messages is unbounded where the source counts in 32 bits.
- ProactiveTiming.DeferralLedger.GateKeyedSend: one call per key at a time, as the heartbeat loop makes them; two concurrent callers of one key could interleave between evaluating and marking.
- Heartbeat: cron schedules, bus polling, semaphores, spawned runs and time zones; a sync stamps all agents it adds with one instant; thresholds are reals, where the source rounds in f64; one loop runs syncs and ticks, so no agent disappears between detection and commit.
- Heartbeat concurrency limits: a removed and re-added agent gets a fresh semaphore and manual triggers bypass the global one, so there is no clean bound to state.
- DistributorBrand: fetching and validating the name are its outcomes, on values rather than shared memory; a poisoned lock and the exit of the loop when the application goes away are not modelled.
- TaskBoard: creation times are ranks in the text order SQLite sorts by; tables are maps by id; the stalled-work query and the reading of the database are left out.
- Contract.WildcardRulesAgreeWhenPlain: lowercasing is any character-wise function that settles at once and leaves pattern characters and `x` alone; Unicode lowercasing that changes the number of characters is not modelled.
- Contract: the excerpt shown with a violation (`extract_context`) is left out.
- ContractSanitize: whitespace and control characters are parameters; the text is given as lines.
- Proactive: reading PROACTIVE.md, the channel routing, and overflow of the 64-bit totals.
- Proactive.ProactiveState.SendIfAllowed: the limit is fixed over the run; after lowering it, earlier sends may exceed the new one.
- Rpc: tokens, timers, parsing of frames, the dashboard socket and posting to the panel; a switch or send is one step between awaits, and which socket object carries the message is not recorded. That the server extends base ids as the client does is not part of this model.
- Rpc.StateKey: the source joins gateway and agent name with `::`; the model keeps the pair, assuming that no two pairs in use join to the same key.
- GatewayPicker: reading and writing the state file and validating addresses.
- Sidecar processes, budgets, credential probes, IPC, expert packs, and the web, WordPress and Stream Deck clients.
