# Redis gateway: a Dafny model of its hard core

The gateway turns HTTP paths, WebSocket messages and gRPC calls into Redis commands. This project
models the parts of it whose correctness is not visible from any single function, and proves what
they promise for every input, every run or every interleaving. `dafny verify dfyconfig.toml`
checks all of it.

| module | models | form |
|---|---|---|
| `Bytes`, `Utf8`, `Decimal` | octets, Rust's UTF-8 decoder, `trim().parse()` | functions |
| `RespCommand` | `parse_command`: cursor loop, grammar, printer | method with a loop, functions |
| `RespReply` | `value_to_resp`, `redis_value_to_proto`, a reference reader | functions |
| `Framing`, `WebSocketLoops` | buffer discipline and the two raw socket loops | functions, a class |
| `CompatPipeline` | `command_raw`, one body of pipelined commands | method with a loop |
| `Acl` | the ordered rule fold | method with nested loops |
| `CompatSessions` | the session table, alone and under all interleavings | a class, a step relation |
| `SessionPubSub` | pub/sub control commands of one session | classes |
| `PubSubFanout` | the shared fan-out task | a step relation |
| `PoolRegistry` | the double-checked pool cache | a class, a step relation |
| `HttpRequest` | the URL command parser | methods with loops, functions |
| `JsonTree`, `SpecMerge`, `SpecDiff`, `SpecReport` | configuration merge, diff and its report | methods with loops, classes, functions |
| `BenchWorkers`, `BenchStream` | the benchmark's shared counter and in-flight window | step relations |

A step relation splits an asynchronous function at its awaits and lock releases; a run is any
sequence of enabled steps, and the theorems hold of all runs. A backend is a function of the
commands it ran before; calls that may fail have an explicit outcome.

## Main results

* **Chunking.** `WebSocketLoops.SocketExact`: for every list of commands and every way of cutting
  their encoding into messages, with pings anywhere between, a raw socket runs exactly the
  commands it should, answers each in order and ends with an empty buffer, if and only if no
  message boundary falls just after a header tag or strictly inside an empty command `*0 CR LF`;
  otherwise a framing error is sent. It rests on `RespCommand.FramePrefix` (what every proper
  prefix parses to), `RespCommand.FrameRoundTrip` and `Framing.ChunkingExact`.
* **The parser accepts a grammar, and nothing else.** `RespCommand.FrameExact` is an
  if-and-only-if between the cursor loop and a declarative grammar; `RespCommand.MoreExactly` says
  when asking for more can still lead to a command.
* **Replies are uniquely decodable.** `RespReply.UniquelyDecodable`, with the side condition on
  simple strings shown exact by `RespReply.SimpleStringDelimited`. For a whole run of the raw
  endpoint, `WebSocketLoops.RawRunReadable`: the client reads one reply per command, in order; for a
  compat session `WebSocketLoops.CompatRunExact` says which commands run and what each is told.
* **Sessions.** `CompatSessions.SessionBound` bounds stored plus pending sessions in every
  interleaving and `CompatSessions.BoundAttained` shows the bound is reached;
  `CompatSessions.TableExactly` says when a session is stored,
  `CompatSessions.ExpungeExactly` which sessions a sweep removes, and
  `CompatSessions.StillIdleExactly` when those are still expired by then.
* **Fan-out.** `PubSubFanout.SubscriberGets`: what each caller gets, by the steps of the run alone;
  `PubSubFanout.FanOutFromStart` and `PubSubFanout.SubscribedExactly`; and the
  deadlock: which states it is (`PubSubFanout.ProgressExactly`) and that callers who ask for at
  most `n` channels can bring it about if and only if `n` is at least 102
  (`PubSubFanout.StuckPossibleExactly`).
* **Diff.** `SpecReport.FlattenDiff`: the entries reported, applied to the base, give the variant;
  every entry is true, no path is a prefix of another, and the report is empty exactly for equal
  trees. `SpecDiff.EntriesExact` says which entries are reported, and
  `SpecReport.DistinctExactly` for which choices of keys the dotted text tells them apart.
* **Merge.** `SpecMerge.KeptExactly`: an override leaves a path alone in every base if and only if
  it does not address it.
* **Access rules.** `Acl.ForbiddenExactly`: who is refused what, spelled out down to the octets.
* **URLs.** `HttpRequest.RequestArrives`, `HttpRequest.ErrorsExactly` and `HttpRequest.BodyLast`
  say what every request and every error means; `HttpRequest.UrlRoundTrip`: an if-and-only-if between the parser and any careful
  percent-encoder; `HttpRequest.EscapedRoundTrip` for the encoder that escapes everything.

## Where the code differs from what one might expect

* A header at the end of input needs no line feed, so `*0` alone is already a complete, empty
  command; if the line feed arrives later it is a framing error (`RespCommand.FrameStable`,
  `Framing.HarmfulStop`).
* After a complete payload and one octet that is not CR the parser still asks for more, although no
  continuation can be accepted (`RespCommand.MoreExactly`).
* A buffer that ends just after `*` or `$` is a format error, not a request for more, and costs
  the connection whatever was buffered.
* In a rule with credentials the credential test overwrites the subnet test, so such a rule
  applies from any address (`Acl.CredentialsReplaceSubnet`, `Acl.OutsiderAdmitted`).
* A null in a configuration override means "keep" exactly where the base has a value; elsewhere
  the null is inserted (`SpecMerge.NullKeepsExactly`). Section 2 of RFC 7396, where null deletes,
  is not what the code follows.
* Whatever a sweep's read phase sees expired its write phase removes, also a session that its
  holder has used in between (`CompatSessions.ExpungeExactly`, `CompatSessions.RenewedYetSwept`).
* `k` concurrent creations can overrun the session limit by `k - 1` (`CompatSessions.BoundAttained`).
* A `subscribe` call waits for room in the command queue while it holds the map's write lock. If
  the queue is full and the dispatcher has a message in hand, neither can ever move again
  (`PubSubFanout.StuckReachable`, `PubSubFanout.StuckForever`). It takes 102 channels.
* A channel whose Redis subscription failed or was lost with its connection is never subscribed
  again (`PubSubFanout.NeverResubscribed`).
* One report can have two lines under the same dotted key, for instance for
  `{"a.b": 1, "a": {"b": 1}}` against the same with 2 (`SpecReport.DottedCollides`).
* A failed read in the streaming benchmark never frees its slot, so a run over more than 32
  messages can hang (`BenchStream.HangPossibleExactly`).
* With no workers and at least one operation the benchmark joins at once having run nothing
  (`BenchWorkers.WorkConserved`).
* `RespError::Incomplete` is never produced (`RespCommand.NeverIncomplete`).

## Model

| member | source | states |
|---|---|---|
| `Utf8.LossyExactlyValid` | crates/redis-web-core/src/request.rs:148 | the lossy conversion is the identity exactly on well-formed text |
| `Utf8.LossyIsValid` | crates/redis-web-core/src/request.rs:148 | its result is always well-formed |
| `Utf8.MaximalRun` | crates/redis-web-core/src/request.rs:148 | each ill-formed run that becomes one replacement character is as long as the beginning of a character can be |
| `Utf8.DecodesScalar` | crates/redis-web-core/src/request.rs:148 | the decoder reads back every encoded scalar value whatever follows it (section 3 of RFC 3629) |
| `Utf8.EncodesChar` | crates/redis-web-core/src/request.rs:148 | the decoder accepts nothing else: no overlong form, no surrogate, nothing above U+10FFFF |
| `Utf8.CodesInverse` | crates/redis-web-core/src/resp.rs:58-60 | encoding the scalar values of a valid line gives the line back |
| `Utf8.EncodedIsValid` | crates/redis-web-core/src/resp.rs:58-60 | every encoded text is valid and yields its own scalar values |
| `Utf8.WhiteSpace` | crates/redis-web-core/src/resp.rs:70 | `trim` removes the twenty-five White_Space code points |
| `Decimal.ValueOfDigits` | crates/redis-web-core/src/resp.rs:28 | the printed form of a number has that number's value |
| `Decimal.DigitTexts` | crates/redis-web-core/src/resp.rs:28 | the printed digits are the ASCII ones, most significant first |
| `Decimal.TrimParseExact` | crates/redis-web-core/src/resp.rs:69-72 | `trim().parse::<usize>()` yields `n` exactly on white space, a numeral worth `n` with at most a plus sign, white space, and `n` below 2^64 |
| `RespCommand.ParseCommand` | crates/redis-web-core/src/resp.rs:53-109 | the cursor loop computes `ParseFrame`, the function all results below are about |
| `RespCommand.FrameExact` | crates/redis-web-core/src/resp.rs:53-109 | the parser returns these arguments and this length if and only if the grammar derives them from the front of the input |
| `RespCommand.MoreExactly` | crates/redis-web-core/src/resp.rs:53-109 | when the parser asks for more, some continuation is accepted if and only if the payload being read is not followed by a single octet other than CR |
| `RespCommand.FailExact` | crates/redis-web-core/src/resp.rs:53-109 | the parser fails exactly where a header line is not UTF-8 (`Io`), is no header, or a payload is not followed by CRLF (`InvalidFormat`) |
| `RespCommand.BulksExact` | crates/redis-web-core/src/resp.rs:76-105 | the argument loop accepts exactly a run of bulk strings |
| `RespCommand.BulkExact` | crates/redis-web-core/src/resp.rs:77-104 | one argument is accepted exactly when it is a header line, that many octets and CRLF |
| `RespCommand.HeaderExact` | crates/redis-web-core/src/resp.rs:62-72 | a header line yields `n` exactly when it is UTF-8, starts with the tag and continues with a padded numeral worth `n` |
| `RespCommand.FrameRoundTrip` | crates/redis-web-core/src/resp.rs:27-109 | parsing a printed command followed by any octets returns the command and exactly its printed length |
| `RespCommand.FramePrefix` | crates/redis-web-core/src/resp.rs:53-109 | every proper prefix of a printed non-empty command asks for more, except just after a `*` or `$`, where it is a format error |
| `RespCommand.EmptyFramePrefix` | crates/redis-web-core/src/resp.rs:53-76 | every cut of an empty command after its first digit is already accepted |
| `RespCommand.FrameStable` | crates/redis-web-core/src/resp.rs:53-109 | an accepted command is independent of what follows if and only if its last octet is LF, which holds of every command with arguments |
| `RespCommand.TerminatedFrameStable` | crates/redis-web-core/src/resp.rs:53-109 | the accepted octets alone, or followed by anything, parse to the same result |
| `RespCommand.UnterminatedFrameUnstable` | crates/redis-web-core/src/resp.rs:58-72 | otherwise the command is empty, takes the whole input, and one LF changes the result |
| `RespCommand.NeverIncomplete` | crates/redis-web-core/src/resp.rs:53-109 | the `Incomplete` error never occurs |
| `RespCommand.WrongTagFails` | crates/redis-web-core/src/resp.rs:62-65 | input that does not start with `*` fails however it continues |
| `RespReply.ReplyRoundTrip` | crates/redis-web-core/src/resp.rs:23-44 | an independent RESP2 reader returns the printed value tree and stops exactly at its end |
| `RespReply.RepliesRoundTrip` | crates/redis-web-core/src/resp.rs:34-40 | the same for a list of values |
| `RespReply.EncodeOctets` | crates/redis-web-core/src/resp.rs:26-41 | the octets of integers, bulk strings, arrays and simple strings, tag by tag |
| `RespReply.FixedOctets` | crates/redis-web-core/src/resp.rs:25-43 | the octets of nil, OK and the unsupported variants |
| `RespReply.UniquelyDecodable` | crates/redis-web-core/src/resp.rs:23-44 | two streams that begin with printed values are equal if and only if values (up to `Okay` being the simple string OK) and remainders are |
| `RespReply.SimpleStringDelimited` | crates/redis-web-core/src/resp.rs:41 | a simple string's end is recognisable if and only if it holds no CRLF |
| `RespReply.ProtoExactlySupported` | crates/redis-web-runtime/src/grpc.rs:320-347 | the gRPC mapping succeeds exactly when no node at any depth is unsupported, and then builds the tree the RESP octets decode to |
| `RespReply.SameReplySameValue` | crates/redis-web-runtime/src/grpc.rs:320-347 | two values have the same typed reply exactly when they agree up to `Okay` and the unsupported variants |
| `RespReply.CommandIsValue` | crates/redis-web-core/src/resp.rs:27-39 | the command printer is `value_to_resp` on an array of bulk strings |
| `Framing.Resume` | crates/redis-web-runtime/src/websocket.rs:154-217 | resuming at any position and stopping at a harmless one drains exactly the commands completed between |
| `Framing.SafeRun` | crates/redis-web-runtime/src/websocket.rs:129-219 | after any harmlessly cut messages the buffer and the commands seen depend only on the total length received |
| `Framing.HarmfulStop` | crates/redis-web-runtime/src/websocket.rs:154-217 | a harmful stop faults at once, or leaves an empty buffer before input that cannot start a command |
| `Framing.ChunkingExact` | crates/redis-web-runtime/src/websocket.rs:129-219 | chunked input yields exactly the commands, no fault and an empty buffer if and only if every boundary is harmless; otherwise a fault |
| `Framing.OneShot` | crates/redis-web-runtime/src/websocket.rs:154-217 | one message holding any command stream is framed exactly |
| `Framing.FaultClears` | crates/redis-web-runtime/src/websocket.rs:196-215 | a fault is the last thing the drain loop meets and leaves an empty buffer |
| `WebSocketLoops.Connection.constructor` | crates/redis-web-runtime/src/websocket.rs:128-129 | a connection starts with an empty buffer, nothing run and nothing sent |
| `WebSocketLoops.Connection.ServeFrame` | crates/redis-web-runtime/src/websocket.rs:161-195 | one frame: run and answered, refused, or skipped; a failed send ends the connection |
| `WebSocketLoops.Connection.Pump` | crates/redis-web-runtime/src/websocket.rs:154-217 | the parse, drain and clear loop leaves the socket that framing the buffer and serving its frames in order gives |
| `WebSocketLoops.Connection.OnEvent` | crates/redis-web-runtime/src/compat.rs:713-761 | the new state after any message kind, end of stream or error |
| `WebSocketLoops.RunTracksFraming` | crates/redis-web-runtime/src/websocket.rs:127-219 | without send failures a whole run is determined by framing its data messages |
| `WebSocketLoops.SocketFrom` | crates/redis-web-runtime/src/websocket.rs:127-219 | the chunking theorem in both directions from any connection at rest |
| `WebSocketLoops.SocketExact` | crates/redis-web-runtime/src/websocket.rs:127-219 | the chunking theorem for whole socket runs, in both directions, for both loops |
| `WebSocketLoops.FaultRecovers` | crates/redis-web-runtime/src/websocket.rs:196-215 | a message with a framing error in it is answered by one, last, and leaves the connection at rest |
| `WebSocketLoops.LostFault` | crates/redis-web-runtime/src/compat.rs:751-757 | a framing error that cannot be sent ends a raw connection and is passed over in a compat session |
| `WebSocketLoops.ToCommand` | crates/redis-web-runtime/src/websocket.rs:161-167 | the first argument names the command, the others are its arguments untouched; name and arguments are the frame exactly when the name is UTF-8 |
| `WebSocketLoops.RawRunsAll` | crates/redis-web-runtime/src/websocket.rs:154-195 | on the raw endpoint the non-empty commands all run and the empty ones get no answer |
| `WebSocketLoops.DisconnectKeepsPrefix` | crates/redis-web-runtime/src/compat.rs:713-761 | whenever the peer stops taking messages, what ran and what was sent are prefixes of the undisturbed run's |
| `WebSocketLoops.DisconnectFromStart` | crates/redis-web-runtime/src/compat.rs:713-761 | from a fresh connection: a peer that takes `n` messages and is gone got the first messages of the full run, and the backend ran a prefix of it |
| `WebSocketLoops.LossStopsRun` | crates/redis-web-runtime/src/compat.rs:735-750 | once the peer has taken its last message at most one more command runs |
| `WebSocketLoops.PongsExact` | crates/redis-web-runtime/src/websocket.rs:143-148 | the pongs sent are exactly the ping payloads received, in order |
| `WebSocketLoops.RawReplyReadable` | crates/redis-web-runtime/src/websocket.rs:174-195 | a client reads the executor's value, or its error line, back from the frame whatever follows |
| `WebSocketLoops.RawRunReadable` | crates/redis-web-runtime/src/websocket.rs:127-219 | over a whole raw run cut at harmless places, exactly the non-empty commands run in order, each handed to the executor with its own name and arguments on the default database, and the answers strung together decode to its replies, one per command |
| `WebSocketLoops.CompatRunExact` | crates/redis-web-runtime/src/compat.rs:713-778 | over a whole compat run cut at harmless places, exactly the non-empty commands the rules permit run in order, and each command gets the session's reply or its refusal |
| `WebSocketLoops.RefusalOctets` | crates/redis-web-runtime/src/compat.rs:246-248 | the octets of the two refusals |
| `CompatPipeline.WholeExactly` | crates/redis-web-runtime/src/compat.rs:584-619 | the loop stops at the end of the body exactly when repeated parsing splits it into at most `limit` commands, and then those are the ones taken |
| `CompatPipeline.StopUnique` | crates/redis-web-runtime/src/compat.rs:584-619 | where the loop stops and which commands it has taken by then is determined by body and limit |
| `CompatPipeline.CommandRaw` | crates/redis-web-runtime/src/compat.rs:574-621 | in every outcome some commands, at most `limit`, were taken off the body, at what is left parsing asks for more, fails or would take one too many, and exactly the non-empty commands the rules permit among them ran, in order; 200 exactly when a non-empty body splits into at most `limit` commands, with one response per command in order; otherwise the text for what stopped the loop |
| `CompatPipeline.Respond` | crates/redis-web-runtime/src/compat.rs:596-602 | one command runs exactly when it is not empty and the rules permit it, and gets the session's reply, else its refusal |
| `CompatPipeline.PipelineRoundTrip` | crates/redis-web-runtime/src/compat.rs:584-619 | printed commands, concatenated, split into exactly those commands |
| `CompatPipeline.SameAsSocket` | crates/redis-web-runtime/src/compat.rs:736-750 | the pipelined body and a WebSocket run over the same commands give the same octets |
| `Acl.Check` | crates/redis-web-core/src/acl.rs:33-87 | the two-flag loop forbids a command exactly when some rule denies it and every later rule is silent |
| `Acl.ForbiddenExactly` | crates/redis-web-core/src/acl.rs:33-87 | a command is forbidden if and only if some rule that concerns the client disables and does not enable it, and no later rule that concerns the client mentions it, with entries, credentials and subnets spelled out |
| `Acl.SingleRule` | crates/redis-web-core/src/acl.rs:69-83 | one rule without conditions forbids exactly what it disables and does not enable |
| `Acl.SubnetRule` | crates/redis-web-core/src/acl.rs:45-50 | without credentials a rule with a subnet decides exactly inside it |
| `Acl.LastDecisionFound` | crates/redis-web-core/src/acl.rs:42-86 | that verdict is the one a backward search for the last deciding rule finds |
| `Acl.CaseIgnored` | crates/redis-web-core/src/acl.rs:71-81 | the ASCII case of the command never matters |
| `Acl.CredentialsReplaceSubnet` | crates/redis-web-core/src/acl.rs:45-67 | in any policy, replacing the subnet of a rule that has credentials by another or by none changes no verdict |
| `Acl.GuardedExactly` | crates/redis-web-core/src/acl.rs:42-86 | forbid everything, then allow everything with credentials inside a subnet: exactly who presents the credentials is let in, from anywhere |
| `Acl.OutsiderAdmitted` | crates/redis-web-core/src/acl.rs:45-67 | a client outside the subnet is let in, and only by the rule that names the subnet |
| `CompatSessions.Manager.SweepExpired` | crates/redis-web-runtime/src/compat.rs:146-165 | an undisturbed sweep leaves exactly the sessions idle for at most the TTL, each by the clock at its own visit |
| `CompatSessions.Manager.GetSession` | crates/redis-web-runtime/src/compat.rs:126-139 | an undisturbed lookup succeeds exactly on a stored session its sweep sees idle for at most the TTL, and renews it |
| `CompatSessions.Manager.CreateSession` | crates/redis-web-runtime/src/compat.rs:94-124 | undisturbed creation fails on the limit exactly when unexpired sessions fill it, and never exceeds it |
| `CompatSessions.Manager.RemoveSession` | crates/redis-web-runtime/src/compat.rs:141-144 | removal reports whether the session was stored and removes only it |
| `CompatSessions.StepBound` | crates/redis-web-runtime/src/compat.rs:94-124 | every step keeps stored plus pending sessions within the bound |
| `CompatSessions.SessionBound` | crates/redis-web-runtime/src/compat.rs:94-165 | with at most `k` creations between check and insert, stored plus pending never exceed `max_sessions - 1 + k`, in every interleaving |
| `CompatSessions.PendingBalanced` | crates/redis-web-runtime/src/compat.rs:94-124 | every admitted creation is inserted, fails or is still pending |
| `CompatSessions.BoundAttained` | crates/redis-web-runtime/src/compat.rs:94-124 | for every limit and every `k` some run reaches that bound |
| `CompatSessions.DoomedWitnessed` | crates/redis-web-runtime/src/compat.rs:146-155 | whatever a sweep is about to remove was seen idle beyond the TTL by that sweep's own read phase |
| `CompatSessions.WitnessedDoomed` | crates/redis-web-runtime/src/compat.rs:146-155 | a sweep forgets nothing its read phase saw expired |
| `CompatSessions.RemovalJustified` | crates/redis-web-runtime/src/compat.rs:141-165 | in every run a session leaves the table only by a delete or by such a sweep |
| `CompatSessions.ExpungeExactly` | crates/redis-web-runtime/src/compat.rs:146-165 | at a sweep's write phase a stored session leaves the table if and only if that sweep's read phase saw it expired, whatever was done with it since |
| `CompatSessions.TableExactly` | crates/redis-web-runtime/src/compat.rs:94-165 | in every run a session is stored exactly when some step inserted it and no delete, and no sweep that saw it expired, has come since |
| `CompatSessions.InProgressExactly` | crates/redis-web-runtime/src/compat.rs:94-139 | a call is in progress exactly from its first step to the one that rejects, inserts, fails or answers |
| `CompatSessions.HeldExactly` | crates/redis-web-runtime/src/compat.rs:126-139 | a caller holds a session exactly when some lookup found it stored |
| `CompatSessions.FirstAccess` | crates/redis-web-runtime/src/compat.rs:115-121 | a session's first last access is the time its creator connected, however late it is inserted |
| `CompatSessions.TaskProgress` | crates/redis-web-runtime/src/compat.rs:94-165 | a call can always go on except while a sweep's read phase keeps it from the write lock |
| `CompatSessions.StillIdleExactly` | crates/redis-web-runtime/src/compat.rs:146-212 | a session seen expired is still expired at any later moment if and only if it has not been used since then within the last TTL |
| `CompatSessions.RenewedYetSwept` | crates/redis-web-runtime/src/compat.rs:126-165 | for every TTL a run exists in which a session, looked up earlier and renewed by its holder at that very instant, is swept |
| `CompatSessions.UninterruptedSweep` | crates/redis-web-runtime/src/compat.rs:146-165 | the undisturbed method is one of the interleavings, in whatever order the table is visited and however long each visit takes |
| `SessionPubSub.Worker.Each` | crates/redis-web-runtime/src/compat.rs:403-415 | the targets before the first failure take effect on both sides; a full success has one notice per target |
| `SessionPubSub.Worker.Collect` | crates/redis-web-runtime/src/compat.rs:436-437 | a bare command's targets are the current set, each member once |
| `SessionPubSub.Worker.Handle` | crates/redis-web-runtime/src/compat.rs:389-497 | local sets equal the backend's before and after, whatever fails; each notice carries the total just after its own step |
| `SessionPubSub.Serve` | crates/redis-web-runtime/src/compat.rs:322-336 | over every run of commands, every result and every change is explained by its own command and the mirror holds |
| `SessionPubSub.BareCountsDown` | crates/redis-web-runtime/src/compat.rs:435-462 | a bare unsubscribe counts down by one to what is left of the other kind |
| `SessionPubSub.NoticesReadable` | crates/redis-web-runtime/src/compat.rs:293-294 | the concatenated answer reads back as exactly the notices |
| `SessionPubSub.ClientReads` | crates/redis-web-runtime/src/compat.rs:389-497 | from a command that succeeds the client reads, per target, the verb, the target and the total just after its own step, or one notice with an empty name |
| `SessionPubSub.SucceedsExactly` | crates/redis-web-runtime/src/compat.rs:389-497 | a command succeeds exactly when it is supported, has what it needs and every backend call works |
| `SessionPubSub.EffectExact` | crates/redis-web-runtime/src/compat.rs:389-497 | which subscriptions a command leaves, name by name |
| `PubSubFanout.StepSafe` | crates/redis-web-runtime/src/pubsub.rs:52-145 | every step keeps the fan-out invariant |
| `PubSubFanout.FanOutSafe` | crates/redis-web-runtime/src/pubsub.rs:52-145 | in every interleaving, with the map lock free, the Subscribe commands ever enqueued are the map's channels, once each; every receiver holds an in-order part of what its channel broadcast since it attached |
| `PubSubFanout.FanOutFromStart` | crates/redis-web-runtime/src/pubsub.rs:52-145 | in every run from the start the map's channels are those asked for, with the lock free they are exactly what was enqueued, once each, and every receiver reads in order |
| `PubSubFanout.BroadcastExactly` | crates/redis-web-runtime/src/pubsub.rs:97-112 | every message that arrives for a mapped channel is broadcast on it once, in order of arrival |
| `PubSubFanout.NoLagNoLoss` | crates/redis-web-runtime/src/pubsub.rs:128-145 | a receiver that never lags misses nothing |
| `PubSubFanout.EndToEnd` | crates/redis-web-runtime/src/pubsub.rs:89-145 | a receiver that has just attached and never lags has read, or has waiting, exactly what arrived for its channel, in order |
| `PubSubFanout.SubscriberGets` | crates/redis-web-runtime/src/pubsub.rs:128-145 | in every run from the start the caller served at a step gets an in-order part of what arrives for its channel from then on, and all of it if it never lags |
| `PubSubFanout.SubscribedExactly` | crates/redis-web-runtime/src/pubsub.rs:63-87 | the connection is subscribed to exactly the channels it has accepted since it was made |
| `PubSubFanout.ConnectionKept` | crates/redis-web-runtime/src/pubsub.rs:58-120 | a connection is given up only when its stream ends |
| `PubSubFanout.DrainedBetween` | crates/redis-web-runtime/src/pubsub.rs:74-120 | between any two messages or timeouts the dispatcher has emptied the queue |
| `PubSubFanout.NeverResubscribed` | crates/redis-web-runtime/src/pubsub.rs:76-87 | a channel taken from the queue and not subscribed stays so for ever |
| `PubSubFanout.ProgressExactly` | crates/redis-web-runtime/src/pubsub.rs:76-145 | some internal step is enabled exactly when the queue is not full under a waiting lock holder with the dispatcher waiting for that lock |
| `PubSubFanout.StuckForever` | crates/redis-web-runtime/src/pubsub.rs:107-143 | from there nothing is ever broadcast or enqueued again and no caller is served |
| `PubSubFanout.StuckReachable` | crates/redis-web-runtime/src/pubsub.rs:53-143 | a run from the start leads there: one channel subscribed, a hundred queued, one more being opened, and a message on the first |
| `PubSubFanout.StuckPossibleExactly` | crates/redis-web-runtime/src/pubsub.rs:53-143 | callers that ask for at most `n` channels can get stuck if and only if `n` is at least 102 |
| `PoolRegistry.Registry.PoolForDatabase` | crates/redis-web-runtime/src/redis.rs:170-186 | undisturbed: the default pool for the default database, which is never cached; otherwise the cached pool, or a new one bound to the database and cached |
| `PoolRegistry.StepConsistent` | crates/redis-web-runtime/src/redis.rs:170-186 | every step of every caller keeps the cache consistent with all answers given |
| `PoolRegistry.CacheAgrees` | crates/redis-web-runtime/src/redis.rs:150-187 | in every interleaving all answers for a database are one pool bound to it |
| `PoolRegistry.CacheFromStart` | crates/redis-web-runtime/src/redis.rs:150-187 | the same in every run from an empty cache, and every answer is bound to its database |
| `PoolRegistry.SparePoolDropped` | crates/redis-web-runtime/src/redis.rs:182-185 | callers that miss together do build spare pools and still agree |
| `HttpRequest.DecodeSegment` | crates/redis-web-core/src/request.rs:128-149 | the index loop computes percent-decoding followed by the lossy conversion |
| `HttpRequest.DecodeUndoesEncode` | crates/redis-web-core/src/request.rs:128-149 | decoding undoes every percent-encoder that escapes `%` and `/`, in either hex case |
| `HttpRequest.NothingToDecode` | crates/redis-web-core/src/request.rs:134-146 | text without a well-formed escape is unchanged, stray percent signs included |
| `HttpRequest.HexExactly` | crates/redis-web-core/src/request.rs:135-138 | the hexadecimal digits in either case and no other octets |
| `HttpRequest.SplitUndoesJoin` | crates/redis-web-core/src/request.rs:33 | splitting a joined path gives the segments back |
| `HttpRequest.StripExact` | crates/redis-web-core/src/request.rs:63-81 | a suffix is taken off exactly when a dot is followed by a known suffix and nothing else |
| `HttpRequest.StripSuffixed` | crates/redis-web-core/src/request.rs:63-81 | a known suffix in any case is taken off and nothing more |
| `HttpRequest.ParseHttpRequest` | crates/redis-web-core/src/request.rs:32-125 | the mutating parser computes `Parse`, every field and the error cases included |
| `HttpRequest.UrlRoundTrip` | crates/redis-web-core/src/request.rs:32-125 | parsing the path built from any database, command, arguments and suffix gives them back, a non-empty body last, if and only if the first segment cannot be taken for a database and the last has no accidental suffix |
| `HttpRequest.RequestArrives` | crates/redis-web-core/src/request.rs:32-125 | the request that arrives, field by field: database, name, arguments with a non-empty body last, and the format and media type of each of the nine suffixes or none |
| `HttpRequest.SuffixExactly` | crates/redis-web-core/src/format.rs:62-105 | the nine suffixes with what each selects, and no others |
| `HttpRequest.ErrorsExactly` | crates/redis-web-core/src/request.rs:38-54 | the index error exactly for a prefix of digits worth more than 255, the missing-command error exactly for a smaller one with nothing after it |
| `HttpRequest.PrefixSelects` | crates/redis-web-core/src/request.rs:42-58 | digits up to 255, leading zeros included, select that database and are otherwise not seen |
| `HttpRequest.BodyLast` | crates/redis-web-core/src/request.rs:88-90 | on every path a non-empty body is one more argument, the last, and changes nothing else |
| `HttpRequest.QueryFields` | crates/redis-web-core/src/request.rs:99-124 | on every path: the callback from `jsonp` or else `callback`, only for JSON; the type override; the setting |
| `HttpRequest.EscapedRoundTrip` | crates/redis-web-core/src/request.rs:32-125 | escaping every octet, the round trip fails only for an empty segment right after a database |
| `HttpRequest.ExpectedVerbatim` | crates/redis-web-core/src/request.rs:83-90 | name and arguments arrive verbatim, a non-empty body last, exactly when they are valid UTF-8 |
| `JsonTree.TakeLeast` | crates/redis-web-bench/src/spec.rs:126-127 | the next key visited is the least in code point order |
| `JsonTree.OrderExactly` | crates/redis-web-bench/src/spec.rs:126 | the key order: a prefix first, otherwise the first difference decides |
| `SpecMerge.MergeJson` | crates/redis-web-bench/src/spec.rs:92-111 | the recursive in-place merge leaves `Merge` of the old contents in the slot |
| `SpecMerge.MergeSelf` | crates/redis-web-bench/src/spec.rs:92-111 | merging a tree with itself changes nothing |
| `SpecMerge.MergeIdempotent` | crates/redis-web-bench/src/spec.rs:92-111 | applying an override twice is applying it once |
| `SpecMerge.UnaddressedKept` | crates/redis-web-bench/src/spec.rs:92-105 | a path the override does not address, or that runs on below one of its nulls, keeps its base value |
| `SpecMerge.AddressedChanges` | crates/redis-web-bench/src/spec.rs:92-111 | for every other path a base whose value there changes |
| `SpecMerge.KeptExactly` | crates/redis-web-bench/src/spec.rs:92-111 | a path keeps its value in every base if and only if it is unaddressed, or the override is just null |
| `SpecMerge.NullKeepsExactly` | crates/redis-web-bench/src/spec.rs:94-102 | a null keeps the base value exactly where there is one |
| `SpecMerge.OverrideTakesEffect` | crates/redis-web-bench/src/spec.rs:92-111 | every path of the override exists afterwards, with the override's scalars and arrays |
| `SpecMerge.MergeExact` | crates/redis-web-bench/src/spec.rs:92-111 | path by path, exactly what the merged tree holds in terms of the two values there |
| `SpecReport.Collector.CollectKey` | crates/redis-web-bench/src/spec.rs:128-148 | one key pushes exactly the lines of its own differences, under its dotted name |
| `SpecReport.Collector.Collect` | crates/redis-web-bench/src/spec.rs:119-157 | the recursion pushes exactly the lines of the differences, in key order, after what was there |
| `SpecReport.FlattenDiff` | crates/redis-web-bench/src/spec.rs:113-164 | one line per entry with its dotted key and, on each side, `<unset>`, the string itself or the printed value; the entries applied to the base give the variant, are true of both trees and prefix-free; none exactly for equal trees; with plain keys no two lines share a key |
| `SpecDiff.EntriesTruthful` | crates/redis-web-bench/src/spec.rs:133-155 | each entry carries what the two trees hold at its path, and these differ |
| `SpecDiff.EntriesPrefixFree` | crates/redis-web-bench/src/spec.rs:119-157 | no entry's path is a prefix of another's |
| `SpecDiff.DiffExact` | crates/redis-web-bench/src/spec.rs:119-157 | applying the diff of two trees to the first gives the second |
| `SpecDiff.EmptyExactlyEqual` | crates/redis-web-bench/src/spec.rs:120-122 | nothing is reported exactly when the trees are equal |
| `SpecDiff.EntriesExact` | crates/redis-web-bench/src/spec.rs:119-157 | an entry is reported exactly when the trees part at its path and it carries what they hold there |
| `SpecDiff.MergeDiffWithinOverride` | crates/redis-web-bench/src/spec.rs:92-157 | whatever a tree's diff against its merge reports is a path of the override |
| `SpecReport.DottedUnique` | crates/redis-web-bench/src/spec.rs:128-132 | non-empty keys without dots make dotted keys unambiguous |
| `SpecReport.PlainKeysDistinct` | crates/redis-web-bench/src/spec.rs:113-157 | with plain keys in both trees the dotted keys of the report are pairwise distinct |
| `SpecReport.DottedCollides` | crates/redis-web-bench/src/spec.rs:128-132 | two pairs of trees, one with a dotted and one with an empty key, whose report repeats a key |
| `SpecReport.ForkedCollides` | crates/redis-web-bench/src/spec.rs:113-157 | two unrelated paths with one dotted form give two trees whose report repeats a key |
| `SpecReport.DistinctExactly` | crates/redis-web-bench/src/spec.rs:113-157 | for every choice of keys: all reports over such trees have distinct keys if and only if no two unrelated paths over them have the same dotted form |
| `SpecReport.PlainExactly` | crates/redis-web-bench/src/spec.rs:128-132 | where the keys include the pieces of the dotted ones, that holds if and only if all keys are plain |
| `BenchWorkers.AlwaysConserved` | crates/redis-web-bench/src/suites.rs:217-238 | at every moment of every interleaving each index handed out is done or held by exactly one worker and all counts balance |
| `BenchWorkers.WorkConserved` | crates/redis-web-bench/src/suites.rs:201-251 | at join every index was run exactly once, successes plus errors are the operations and the counter is that plus the workers, if and only if there is a worker or nothing to do |
| `BenchWorkers.NoDeadlock` | crates/redis-web-bench/src/suites.rs:225-241 | until all have stopped some worker can move |
| `BenchStream.WindowKept` | crates/redis-web-bench/src/suites.rs:1337-1383 | in every interleaving at most 32 messages are in flight and every message inserted is in flight or received |
| `BenchStream.NeverOverrun` | crates/redis-web-bench/src/suites.rs:1337-1383 | in every run from the start at most 32 messages are in flight |
| `BenchStream.StallNeedsLosses` | crates/redis-web-bench/src/suites.rs:1344-1383 | the publisher can wait for ever only after more than 32 failed reads |
| `BenchStream.HungExactlyStalled` | crates/redis-web-bench/src/suites.rs:1344-1383 | the consumer is done and the publisher can never move again exactly when the window is full with messages left |
| `BenchStream.HangPossibleExactly` | crates/redis-web-bench/src/suites.rs:1344-1383 | some run hangs exactly when there are more than 32 messages |

## Left out

- Redis, TCP, TLS, deadpool, tokio and axum: a backend is a function of its history, and a call that may fail has an explicit outcome and changes nothing when it fails.
- Memory: `Vec::with_capacity(count)` and `vec![0; len]` succeed for every announced size; printed commands have lengths below 2^64, as a `Vec` has.
- 64-bit overflow: the counters of the benchmark and the reply counts are unbounded integers.
- Spawning and death of the per-session pub/sub worker (crates/redis-web-runtime/src/compat.rs:300-380): one live worker per session.
- The push task of the compat WebSocket, which interleaves pub/sub frames with the answers: only the answers are modelled.
- Cancelled futures: a `subscribe` call dropped while it waits is not modelled; every call runs on.
- The broadcast buffer's size: falling behind is an arbitrary number of skipped messages.
- WebSocketLoops.Connection.ServeFrame: the two socket loops share one shape whose differences (which frames run, what refused ones get, whether an unsent framing error ends the connection) are parameters.
- A session handle that outlives its table entry keeps its last access only in the step relation; the class has the table alone.
- JSON numbers are integers, and how `serde_json` prints a value that is not a string is a parameter.
- `EmptyCommand` in the URL parser cannot occur, since splitting never yields an empty list.
- SessionPubSub.Worker.Each: the four branches of the source are one loop with the operation as a parameter; the text of error messages is a tag.
- Base64 decoding and subnet membership in the access rules are uninterpreted.
- Acl.Check: configuration parsing of rules (crates/redis-web-core/src/acl.rs:1-31) is not modelled; a rule's subnet is a predicate.
- Percentiles in `summarize_metrics`, and panicking workers.
- ETag hashing, content negotiation, JSONP, CORS, INFO parsing, configuration loading, gRPC plumbing, the JSON socket, routing, the command line and the hiredis headers: formatting or input and output around the core.
