# Verified model of sky-daemon

sky-daemon runs on a game-server host, keeps one signed WebSocket session to its
panel, and drives Docker. This project models the parts of it whose correctness
is a statement about every input or every run, and proves those statements in
Dafny 4.11. `dafny verify dfyconfig.toml` checks all of it.

| file | what it models |
|---|---|
| `Lines.dfy`, `ConsolePump.dfy` | line splitting, and the pump that reassembles attached-console frames from reads cut anywhere |
| `ChunkSize.dfy`, `Chunked.dfy` | the decoder for chunked transfer coding |
| `Tail.dfy` | the last lines of a log file and following it while it grows |
| `Signing.dfy`, `NonceCache.dfy` | canonical strings, signatures, freshness, the replay cache |
| `Agent.dfy`, `Replay.dfy`, `Client.dfy` | the session and the reconnecting client as a step machine, replay safety over two clocks within and across sessions, and the select loop as an object that takes those steps |
| `FakeRuntime.dfy`, `Dispatcher.dfy`, `Answers.dfy`, `Recovery.dfy` | command dispatch over the in-memory container runtime, heartbeats, the acknowledgements and events the panel sees, what a restart recovers |
| `ConsoleInput.dfy` | concurrent console input behind one lock |
| `Managed.dfy`, `Docker.dfy`, `Provision.dfy` | recognising the daemon's own containers, a Docker engine, and self-healing create and start against it |
| `ImageRef.dfy`, `Database.dfy`, `Paths.dfy` | image references and pull paths, SQL literals and provisioning, path containment |
| `Basics.dfy`, `Protocol.dfy` | shared types |

Loops that mutate buffers or objects are methods with invariants, proved against
functions of the whole input or of the old state. Runs of the concurrent parts
are sequences of labelled steps in which a step that is not enabled changes
nothing, so a statement about all label sequences covers every interleaving.
The network, clocks, random identifiers, the file system, hash functions, JSON
decoding and the engine's answers are parameters.

## Where code and documentation differ

The model follows the code.

- The freshness window is documented as 30 seconds either way. In an optimised
  build the i64 subtraction and absolute value wrap, and one timestamp exactly
  2^63 seconds in the past is fresh as well (`Signing.FreshExactly`).
- The replay cache is described as process-local; it belongs to one session and
  starts empty after every reconnect. Whatever verifies is accepted once more
  after one (`Replay.AcceptedAgainAfterReconnect`), and
  `Replay.ReplayAcrossSessionsExactly` says when a whole run is free of that.
- A signature covers kind, timestamp and nonce joined by dots. A nonce in which a
  piece in front of a dot reads as a timestamp lets an envelope of another kind
  pass for the signed one (`Signing.DottedNonceForges`); no other nonce does
  (`Signing.CanonicalDeterminesExactly`), and the daemon's own never do.
- A server id is documented as lower-case hex; case is not looked at
  (`Managed.CaseIsIgnored`, `Managed.UpperCaseIdIsAccepted`).
- A backup name is documented as free of separators; a directory name followed by
  any run of slashes and dots is accepted (`Paths.BackupNameExactly`), which does
  no harm (`Paths.BackupIsOneLevelDown`).
- File paths are meant to stay in the server's directory, but the server id is not
  checked: ids that are no directory name lead elsewhere
  (`Paths.ServerIdConfinesExactly`), those that climb out of the root
  (`Paths.EveryRootConfinesExactly`), absolute ones anywhere
  (`Paths.AbsoluteServerReplacesRoot`).
- A log file that was truncated or replaced is meant to be followed from its
  beginning. A replacement that is not shorter than the position already reached
  is taken for growth and loses the lines that begin in front of it
  (`Tail.LongerReplacementLosesLines`, `Tail.ReplacedExactly`).
- The user of a new database is meant to be scoped to it. The database server reads
  an underscore in a granted name as any character, and names may have one
  (`Database.UnderscoreReachesOther`, `Database.NewUserScopedExactly`).
- Creating a container is meant to recover from a taken name. If the name is also
  the id of another container, that one is removed and the creation fails
  (`Provision.CreateContainer`, `Provision.NameHitsAnother`).
- Freeing ports is meant to remove what holds a wanted port. Protocols are not
  looked at, so a container on the same number under another protocol goes too
  (`Provision.NeedlessExactly`, `Provision.OtherProtocolIsRemoved`).
- A failed database creation is meant to undo what it created; it also drops a
  database or user that was there before (`Database.PreexistingDatabaseIsDropped`),
  and leaves the database behind where the answer to its creation is lost
  (`Database.Server.CreateDatabase`).
- The console map is meant to hold a server's one live console. Creating the
  server again, or starting it on another container by explicit id, while its
  console is attached leaves the console on the old container
  (`Dispatcher.ConsolesCurrentExactly`, `Dispatcher.ConsoleLeftBehind`).
- Chunk data must be followed by CR LF in the coding; the decoder does not insist
  (`Chunked.DecodeExactly`, `Chunked.MissingCrlfIsAccepted`).

## Model

| member | source | states |
|---|---|---|
| Lines.LinesDecompose | daemon/src/runtime/demux.rs:28-54 | Newline-free pieces, each with its newline put back, and the newline-free rest are the whole input: splitting loses and invents nothing. |
| Lines.LinesUnique | daemon/src/runtime/demux.rs:28-54 | There is only one such decomposition, so it defines what the lines of a stream are. |
| Lines.LineEndings | daemon/src/runtime/demux.rs:45-51 | In numbers, for every line and whatever follows: a line ends at byte 10, one byte 13 in front of it is dropped, and without a byte 10 there is no line. |
| Lines.LinesAppend | daemon/src/runtime/demux.rs:40-54 | A partial line across feeds is completed by the next one: lines and rest of `a + b` follow from the rest of `a` and `b`, for every cut. |
| Lines.LineSplitter.Feed | daemon/src/runtime/demux.rs:41-54 | The draining loop reports exactly the lines completed by old buffer and data together and keeps exactly the rest. |
| ConsolePump.FramesDecompose | daemon/src/runtime/demux.rs:15-26 | Every byte stream is a sequence of encoded frames followed by an incomplete frame. |
| ConsolePump.FramesUnique | daemon/src/runtime/demux.rs:15-26 | Decoding inverts encoding: any frames and any incomplete tail come back as they were, big-endian sizes included. |
| ConsolePump.FramesAppend | daemon/src/runtime/docker.rs:796-818 | Reassembly does not depend on where the stream is cut. |
| ConsolePump.Forward | daemon/src/runtime/docker.rs:805-809 | A receiver that goes away gets exactly the lines there was room for, and the pump notices. |
| ConsolePump.DeliveredExactly | daemon/src/runtime/docker.rs:805-809 | What a receiver gets that goes away is exactly the first lines there was room for. |
| ConsolePump.ConsoleLinesGrow | daemon/src/runtime/docker.rs:804-810 | Lines already sent are final: later frames only add lines. |
| ConsolePump.TakeFrames | daemon/src/runtime/docker.rs:797-811 | The inner loop consumes every complete frame, leaves the incomplete one, and ends because each pass removes at least the header. |
| ConsolePump.PumpOutput | daemon/src/runtime/docker.rs:789-819 | For every leftover and every sequence of reads, the lines sent are the completed lines of the joined payloads of the frames of types 1 and 2 in the whole stream, up to the moment the receiver goes away. |
| ConsolePump.PumpDeliversConsole | daemon/src/runtime/docker.rs:786-819 | For every list of frames, however its encoding is cut and wherever it breaks off, frames of types other than 1 and 2, a partial frame and an unterminated line add nothing. |
| ConsolePump.StderrIsPrinted | daemon/src/runtime/demux.rs:7-26 | By the bytes: a frame of type 2 prints its line, one of type 3 does not. |
| Chunked.Dechunk | daemon/src/runtime/docker.rs:422-454 | The loop computes the decoding function for every byte string, failures included, and terminates. |
| Chunked.DecodeAccepted | daemon/src/runtime/docker.rs:419-454 | Every body of size lines, data and an optional CR LF, closed by a zero-size line, decodes to its joined data. |
| Chunked.DecodedIsAccepted | daemon/src/runtime/docker.rs:424-453 | Whatever decodes can be taken apart into such chunks with the decoded payload. |
| Chunked.DecodeExactly | daemon/src/runtime/docker.rs:419-454 | The accepted bodies and their payloads, as an if-and-only-if. |
| Chunked.MissingCrlfIsAccepted | daemon/src/runtime/docker.rs:446-451 | A body outside the coding that decodes: a chunk with no CR LF behind its data. |
| Chunked.DecodeConforming | daemon/src/runtime/docker.rs:419-454 | Decoding inverts the coding of section 7.1 of RFC 9112 for every chunking, with extensions and any trailer. |
| ChunkSize.SizeOfExactly | daemon/src/runtime/docker.rs:429-438 | A size line announces `n` if and only if its field up to the first semicolon is hex digits of that value, below 2^64, with an optional plus sign, between Unicode blanks. |
| ChunkSize.IsSpaceExactly | daemon/src/runtime/docker.rs:429-438 | The blanks that are trimmed are exactly the White_Space code points of Unicode, in UTF-8. |
| Basics.HexDigitExactly | daemon/src/runtime/docker.rs:429-438 | A byte is a digit of a value exactly if it is that character of "0123456789abcdef" or "0123456789ABCDEF". |
| ChunkSize.SizeLine | daemon/src/runtime/docker.rs:429-438 | A size in hex of either case, with any leading zeros, with or without an extension, is read as its value. |
| Chunked.DecodeSent | daemon/src/runtime/docker.rs:419-454 | For every split of a payload into non-empty pieces sent by a plain sender, the payload is what is decoded. |
| Chunked.DecodeExtends | daemon/src/runtime/docker.rs:440-452 | Bytes behind a decoded body change nothing. |
| Chunked.TruncationNeverShortens | daemon/src/runtime/docker.rs:440-452 | On every prefix of a decodable body the decoder fails or returns the whole payload, never a shortened one. |
| Tail.LastNLines | skyperf-core/src/tail.rs:27-46 | The bounded window ends as the last `n` lines of the file, for every content and `n` including 0, and never holds more than `n`. |
| Tail.ReadNew | skyperf-core/src/tail.rs:95-108 | One poll reads exactly the completed lines behind the position and stops in front of the incomplete one. |
| Tail.Follow | skyperf-core/src/tail.rs:67-110 | The polling loop is the run of the follower over any sequence of looks: stop, file gone, cannot open, or a length and content. |
| Tail.StepCatchesUp | skyperf-core/src/tail.rs:80-108 | A look at a grown file leaves the follower having reported exactly the lines completed since it began, even if the file grows between its length and its content being read. |
| Tail.FollowReportsAppended | skyperf-core/src/tail.rs:64-110 | For every schedule of appends and looks, whether it goes on or ends by being told to stop, by the file going away or by a failed open, each completed appended line is reported once, in order: the lines a line splitter gives on the appended bytes. |
| Tail.RotationStartsOver | skyperf-core/src/tail.rs:82-86 | A file found shorter than the position is followed from its beginning over every run; its own lines come on top of what was reported. |
| Tail.ReplacedExactly | skyperf-core/src/tail.rs:82-108 | For every position and every replacement of a file, its lines are reported from the beginning if and only if it is shorter than the position, or nothing is skipped, or it has no complete line, or all that is skipped is the carriage return of an empty first line. |
| Tail.ReplacedRunExactly | skyperf-core/src/tail.rs:82-108 | The same for every run on a replacement that is not shorter, while it grows. |
| Tail.LongerReplacementLosesLines | skyperf-core/src/tail.rs:82-86 | The input: at position 2, of a replacement of two lines only the second is reported. |
| Tail.TailThenFollow | skyperf-core/src/tail.rs:22-110 | For every run of the follower on a growing file, what is tailed and what is followed are together the lines of the content last read if and only if the file ended in a newline where following began. |
| Tail.SplitLineIsReportedTwice | skyperf-core/src/tail.rs:67-68 | The counterexample, as a run: a file caught inside a line has it shown in two pieces. |
| Tail.TailThenFollowWindow | skyperf-core/src/tail.rs:22-110 | For every run, the windows of all sizes followed by the followed lines are the file's lines from a fixed one on, if and only if the file ended in a newline where following began. |
| Signing.CanonicalRoundTrip | protocol/src/sign.rs:13-19 | The canonical string can be read back: it determines kind, timestamp, nonce and payload hash for every i64 timestamp and every nonce, if the kind has no dot. |
| Signing.CanonicalInjective | protocol/src/sign.rs:13-19 | Equal canonical strings mean equal signed fields. |
| Signing.EnvelopeKindsHaveNoDot | protocol/src/payloads.rs:5-11 | The condition holds of every envelope kind. |
| Signing.PrintNatIsDecimal | protocol/src/sign.rs:18 | A timestamp is printed in decimal digits of its value, without leading zeros. |
| Signing.PrintIntIsDecimal | protocol/src/sign.rs:18 | A sign stands in front of negative timestamps, and of no others. |
| Signing.HexEncodeIs | protocol/src/sign.rs:17 | Every byte of a hash is written as its two characters of "0123456789abcdef". |
| Signing.DottedKindIsAmbiguous | protocol/src/sign.rs:18 | Without it two different field tuples share a string. |
| Signing.CanonicalDeterminesExactly | protocol/src/sign.rs:13-19 | For a kind without a dot, the canonical string belongs to no other field tuple, of whatever kind, if and only if no piece of the nonce in front of a dot is a printed i64. |
| Signing.HexNonceIsHarmless | protocol/src/envelope.rs:85-89 | Every nonce the daemon draws meets that condition. |
| Signing.SignatureBinds | protocol/src/sign.rs:21-46 | An envelope that verifies under a genuine one's signature is that envelope in every field, unless one of the two hash functions collides on the pair; only the genuine kind and nonce are asked to be harmless. |
| Signing.DottedNonceForges | protocol/src/sign.rs:13-46 | Under any other nonce, for every such genuine envelope, one of another kind verifies with the same signature. |
| Signing.FreshExactly | protocol/src/envelope.rs:76-78 | With 64-bit wrap-around, a timestamp is fresh if and only if it is within 30 seconds or exactly 2^63 seconds old. |
| Signing.WrapExactly | protocol/src/envelope.rs:77 | The difference of two i64 values is the one i64 that differs from it by a multiple of 2^64. |
| Signing.VerifyExactly | protocol/src/envelope.rs:62-78 | An envelope verifies if and only if it is so fresh and its signature is the hex of the keyed hash of kind, timestamp, nonce and hex payload hash joined by dots. |
| Signing.WrappedTimestampPasses | protocol/src/envelope.rs:77 | The counterexample to the 30-second window, at any time of day. |
| Signing.SignedVerifies | protocol/src/envelope.rs:36-74 | An envelope made with a secret verifies with it exactly from 30 seconds before to 30 seconds after it was made. |
| NonceCache.Cache.CheckAndRecord | daemon/src/agent/nonce_cache.rs:28-38 | Sweep, test and insertion on the map in place are one step of the cache function. |
| NonceCache.CheckKeepsLog | daemon/src/agent/nonce_cache.rs:28-38 | One call decides as the full log of acceptances would, and the swept map goes on covering that log. |
| NonceCache.CacheRefinesLog | daemon/src/agent/nonce_cache.rs:24-38 | For every call sequence at non-decreasing times, the swept cache accepts exactly what the unbounded log would, and holds exactly the nonces accepted less than `ttl` ago. |
| Agent.RunConserves | daemon/src/agent/session.rs:84-119 | At every point of every run and interleaving, dispatched command ids are the running ones plus those completed, and completed acks are sent, then in flight, then queued, in completion order. |
| Agent.ReceivedExactly | daemon/src/agent/session.rs:109-173 | What each message does to an idle session: the end of the stream, a close frame and an envelope that fails a check end it, what is no envelope is dropped, and an envelope that passes is noted and, exactly if its kind is "command" and its payload decodes, that command runs. |
| Agent.FinishedExactly | daemon/src/agent/session.rs:165-171 | A task that finishes is acknowledged under its command's id with its own outcome, error and result, behind the acks already waiting. |
| Agent.AcksAreSent | daemon/src/agent/session.rs:104-108 | After every run with an idle session, taking acks and sending them puts them on the wire in order. |
| Agent.TickSendsHeartbeat | daemon/src/agent/session.rs:95-98 | A tick of the timer puts a heartbeat on the wire. |
| Agent.FinishTaskConserves | daemon/src/agent/session.rs:165-172 | Whichever task finishes, its command moves to exactly one ack at the end of the queue. |
| Agent.HelloComesFirst | daemon/src/agent/session.rs:72-79 | In every session the hello is sent before anything else, and once. |
| Agent.RunConservesEvents | daemon/src/agent/client.rs:19-61 | Over any connects, failures and reconnects, emitted events are those handled, in flight and queued in order of emission; all handled ones were sent once, except one per session that ended on a failed event send. |
| Agent.EventsAreSent | daemon/src/agent/session.rs:99-103 | After every run with an idle session, taking events and sending them delivers the queue in order. |
| Agent.FinishSendConservesEvents | daemon/src/agent/session.rs:99-103 | A finished send delivers its event, a failed one loses exactly that event with the session. |
| Agent.BackoffDoubles | daemon/src/agent/client.rs:30-60 | After `k` failed dials the delay is the smaller of 2^k and 30 seconds, and a connection resets it. |
| Agent.RunIsSteady | daemon/src/agent/client.rs:30-61 | In every run the delay lies between 1 and 30 seconds and is back at 1 while connected, a live session is neither waiting nor stopped, and the client stops only if it was cancelled. |
| Agent.DialIsUndisturbed | daemon/src/agent/client.rs:33-53 | A dial under way is ended by its own outcome and by nothing else. |
| Agent.CancelledOpensNoSession | daemon/src/agent/client.rs:32-61 | The token stays cancelled whenever it is fired: in every continuation no session is opened any more, but for a dial that was under way. |
| Agent.CancelIsNoticed | daemon/src/agent/client.rs:55-60 | Cancelling ends an idle session and the wait between two, and then nothing is dialled. |
| Replay.FreshTwiceIsRecent | daemon/src/agent/session.rs:21-25 | Two readings at which one timestamp is fresh lie within the cache's lifetime on the monotonic clock, with whole-second rounding and a drift of up to 59 seconds. |
| Replay.NoEnvelopeActsTwice | daemon/src/agent/session.rs:127-173 | In every run no envelope passes both checks twice in a session, and the commands dispatched are, in order, the decoded payloads of exactly the accepted envelopes of kind "command" that decode. |
| Replay.PassesExactly | daemon/src/agent/session.rs:140-148 | At every point of every run, however the wall clock moves, an envelope is let through if and only if it verifies and its nonce was not accepted in the session in the last 120 seconds: no replay passes and no genuine message is refused. |
| Replay.ReplayEndsSession | daemon/src/agent/session.rs:146-148 | A replayed envelope ends the session as rejected and changes nothing else. |
| Replay.ReplaySafetyExactly | daemon/src/agent/session.rs:21-25 | Replay safety of sessions holds for all runs under a clock drift if and only if the drift is at most 59 seconds; one nanosecond beyond it a run is given that accepts one envelope twice. |
| Replay.EarlierPassesAgainExactly | daemon/src/agent/session.rs:42-55 | An envelope accepted in an earlier session passes again if and only if it is still fresh and its nonce was not accepted in the present session in the last 120 seconds. |
| Replay.ReplayAcrossSessionsExactly | daemon/src/agent/client.rs:38-43 | Over all sessions of a run no envelope is accepted twice if and only if none arrives that verifies, was accepted in an earlier session and is new to the present one. |
| Replay.AcceptedAgainAfterReconnect | daemon/src/agent/client.rs:38-43 | For every envelope that verifies, the run that accepts it and dispatches its command once more after a reconnect, with both clocks standing still. |
| Client.Client.HandleIncoming | daemon/src/agent/session.rs:127-173 | The inline checks on the live cache object, with their early exits, are the machine's receive step: malformed dropped, unverified or replayed fatal, undecodable skipped. |
| Client.Drive | daemon/src/agent/client.rs:22-62 | A fresh client object driven through any events ends in the machine's state, and of the object holds: commands, acks and events are conserved, the hello comes first, sessions are free of replays if the clocks agree up to 59 seconds, and the client's whole life is if and only if no accepted envelope comes again after a reconnect. |
| FakeRuntime.Runtime.Create | daemon/src/runtime/fake.rs:70-82 | Adds one stopped container with the given labels and changes no other. |
| FakeRuntime.Runtime.SetRunning | daemon/src/runtime/fake.rs:101-121 | Start, stop and kill flip one existing container and fail, changing nothing, on an unknown one. |
| FakeRuntime.Runtime.Remove | daemon/src/runtime/fake.rs:123-130 | Removes exactly the named container or fails. |
| Dispatcher.InvKeptExactly | daemon/src/agent/dispatcher.rs:105-158 | Tracking stays injective and names only existing containers under a command if and only if it is not a start or removal aimed by explicit id at another server's container. |
| Dispatcher.TrackingStaysSound | daemon/src/agent/dispatcher.rs:422-443 | All through a serial run, explicit container ids included, every tracked server has its own, existing container if and only if no command of the run is such a one when it comes. |
| Dispatcher.HandleRefines | daemon/src/agent/dispatcher.rs:105-158 | Through tracking map and runtime, one command is one step of a two-state machine per server, with the same success, if and only if it names no container, or its server's own, or one of a few others that make no difference. |
| Dispatcher.RunRefinesExactly | daemon/src/agent/dispatcher.rs:105-158 | The composed system and that machine agree all through a serial run from an empty start, in state and in acknowledgements, if and only if every command is such a one when it comes. |
| Dispatcher.AckedExactly | daemon/src/agent/dispatcher.rs:88-103 | In such a run a lifecycle command is acknowledged as done exactly when the machine says so. |
| Dispatcher.TrackedExactly | daemon/src/agent/dispatcher.rs:422-443 | In such a run a server is tracked if and only if its last successful lifecycle command was not a removal, and its container runs if and only if that was a start. |
| Dispatcher.RunTells | daemon/src/agent/dispatcher.rs:126-158 | In every serial run, whatever containers its commands name, tracking and containers are what the commands alone say: a server is backed by the container its last successful create or start was about unless removed since, and a container exists and runs as the last successful command about it, for any server, left it. |
| Dispatcher.AckedInEveryRun | daemon/src/agent/dispatcher.rs:88-103 | After every serial run whatsoever, a lifecycle command is acknowledged as done if and only if it is a create with a spec, or the container it names, or else the one that backs its server, exists by the commands before; only actions that read something answer with data. |
| Dispatcher.HeartbeatExactly | daemon/src/agent/dispatcher.rs:473-513 | After every serial run that agrees with the machine, a heartbeat reports each tracked server exactly once, running if and only if its last successful command was a start, and nobody else. |
| Dispatcher.HeartbeatInEveryRun | daemon/src/agent/dispatcher.rs:473-513 | After every serial run whatsoever, a server is reported if and only if its backing container still exists, and as running if and only if the last successful command about that container was a start. |
| Answers.LiveExactly | daemon/src/agent/dispatcher.rs:541-577 | In every serial run a server has a live console if and only if its last successful start that attached one was followed neither by its removal nor by the end of the stream. |
| Answers.AckExactly | daemon/src/agent/dispatcher.rs:88-177 | After every serial run every command, of whatever kind, gets the acknowledgement its commands alone imply: console input is done exactly with an input, a live console and a write that works, a pull exactly with an image and a pull that works, a lifecycle command exactly on a container that exists; each failure has its own text. |
| Answers.EventsExactly | daemon/src/agent/dispatcher.rs:113-151 | The events of every serial run, all of them and in order: the state a successful start, stop or kill brings about, and the lines around a pull. |
| Answers.Serve | daemon/src/agent/dispatcher.rs:88-158 | The object driven through any serial run acknowledges every command so, emits exactly those events, ends in the run's state, reports exactly the servers whose backing container exists, and its tracking is sound if no command clashed. |
| Dispatcher.Dispatcher.Heartbeat | daemon/src/agent/dispatcher.rs:476-513 | Over the map in any order: one beat per tracked container that answers, none twice, with the runtime's figures for running ones and zeros for others. |
| Dispatcher.StateEventsTell | daemon/src/agent/dispatcher.rs:515-521 | In every serial run the last state announced for a server is the one its last successful start, stop or kill brought about. |
| Dispatcher.ConsolesCurrentExactly | daemon/src/agent/dispatcher.rs:535-560 | Live consoles stay attached to the containers of their servers under a command if and only if it does not create a server anew under its console or start it on another existing container named explicitly. |
| Dispatcher.ConsolesStayCurrentExactly | daemon/src/agent/dispatcher.rs:535-560 | They are so all through a serial run, in which no identifier is drawn twice, if and only if no command of it does that when it comes. |
| Dispatcher.ConsoleLeftBehind | daemon/src/agent/dispatcher.rs:107-139 | The run that fails: create, start, create leaves the console on the first container while the second is tracked. |
| Dispatcher.Dispatcher.Handle | daemon/src/agent/dispatcher.rs:88-177 | Every command, failing or not, yields the ack for it and exactly the specified change of containers, tracking, consoles and events. |
| Dispatcher.Dispatcher.Lifecycle | daemon/src/agent/dispatcher.rs:126-158 | Container lookup, runtime call and bookkeeping in the order of the code; a failing runtime call leaves everything as it was. |
| Dispatcher.Dispatcher.StartConsoleStream | daemon/src/agent/dispatcher.rs:541-560 | Attaches only where no console is, never replaces one, and leaves things as they are when attaching fails. |
| Dispatcher.Dispatcher.Reconcile | daemon/src/agent/dispatcher.rs:405-420 | The insertion loop, or nothing when the runtime cannot list. |
| Recovery.LabelsRecover | daemon/src/agent/dispatcher.rs:399-420 | If labels tell what was tracked, every listing order rebuilds the same map. |
| Recovery.RestartRecoversExactly | daemon/src/agent/dispatcher.rs:399-420 | A restart recovers the tracking map for every listing order if and only if every tracked container carries its server's label and every labelled container is the tracked one. |
| Recovery.LabelsKeptExactly | daemon/src/agent/dispatcher.rs:105-158 | Exactly which commands keep the labels telling what is tracked: creates that label a server not yet tracked, starts of a server on its own container, removals of a server with its own container or of an unlabelled one for no server, and whatever touches neither. |
| Recovery.RunRecoversExactly | daemon/src/agent/dispatcher.rs:399-420 | At whatever point of a serial run the daemon is restarted, every listing order recovers what it tracked, if and only if every command of the run is such a one when it comes. |
| Recovery.RecreatedServerMayBeLost | daemon/src/agent/dispatcher.rs:405-420 | A run without the last condition, and a listing of its containers that recovers another map. |
| Managed.IdFromNamesExactly | daemon/src/runtime/docker.rs:333-338 | The name fallback is decided by the first name that qualifies. |
| Managed.NameRoundTrip | daemon/src/runtime/docker.rs:333-338 | Behind any leading slashes, "sky-" and a text yield that text if and only if it has the shape of a server id. |
| Managed.ServerIdShapeExactly | daemon/src/runtime/docker.rs:314-322 | A text has the shape of a server id if and only if it is five groups of 8, 4, 4, 4 and 12 characters out of "0123456789abcdefABCDEF" joined by hyphens. |
| Managed.IdFromNameExactly | daemon/src/runtime/docker.rs:333-338 | A name yields an id if and only if it is slashes, "sky-" and that id, of that shape. |
| Managed.ServerIdExactly | daemon/src/runtime/docker.rs:327-339 | A container belongs to a server if and only if that is its "sky-panel.server_id" label, or else, the label being absent or empty, the id of its first such name. |
| Managed.SkyPanelIsForeign | daemon/src/runtime/docker.rs:310-322 | A container named "/sky-panel" belongs to nobody. |
| Managed.CaseIsIgnored | daemon/src/runtime/docker.rs:310-322 | Whether a text has that shape does not depend on the case of its letters. |
| Managed.UpperCaseIdIsAccepted | daemon/src/runtime/docker.rs:310-339 | An upper-case id that is accepted. |
| Managed.ListedAgrees | daemon/src/runtime/docker.rs:619-643 | The extraction written inside the listing is the shared rule. |
| Managed.ReconciledExactly | daemon/src/agent/dispatcher.rs:405-420 | Existing entries never change, and every other server is tracked exactly when found, at the first container found for it. |
| Managed.ReconcileTracksExactly | daemon/src/runtime/docker.rs:594-645 | Reconciling an empty map with a container list tracks exactly the server ids listed containers carry, each at the first such container. |
| ConsoleInput.StepKeepsOrder | daemon/src/agent/dispatcher.rs:173-176 | Under any step of any command, stdin stays one contiguous piece per turn at the lock. |
| ConsoleInput.RunKeepsOrder | daemon/src/agent/dispatcher.rs:159-177 | For every interleaving, with partial and failing writes, stdin is the turns' pieces in lock order, each a prefix of its command's block, and no command has two turns. |
| ConsoleInput.WholeLinesInLockOrder | daemon/src/agent/dispatcher.rs:159-177 | With successful writes, stdin is a concatenation of whole inputs, each with a byte 10 behind it, although each takes several writes. |
| ConsoleInput.EverybodyIsServed | daemon/src/agent/dispatcher.rs:173-176 | In whatever order commands come to the lock, each is served, and stdin has their inputs in that order, each with a byte 10 behind it. |
| ConsoleInput.FailureFreesLock | daemon/src/agent/dispatcher.rs:173-176 | In every run, a write that fails leaves what it wrote and frees the lock: anyone waiting can then be served whole. |
| Provision.RemoveByName | daemon/src/runtime/docker.rs:161-172 | Removal by name or id succeeds exactly on an answer of 204 or 404, and removes only what is so addressed, whatever is answered. |
| Provision.CreateContainer | daemon/src/runtime/docker.rs:122-159 | Whatever the engine answers and whatever it does: it goes on exactly after a first 404, with a pull, and a first 409 to a name, with a removal, and succeeds exactly with a 201; no container is touched but what the wanted name addresses and new ones. If the engine works, the container is created whichever obstacles it meets in whichever order, if and only if a taken name is not also the id of another container, which otherwise is removed. |
| Provision.NameHitsAnother | daemon/src/runtime/docker.rs:149-152 | The input: a container named like another one's id. |
| Provision.EligibleExactly | daemon/src/runtime/docker.rs:260-279 | The test of the pass, written out: a port of a wanted number is published, names and labels make the container the daemon's, and it is the same server's or its state does not read "running". |
| Provision.RemoveConflicts | daemon/src/runtime/docker.rs:257-282 | Over any listing, current or stale, and any mixture of removals that work, fail or are misreported: removed are exactly the listed non-targets that pass this test and whose removal is carried out. |
| Provision.CondemnedIsVictim | daemon/src/runtime/docker.rs:257-279 | On a faithful listing in any order, what the pass condemns is what the engine's own containers say may be removed: a published port number equal to one the target asks for, the daemon's own, the same server's or not running. |
| Provision.FreeConflictingPorts | daemon/src/runtime/docker.rs:217-283 | Lost are exactly such containers, and none when inspecting or listing fails. |
| Provision.HealedExactly | daemon/src/runtime/docker.rs:217-224 | With those gone, the ports are free if and only if nothing in the way was foreign or a running other server and no removal of anything in the way failed. |
| Provision.SaysConflictExactly | daemon/src/runtime/docker.rs:660-662 | The healing is set off exactly by a 500 whose message mentions "port is already allocated" or "address already in use". |
| Docker.IsRunningExactly | daemon/src/runtime/docker.rs:277 | A state counts as running exactly if it reads "running" in letters of either case. |
| Provision.NeedlessExactly | daemon/src/runtime/docker.rs:236-241 | A container is removed without being in the way if and only if it shares port numbers with the target only under other protocols. |
| Provision.OtherProtocolIsRemoved | daemon/src/runtime/docker.rs:202-208 | The input: a stopped server's container on 53/udp, and a start on 53/tcp. |
| Provision.Start | daemon/src/runtime/docker.rs:647-674 | Whatever the engine answers and does: success is a 204 or 304 to the first POST, or to the second after such a conflict; containers are lost if and only if a conflict was reported, they share a port number and are the daemon's to remove, and their removals were carried out. Where the engine answers the start, it succeeds if and only if the container exists and runs already or nothing in the way was foreign, a running other server or left by a failed removal. |
| ImageRef.SplitJoined | daemon/src/runtime/docker.rs:286-304 | Joining any name and plain tag is undone by splitting, registry ports included, unless the last segment is a digest. |
| ImageRef.SplitMeans | daemon/src/runtime/docker.rs:286-304 | A digest has no tag; otherwise the tag is plain and the reference was name, colon and tag, or the name alone with "latest". |
| ImageRef.TaggedImage | daemon/src/runtime/docker.rs:290-304 | "a:1" is the name "a" with the tag "1". |
| ImageRef.RegistryPortIsNoTag | daemon/src/runtime/docker.rs:287-288 | "r:5/a" has no tag but "latest". |
| ImageRef.DigestHasNoTag | daemon/src/runtime/docker.rs:288-289 | "a@s:1" has none at all. |
| ImageRef.SplitRejoined | daemon/src/runtime/docker.rs:290-304 | Every pair with a tag, written out, splits into itself. |
| ImageRef.EncodeQuery | daemon/src/runtime/docker.rs:341-352 | The loop computes the encoding, which decoding inverts. |
| ImageRef.DecodeEncoded | daemon/src/runtime/docker.rs:341-352 | Percent-decoding (section 2.1 of RFC 3986) undoes the encoding of every byte string. |
| ImageRef.EncodedIsSafe | daemon/src/runtime/docker.rs:306-352 | No byte that ends or splits a query is ever emitted. |
| ImageRef.LiteralExactly | daemon/src/runtime/docker.rs:345-347 | The bytes let through are exactly the ASCII letters and digits and "-_.~/:". |
| ImageRef.EscapeExactly | daemon/src/runtime/docker.rs:348 | Every other byte becomes a percent sign and its two upper-case hex digits. |
| ImageRef.PullPath | daemon/src/runtime/docker.rs:103-108 | The path built for an image carries its encoded name and, unless empty, its tag. |
| ImageRef.PathIs | daemon/src/runtime/docker.rs:105-108 | The path in letters. |
| ImageRef.PullPathRoundTrip | daemon/src/runtime/docker.rs:103-108 | For every image reference the engine reads back exactly the name and tag. |
| Database.EscapeIsPerCharacter | daemon/src/db.rs:116-118 | Two successive replacements are one pass over the characters. |
| Database.LiteralRoundTrip | daemon/src/db.rs:116-118 | For every string the quoted literal reads back as that string and ends at its own closing quote. |
| Database.CreateUserRoundTrip | daemon/src/db.rs:43-62 | For every accepted user name and every password the server reads exactly that user and password and nothing after. |
| Database.CreateUserIs | daemon/src/db.rs:57-59 | The statement in letters, for every user and password. |
| Database.EscapesAre | daemon/src/db.rs:116-118 | The two escapes in letters. |
| Database.ValidIdentExactly | daemon/src/db.rs:106-114 | An identifier is accepted if and only if it is 1 to `max` ASCII letters, digits and underscores. |
| Database.IdentStaysQuoted | daemon/src/db.rs:103-105 | No accepted identifier can end the quotes or backquotes it is put between. |
| Database.Server.CreateDatabase | daemon/src/db.rs:43-84 | For every mixture of statements that work, fail or go unanswered: when it succeeds, what then is there and whether a new user is scoped to the database; no effect on bad identifiers; after a failure exactly what is left of databases, users and grants, when that is what was there before, and when a new database stays behind. |
| Database.CompensationRestoresExactly | daemon/src/db.rs:53-80 | The compensation, each drop working or not, restores the former databases, users and grants if and only if what a working drop hits was not there before and what a refused one leaves was. |
| Database.PreexistingDatabaseIsDropped | daemon/src/db.rs:72-80 | A database and user in use are gone, with the user's grants, after a grant that fails. |
| Database.NewUserScopedExactly | daemon/src/db.rs:41-67 | A new user may use exactly the one database if and only if its name has no underscore. |
| Database.UnderscoreReachesOther | daemon/src/db.rs:63-65 | The input: a valid name whose grant reaches another database. |
| Paths.JoinComponents | daemon/src/agent/dispatcher.rs:470 | The components of a joined path are those of the base and those of the relative part, a leading dot dropped. |
| Paths.ResolveIsContained | daemon/src/agent/dispatcher.rs:453-471 | Every accepted relative path leads to the server's directory or below it, under every root. |
| Paths.AcceptedExactly | daemon/src/agent/dispatcher.rs:453-471 | A path is accepted if and only if it does not begin with a slash and has no ".." between slashes. |
| Paths.ServerIdConfinesExactly | daemon/src/agent/dispatcher.rs:460-471 | For every root and server id, all accepted paths stay in the root's directory of that name if and only if the id is one directory name: without a slash, not empty, not a dot nor two dots. |
| Paths.AbsoluteServerReplacesRoot | daemon/src/agent/dispatcher.rs:470 | An absolute id leads to its own place and below, whatever the root is. |
| Paths.RootConfinesExactly | daemon/src/agent/dispatcher.rs:460-471 | For every root and server id, all accepted paths stay below the root if and only if the server's directory does. |
| Paths.EveryRootConfinesExactly | daemon/src/agent/dispatcher.rs:460-471 | Whatever the root is, all accepted paths stay below it if and only if the server id is relative and never has more parents than names on the way. |
| Paths.ChecksAgree | skyperf-core/src/backup.rs:66-80 | The file manager's and the restore's checks accept the same paths, except the empty one. |
| Paths.BackupIsOneLevelDown | daemon/src/agent/dispatcher.rs:379-389 | An accepted backup name passes both checks and names something exactly one level below the server's backup directory. |
| Paths.BackupNameExactly | daemon/src/agent/dispatcher.rs:382-389 | A backup name is accepted if and only if it is a directory name followed by any run of "/" and "/." pieces. |
| Paths.TrailingSlashIsAccepted | daemon/src/agent/dispatcher.rs:382-389 | A name with separators that is accepted. |
| Paths.RestoreBackup | skyperf-core/src/backup.rs:40-64 | It succeeds exactly if every safe entry unpacks; written are the places of exactly the safe entries, in order, all of them or those in front of the first that fails, and every one at or below the destination. |

## Left out

- Text decoding: lines and payloads are bytes; lossy UTF-8 conversion of console lines and UTF-8 errors of the tailer are per-line matters behind them.
- WebSocket, HTTP header and JSON handling: foreign code; texts arrive as envelopes or not at all, responses as status and body.
- SHA-256, HMAC and randomness: function parameters and fresh identifiers.
- Attaching a console: the search for the end of the response headers in front of the pump.
- File-manager, backup-listing and database actions of the dispatcher: they touch neither tracking nor consoles and appear as one action with an arbitrary outcome; archives, directory sizes and file transfers are library work.
- Overlapping commands for one server: the dispatcher's statements are for serial runs, because the code awaits between the runtime call and its bookkeeping.
- Container stats parsing, configuration and firewall rules: each is a few lines of arithmetic or a call of another program, with no state of its own and nothing to say beyond the formula.
- Docker engine: id prefixes as addresses, a start addressed by name, and other clients of the engine acting between two requests.
- Reading a chunk size: 64-bit sizes only.
- Dispatcher.Dispatcher.Handle: does not model what attached consoles print or what is written to a console, only which console is attached to which container; the data an acknowledgement carries is arbitrary text.
- Agent.CancelledOpensNoSession: a token cancelled before the client starts is not modelled; the first dial is then not made.
- Agent.RunConservesEvents: the dispatcher's own event channel is unbounded and never closed while the agent runs.
