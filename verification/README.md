# stream-rag-agent window lifecycle, in Dafny

This project models the window-lifecycle core of stream-rag-agent, a Go service.
The service reads Kafka messages and groups them per topic partition into
windows. It closes a window on a time limit, a message-count threshold or an
explicit flush. It hands each closed window to a processor, which summarises,
embeds and stores it. The project also models how the HTTP API builds the
retrieval-augmented prompt from stored windows.

Modules:

- `Wrappers` holds `Option`.
- `Format` models Go's `%d` and `_`-joined identifiers, with their round trips.
- `WindowTypes` models the `Window` record, `NewWindow` and `Window.AddMessage`.
- `ContextText` models `ToContextString`, the digest of a window.
- `RagPrompt` models `buildRAGPrompt`.
- `WindowManager` models the manager as a state machine. Each region the Go code
  runs under `m.mu` is one transition function, and wall-clock time is the `now`
  argument in Unix nanoseconds.
  - Window instances live in a heap `instances: map<Ref, Window>`, because
    flusher goroutines keep hold of windows that the registry has let go of.
  - `registry` maps `topic_partition` to the registered instance.
  - `flushers` are the running `timeBasedFlusher` goroutines.
  - `handOffs` are closed windows whose processing goroutine has not yet run
    its replacement step.
  - `processed` lists the windows handed to the processor, in hand-off order:
    a window is recorded when `closeWindow` starts its processing goroutine,
    and the `ProcessWindow` calls themselves run concurrently, in no fixed order.
  - `flushQueued` is the one-slot flush channel.
  - `closeWindow` is split in two: `CloseWindow` is the synchronous half, and
    `Replace` is the part after the processor returns, which runs later as its
    own event.
- `ManagerInvariants` holds two invariants and their preservation proofs:
  - `Inv` holds on every run;
  - `Shape` is the registry shape, when `Start` runs once per partition.
- `Scenarios` holds runs of one partition from a fresh manager.
- `Rotation` is the corrected manager for the finding below: the closed window
  is replaced in the same critical section.

Three points about the code that the model makes explicit:

- `closeWindow` leaves the closed window registered until `ProcessWindow` has
  returned. Only then does the processing goroutine delete it and register a
  fresh window (`manager.go:107-119`). This is the finding below.
- Every caller of `closeWindow` holds `m.mu`, so its "already closed" check and
  the setting of `IsClosed` happen atomically. `ManagerInvariants.HandedOffAtMostOnce`
  proves that no window is handed over twice.
- A window created lazily by `AddMessage` starts at the message's timestamp, not
  at the current time. `Start` and the replacement step use the current time.

## Model

| member | source | states |
|---|---|---|
| Format.IntToStringRoundTrip | internal/window/types.go:34 | the `%d` rendering of an integer parses back to the same integer |
| Format.IntToStringInjective | internal/window/types.go:34 | two integers have the same `%d` rendering exactly when they are equal |
| Format.JoinSplitRoundTrip | internal/window/types.go:34 | splitting `a_b` at its last underscore gives back `a` and `b` when `b` has no underscore |
| Format.JoinInjective | internal/window/manager.go:54 | `a_b` determines `a` and `b` when `b` has no underscore |
| WindowTypes.WindowIdInjective | internal/window/types.go:34 | window IDs coincide exactly when topic, partition and start nanosecond coincide |
| WindowTypes.NewWindow | internal/window/types.go:32-43 | the new window is open and empty with a zero counter and no end time, and its ID splits back into `topic_partition` and the start time |
| WindowTypes.AddMessage | internal/window/types.go:45-49 | the message is appended after the existing ones, the counter grows by one, the end time becomes the message's time, and the closed flag and identity are untouched |
| WindowTypes.AddAllAppends | internal/window/types.go:45-49 | appending a sequence one message at a time yields exactly that sequence after the old messages, with the counter advanced by its length |
| WindowTypes.CountTracksMessages | internal/window/types.go:32-49 | from `NewWindow` on, the counter equals the number of buffered messages |
| WindowTypes.EndTimeFollowsLastMessage | internal/window/types.go:48 | the end time follows the last appended message, even when that one is older than an earlier one |
| ContextText.BytesToStringRoundTrip | internal/window/types.go:73 | `string(bytes)` loses nothing: reading each character back as the byte with its code gives the payload unchanged |
| ContextText.BytesToStringInjective | internal/window/types.go:73 | two payloads are printed the same exactly when they are equal |
| ContextText.RawFallbackIffUndecodable | internal/window/types.go:70-81 | a message is shown raw exactly when its payload does not decode as JSON, and then its line carries the offset and the payload verbatim |
| ContextText.Summarize | internal/window/types.go:51-89 | an empty window gives the one-line notice; otherwise the digest opens with topic and context, renders the first `min(10, count)` messages in order, and has a truncation notice exactly when more than 10 messages were counted |
| ContextText.LaterMessagesNotRendered | internal/window/types.go:63-68 | messages after the tenth do not affect the digest |
| ContextText.RenderDigest | internal/window/types.go:56-88 | the text of a non-empty digest is the header, then the rendered entries, then the truncation notice if any |
| ContextText.RenderEntries | internal/window/types.go:63-82 | the summarising loop renders exactly the first `min(10, count)` messages, in order |
| ContextText.ToContextString | internal/window/types.go:51-89 | the builder loop produces the reference digest, and the error result is always nil |
| RagPrompt.Prompt | internal/api/server.go:123-146 | the prompt opens with the fixed instructions and data header, ends with the separator and the question line, and says that no data was found when nothing was retrieved |
| RagPrompt.SectionInPlace | internal/api/server.go:134-138 | each window's block sits whole between the blocks before it and after it |
| RagPrompt.QuestionRecoverable | internal/api/server.go:141-143 | for fixed windows, two prompts are equal exactly when the questions are |
| RagPrompt.BuildRAGPrompt | internal/api/server.go:123-146 | the string-builder loop produces the reference prompt |
| WindowManager.RegistryKeyInjective | internal/window/manager.go:54 | registry keys coincide exactly when topic and partition coincide |
| WindowManager.NewManager | internal/window/manager.go:24-31 | a new manager has no windows, no flushers, no hand-offs and an empty flush channel |
| WindowManager.Install | internal/window/manager.go:58-60 | a fresh instance is created, registered under its key and given a flusher; nothing else changes |
| WindowManager.Start | internal/window/manager.go:33-46 | the partition's key gets a fresh, open, empty window started now; exactly one flusher is added, for that window, and every running flusher is kept; every other key and instance, the hand-offs, the processor's record, the flush channel and the configuration are kept |
| WindowManager.CloseWindow | internal/window/manager.go:100-106 | a closed window is left alone; an open one is closed with its end time pinned to now and handed to the processor once; the registry is untouched |
| WindowManager.AddMessage | internal/window/manager.go:50-70 | the message goes to the window registered for its key, created if missing and started at the message's time; it is appended even to a closed window; reaching the threshold closes the window; other windows are unchanged |
| WindowManager.WindowFor | internal/window/manager.go:54-61 | a key that has a window leaves the manager unchanged; otherwise a fresh, open, empty window started at the message's time is registered under the key with its own flusher, and every existing window is kept |
| WindowManager.Append | internal/window/manager.go:63 | the chosen window gains the message as its last one, its counter grows by one and its end time becomes the message's time; its identity and closed flag, every other window, the registry, the hand-offs and the flushers are unchanged |
| WindowManager.Tick | internal/window/manager.go:79-87 | a tick closes the window and ends its flusher exactly when the window is open and the duration has elapsed since its start; the closed window differs from before only in its closed flag and in its end time, which is now; otherwise nothing changes; the registry, the flush channel and the configuration are never touched |
| WindowManager.Flush | internal/window/manager.go:88-95 | a flusher that takes the flush signal empties the channel and ends; an open window is closed with its end time set to now and handed over once, while a closed one is left exactly as it was, with no new hand-off; the registry and the configuration are untouched |
| WindowManager.Replace | internal/window/manager.go:107-120 | after processing, the key of the closed window gets a fresh, open, empty window started now with its own flusher; other keys and all old instances are kept |
| WindowManager.Retire | internal/window/manager.go:115-116 | the key of the handed-off window leaves the registry, every other key keeps its window, the hand-off is no longer outstanding, and nothing else changes |
| WindowManager.FlushAllWindows | internal/window/manager.go:123-135 | the flush channel becomes full exactly when it was full already or some registered window is open; nothing else changes |
| WindowManager.Step | internal/window/manager.go:73-98 | an event can occur exactly when it is enabled: a tick needs a running flusher, a flush also a queued signal, and a replacement an outstanding hand-off; no event changes the configuration |
| ManagerInvariants.NewManagerInv | internal/window/manager.go:24-31 | a new manager satisfies the safety invariant |
| ManagerInvariants.InstallInv | internal/window/manager.go:58-60 | installing a window keeps the safety invariant |
| ManagerInvariants.CloseWindowInv | internal/window/manager.go:100-106 | closing keeps "closed exactly when handed over, never twice" |
| ManagerInvariants.AddMessageInv | internal/window/manager.go:50-70 | ingestion keeps the safety invariant |
| ManagerInvariants.TickInv | internal/window/manager.go:79-87 | a tick keeps the safety invariant |
| ManagerInvariants.FlushInv | internal/window/manager.go:88-95 | a flush keeps the safety invariant |
| ManagerInvariants.ReplaceInv | internal/window/manager.go:107-120 | the replacement step keeps the safety invariant |
| ManagerInvariants.StepInv | internal/window/manager.go:73-98 | every enabled event keeps the safety invariant |
| ManagerInvariants.RunInv | internal/window/manager.go:100-121 | every run keeps the safety invariant |
| ManagerInvariants.HandedOffAtMostOnce | internal/window/manager.go:100-106 | on every run, no window reaches the processor twice, the windows handed over are exactly the closed ones, and every counter equals its message count |
| ManagerInvariants.StepMonotone | internal/window/manager.go:100-105 | no event removes an instance, reopens a window, drops a message, changes a window's identity or shrinks the processor's record |
| ManagerInvariants.IngestLandsInOneWindow | internal/window/manager.go:54-63 | an ingested message lands in exactly one window, and no other window's messages change |
| ManagerInvariants.InstallShape | internal/window/manager.go:58-60 | installing under a free key keeps the registry shape |
| ManagerInvariants.CloseWindowShape | internal/window/manager.go:100-106 | closing keeps the registry shape |
| ManagerInvariants.AddMessageShape | internal/window/manager.go:50-70 | ingestion keeps the registry shape |
| ManagerInvariants.TickShape | internal/window/manager.go:79-87 | a tick keeps the registry shape |
| ManagerInvariants.FlushShape | internal/window/manager.go:88-95 | a flush keeps the registry shape |
| ManagerInvariants.RetireShape | internal/window/manager.go:115-116 | the delete keeps the registry shape |
| ManagerInvariants.ReplaceShape | internal/window/manager.go:107-120 | the replacement keeps the registry shape |
| ManagerInvariants.StepShape | internal/window/manager.go:33-46 | every event keeps the registry shape when `Start` runs only for a partition without a window |
| ManagerInvariants.OneHandOffPerKey | internal/window/manager.go:107-119 | at most one replacement is outstanding per key |
| ManagerInvariants.LateMessageAppendsToClosedWindow | internal/window/manager.go:55-68 | while a closed window awaits replacement, a message for its key is appended to it and nothing new is handed over |
| ManagerInvariants.IngestRegistered | internal/window/manager.go:55-69 | a message for a key that has a window is appended to it, and that window is closed and handed over exactly when it was open and has now reached the threshold |
| ManagerInvariants.IngestFresh | internal/window/manager.go:56-63 | a message for a key without a window creates one under the next identity, started at the message's time and with a flusher, and becomes its first message |
| Scenarios.IngestWithoutReplacement | internal/window/manager.go:50-70 | with no replacement step, all messages of one partition go into the first window, which is handed over once, when it reaches the threshold |
| Scenarios.ThresholdOvershoot | internal/window/manager.go:63-68 | with threshold N, N+1 messages before the processor returns leave a closed window holding N+1 messages, recorded as handed over with N messages |
| Scenarios.TimerAfterThresholdIsNoOp | internal/window/manager.go:81 | a tick after a threshold close finds the window closed and changes nothing |
| Scenarios.StaleFlusherTakesFlushSignal | internal/window/manager.go:88-95 | the still-running flusher of a threshold-closed window can take the only flush signal, leaving the open successor unflushed |
| Scenarios.DurationClosesWindow | internal/window/manager.go:79-87 | without a threshold, a tick closes the window exactly when the duration has passed, and the replacement opens an empty window started at the replacement time |
| Rotation.Rotate | internal/window/manager.go:100-121 | corrected close: the window is closed and handed over, and its key gets a fresh window in the same step |
| Rotation.WindowForBounded | internal/window/manager.go:54-61 | in the corrected manager, the lookup always yields an open, registered window with room for a message |
| Rotation.AddMessageBounded | internal/window/manager.go:50-70 | corrected ingestion keeps every window within the threshold and every registered window open |
| Rotation.TickBounded | internal/window/manager.go:79-87 | a corrected tick keeps the bound |
| Rotation.FlushBounded | internal/window/manager.go:88-95 | a corrected flush keeps the bound |
| Rotation.StepBounded | internal/window/manager.go:73-98 | every corrected event keeps the bound |
| Rotation.RunBounded | internal/window/manager.go:100-121 | every corrected run keeps the bound |
| Rotation.NeverOverThreshold | internal/window/manager.go:66-68 | on every corrected run, no window holds more messages than the threshold, and every registered window is open |
| Rotation.ThresholdRotates | internal/window/manager.go:66-68 | in the corrected manager, the message that reaches the threshold closes the window with exactly N messages and leaves a fresh, empty window registered |
| Rotation.NextMessageOpensNewWindow | internal/window/manager.go:66-68 | in the corrected manager, after a threshold close the next message of the key is the only message of a new window |

## Left out

- Goroutines, the mutex and the ticker period are not modelled. Each locked region is one atomic transition, and a timer tick may happen at any time `now`.
- Go's direct hand-off of a channel value to a flusher already blocked in `select` is left out. One `FlushAllWindows` call is modelled as filling the single buffered slot at most once, so runs where one call reaches several flushers are not covered.
- JSON decoding (`json.Unmarshal` into a map) and RFC 3339 time formatting are function parameters. The decoder also fixes the order of the fields, which Go's map iteration leaves unspecified.
- The warning logged when a payload is not JSON, and every other `log.Printf`, are left out.
- `ProcessWindow` reads the shared window without holding `m.mu` (`manager.go:108`), while `AddMessage` goes on appending to it under the lock (`manager.go:63`). What the processor reads is therefore racy; the model records only the moment of hand-off, not what the processor sees.
- `ProcessWindow` is not modelled; its return is the `ProcessingDone` event. An error it returns is only logged and changes nothing, so the model does not carry it.
- Integer widths are not modelled: `int32` partitions, `int64` offsets and the `time.Duration` product `WindowDurationSeconds * time.Second`, which can overflow, are all unbounded integers.
- WindowManager.Start: a second `Start` for the same partition overwrites the registered window and leaves the old one open. `Inv` covers such runs; `Shape` and the `Rotation` invariant assume `Start` runs once per partition, as the agent's main program calls it.
- ContextText.ToContextString requires the counter not to run ahead of the buffered messages. Go would panic on an index out of range there, and `Inv` proves that this never happens in the manager.
- A Dafny `string` stands for the bytes of a Go string, one character per byte. This holds for topics, contexts, IDs and the question as well as for payloads. Multi-byte UTF-8 text is therefore seen byte by byte: the payload bytes C3 A9 ("é") print as the two characters `Ã©`, and no decoding or validation of UTF-8 is modelled.
- WindowManager.Tick: with `WindowDurationSeconds <= 0`, Go's `time.NewTicker` panics in every flusher goroutine (`manager.go:74`), which crashes the agent. The model does not model the panic; there the first tick simply closes an open window.
- The `Embedding` vector and `KafkaMessages` of a stored window are not read by the prompt, and are left out of `EmbeddedWindow`.
- The Kafka consumer, Elasticsearch store, embedding and LLM clients, HTTP handlers, configuration loading, the producer and the main programs are outside this model.

## Findings

| source | as written | input that shows it | evidently intended | confidence | as-written member | corrected member |
|---|---|---|---|---|---|---|
| internal/window/manager.go:100-121 | `closeWindow` keeps the closed window registered until `ProcessWindow` has returned, and `AddMessage` appends to whatever is registered, closed or not | threshold N > 0; N + 1 messages for one partition arrive before the processor returns | the closed window is replaced in the same critical section, so the (N+1)-th message opens a new window and no window exceeds N messages | not executed | Scenarios.ThresholdOvershoot | Rotation.NextMessageOpensNewWindow |
