# Verified models of MobaRust's stream, queue and layout engines

A Dafny model of the parts of MobaRust that keep state while bytes, events and promises interleave, with
proofs about all inputs, all runs and all interleavings. `dafny verify dfyconfig.toml` checks the project.

| area | modules |
|---|---|
| Telnet codec, connection buffers and two-party negotiation | `TelnetFraming`, `TelnetNegotiation`, `TelnetCodecs`, `TelnetReads`, `TelnetConnections`, `TelnetPeers` |
| UTF-8 output decoding and batching | `Utf8`, `Utf8Stream` |
| asynchronous queues of the desktop | `TerminalInput`, `FramebufferQueue`, `SshChallengeQueue`, `PointerQueue` |
| helper wire format | `HelperWire` |
| bounded port scan | `PortScan` |
| split-pane layout and jump hosts | `SplitLayout`, `JumpChain` |
| macro recording and session environment | `JsText`, `MacroRecording`, `SessionEnvironment` |

Objects that the source updates in place are classes, and their methods are proved against specification
functions. A queue of promises is a step machine: its `Step` type lists every callback and outside event, a run
is any sequence of possible steps, and every step that runs code of the class is shown to be a method of it.
Suspension points (`await`) are parameters, writes and reads apart: any number of bytes transferred, a dropped
future, a failure. What reaches the socket and what it delivers is read off those parameters alone.

Where the code does not meet the obvious claim, the code is modelled as it is and the exact condition is proved:

- **Telnet reads that trip the subnegotiation bound.** `read` returns the codec's error before it queues that
  read's output, although the option sets have changed already. A read takes at most 16384 bytes.
  `TelnetReads.NothingLostByReadsExactlyWhen`: a stream survives every way of reading it if and only if it does not
  trip the bound, or all its output comes before the last 16384 bytes up to the tripping one. `LostAgreement` is a
  read after which an enabled option is never acknowledged. For `feed`, which takes any number of bytes,
  `TelnetCodecs.NothingLostExactlyWhen` and, read off the messages, `MessagesSurviveExactlyWhen` are the exact
  conditions, and `ChunkIndependence` says what is lost.
- **Telnet reconnects whose announcement fails.** When the capabilities cannot be written after a reconnect, the
  error is returned, but the lifecycle is `Connected` already and `mark_failed` does nothing there.
  `TelnetConnections.TelnetConnection.Reconnect`: once there is a new socket the connection is connected whatever
  became of the announcement, which is whole if and only if the write succeeded.
- **SSH challenges with a repeated request id.** The pending map is keyed by request id.
  `SshChallengeQueue.RunIsExactExactlyWhen`: closes reach the challenge they name at every moment of a run if and
  only if every challenge arrives under an id that no live challenge of its handler has.
- **Pointer transitions.** `PointerQueue.TransitionsAreConservedExactlyWhen`: over a run the transitions sent, in
  flight or queued are all that arrived if and only if none arrives at a queue full of transitions, is taken for
  another session than the current one, is in flight or queued when a send fails, or is queued when the session
  changes; `TransitionsSurvive` says which one an arrival loses.
- **Layout changes by out-of-date callbacks.** `openSplit` and `closeTerminal` use the tabs and the layout of the
  render that made them. `SplitLayout.RunStaysTiledExactlyWhen`: exactly one open terminal is drawn over every point
  of the viewport, at every moment, if and only if every step lands: a split's terminals are still open and its
  second one is not shown yet, a close's render saw every other pane's tab, and a terminal switched to is still
  open. `StaleSplitShowsTwice` and `CloseThenSplitLeavesHole` are runs that do not; the latter is one key press that
  matches the shortcuts for closing and for splitting ("Mod" and "Ctrl" are the same key). Up-to-date callbacks
  always land (`ReachableLayoutsTile`).
- **Jump chains that meet an id twice.** `JumpChain.JumpChainsAreExact`, for every catalog: the search returns the
  plain flattening if and only if that is within the budget and no path down from the session meets an id twice.
  Unique ids are enough for that (`UniqueIdsRefuseOnlyCycles`); `SharedIdsAreTakenForACycle` is a chain that is
  refused without a cycle.
- **CRLF typed in two inputs.** `MacroRecording.GroupingMattersExactlyWhen`: how keystrokes are grouped changes
  the replay if and only if a CRLF is cut in two, which is recorded as two Enter keys.
- **Escape followed by text.** `MacroRecording.RecordingInvertsReplay`: replaying and recording again gives the
  same actions if and only if no Escape key is followed by text that completes an arrow key's sequence.

Standards: RFC 854 ("TELNET Command Structure"), RFC 855, section 2 of RFC 1073, section 2 of RFC 1091, RFC 1143
(loop freedom), sections 3 and 4 of RFC 3629, and section 3.9 of the Unicode Standard.

## Model

| member | source | states |
|---|---|---|
| TelnetFraming.ParseConcat | crates/mobarust-telnet/src/lib.rs:243-307 | Feeding a concatenation equals feeding its parts one after the other; a trip of the bound in the first part hides the second. |
| TelnetFraming.ParseEscapedPayload | crates/mobarust-telnet/src/lib.rs:296-317 | Inside a frame the buffer un-doubles the payload, and the bound trips if and only if the payload does not fit into 4096 bytes. |
| TelnetFraming.ParseSubframe | crates/mobarust-telnet/src/lib.rs:270-307 | A frame closed by SE delivers exactly its payload; one followed by another byte after IAC is abandoned without a trace; either way the decoder is back in `Data`. |
| TelnetFraming.TerminalTypeWireForm | crates/mobarust-telnet/src/lib.rs:367-372 | The terminal-type frame, sent unescaped, is well-formed if and only if the name holds no IAC. |
| TelnetFraming.WindowRoundTrip | crates/mobarust-telnet/src/lib.rs:374-389 | The window frame for any size, received, is the option byte, then columns, then rows, big-endian. |
| TelnetFraming.ParseWire | crates/mobarust-telnet/src/lib.rs:243-307 | Any sequence of whole messages is received with exactly its intended meaning, without a trip, ending in `Data`. |
| TelnetFraming.SenderReceiverInverse | crates/mobarust-telnet/src/lib.rs:592-605 | User bytes mixed with any control frames are delivered exactly: no frame leaks into them and none is swallowed. |
| TelnetFraming.ParseUntilOversized | crates/mobarust-telnet/src/lib.rs:243-317 | Of whole messages with payloads of any length, exactly those before the first oversized one are understood, and the bound trips if and only if there is an oversized one. |
| TelnetNegotiation.History | crates/mobarust-telnet/src/lib.rs:319-365 | From any state and for any events, the answers for a negotiable option are exactly the state-changing requests, it is enabled if and only if the last request was "on", and a refused option is refused once per "on" request and never enabled. |
| TelnetNegotiation.ChangesAlternate | crates/mobarust-telnet/src/lib.rs:325-357 | Those answers alternate, and the last one is the final state. |
| TelnetNegotiation.WindowReports | crates/mobarust-telnet/src/lib.rs:339-350 | Every "WILL NAWS" is followed at once by one window frame with the current size, and no window frame stands alone. |
| TelnetNegotiation.TerminalTypeReplies | crates/mobarust-telnet/src/lib.rs:285-294 | The terminal name is told once per query received while the peer has the option enabled, and never otherwise. |
| TelnetNegotiation.RepliesAreFrames | crates/mobarust-telnet/src/lib.rs:319-389 | Every response is a negotiation command, a window frame with the current size or the terminal-type frame, never bare data, and one that a receiver of this kind understands if the terminal name was validated. |
| TelnetNegotiation.AnswersInNumbers | crates/mobarust-telnet/src/lib.rs:325-357 | From any state, option by option in numbers: WILL is granted for 1 and 3 and DO for 3, 24 and 31, once each, with a window frame behind the answer to 31; anything else is refused; WONT and DONT take back what was enabled. |
| TelnetCodecs.DecodeConcat | crates/mobarust-telnet/src/lib.rs:243-307 | Framing and negotiation together compose over concatenation. |
| TelnetCodecs.ChunkIndependence | crates/mobarust-telnet/src/lib.rs:243-317 | For every split of the bytes into reads: the same streams trip the bound, the codec ends in the same state, data and responses are those of one pass, less exactly the output of a read that trips. |
| TelnetCodecs.NothingLostExactlyWhen | crates/mobarust-telnet/src/lib.rs:243-317 | Fed in chunks of any length, a stream survives every way of cutting it if and only if it does not trip the bound, or has no data and no response before it does. |
| TelnetCodecs.MessagesSurviveExactlyWhen | crates/mobarust-telnet/src/lib.rs:243-317 | The same for `feed` read off the messages: nothing is ever lost if and only if no payload exceeds 4096 bytes, or no text and nothing to answer comes before the first that does. |
| TelnetCodecs.DecodeWire | crates/mobarust-telnet/src/lib.rs:243-365 | On whole messages the byte-level codec is the message-level one: the peer's text is delivered and its requests are answered. |
| TelnetCodecs.AnswersInBytes | crates/mobarust-telnet/src/lib.rs:243-372 | The bytes a fresh codec sends for every first WILL and DO, and for a terminal-type query after "DO TERMINAL-TYPE". |
| TelnetCodecs.NegotiationHistory | crates/mobarust-telnet/src/lib.rs:319-365 | Over every connection in any number of reads: answers are on, off, on, off and so on from "on"; enabled if and only if the last answer was "on"; other options are refused once per request and never enabled. |
| TelnetCodecs.RunWindowReports | crates/mobarust-telnet/src/lib.rs:339-350 | The pairing of "WILL NAWS" with a window frame holds over whole runs, whatever the resizes in between. |
| TelnetCodecs.DecodeByte | crates/mobarust-telnet/src/lib.rs:248-305 | Decoding is a byte-by-byte fold. |
| TelnetCodecs.EscapeBytes | crates/mobarust-telnet/src/lib.rs:596-602 | The loop of `write` produces the escaped form that the receiver inverts. |
| TelnetCodecs.WindowFrame | crates/mobarust-telnet/src/lib.rs:374-389 | `naws_response` produces the window message's wire form. |
| TelnetCodecs.TelnetCodec.PushSubnegotiation | crates/mobarust-telnet/src/lib.rs:309-317 | Stores one byte, or refuses and keeps the buffer when it holds 4096 bytes. |
| TelnetCodecs.TelnetCodec.NegotiateOption | crates/mobarust-telnet/src/lib.rs:319-357 | Updates the option sets and appends the wire form of exactly the specified answers. |
| TelnetCodecs.TelnetCodec.FeedByte | crates/mobarust-telnet/src/lib.rs:248-305 | One byte changes the codec and extends the output as the specification says, for all five states. |
| TelnetCodecs.TelnetCodec.Feed | crates/mobarust-telnet/src/lib.rs:243-307 | One read changes the codec as `Decode` says and returns its data and responses, or only the error if the bound trips. |
| TelnetReads.EarlyOutputSurvives | crates/mobarust-telnet/src/lib.rs:529-547 | However the stream is read, at most 16384 bytes at a time, everything output before the tripping read can begin is handed over. |
| TelnetReads.WorstReads | crates/mobarust-telnet/src/lib.rs:529-547 | Some reads of at most 16384 bytes hand over nothing more than that. |
| TelnetReads.NothingLostByReadsExactlyWhen | crates/mobarust-telnet/src/lib.rs:529-547 | A stream survives every way of reading it if and only if it does not trip the bound, or all its output comes before the last 16384 bytes up to the tripping one. |
| TelnetReads.LostAgreement | crates/mobarust-telnet/src/lib.rs:536-548 | One read with a request and an oversized frame enables ECHO while its acknowledgement is never sent. |
| TelnetConnections.HandedOverIsRun | crates/mobarust-telnet/src/lib.rs:536-548 | As long as no read has tripped the bound, what was handed over is the run that the negotiation history is about. |
| TelnetConnections.HandedOverIsOneDecode | crates/mobarust-telnet/src/lib.rs:536-548 | However the socket cut its bytes into reads, what was handed over is one decoding of all of them: same trips, data and codec whatever the settings were, and same responses if they did not change. |
| TelnetConnections.ConnectionIsOneDecode | crates/mobarust-telnet/src/lib.rs:515-574 | At every moment between calls, delivered and pending bytes are one decoding of all bytes received, the codec is in its state, and written and unsent bytes are its responses in order. |
| TelnetConnections.WriteControl | crates/mobarust-telnet/src/lib.rs:726-736 | The socket gets exactly as many bytes as it is ready to take, in order; the call succeeds if and only if that is all of them, and fails if and only if the last write made failed or took nothing. |
| TelnetConnections.AdvanceHead | crates/mobarust-telnet/src/lib.rs:555-567 | A partial write of any size moves bytes from the front of the response queue to the socket. |
| TelnetConnections.OneFrameOnTheWire | crates/mobarust-telnet/src/lib.rs:557-566 | Of one frame, a socket gets exactly as many bytes as it is ready to take before a write gets nowhere. |
| TelnetConnections.WireIsPrefix | crates/mobarust-telnet/src/lib.rs:557-566 | Of several frames it gets a prefix, no more than it is ready to take and at least a byte a write. |
| TelnetConnections.EverythingReceived | crates/mobarust-telnet/src/lib.rs:531-535 | What reads of at most 16384 bytes each bring is their concatenation. |
| TelnetConnections.TelnetConnection.FlushResponses | crates/mobarust-telnet/src/lib.rs:550-574 | Written bytes and queue together stay all responses in order; the socket gets exactly what it is ready to take of what was queued; "flushed" if and only if the queue is empty, and a failure if and only if the last write made failed or took nothing. |
| TelnetConnections.TelnetConnection.Advance | crates/mobarust-telnet/src/lib.rs:557-566 | A partial write moves bytes from the front of the queue to the written ones and loses none. |
| TelnetConnections.TelnetConnection.PopPending | crates/mobarust-telnet/src/lib.rs:751-759 | Moves the oldest bytes, as many as fit, and leaves the rest of both buffers alone. |
| TelnetConnections.TelnetConnection.Absorb | crates/mobarust-telnet/src/lib.rs:540-547 | One socket read is decoded and queued, or dropped whole if it trips the bound. |
| TelnetConnections.TelnetConnection.ReadSocket | crates/mobarust-telnet/src/lib.rs:531-547 | One read feeds the codec exactly the bytes that arrived, cut at 16384; no bytes mark the connection lost, and only that does; each outcome has its one cause. |
| TelnetConnections.TelnetConnection.FillPending | crates/mobarust-telnet/src/lib.rs:526-548 | Over any number of flushes and reads: what was fed are the bytes of the reads made, in order; it ends with bytes pending and every response written, or with the outcome that its last write or read calls for. |
| TelnetConnections.TelnetConnection.ReadBytes | crates/mobarust-telnet/src/lib.rs:515-548 | Over every sequence of reads, cancellations, failures and partial writes: the codec is fed exactly the bytes that the reads made bring, each read cut at 16384; no decoded byte is lost, repeated or reordered; nothing is handed out before the responses are written; pending bytes are handed out first and without a read; only an empty read marks the connection lost; a failure is reported if and only if the last write or read failed. |
| TelnetConnections.TelnetConnection.WriteBytes | crates/mobarust-telnet/src/lib.rs:592-605 | The socket gets as many of the escaped bytes as it is ready to take, all if and only if the call succeeds, and nothing unless connected. |
| TelnetConnections.TelnetConnection.Resize | crates/mobarust-telnet/src/lib.rs:612-622 | Refuses zero sizes, records the size even when the write fails, and sends a window frame, or a prefix of it, if and only if the peer enabled NAWS. |
| TelnetConnections.TelnetConnection.Reconnect | crates/mobarust-telnet/src/lib.rs:624-671 | Only a new socket replaces the codec and empties the buffers, with the settings kept; the connection then counts as connected, whatever becomes of the announcement, which is whole if and only if its write succeeds; an unreachable peer leaves it broken. |
| TelnetPeers.ScriptReplies | crates/mobarust-telnet/src/lib.rs:319-365 | The codec's answers to any prefix of the seven-message script are the script's own continuation. |
| TelnetPeers.AnswersFollowScript | crates/mobarust-telnet/src/lib.rs:319-365 | Whatever part of a peer's byte stream has arrived, cut anywhere, the answers stay within the script and the bound never trips. |
| TelnetPeers.StepKeepsInv | crates/mobarust-telnet/src/lib.rs:711-724 | Every read, flush and write keeps both ends consistent and uses up the remaining work, except for bytes the user types. |
| TelnetPeers.StuckMeansQuiet | crates/mobarust-telnet/src/lib.rs:515-574 | Only the users can move if and only if queues and channels are empty. |
| TelnetPeers.NegotiationQuiesces | crates/mobarust-telnet/src/lib.rs:711-724 | Two of these codecs back to back take at most 58 steps of their own beyond the typed bytes, under every interleaving and chunking; when quiet, both have SUPPRESS-GO-AHEAD in both directions and nothing else, and each user's text has arrived whole. |
| TelnetPeers.DeliveredIsPrefix | crates/mobarust-telnet/src/lib.rs:515-605 | At every moment the delivered text is a prefix of what the other user wrote, and NAWS and TERMINAL-TYPE are not enabled. |
| Utf8.EncodeIsAccepted | crates/mobarust-core/src/terminal.rs:86-110 | The encoding of every scalar value is accepted as one unit and decodes to that value. |
| Utf8.AcceptedIsEncoded | crates/mobarust-core/src/terminal.rs:86-110 | Every accepted unit is the encoding of its value: no overlong forms, surrogates or values past U+10FFFF. |
| Utf8.GoodMeansEncoded | crates/mobarust-core/src/terminal.rs:86-110 | The scan accepts a first unit if and only if the input starts with an encoding, and then accepts exactly that. |
| Utf8.ShortMeansProperPrefix | crates/mobarust-core/src/terminal.rs:98-108 | No error length is reported if and only if the rest is a proper prefix of some encoding. |
| Utf8.BadMeansMaximalSubpart | crates/mobarust-core/src/terminal.rs:98-108 | The error length is the maximal subpart: the longest prefix that begins a well-formed sequence, or one byte. |
| Utf8Stream.LossyIsSubstitutionOfMaximalSubparts | crates/mobarust-core/src/terminal.rs:161-184 | Whole-buffer decoding is determined by two equations: a well-formed unit gives its value, a maximal subpart gives one U+FFFD. |
| Utf8Stream.LossyInvertsEncode | crates/mobarust-core/src/terminal.rs:80-125 | Well-formed text is not altered. |
| Utf8Stream.StreamConcat | crates/mobarust-core/src/terminal.rs:80-115 | Decoding resumes where it stopped: only the undecided tail and the next bytes matter. |
| Utf8Stream.StreamKeepsUndecided | crates/mobarust-core/src/terminal.rs:98-114 | The decoder keeps nothing or a proper prefix of a well-formed sequence, at most three bytes. |
| Utf8Stream.LossyIsStreamThenFinish | crates/mobarust-core/src/terminal.rs:117-125 | At the end of the input an undecided tail counts as one maximal subpart. |
| Utf8Stream.StreamingEqualsWholeBuffer | crates/mobarust-core/src/terminal.rs:80-125 | For every byte string and every chunking, the pushes followed by `finish` give whole-buffer lossy decoding. |
| Utf8Stream.FromUtf8Err | crates/mobarust-core/src/terminal.rs:86-110 | `valid_up_to` bytes are valid, and `error_len` is the verdict on what follows them. |
| Utf8Stream.Utf8OutputDecoder.Push | crates/mobarust-core/src/terminal.rs:81-115 | The loop over the shrinking rest returns and keeps exactly what `Stream` says. |
| Utf8Stream.Utf8OutputDecoder.Finish | crates/mobarust-core/src/terminal.rs:117-125 | One U+FFFD for an undecided tail, nothing otherwise; the tail is cleared. |
| Utf8Stream.OutputBatcher.Push | crates/mobarust-core/src/terminal.rs:45-61 | Chunks and kept bytes are the stream in order; every chunk has exactly the maximal size and less than that is kept. |
| Utf8Stream.OutputBatcher.Flush | crates/mobarust-core/src/terminal.rs:63-72 | Everything kept comes out, or nothing if there is nothing. |
| Utf8Stream.Pump | apps/desktop/src-tauri/src/terminal.rs:646-678 | Whatever the reads and timeouts, a terminal shows lossy decoding of everything received; after each event fewer bytes than a batch are held back, and none after a timeout. |
| TerminalInput.OneSendAtATimeInOrder | apps/desktop/src/terminal-input.ts:5-33 | Over every interleaving: at most one send per terminal in flight, sends start in write order and once each, counters are the sums over unfinished writes within 1 MiB and 128, an entry exists exactly while it has writes, a write reported done was sent. |
| TerminalInput.SendsReachTheQueuedTarget | apps/desktop/src/App.tsx:1815-1822 | Every native write goes to the terminal, in the generation, that its workspace showed when it was queued. |
| TerminalInput.DoomedExactlyWhen | apps/desktop/src/terminal-input.ts:11-25 | A chain has failed after a step if and only if it had before, or a write lacked room (1 MiB or 128 writes), or the next write found its target gone, or its send was rejected. |
| TerminalInput.SendsExactlyWhen | apps/desktop/src/App.tsx:1815-1822 | At its turn a write is sent if and only if its chain has not failed and its workspace showed the terminal when it was queued and still shows it, in the same generation; nothing else is ever sent. |
| TerminalInput.ResultsAreExact | apps/desktop/src/terminal-input.ts:19-32 | Over every run, a write that got in is in its chain until it has a result, and the result is a success if and only if its send was answered with success. |
| TerminalInput.UndisturbedWritesSucceed | apps/desktop/src/terminal-input.ts:8-32 | Over every run in which no write to a terminal lacks room, finds its target gone or has its send rejected, its chain never fails, and each of its writes that has ended was sent exactly once and succeeded. |
| TerminalInput.CleanWriteSucceeds | apps/desktop/src/terminal-input.ts:19-30 | A write whose turn comes on a chain without failures, with its target bound, and whose send succeeds is sent once, ends as a success, gives its room back and leaves no failure behind. |
| TerminalInput.DoomedStaysDoomed | apps/desktop/src/terminal-input.ts:19-30 | No step lifts the doom while the entry exists, and none sends. |
| TerminalInput.NothingSentAfterFailure | apps/desktop/src/terminal-input.ts:19-30 | Over every run on which the entry survives, nothing more is sent on a doomed chain. |
| TerminalInput.TerminalInputQueue.Enqueue | apps/desktop/src/terminal-input.ts:8-32 | Chains the write with its pin or, if and only if 1 MiB or 128 writes would be exceeded, refuses it and poisons the entry. |
| TerminalInput.TerminalInputQueue.RunThen | apps/desktop/src/App.tsx:1816-1822 | Sends if and only if the chain has not failed and the workspace still shows the terminal that it showed when the write was queued. |
| TerminalInput.TerminalInputQueue.SendSettled | apps/desktop/src/terminal-input.ts:19-22 | The send's result becomes the write's. |
| TerminalInput.TerminalInputQueue.RunCatch | apps/desktop/src/terminal-input.ts:22-25 | A rejection is recorded on the entry. |
| TerminalInput.TerminalInputQueue.RunFinally | apps/desktop/src/terminal-input.ts:25-29 | Gives the room back and drops the entry with its last write. |
| FramebufferQueue.SafeAndAwake | apps/desktop/src/remote-desktop-framebuffer.ts:16-76 | Over every run: never a fetch together with a scheduled paint, pending work always has one of them, an idle queue fetched its generation last, and everything painted was current when painted. |
| FramebufferQueue.WantedIsKept | apps/desktop/src/remote-desktop-framebuffer.ts:33-56 | The generation kept is that of the last valid request since the last reset, read off the steps alone. |
| FramebufferQueue.IdleHasFetchedWhatWasWanted | apps/desktop/src/remote-desktop-framebuffer.ts:33-76 | Over every run, an idle queue made its last fetch for what was asked for last, in the current epoch. |
| FramebufferQueue.EveryReplyIsProgress | apps/desktop/src/remote-desktop-framebuffer.ts:43-75 | The queue settles by itself: at most three replies and frames remain, one is always possible, and each is progress. |
| FramebufferQueue.NothingAfterDispose | apps/desktop/src/remote-desktop-framebuffer.ts:58-75 | After disposal nothing is fetched, painted or reported on any run. |
| FramebufferQueue.StaleFetchIsSilent | apps/desktop/src/remote-desktop-framebuffer.ts:50-71 | A fetch begun before a reset never paints or fails, whatever is requested afterwards. |
| FramebufferQueue.ResetSilences | apps/desktop/src/remote-desktop-framebuffer.ts:50-71 | A fetch that is outstanding at a reset or at the disposal never paints or reports, whatever is requested afterwards. |
| FramebufferQueue.AskedIsFetched | apps/desktop/src/remote-desktop-framebuffer.ts:33-48 | A request or refresh that is not refused is followed by a fetch before the queue is idle again, even for the generation fetched last. |
| FramebufferQueue.PaintedAndReportedExactlyWhen | apps/desktop/src/remote-desktop-framebuffer.ts:33-71 | Every step: a decoded frame is painted, and a rejected fetch, undecodable bytes or a throwing render are reported, if and only if the queue is in use and still in the epoch and at the generation of the fetch; an unsafe generation is reported; nothing else is. |
| FramebufferQueue.RemoteFramebufferQueue.RequestGeneration | apps/desktop/src/remote-desktop-framebuffer.ts:33-41 | Is the request step, including the refusal of unsafe integers. |
| FramebufferQueue.RemoteFramebufferQueue.RefreshNow | apps/desktop/src/remote-desktop-framebuffer.ts:43-48 | Schedules a paint unless a fetch or a paint is outstanding. |
| FramebufferQueue.RemoteFramebufferQueue.ResetNow | apps/desktop/src/remote-desktop-framebuffer.ts:50-56 | Is the reset step. |
| FramebufferQueue.RemoteFramebufferQueue.DisposeNow | apps/desktop/src/remote-desktop-framebuffer.ts:58 | Is the disposal step. |
| FramebufferQueue.RemoteFramebufferQueue.OnAnimationFrame | apps/desktop/src/remote-desktop-framebuffer.ts:60-67 | Starts at most one fetch, for the current epoch and generation. |
| FramebufferQueue.RemoteFramebufferQueue.OnFetchSettled | apps/desktop/src/remote-desktop-framebuffer.ts:66-75 | Paints or reports a current reply, reports a render that throws, drops a stale reply, and reschedules pending work. |
| SshChallengeQueue.ChallengesAreServedOneByOne | apps/desktop/src/ssh-authentication.ts:8-80 | Over every interleaving: one active challenge, at most 31 waiting and only behind an active one, strictly in arrival order, one cleanup each, at most two answers, the second null and only after a rejection. |
| SshChallengeQueue.AbortedIsNeverAnswered | apps/desktop/src/ssh-authentication.ts:45-56 | Once a challenge has been aborted, no answer is submitted for it on any run. |
| SshChallengeQueue.ClosedIsNeverAnswered | apps/desktop/src/ssh-authentication.ts:15-18 | After a close event for a live challenge, on any run, no answer is submitted for that challenge any more, and none at all if there was none before. |
| SshChallengeQueue.UndisturbedChallengeIsAnswered | apps/desktop/src/ssh-authentication.ts:34-51 | A challenge that arrives while none is active and is not disturbed is answered once, with exactly what was typed, in order. |
| SshChallengeQueue.AnswersAreExplained | apps/desktop/src/ssh-authentication.ts:34-78 | Over every run, told from the events of one challenge: its first answer is null if and only if a prompt was cancelled or threw or there was no room, and otherwise what was typed; it ends unanswered only if it was closed or the page was hidden; a second, null answer follows if and only if the first was rejected and no prompt had thrown. |
| SshChallengeQueue.RefusedExactlyWhen | apps/desktop/src/ssh-authentication.ts:68-78 | Over every run, a challenge is refused if and only if 31 others wait behind an active one when it arrives. |
| SshChallengeQueue.StepKeepsExact | apps/desktop/src/ssh-authentication.ts:13-33 | Every step but an arrival keeps the pending maps exactly the live challenges. |
| SshChallengeQueue.ArrivalIsExactExactlyWhen | apps/desktop/src/ssh-authentication.ts:19-20 | An arrival keeps them exact if and only if no live challenge of that handler has the same request id. |
| SshChallengeQueue.RunIsExactExactlyWhen | apps/desktop/src/ssh-authentication.ts:13-33 | Over every run, the pending maps are exact at every moment if and only if every challenge arrives under an id that no live challenge of its handler has. |
| SshChallengeQueue.SshAuthentication.StartChallenge | apps/desktop/src/ssh-authentication.ts:34-51 | Is the start of the specification, including challenges without prompts. |
| SshChallengeQueue.SshAuthentication.FinishChallenge | apps/desktop/src/ssh-authentication.ts:57-64 | Cleans up, frees the queue and starts the next waiter, through any number of waiters that end at once. |
| SshChallengeQueue.SshAuthentication.SubmitAnswer | apps/desktop/src/ssh-authentication.ts:45-56 | Submits unless aborted, and otherwise ends the challenge. |
| SshChallengeQueue.SshAuthentication.OnChallenge | apps/desktop/src/ssh-authentication.ts:19-79 | Starts, queues or refuses an arriving challenge. |
| SshChallengeQueue.SshAuthentication.OnClosed | apps/desktop/src/ssh-authentication.ts:15-18 | Aborts the challenge found under the id; a waiting one leaves the list. |
| SshChallengeQueue.SshAuthentication.OnPrompt | apps/desktop/src/ssh-authentication.ts:40-51 | Continues with the next prompt, submits all responses, or submits null. |
| SshChallengeQueue.SshAuthentication.OnPromptThrows | apps/desktop/src/ssh-authentication.ts:52-56 | Submits null once and ends whatever becomes of it, unless aborted. |
| SshChallengeQueue.SshAuthentication.OnPageHide | apps/desktop/src/ssh-authentication.ts:21-33 | Calls the listeners of all live challenges, one by one in order of arrival. |
| SshChallengeQueue.PageHideAbortsAll | apps/desktop/src/ssh-authentication.ts:21-33 | Afterwards every challenge is aborted or over and the waiting list is empty. |
| SshChallengeQueue.SshAuthentication.OnAnswer | apps/desktop/src/ssh-authentication.ts:45-64 | Ends the challenge, or follows a rejected first answer with null. |
| PointerQueue.TransitionsSurvive | apps/desktop/src/remote-desktop-input.ts:210-240 | Which button transitions survive an event, exactly: all of them unless the queue is full of transitions. |
| PointerQueue.TransitionsAreConservedExactlyWhen | apps/desktop/src/App.tsx:1272-1295 | Over every run the transitions sent, in flight or queued are those that were there and that arrived, in order, if and only if none arrives at a queue full of transitions, is taken for another session, is in flight or queued when a send fails, or queued when the session changes. |
| PointerQueue.LatestIsLast | apps/desktop/src/remote-desktop-input.ts:227-239 | An enqueued release is always last; any other event is last unless the queue is saturated, and then changes nothing. |
| PointerQueue.UnsaturatedEnqueue | apps/desktop/src/remote-desktop-input.ts:214-239 | Otherwise the event always gets in, at the cost of one motion at most: the last item if both are motions of one session with the same buttons, else the oldest motion if 128 items wait, else none. |
| PointerQueue.DragIsOneItem | apps/desktop/src/remote-desktop-input.ts:216-225 | However many motions of one drag follow each other, only the last of them stays queued. |
| PointerQueue.BoundedAndInOrder | apps/desktop/src/App.tsx:1272-1295 | Over every run at most 128 items are queued and one is in flight, and those sent, in flight or queued are in arrival order. |
| PointerQueue.EnqueuePointer | apps/desktop/src/remote-desktop-input.ts:210-240 | The edited copy is the specified queue. |
| PortScan.Validate | crates/mobarust-network/src/lib.rs:123-139 | Saturating `u16` arithmetic accepts exactly the intended ranges, up to port 65535. |
| PortScan.SchedulePorts | crates/mobarust-network/src/lib.rs:212-232 | Keeps the partition of the range and stops only at the limit or the end, without wrap-around. |
| PortScan.CompletionKeepsPartition | crates/mobarust-network/src/lib.rs:196-204 | Whichever check completes, its port moves from in flight to scanned and every port stays in exactly one place. |
| PortScan.PartitionSize | crates/mobarust-network/src/lib.rs:196-204 | Scanned and in-flight ports add up to the ports scheduled so far. |
| PortScan.SortedPortsAreTheRange | crates/mobarust-network/src/lib.rs:207-208 | Sorted results with the range's ports, in whatever order they completed, are the range. |
| PortScan.FinishedScan | crates/mobarust-network/src/lib.rs:182-208 | A scan with nothing left has every port exactly once, in ascending order. |
| PortScan.CompletionsFinishTheScan | crates/mobarust-network/src/lib.rs:172-208 | Undisturbed completions, in any order in which ports can be in flight, are each reported in turn with their status, and the scan is done once every port has been checked, and not before. |
| PortScan.ChecksComeFromEvents | crates/mobarust-network/src/lib.rs:178-204 | Every reported check has the status with which its own port completed, and no port is reported twice. |
| PortScan.TasksAreInFlight | crates/mobarust-network/src/lib.rs:212-232 | The tasks are exactly the ports in flight as the completed checks tell them. |
| PortScan.Scan | crates/mobarust-network/src/lib.rs:155-209 | For every order of events: the events alone decide which checks are reported, with which status and in which order, and how the scan ends; the results are those checks in port order; at most `concurrency` checks are in flight, and cancellation leaves no task. |
| HelperWire.DecodersAgree | apps/desktop/src/remote-desktop-framebuffer.ts:3-13 | The desktop's and the native decoder accept exactly the same byte strings as framebuffers, with the same result. |
| HelperWire.EncodeFramebuffer | crates/mobarust-remote-desktop/src/lib.rs:1133-1155 | Filling the buffer field by field gives the specified frame within 8 MiB, or the validation error. |
| HelperWire.EncodeDecode | crates/mobarust-remote-desktop/src/lib.rs:1133-1195 | Every valid event decodes to itself; a JSON body is never taken for a framebuffer. |
| HelperWire.FrameInNumbers | crates/mobarust-remote-desktop/src/lib.rs:1133-1155 | The frame of a framebuffer byte by byte, and which sizes and pixels are valid or get which error. |
| HelperWire.FramebufferRefusals | crates/mobarust-remote-desktop/src/lib.rs:1157-1195 | Which frames with the framebuffer magic are accepted, and why the others are refused. |
| HelperWire.RefusalsInNumbers | crates/mobarust-remote-desktop/src/lib.rs:995-1082 | Which frames the decoder, and which pipes the reader, refuses and with which error, from the four length bytes. |
| HelperWire.AcceptedExactlyWhenEncoded | crates/mobarust-remote-desktop/src/lib.rs:1157-1195 | The format is canonical: a byte string is accepted as a framebuffer if and only if the framebuffer is valid and the byte string is its one encoding. |
| HelperWire.DesktopDecodesHelperFrames | apps/desktop/src/remote-desktop-framebuffer.ts:3-13 | What the helper encodes for a framebuffer is decoded by the desktop to that framebuffer if and only if it is valid. |
| HelperWire.ReadWhatWasWritten | crates/mobarust-remote-desktop/src/lib.rs:1060-1082 | Reading any whole frames written one after another recovers exactly them, whatever follows. |
| HelperWire.EventsAreRecovered | crates/mobarust-remote-desktop/src/lib.rs:1060-1195 | Valid events, encoded, written one after another and read back, are decoded again in order. |
| HelperWire.ReadFramesAreWhole | crates/mobarust-remote-desktop/src/lib.rs:995-1014 | The reader never returns a frame that the decoder calls truncated or too large, and consumes exactly that frame. |
| HelperWire.Pipe.ReadExact | crates/mobarust-remote-desktop/src/lib.rs:1063-1080 | All bytes asked for, or the rest of the pipe and failure. |
| HelperWire.Pipe.ReadNextFrame | crates/mobarust-remote-desktop/src/lib.rs:1060-1082 | The buffered reads return and leave what `ReadFrame` says. |
| SplitLayout.RemoveDeletesThatLeaf | apps/desktop/src/App.tsx:347-354 | Removal deletes exactly that leaf and keeps the order of the others; nothing is left only for a lone pane. |
| SplitLayout.RemovePromotesSibling | apps/desktop/src/App.tsx:347-354 | In a tree that shows no terminal twice, the removed pane's sibling, with all below it, takes the place of the split that held the two, and nothing else changes. |
| SplitLayout.FoundExactlyWhenPresent | apps/desktop/src/App.tsx:324-327 | A path is found if and only if the pane is in the tree. |
| SplitLayout.FoundPathLeadsThere | apps/desktop/src/App.tsx:324-327 | The path that is found leads to that pane. |
| SplitLayout.ReplaceIsInPlace | apps/desktop/src/App.tsx:324-336 | Replacing at the found path puts the replacement's leaves in the place of that one leaf. |
| SplitLayout.ReplaceIsLocal | apps/desktop/src/App.tsx:329-336 | Replacing changes exactly what is at or below the path. |
| SplitLayout.ResizeIsLocal | apps/desktop/src/App.tsx:338-345 | Resizing sets that split's ratio and touches nothing else. |
| SplitLayout.ResizeKeepsLeaves | apps/desktop/src/App.tsx:338-345 | Resizing keeps all leaves in order. |
| SplitLayout.ResizedTo | apps/desktop/src/App.tsx:1586-1600 | A drag sets that split's ratio to the pointer's place in its frame, a key to five percent more or less and a reset to half, from 20 to 80. |
| SplitLayout.DividerFollowsThePointer | apps/desktop/src/App.tsx:1586-1600 | Within 20 and 80 percent of the split's frame the divider ends up under the pointer. |
| SplitLayout.SplitSharesOut | apps/desktop/src/App.tsx:1400-1408 | The two parts of a split share its rectangle completely and without overlap. |
| SplitLayout.PartsByRatio | apps/desktop/src/App.tsx:1400-1408 | The ratio is the first part's percentage of the width or height, and the second part is what is left beside or below it. |
| SplitLayout.ExactlyOnePane | apps/desktop/src/App.tsx:1394-1410 | Every point of a rectangle lies in exactly one pane of its tree, and a point outside in none. |
| SplitLayout.LeafOrderIsScreenOrder | apps/desktop/src/App.tsx:1394-1410 | Every pane is left of or above all later leaves, and none leaves the viewport. |
| SplitLayout.CollectBounds | apps/desktop/src/App.tsx:1394-1410 | The recursive fill of the map is the fold of the panes' rectangles. |
| SplitLayout.PanesTileTheViewport | apps/desktop/src/App.tsx:1394-1447 | In a workspace whose layout shows distinct, open terminals exactly one is drawn over every point of the viewport. |
| SplitLayout.TiledExactlyWhen | apps/desktop/src/App.tsx:1394-1447 | Exactly one open terminal is drawn over every point of the viewport if and only if no terminal is shown twice and every terminal shown is open. |
| SplitLayout.SplitIsDistinctExactlyWhen | apps/desktop/src/App.tsx:2045-2060 | Splitting a visible pane keeps ids distinct if and only if the second terminal is not shown yet. |
| SplitLayout.SplitIsInPlace | apps/desktop/src/App.tsx:2054-2058 | A split takes the place of the selected pane, with the second pane behind it, half each, and nothing else changes. |
| SplitLayout.FirstHiddenTab | apps/desktop/src/App.tsx:2048-2053 | The second pane is the first tab that is neither selected nor visible, or else a fresh one. |
| SplitLayout.TabsAfterOpening | apps/desktop/src/App.tsx:2045-2060 | A fresh terminal goes behind the other tabs, and a split makes one if and only if no tab is hidden. |
| SplitLayout.ShownAfterClose | apps/desktop/src/App.tsx:1983-2003 | A close keeps the other panes in order, or shows the first tab that is left, or a fresh terminal after the last one. |
| SplitLayout.StepStaysTidyExactlyWhen | apps/desktop/src/App.tsx:1983-2089 | Any step, with a callback of any age, keeps the panes distinct and open if and only if it lands: a condition on the state before it and on what its render saw. |
| SplitLayout.RunStaysTiledExactlyWhen | apps/desktop/src/App.tsx:1394-2089 | Over every run with callbacks of any age, exactly one open terminal is drawn over every point of the viewport, at every moment, if and only if every step lands. |
| SplitLayout.StaleSplitShowsTwice | apps/desktop/src/App.tsx:2045-2060 | Two splits by the same callback show one terminal twice and leave a hole. |
| SplitLayout.CloseThenSplitLeavesHole | apps/desktop/src/App.tsx:3904-3938 | Closing and splitting by the callbacks of one render brings the closed terminal back into the layout, and half the viewport is drawn by nothing. |
| SplitLayout.StepKeepsTabs | apps/desktop/src/App.tsx:1983-2060 | Whatever the age of the callbacks, there are tabs left, with distinct ids. |
| SplitLayout.StepKeepsInv | apps/desktop/src/App.tsx:1983-2089 | Up-to-date callbacks land, and keep tabs and panes distinct, panes among the open tabs, and ratios within 20 and 80. |
| SplitLayout.ReachableLayoutsTile | apps/desktop/src/App.tsx:1983-2089 | With up-to-date callbacks every layout reached from a single pane tiles the viewport, at every moment, with distinct, open terminals. |
| JumpChain.RequestFromSavedSession | apps/desktop/src/App.tsx:4228-4292 | The loop with its early exits is the specified search; it terminates on every catalog. |
| JumpChain.SearchIsSound | apps/desktop/src/App.tsx:4228-4275 | What is returned is an acyclic flattening. |
| JumpChain.SearchIsComplete | apps/desktop/src/App.tsx:4228-4275 | Every acyclic flattening within the budget is found. |
| JumpChain.SearchIsExact | apps/desktop/src/App.tsx:4228-4275 | For every catalog and budget, the search succeeds with exactly the acyclic flattenings that fit. |
| JumpChain.RevisitIsRefused | apps/desktop/src/App.tsx:4229-4236 | A path that meets an id twice leaves its first session without an acyclic flattening. |
| JumpChain.RefusedHasRevisit | apps/desktop/src/App.tsx:4229-4236 | A session that has a plain flattening and is refused has such a path. |
| JumpChain.JumpChainsAreExact | apps/desktop/src/App.tsx:4226-4292 | For every catalog and budget, the search returns precisely the unbounded recursive flattening, each host's own jumps before it, if and only if that exists, fits the budget, and no path down from the session meets an id twice. |
| JumpChain.AliasBecomesHop | apps/desktop/src/App.tsx:4255-4275 | Each alias contributes, in its turn, the hops of its session and then that session itself, under the alias's user name and port where it has them. |
| JumpChain.StoredHopsAreTaken | apps/desktop/src/App.tsx:4229-4254 | Exactly when a session without aliases is found, and that the hops stored with it are taken as they are. |
| JumpChain.CyclesAreRefused | apps/desktop/src/App.tsx:4229-4236 | A session that leads to a cycle of any length has no plain flattening and is refused for every budget. |
| JumpChain.UniqueIdsRefuseOnlyCycles | apps/desktop/src/App.tsx:4229-4236 | In a catalog with unique ids no session with a flattening meets an id twice. |
| JumpChain.SharedIdsAreTakenForACycle | apps/desktop/src/App.tsx:4229-4236 | Two sessions with one id are refused although they have a plain flattening. |
| JsText.Utf8LengthConcat | apps/desktop/src/macro-recording.ts:103 | UTF-8 length is additive, less exactly two bytes where the concatenation completes a surrogate pair. |
| JsText.Utf8LengthIsEncodedLength | apps/desktop/src/macro-recording.ts:103 | The counted length is that of the UTF-8 encoding of the text's scalar values, with U+FFFD for lone surrogates. |
| JsText.ScalarsInvertUtf16 | apps/desktop/src/macro-recording.ts:103 | Those scalar values are the ones that UTF-16 encodes as the text. |
| MacroRecording.RecordedMacroActions | apps/desktop/src/macro-recording.ts:52-93 | The loop yields the specified actions, and replaying them sends the normalised input. |
| MacroRecording.KeysInNumbers | apps/desktop/src/macro-recording.ts:53-66 | Which sequence is recorded as which key and what each key replays as, number by number. |
| MacroRecording.ScanReplays | apps/desktop/src/App.tsx:2835-2846 | Replay of a recording is the input with every line ending as CR and unmapped controls dropped. |
| MacroRecording.RerecordingChangesNothing | apps/desktop/src/macro-recording.ts:52-93 | That normalisation is idempotent. |
| MacroRecording.RecordingInvertsReplay | apps/desktop/src/macro-recording.ts:53-66 | Replaying tidy actions and recording again yields the same actions if and only if no Escape is followed by text completing an arrow sequence. |
| MacroRecording.NormalizeConcat | apps/desktop/src/macro-recording.ts:58-66 | Cutting the input in two changes the replay if and only if a CRLF is cut, and then by one CR. |
| MacroRecording.AppendMacroRecordingInput | apps/desktop/src/macro-recording.ts:96-115 | Appending concatenates replays, keeps texts merged and printable and both limits, or refuses. |
| MacroRecording.StopsExactlyAtTheLimit | apps/desktop/src/App.tsx:1825-1845 | A capture stops if and only if the actions of all inputs, merged once, or their bytes pass a limit. |
| MacroRecording.RecordingReplaysItsInput | apps/desktop/src/App.tsx:1825-1845 | However long the input, the captured actions replay exactly the inputs before the limit, are tidy, and pass the native checks unless empty. |
| MacroRecording.GroupingMattersExactlyWhen | apps/desktop/src/macro-recording.ts:58-66 | The grouping of keystrokes into inputs changes the replay if and only if a CRLF is cut. |
| MacroRecording.RecordedPassesNativeChecks | crates/mobarust-core/src/macro.rs:105-155 | A recording passes the native action checks if and only if it is not empty. |
| MacroRecording.PassesExactlyWhen | crates/mobarust-core/src/macro.rs:105-155 | The native action checks pass if and only if there are 1 to 64 actions and every text is non-empty, within 64 KiB and without NUL. |
| MacroRecording.PinMacroTargets | apps/desktop/src/macro-recording.ts:34-42 | Pins every target once, in order of first occurrence, if and only if there is one and each is bound to a terminal. |
| MacroRecording.PinsHoldExactlyWhileUnchanged | apps/desktop/src/macro-recording.ts:44-46 | Pins hold if and only if pinning the same targets again would give the same pins. |
| SessionEnvironment.ParseSessionEnvironment | apps/desktop/src/session-environment.ts:20-55 | The loop returns the specified entries or the first error, and only acceptable lists. |
| SessionEnvironment.ParserAndValidatorAgree | apps/desktop/src/session-environment.ts:20-55 | Parsing succeeds if and only if every non-blank line is NAME=value and the native validator accepts the entries, which are returned in order. |
| SessionEnvironment.ValidateSessionEnvironment | crates/mobarust-core/src/session.rs:519-559 | The running-total loop accepts exactly the acceptable lists. |
| SessionEnvironment.ValidatorIsExact | crates/mobarust-core/src/session.rs:519-559 | Acceptance means at most 64 entries, valid and distinct names, bounded values without controls, and at most 64 KiB. |
| SessionEnvironment.AcceptableInNumbers | crates/mobarust-core/src/session.rs:519-559 | The same condition in numbers, down to the characters of names and values. |
| SessionEnvironment.FirstBadEntryDecides | crates/mobarust-core/src/session.rs:519-559 | The verdict is that of the first entry that makes the list unacceptable: its name, its value, or the total. |
| SessionEnvironment.LinesOfJoin | apps/desktop/src/session-environment.ts:25-59 | Splitting at line ends undoes joining, for lines without line breaks. |
| SessionEnvironment.LinesAtBreaks | apps/desktop/src/session-environment.ts:25 | Equations that determine the lines: a break is a line feed with the carriage return before it, if any. |
| SessionEnvironment.BlankInNumbers | apps/desktop/src/session-environment.ts:26 | A line is blank if and only if it is all ECMAScript white space. |
| SessionEnvironment.FirstErrorIsReported | apps/desktop/src/session-environment.ts:26-51 | Which error a line gets, in the order of the checks. |
| SessionEnvironment.PrintThenParse | apps/desktop/src/session-environment.ts:57-59 | Printing and parsing back returns the same entries if and only if the native validator accepts them, the empty list included. |
| SessionEnvironment.ParseThenPrint | apps/desktop/src/session-environment.ts:20-59 | What the editor accepted survives being shown and saved again. |

## Left out

- Sockets, timers, TLS, child processes, PTYs, Tauri IPC and the file system appear only as nondeterministic steps: a transfer of any size, a failure, a dropped future, a completion.
- TelnetConnections.TelnetConnection.Reconnect: the connection attempt is a parameter: a new socket, an error or timeout, or a dropped future; states of the lifecycle in which nothing reads, writes or reconnects are one.
- TelnetReads.NothingLostByReadsExactlyWhen: the window size and the terminal name do not change while the stream is read.
- Contiguity of a response frame that was cut short by a cancelled flush with a user write that follows it: only the order of the response bytes is kept by the code.
- TelnetPeers.NegotiationQuiesces: has no resize step, because NAWS is never enabled between two of these codecs and `resize` then sends nothing; a response is sent whole, because partial writes are covered by the connection model.
- `read_text`, `write_text` and the Windows-1252 tables of `TelnetEncoding`.
- `std::str::from_utf8` itself is modelled by its documented result; its vectorised implementation is not.
- `settleTerminalWrites`, `prepareTerminalPaste`, `approveTerminalPaste` and the `beforeSend` callback of the terminal write queue.
- The sizes of texts in TerminalInput are given as UTF-8 byte counts.
- FramebufferQueue: a render or failure callback that calls back into the queue.
- HelperWire: JSON text is an abstract body that begins with an opening brace; `WireEnvelope`, commands and credentials share that path. One to three bytes before the end of a pipe read as a clean end, as in the code.
- PortScan.Scan: after a failed worker the other tasks are dropped with the set, not joined; the model leaves them in the in-flight list. The socket result of one check is a parameter, and which task failed is not modelled.
- SplitLayout works on reals, so rounding in the layout bounds is not modelled; dragging is reduced to its clamped ratio; a close sees at least one tab, as every render does (`StepKeepsTabs`); a run begins once the placeholder pane with an empty id has been replaced.
- JumpChain: `resolveSavedJumpAlias` and its regular expression are a map from aliases to sessions; fields that are copied unchanged (known hosts path, fingerprint, keep-alive interval, display, environment, terminal size) are not modelled.
- MacroRecording: only the two recorded kinds of action; waiting, commands and session actions, titles and tags of `MacroRecord::validate` follow from reading one match.
- JsText: lone surrogates count as U+FFFD, three bytes, as `TextEncoder` does; a string with one has no Rust counterpart, and how it crosses the IPC is not part of this model.
- SessionEnvironment: `checked_add` cannot overflow, since each name and value is bounded before it is added.
- The lifecycle tables (`ConnectionLifecycle`, `TransferLifecycle`, `HelperLifecycle`), serial reconnects, `network-diagnostic-lifecycle.ts`, shortcut handling, syntax highlighting, themes and rendering.
