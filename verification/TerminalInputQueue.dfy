/**
  The per-terminal write queue. Each write is a promise chained onto the previous one; the callbacks of
  the chain (then, catch, finally), new writes and changes of the terminal bindings interleave freely.
 */
module TerminalInput {
  import opened Wrappers

  const MAX_PENDING_INPUT_BYTES := 1024 * 1024
  const MAX_PENDING_INPUT_WRITES := 128

  type Id = string

  /** Which native terminal and which generation of it a workspace shows. */
  datatype Bindings = Bindings(nativeIds: map<Id, Id>, generations: map<Id, nat>)

  datatype Pin = Pin(workspace: Id, nativeId: Id, generation: nat)

  function Generation(b: Bindings, workspace: Id): (g: nat) {
    if workspace in b.generations then b.generations[workspace] else 0
  }

  /** `pinMacroTargets` for one workspace. */
  function PinTarget(b: Bindings, workspace: Id): (pin: Option<Pin>) {
    if workspace in b.nativeIds && b.nativeIds[workspace] != ""
    then Some(Pin(workspace, b.nativeIds[workspace], Generation(b, workspace)))
    else None
  }

  /** `macroTargetsStillBound` for one target. */
  predicate StillBound(pin: Pin, b: Bindings) {
    && pin.workspace in b.nativeIds && b.nativeIds[pin.workspace] == pin.nativeId
    && Generation(b, pin.workspace) == pin.generation
  }

  /** Where a write is in its chain: waiting for its predecessor, sent, or past its send with a result. */
  datatype Phase = Waiting | Sending | Settled(ok: bool) | Caught(ok: bool)

  datatype Write = Write(ticket: nat, bytes: nat, pin: Option<Pin>, phase: Phase)

  /** One entry of the `pending` map; `tailFailed` says that the promise before the first write was rejected. */
  datatype Entry = Entry(writes: seq<Write>, bytes: int, count: int, failure: bool, tailFailed: bool)

  const FreshEntry := Entry([], 0, 0, false, false)

  /** One native write that really was invoked, and the bindings at that moment. */
  datatype Sent = Sent(terminal: Id, ticket: nat, pin: Pin, bindings: Bindings)

  /** A write as it was asked for, and the bindings at that moment. */
  datatype Request = Request(terminal: Id, workspace: Id, bytes: nat, bindings: Bindings)

  /** The queue, and the history that the claims below are about. */
  datatype Queue = Queue(
    pending: map<Id, Entry>,
    bindings: Bindings,
    next: nat,
    queuedWith: map<nat, Request>,
    log: seq<Sent>,
    results: map<nat, bool>)

  datatype Step =
    | Enqueue(terminal: Id, workspace: Id, bytes: nat)
    | Start(terminal: Id)
    | Settle(terminal: Id, ok: bool)
    | Catch(terminal: Id)
    | Finally(terminal: Id)
    | Rebind(bindings: Bindings)

  function EntryOf(q: Queue, terminal: Id): (e: Entry) {
    if terminal in q.pending then q.pending[terminal] else FreshEntry
  }

  predicate Full(e: Entry, bytes: nat) {
    e.bytes + bytes > MAX_PENDING_INPUT_BYTES || e.count >= MAX_PENDING_INPUT_WRITES
  }

  /** The phase of the first unfinished write to a terminal. */
  function Head(q: Queue, terminal: Id): (phase: Option<Phase>) {
    if terminal in q.pending && q.pending[terminal].writes != []
    then Some(q.pending[terminal].writes[0].phase)
    else None
  }

  predicate Possible(q: Queue, step: Step) {
    match step
    case Enqueue(_, _, _) => true
    case Start(t) => Head(q, t) == Some(Waiting)
    case Settle(t, _) => Head(q, t) == Some(Sending)
    case Catch(t) => Head(q, t).Some? && Head(q, t).value.Settled?
    case Finally(t) => Head(q, t).Some? && Head(q, t).value.Caught?
    case Rebind(_) => true
  }

  function Moved(e: Entry, phase: Phase): (m: Entry)
    requires e.writes != []
  {
    e.(writes := [e.writes[0].(phase := phase)] + e.writes[1..])
  }

  /** The first write of a chain moves on. */
  function WithHead(q: Queue, terminal: Id, phase: Phase): (r: Queue)
    requires Head(q, terminal).Some?
  {
    var e := q.pending[terminal];
    q.(pending := q.pending[terminal := Moved(e, phase)])
  }

  /** The then callback may call `send`, and `send` passes its own checks. */
  predicate MaySend(q: Queue, terminal: Id)
    requires Head(q, terminal).Some?
  {
    var e := q.pending[terminal];
    var pin := e.writes[0].pin;
    !e.failure && !e.tailFailed && pin.Some? && pin.value.nativeId == terminal && StillBound(pin.value, q.bindings)
  }

  function Apply(q: Queue, step: Step): (r: Queue)
    requires Possible(q, step)
  {
    match step
    case Enqueue(terminal, workspace, bytes) =>
      var e := EntryOf(q, terminal);
      if Full(e, bytes) then
        if terminal in q.pending then q.(pending := q.pending[terminal := e.(failure := true)]) else q
      else
        var w := Write(q.next, bytes, PinTarget(q.bindings, workspace), Waiting);
        q.(pending := q.pending[terminal :=
             e.(writes := e.writes + [w], bytes := e.bytes + bytes, count := e.count + 1)],
           next := q.next + 1,
           queuedWith := q.queuedWith[q.next := Request(terminal, workspace, bytes, q.bindings)])
    case Start(terminal) =>
      if MaySend(q, terminal) then
        var w := q.pending[terminal].writes[0];
        WithHead(q, terminal, Sending).(log := q.log + [Sent(terminal, w.ticket, w.pin.value, q.bindings)])
      else WithHead(q, terminal, Settled(false))
    case Settle(terminal, ok) => WithHead(q, terminal, Settled(ok))
    case Catch(terminal) =>
      var ok := q.pending[terminal].writes[0].phase.ok;
      var moved := WithHead(q, terminal, Caught(ok));
      if ok then moved
      else moved.(pending := moved.pending[terminal := moved.pending[terminal].(failure := true)])
    case Finally(terminal) =>
      var e := q.pending[terminal];
      var w := e.writes[0];
      var settled := q.(results := q.results[w.ticket := w.phase.ok]);
      if e.count - 1 == 0 then settled.(pending := q.pending - {terminal})
      else
        settled.(pending := q.pending[terminal :=
          Entry(e.writes[1..], e.bytes - w.bytes, e.count - 1, e.failure, !w.phase.ok)])
    case Rebind(bindings) => q.(bindings := bindings)
  }

  // ----- The invariant -----

  function TotalBytes(writes: seq<Write>): (n: nat) {
    if writes == [] then 0 else writes[0].bytes + TotalBytes(writes[1..])
  }

  lemma {:induction false} TotalBytesSnoc(writes: seq<Write>, w: Write)
    ensures TotalBytes(writes + [w]) == TotalBytes(writes) + w.bytes
  {
    if writes == [] {
      assert [w][1..] == [];
    } else {
      assert (writes + [w])[1..] == writes[1..] + [w];
      TotalBytesSnoc(writes[1..], w);
    }
  }

  /** Rejected already, or certain to be rejected when its turn comes. */
  predicate Doomed(e: Entry) {
    e.failure || e.tailFailed || (e.writes != [] && e.writes[0].phase in {Settled(false), Caught(false)})
  }

  ghost predicate EntryInv(e: Entry, next: nat) {
    && e.writes != []
    && e.count == |e.writes| <= MAX_PENDING_INPUT_WRITES
    && e.bytes == TotalBytes(e.writes) <= MAX_PENDING_INPUT_BYTES
    && (forall i :: 0 < i < |e.writes| ==> e.writes[i].phase == Waiting)
    && (forall i, j :: 0 <= i < j < |e.writes| ==> e.writes[i].ticket < e.writes[j].ticket)
    && (forall i :: 0 <= i < |e.writes| ==> e.writes[i].ticket < next)
    && (e.writes[0].phase in {Sending, Settled(true), Caught(true)} ==> !e.tailFailed)
  }

  /** The tickets sent so far to one terminal, in order. */
  function SentTo(log: seq<Sent>, terminal: Id): (tickets: seq<nat>) {
    if log == [] then []
    else
      var last := log[|log| - 1];
      SentTo(log[..|log| - 1], terminal) + if last.terminal == terminal then [last.ticket] else []
  }

  lemma SentToSnoc(log: seq<Sent>, sent: Sent, terminal: Id)
    ensures SentTo(log + [sent], terminal) ==
            SentTo(log, terminal) + if sent.terminal == terminal then [sent.ticket] else []
  {
    assert (log + [sent])[..|log|] == log;
  }

  ghost predicate Ascending(s: seq<nat>) {
    forall i, j :: 0 <= i < j < |s| ==> s[i] < s[j]
  }

  ghost predicate WasSent(log: seq<Sent>, ticket: nat) {
    exists s :: s in log && s.ticket == ticket
  }

  lemma {:induction false} SentToWasSent(log: seq<Sent>, terminal: Id, ticket: nat)
    requires ticket in SentTo(log, terminal)
    ensures WasSent(log, ticket)
  {
    var last := log[|log| - 1];
    if !(last.terminal == terminal && last.ticket == ticket) {
      SentToWasSent(log[..|log| - 1], terminal, ticket);
    }
  }

  /** One terminal: its sends started in the order of its writes, each once, and its entry, if any, is in order. */
  ghost predicate ChainInv(t: Id, entry: Option<Entry>, sent: seq<nat>, next: nat, queuedWith: map<nat, Request>) {
    && Ascending(sent)
    && (forall k :: k in sent ==> k < next)
    && (entry.Some? ==>
          var e := entry.value;
          && EntryInv(e, next)
          && (forall k :: k in sent ==>
                if e.writes[0].phase == Waiting then k < e.writes[0].ticket else k <= e.writes[0].ticket)
          && (e.writes[0].phase in {Sending, Settled(true), Caught(true)} ==> e.writes[0].ticket in sent)
          && (forall i :: 0 <= i < |e.writes| ==> Pinned(t, e.writes[i], queuedWith)))
  }

  ghost predicate Pinned(t: Id, w: Write, queuedWith: map<nat, Request>) {
    && w.ticket in queuedWith && queuedWith[w.ticket].terminal == t && queuedWith[w.ticket].bytes == w.bytes
    && PinnedFrom(w.pin, queuedWith[w.ticket])
  }

  function Lookup(q: Queue, t: Id): (entry: Option<Entry>) {
    if t in q.pending then Some(q.pending[t]) else None
  }

  ghost predicate TerminalInv(q: Queue, t: Id) {
    ChainInv(t, Lookup(q, t), SentTo(q.log, t), q.next, q.queuedWith)
  }

  /** A write's pin is what its workspace showed when it was queued. */
  ghost predicate PinnedFrom(pin: Option<Pin>, request: Request) {
    var b, w := request.bindings, request.workspace;
    if w in b.nativeIds && b.nativeIds[w] != "" then
      pin == Some(Pin(w, b.nativeIds[w], if w in b.generations then b.generations[w] else 0))
    else pin == None
  }

  /** A native write went to the terminal, in the generation, that its workspace showed when it was queued. */
  ghost predicate WellSent(q: Queue, s: Sent) {
    && s.pin.nativeId == s.terminal
    && StillBound(s.pin, s.bindings)
    && s.ticket in q.queuedWith && q.queuedWith[s.ticket].terminal == s.terminal
    && PinnedFrom(Some(s.pin), q.queuedWith[s.ticket])
  }

  ghost predicate Inv(q: Queue) {
    && (forall t :: TerminalInv(q, t))
    && (forall k: nat :: k in q.queuedWith <==> k < q.next)
    && (forall s :: s in q.log ==> WellSent(q, s))
    && (forall k :: k in q.results && q.results[k] ==> WasSent(q.log, k))
  }

  function Initial(bindings: Bindings): (q: Queue) {
    Queue(map[], bindings, 0, map[], [], map[])
  }

  // ----- Every step keeps it -----

  lemma ChainGrows(t: Id, entry: Option<Entry>, sent: seq<nat>, next: nat, queuedWith: map<nat, Request>,
                   r: Request)
    requires ChainInv(t, entry, sent, next, queuedWith) && next !in queuedWith
    ensures ChainInv(t, entry, sent, next + 1, queuedWith[next := r])
  {
  }

  lemma ChainEnqueues(t: Id, entry: Option<Entry>, sent: seq<nat>, next: nat, queuedWith: map<nat, Request>,
                      r: Request, w: Write)
    requires ChainInv(t, entry, sent, next, queuedWith) && next !in queuedWith
    requires w.ticket == next && w.phase == Waiting
    requires r.terminal == t && r.bytes == w.bytes && PinnedFrom(w.pin, r)
    requires !Full(if entry.Some? then entry.value else FreshEntry, w.bytes)
    ensures var e := if entry.Some? then entry.value else FreshEntry;
            ChainInv(t, Some(e.(writes := e.writes + [w], bytes := e.bytes + w.bytes, count := e.count + 1)),
                     sent, next + 1, queuedWith[next := r])
  {
    var e := if entry.Some? then entry.value else FreshEntry;
    hide PinnedFrom, Ascending;
    TotalBytesSnoc(e.writes, w);
  }

  lemma EnqueueKeeps(q: Queue, terminal: Id, workspace: Id, bytes: nat)
    requires Inv(q)
    ensures Inv(Apply(q, Enqueue(terminal, workspace, bytes)))
  {
    hide ChainInv;
    var r := Apply(q, Enqueue(terminal, workspace, bytes));
    var e := EntryOf(q, terminal);
    var request := Request(terminal, workspace, bytes, q.bindings);
    forall t ensures TerminalInv(r, t) {
      assert TerminalInv(q, t);
      if Full(e, bytes) {
        if t == terminal && t in q.pending {
          ChainFails(t, e, SentTo(q.log, t), q.next, q.queuedWith);
        }
      } else if t == terminal {
        var w := Write(q.next, bytes, PinTarget(q.bindings, workspace), Waiting);
        ChainEnqueues(t, Lookup(q, t), SentTo(q.log, t), q.next, q.queuedWith, request, w);
      } else {
        ChainGrows(t, Lookup(q, t), SentTo(q.log, t), q.next, q.queuedWith, request);
      }
    }
    forall s | s in r.log ensures WellSent(r, s) {
      assert WellSent(q, s);
    }
  }

  lemma ChainFails(t: Id, e: Entry, sent: seq<nat>, next: nat, queuedWith: map<nat, Request>)
    requires ChainInv(t, Some(e), sent, next, queuedWith)
    ensures ChainInv(t, Some(e.(failure := true)), sent, next, queuedWith)
  {
  }

  lemma AscendingSnoc(s: seq<nat>, k: nat)
    requires Ascending(s) && forall j :: j in s ==> j < k
    ensures Ascending(s + [k])
  {
    forall i, j | 0 <= i < j < |s| + 1 ensures (s + [k])[i] < (s + [k])[j] {
      assert s[i] in s;
    }
  }

  lemma EntryMoves(e: Entry, next: nat, phase: Phase)
    requires EntryInv(e, next)
    requires phase in {Sending, Settled(true), Caught(true)} ==> !e.tailFailed
    ensures EntryInv(Moved(e, phase), next)
  {
    var moved := Moved(e, phase);
    assert moved.writes[1..] == e.writes[1..];
    assert TotalBytes(moved.writes) == TotalBytes(e.writes);
    assert forall i :: 0 < i < |e.writes| ==> moved.writes[i] == e.writes[i];
  }

  /** The first write of a chain moves on; `Sending` adds its ticket to those sent. */
  lemma ChainMoves(t: Id, e: Entry, sent: seq<nat>, next: nat, queuedWith: map<nat, Request>, phase: Phase)
    requires ChainInv(t, Some(e), sent, next, queuedWith) && phase != Waiting
    requires phase == Sending ==> e.writes[0].phase == Waiting && !e.tailFailed
    requires phase in {Settled(true), Caught(true)} ==> e.writes[0].phase in {Sending, Settled(true)}
    ensures var sent' := if phase == Sending then sent + [e.writes[0].ticket] else sent;
            ChainInv(t, Some(Moved(e, phase)), sent', next, queuedWith)
  {
    EntryMoves(e, next, phase);
    var moved := Moved(e, phase);
    assert Pinned(t, e.writes[0], queuedWith);
    forall i | 0 <= i < |moved.writes| ensures Pinned(t, moved.writes[i], queuedWith) {
      if i > 0 { assert moved.writes[i] == e.writes[i]; }
    }
    if phase == Sending {
      AscendingSnoc(sent, e.writes[0].ticket);
    }
    hide EntryInv, Ascending;
  }

  lemma ChainEnds(t: Id, e: Entry, sent: seq<nat>, next: nat, queuedWith: map<nat, Request>)
    requires ChainInv(t, Some(e), sent, next, queuedWith) && e.writes[0].phase.Caught?
    ensures var w := e.writes[0];
            && ChainInv(t, if e.count - 1 == 0 then None
                        else Some(Entry(e.writes[1..], e.bytes - w.bytes, e.count - 1, e.failure, !w.phase.ok)),
                        sent, next, queuedWith)
  {
    var rest := e.writes[1..];
    assert forall i :: 0 <= i < |rest| ==> rest[i] == e.writes[i + 1];
    assert forall i :: 0 < i < |e.writes| ==> Pinned(t, e.writes[i], queuedWith);
  }

  /** Moves that send nothing: the chain's first write settles, is caught, or is refused its turn. */
  lemma MoveKeeps(q: Queue, terminal: Id, phase: Phase)
    requires Inv(q) && Head(q, terminal).Some? && phase != Waiting && phase != Sending
    requires phase in {Settled(true), Caught(true)} ==> Head(q, terminal).value in {Sending, Settled(true)}
    ensures Inv(WithHead(q, terminal, phase))
  {
    var r := WithHead(q, terminal, phase);
    assert TerminalInv(q, terminal);
    ChainMoves(terminal, q.pending[terminal], SentTo(q.log, terminal), q.next, q.queuedWith, phase);
    hide ChainInv, EntryInv;
    forall t ensures TerminalInv(r, t) {
      assert TerminalInv(q, t);
    }
    assert forall s :: s in q.log ==> WellSent(q, s) && WellSent(r, s);
  }

  lemma FailureKeeps(q: Queue, terminal: Id)
    requires Inv(q) && terminal in q.pending
    ensures Inv(q.(pending := q.pending[terminal := q.pending[terminal].(failure := true)]))
  {
    var r := q.(pending := q.pending[terminal := q.pending[terminal].(failure := true)]);
    assert TerminalInv(q, terminal);
    ChainFails(terminal, q.pending[terminal], SentTo(q.log, terminal), q.next, q.queuedWith);
    hide ChainInv, EntryInv;
    forall t ensures TerminalInv(r, t) {
      assert TerminalInv(q, t);
    }
    assert forall s :: s in q.log ==> WellSent(q, s) && WellSent(r, s);
  }

  lemma SendKeepsTerminal(q: Queue, terminal: Id, t: Id)
    requires TerminalInv(q, terminal) && TerminalInv(q, t)
    requires Head(q, terminal) == Some(Waiting) && MaySend(q, terminal)
    ensures TerminalInv(Apply(q, Start(terminal)), t)
  {
    hide ChainInv, SentTo, StillBound, Moved;
    var r := Apply(q, Start(terminal));
    var w := q.pending[terminal].writes[0];
    SentToSnoc(q.log, Sent(terminal, w.ticket, w.pin.value, q.bindings), t);
    if t == terminal {
      ChainMoves(t, q.pending[t], SentTo(q.log, t), q.next, q.queuedWith, Sending);
      assert Lookup(r, t) == Some(Moved(q.pending[t], Sending));
    } else {
      assert Lookup(r, t) == Lookup(q, t) && SentTo(r.log, t) == SentTo(q.log, t);
    }
  }

  lemma SendKeepsLog(q: Queue, terminal: Id)
    requires Inv(q) && Head(q, terminal) == Some(Waiting) && MaySend(q, terminal)
    ensures forall s :: s in Apply(q, Start(terminal)).log ==> WellSent(Apply(q, Start(terminal)), s)
  {
    var r := Apply(q, Start(terminal));
    var w := q.pending[terminal].writes[0];
    assert TerminalInv(q, terminal);
    assert Pinned(terminal, w, q.queuedWith);
    forall s | s in r.log ensures WellSent(r, s) {
      if s in q.log { assert WellSent(q, s); }
    }
  }

  lemma SendKeeps(q: Queue, terminal: Id)
    requires Inv(q) && Head(q, terminal) == Some(Waiting) && MaySend(q, terminal)
    ensures Inv(Apply(q, Start(terminal)))
  {
    var r := Apply(q, Start(terminal));
    SendKeepsLog(q, terminal);
    hide TerminalInv, WellSent;
    forall t ensures TerminalInv(r, t) {
      SendKeepsTerminal(q, terminal, t);
    }
    forall k | k in r.results && r.results[k] ensures WasSent(r.log, k) {
      var s :| s in q.log && s.ticket == k;
      assert s in r.log;
    }
  }

  lemma FinallyKeepsTerminal(q: Queue, terminal: Id, t: Id)
    requires TerminalInv(q, terminal) && TerminalInv(q, t) && Possible(q, Finally(terminal))
    ensures TerminalInv(Apply(q, Finally(terminal)), t)
  {
    hide ChainInv, SentTo;
    ChainEnds(terminal, q.pending[terminal], SentTo(q.log, terminal), q.next, q.queuedWith);
  }

  lemma FinallyKeepsResults(q: Queue, terminal: Id, k: nat)
    requires TerminalInv(q, terminal) && Possible(q, Finally(terminal))
    requires k in q.results && q.results[k] ==> WasSent(q.log, k)
    ensures var r := Apply(q, Finally(terminal)); k in r.results && r.results[k] ==> WasSent(r.log, k)
  {
    hide SentTo;
    var w := q.pending[terminal].writes[0];
    if w.phase.ok {
      SentToWasSent(q.log, terminal, w.ticket);
    }
  }

  lemma FinallyKeeps(q: Queue, terminal: Id)
    requires Inv(q) && Possible(q, Finally(terminal))
    ensures Inv(Apply(q, Finally(terminal)))
  {
    hide TerminalInv, WasSent;
    var r := Apply(q, Finally(terminal));
    forall t ensures TerminalInv(r, t) {
      FinallyKeepsTerminal(q, terminal, t);
    }
    forall k | k in r.results && r.results[k] ensures WasSent(r.log, k) {
      FinallyKeepsResults(q, terminal, k);
    }
    assert forall s :: s in q.log ==> WellSent(q, s) && WellSent(r, s);
  }

  lemma StepKeepsInv(q: Queue, step: Step)
    requires Inv(q) && Possible(q, step)
    ensures Inv(Apply(q, step))
  {
    match step
    case Enqueue(terminal, workspace, bytes) => EnqueueKeeps(q, terminal, workspace, bytes);
    case Start(terminal) =>
      if MaySend(q, terminal) { SendKeeps(q, terminal); } else { MoveKeeps(q, terminal, Settled(false)); }
    case Settle(terminal, ok) => MoveKeeps(q, terminal, Settled(ok));
    case Catch(terminal) =>
      var ok := Head(q, terminal).value.ok;
      MoveKeeps(q, terminal, Caught(ok));
      if !ok { FailureKeeps(WithHead(q, terminal, Caught(ok)), terminal); }
    case Finally(terminal) => FinallyKeeps(q, terminal);
    case Rebind(_) =>
      var r := Apply(q, step);
      forall t ensures TerminalInv(r, t) {
        assert TerminalInv(q, t);
      }
      forall s | s in r.log ensures WellSent(r, s) {
        assert WellSent(q, s);
      }
  }

  // ----- Runs -----

  ghost predicate IsRun(q: Queue, steps: seq<Step>)
    decreases steps
  {
    steps == [] || (Possible(q, steps[0]) && IsRun(Apply(q, steps[0]), steps[1..]))
  }

  function End(q: Queue, steps: seq<Step>): (r: Queue)
    requires IsRun(q, steps)
    decreases steps
  {
    if steps == [] then q else End(Apply(q, steps[0]), steps[1..])
  }

  lemma {:induction false} RunKeepsInv(q: Queue, steps: seq<Step>)
    requires Inv(q) && IsRun(q, steps)
    ensures Inv(End(q, steps))
    decreases steps
  {
    if steps != [] {
      StepKeepsInv(q, steps[0]);
      RunKeepsInv(Apply(q, steps[0]), steps[1..]);
    }
  }

  /** How many writes to a terminal are between the start and the end of their send. */
  function InFlight(writes: seq<Write>): (n: nat) {
    if writes == [] then 0 else (if writes[0].phase == Sending then 1 else 0) + InFlight(writes[1..])
  }

  lemma {:induction false} NoneInFlight(writes: seq<Write>)
    requires forall i :: 0 <= i < |writes| ==> writes[i].phase != Sending
    ensures InFlight(writes) == 0
  {
    if writes != [] {
      NoneInFlight(writes[1..]);
    }
  }

  /**
    Over every interleaving: at most one send per terminal is in flight; sends to a terminal start in the
    order of its writes, each at most once; the byte and write counters are the sums over the unfinished
    writes and stay within 1 MiB and 128; an entry exists exactly while it has unfinished writes; and a
    write that is reported as done was sent.
   */
  lemma OneSendAtATimeInOrder(bindings: Bindings, steps: seq<Step>, t: Id)
    requires IsRun(Initial(bindings), steps)
    ensures var q := End(Initial(bindings), steps);
            && Ascending(SentTo(q.log, t))
            && (t in q.pending ==>
                  var e := q.pending[t];
                  && InFlight(e.writes) <= 1
                  && 0 < e.count == |e.writes| <= 128
                  && e.bytes == TotalBytes(e.writes) <= 1048576)
            && (forall k :: k in q.results && q.results[k] ==> WasSent(q.log, k))
  {
    InitialInv(bindings);
    RunKeepsInv(Initial(bindings), steps);
    var q := End(Initial(bindings), steps);
    assert TerminalInv(q, t);
    if t in q.pending {
      NoneInFlight(q.pending[t].writes[1..]);
    }
  }

  lemma InitialInv(bindings: Bindings)
    ensures Inv(Initial(bindings))
  {
  }

  /**
    Every native write of a run found its workspace bound to the same native terminal, in the same
    generation, as when the write was queued; and that terminal is the one it was queued for.
   */
  lemma SendsReachTheQueuedTarget(bindings: Bindings, steps: seq<Step>, s: Sent)
    requires IsRun(Initial(bindings), steps) && s in End(Initial(bindings), steps).log
    ensures var q := End(Initial(bindings), steps);
            var w := s.pin.workspace;
            && s.ticket in q.queuedWith
            && q.queuedWith[s.ticket].workspace == w && q.queuedWith[s.ticket].terminal == s.terminal
            && var queued := q.queuedWith[s.ticket].bindings;
            && w in queued.nativeIds && w in s.bindings.nativeIds
            && queued.nativeIds[w] == s.bindings.nativeIds[w] == s.terminal
            && (if w in queued.generations then queued.generations[w] else 0) ==
               if w in s.bindings.generations then s.bindings.generations[w] else 0
  {
    InitialInv(bindings);
    RunKeepsInv(Initial(bindings), steps);
    assert WellSent(End(Initial(bindings), steps), s);
  }

  // ----- After a failure -----

  lemma EntryBasics(q: Queue, t: Id)
    requires Inv(q) && t in q.pending
    ensures var e := q.pending[t];
            && e.writes != [] && e.count == |e.writes|
            && (e.writes[0].phase in {Sending, Settled(true), Caught(true)} ==> !e.tailFailed)
  {
    assert TerminalInv(q, t);
  }

  /** A step of another chain, or a change of the bindings, leaves the entry and its sends alone. */
  lemma OtherStepsPass(q: Queue, step: Step, t: Id)
    requires Possible(q, step) && t in q.pending && (step.Rebind? || step.terminal != t)
    ensures var r := Apply(q, step);
            t in r.pending && r.pending[t] == q.pending[t] && SentTo(r.log, t) == SentTo(q.log, t)
  {
    hide SentTo, Full, StillBound, PinTarget;
    if step.Start? && MaySend(q, step.terminal) {
      var w := q.pending[step.terminal].writes[0];
      SentToSnoc(q.log, Sent(step.terminal, w.ticket, w.pin.value, q.bindings), t);
    }
  }

  lemma DoomedEnqueue(q: Queue, step: Step)
    requires step.Enqueue? && step.terminal in q.pending
    requires q.pending[step.terminal].writes != [] && Doomed(q.pending[step.terminal])
    ensures var r := Apply(q, step);
            step.terminal in r.pending && Doomed(r.pending[step.terminal]) && r.log == q.log
  {
    hide Full, PinTarget;
  }

  lemma DoomedMove(q: Queue, step: Step)
    requires Possible(q, step) && (step.Start? || step.Settle? || step.Catch?)
    requires step.terminal in q.pending && Doomed(q.pending[step.terminal])
    requires var e := q.pending[step.terminal]; e.writes[0].phase in {Sending, Settled(true)} ==> !e.tailFailed
    ensures var r := Apply(q, step);
            step.terminal in r.pending && Doomed(r.pending[step.terminal]) && r.log == q.log
  {
    hide StillBound;
  }

  lemma DoomedEnd(q: Queue, step: Step)
    requires Possible(q, step) && step.Finally?
    requires step.terminal in q.pending && Doomed(q.pending[step.terminal])
    requires q.pending[step.terminal].writes[0].phase == Caught(true) ==> !q.pending[step.terminal].tailFailed
    ensures var r := Apply(q, step);
            (step.terminal in r.pending ==> Doomed(r.pending[step.terminal])) && r.log == q.log
  {
  }

  /** A failed or overflowed chain stays so for as long as its entry exists, and nothing more is sent on it. */
  lemma DoomedStaysDoomed(q: Queue, step: Step, t: Id)
    requires Inv(q) && Possible(q, step) && t in q.pending && Doomed(q.pending[t])
    ensures var r := Apply(q, step);
            && (t in r.pending ==> Doomed(r.pending[t]))
            && SentTo(r.log, t) == SentTo(q.log, t)
  {
    hide Inv, Apply, Doomed, SentTo;
    EntryBasics(q, t);
    if step.Rebind? || step.terminal != t {
      OtherStepsPass(q, step, t);
    } else if step.Enqueue? {
      DoomedEnqueue(q, step);
    } else if step.Finally? {
      DoomedEnd(q, step);
    } else {
      DoomedMove(q, step);
    }
  }

  /** The entry for `t` survives every step of the run. */
  ghost predicate Survives(q: Queue, steps: seq<Step>, t: Id)
    requires IsRun(q, steps)
    decreases steps
  {
    t in q.pending && (steps == [] || Survives(Apply(q, steps[0]), steps[1..], t))
  }

  lemma {:induction false} NothingSentAfterFailure(q: Queue, steps: seq<Step>, t: Id)
    requires Inv(q) && IsRun(q, steps) && Survives(q, steps, t) && Doomed(q.pending[t])
    ensures SentTo(End(q, steps).log, t) == SentTo(q.log, t)
    decreases steps
  {
    if steps != [] {
      StepKeepsInv(q, steps[0]);
      DoomedStaysDoomed(q, steps[0], t);
      NothingSentAfterFailure(Apply(q, steps[0]), steps[1..], t);
    }
  }

  // ----- Which writes are sent, which fail -----

  /** The workspace of the request showed its terminal then, and shows it, in the same generation, now. */
  ghost predicate BoundSince(request: Request, now: Bindings) {
    var w, t, was := request.workspace, request.terminal, request.bindings;
    && t != "" && w in was.nativeIds && was.nativeIds[w] == t && w in now.nativeIds && now.nativeIds[w] == t
    && (if w in was.generations then was.generations[w] else 0) ==
       if w in now.generations then now.generations[w] else 0
  }

  /** So it is with the next write to a terminal. */
  ghost predicate Bound(q: Queue, t: Id) {
    && t in q.pending && q.pending[t].writes != [] && q.pending[t].writes[0].ticket in q.queuedWith
    && BoundSince(q.queuedWith[q.pending[t].writes[0].ticket], q.bindings)
  }

  /** The three ways a chain fails: a write without room, a write whose target is gone, a send that is rejected. */
  ghost predicate Dooms(q: Queue, step: Step, t: Id) {
    match step
    case Enqueue(terminal, _, bytes) =>
      terminal == t && t in q.pending && (q.pending[t].bytes + bytes > 1048576 || q.pending[t].count >= 128)
    case Start(terminal) => terminal == t && !Bound(q, t)
    case Settle(terminal, ok) => terminal == t && !ok
    case _ => false
  }

  lemma WriteIsPinned(q: Queue, t: Id, w: Write)
    requires Inv(q) && t in q.pending && w in q.pending[t].writes
    ensures Pinned(t, w, q.queuedWith) && w.ticket < q.next
  {
    assert TerminalInv(q, t);
  }

  lemma LaterWrites(q: Queue, t: Id)
    requires Inv(q) && t in q.pending
    ensures var e := q.pending[t];
            && e.writes != [] && e.count == |e.writes|
            && forall w :: w in e.writes[1..] ==>
                 w in e.writes && w.phase == Waiting && w.ticket != e.writes[0].ticket
  {
    assert TerminalInv(q, t);
  }

  lemma HeadIsPinned(q: Queue, t: Id)
    requires Inv(q) && t in q.pending
    ensures q.pending[t].writes != [] && Pinned(t, q.pending[t].writes[0], q.queuedWith)
  {
    assert TerminalInv(q, t);
  }

  /** A turn leads to a send if and only if nothing has failed and the target still stands. */
  lemma TurnSends(q: Queue, t: Id)
    requires Inv(q) && Head(q, t) == Some(Waiting)
    ensures MaySend(q, t) <==> !Doomed(q.pending[t]) && Bound(q, t)
  {
    HeadIsPinned(q, t);
  }

  lemma EndedEntry(q: Queue, t: Id)
    requires Inv(q) && Possible(q, Finally(t)) && t in Apply(q, Finally(t)).pending
    ensures Doomed(Apply(q, Finally(t)).pending[t]) <==> Doomed(q.pending[t])
  {
    hide Inv;
    EntryBasics(q, t);
    LaterWrites(q, t);
    var e := q.pending[t];
    assert e.writes[1] in e.writes[1..];
  }

  /** Nothing but these steps dooms a chain, and nothing lifts the doom; a new entry starts clean. */
  lemma DoomedExactlyWhen(q: Queue, step: Step, t: Id)
    requires Inv(q) && Possible(q, step) && t in Apply(q, step).pending
    ensures Doomed(Apply(q, step).pending[t]) <==>
            (t in q.pending && Doomed(q.pending[t])) || Dooms(q, step, t)
  {
    hide Inv, StillBound, PinTarget, Bound, Pinned, SentTo;
    if t in q.pending {
      EntryBasics(q, t);
      LaterWrites(q, t);
      if step.Rebind? || step.terminal != t {
        OtherStepsPass(q, step, t);
      } else if step.Start? {
        TurnSends(q, t);
      } else if step.Finally? {
        EndedEntry(q, t);
      }
    }
  }

  /** The sends of a step: that of the next write at its turn, if and only if nothing has failed, and no other. */
  lemma SendsExactlyWhen(q: Queue, step: Step)
    requires Inv(q) && Possible(q, step)
    ensures var log := Apply(q, step).log;
            if step.Start? && !Doomed(q.pending[step.terminal]) && Bound(q, step.terminal) then
              var w := q.pending[step.terminal].writes[0];
              && |log| == |q.log| + 1 && q.log <= log
              && var sent := log[|q.log|];
              && sent.terminal == step.terminal && sent.ticket == w.ticket && sent.bindings == q.bindings
              && sent.pin.workspace == q.queuedWith[w.ticket].workspace
            else log == q.log
  {
    hide Inv, StillBound, PinTarget;
    if step.Start? {
      TurnSends(q, step.terminal);
      HeadIsPinned(q, step.terminal);
    }
  }

  /** The ticket whose send has just been answered with success. */
  function Won(q: Queue, step: Step): (tickets: set<nat>) {
    if step.Settle? && step.ok && Head(q, step.terminal).Some?
    then {q.pending[step.terminal].writes[0].ticket}
    else {}
  }

  /** The tickets whose sends a run answers with success. */
  function WonIn(q: Queue, steps: seq<Step>): (tickets: set<nat>)
    requires IsRun(q, steps)
    decreases steps
  {
    if steps == [] then {} else Won(q, steps[0]) + WonIn(Apply(q, steps[0]), steps[1..])
  }

  ghost predicate InChain(q: Queue, k: nat) {
    k in q.queuedWith && q.queuedWith[k].terminal in q.pending
    && exists w :: w in q.pending[q.queuedWith[k].terminal].writes && w.ticket == k
  }

  ghost predicate EntryLedger(e: Entry, results: map<nat, bool>, won: set<nat>) {
    forall w :: w in e.writes ==>
      w.ticket !in results && (w.ticket in won <==> w.phase in {Settled(true), Caught(true)})
  }

  /** Every write that got in is in its chain or has a result, which is a success if its send was. */
  ghost predicate Ledger(q: Queue, won: set<nat>) {
    && (forall t :: t in q.pending ==> EntryLedger(q.pending[t], q.results, won))
    && (forall k :: k in q.results ==> k < q.next && (q.results[k] <==> k in won))
    && (forall k :: k in won ==> k < q.next)
    && (forall k: nat :: k < q.next ==> k in q.results || InChain(q, k))
  }

  lemma EnqueueStaysInChain(q: Queue, step: Step, k: nat)
    requires step.Enqueue? && k in Apply(q, step).queuedWith
    requires if k == q.next then k !in q.queuedWith else InChain(q, k)
    ensures InChain(Apply(q, step), k)
  {
    hide PinTarget, Full;
    var r := Apply(q, step);
    if k == q.next {
      var writes := r.pending[step.terminal].writes;
      assert writes[|writes| - 1] in writes;
    } else {
      var w :| w in q.pending[q.queuedWith[k].terminal].writes && w.ticket == k;
      assert w in r.pending[q.queuedWith[k].terminal].writes;
    }
  }

  lemma EnqueueKeepsLedger(q: Queue, step: Step, won: set<nat>)
    requires Inv(q) && Ledger(q, won) && step.Enqueue?
    ensures Ledger(Apply(q, step), won)
  {
    var r := Apply(q, step);
    assert q.next !in q.queuedWith;
    hide Inv, PinTarget, Full, Pinned, InChain;
    forall t | t in r.pending ensures EntryLedger(r.pending[t], r.results, won) {
    }
    forall k: nat | k < r.next ensures k in r.results || InChain(r, k) {
      if k !in q.results {
        NextIsQueued(q, step, k);
        EnqueueStaysInChain(q, step, k);
      }
    }
  }

  lemma NextIsQueued(q: Queue, step: Step, k: nat)
    requires Inv(q) && step.Enqueue? && k < Apply(q, step).next
    ensures k in Apply(q, step).queuedWith && k <= q.next
  {
    hide Full, PinTarget;
  }

  lemma ApartFromHead(q: Queue, t: Id, u: Id, w: Write)
    requires Inv(q) && t in q.pending && u in q.pending && w in q.pending[u].writes
    ensures q.pending[t].writes != []
    ensures w.ticket == q.pending[t].writes[0].ticket <==> u == t && w == q.pending[t].writes[0]
  {
    hide Inv;
    LaterWrites(q, t);
    WriteIsPinned(q, t, q.pending[t].writes[0]);
    WriteIsPinned(q, u, w);
    assert q.pending[t].writes == [q.pending[t].writes[0]] + q.pending[t].writes[1..];
  }

  lemma StaysInChain(q: Queue, r: Queue, t: Id, phase: Phase, k: nat)
    requires InChain(q, k) && t in q.pending && q.pending[t].writes != [] && r.queuedWith == q.queuedWith
    requires r.pending.Keys == q.pending.Keys && r.pending[t].writes == Moved(q.pending[t], phase).writes
    requires forall u :: u in q.pending && u != t ==> r.pending[u] == q.pending[u]
    ensures InChain(r, k)
  {
    var u := q.queuedWith[k].terminal;
    var w :| w in q.pending[u].writes && w.ticket == k;
    if u == t {
      var i :| 0 <= i < |q.pending[t].writes| && q.pending[t].writes[i] == w;
      assert r.pending[t].writes[i].ticket == k && r.pending[t].writes[i] in r.pending[t].writes;
    }
  }

  lemma MovedWrites(e: Entry, phase: Phase, w: Write)
    requires e.writes != [] && w in Moved(e, phase).writes
    ensures w == e.writes[0].(phase := phase) || w in e.writes[1..]
  {
  }

  /** The head of a chain moves on; it has won if and only if its send has been answered with success. */
  lemma MoveKeepsLedger(q: Queue, r: Queue, t: Id, phase: Phase, won: set<nat>)
    requires Inv(q) && Ledger(q, won) && t in q.pending && q.pending[t].writes != []
    requires r.results == q.results && r.next == q.next && r.queuedWith == q.queuedWith
    requires r.pending.Keys == q.pending.Keys && r.pending[t].writes == Moved(q.pending[t], phase).writes
    requires forall u :: u in q.pending && u != t ==> r.pending[u] == q.pending[u]
    requires q.pending[t].writes[0].phase in {Settled(true), Caught(true)} ==> phase == Caught(true)
    ensures Ledger(r, won + if phase in {Settled(true), Caught(true)} then {q.pending[t].writes[0].ticket} else {})
  {
    var e := q.pending[t];
    var head := e.writes[0];
    var won' := won + if phase in {Settled(true), Caught(true)} then {head.ticket} else {};
    assert EntryLedger(e, q.results, won) && head in e.writes;
    WriteIsPinned(q, t, head);
    LaterWrites(q, t);
    hide Inv, Pinned, InChain;
    forall u | u in r.pending ensures EntryLedger(r.pending[u], r.results, won') {
      assert EntryLedger(q.pending[u], q.results, won);
      forall w | w in r.pending[u].writes
        ensures w.ticket !in r.results && (w.ticket in won' <==> w.phase in {Settled(true), Caught(true)})
      {
        if u == t {
          MovedWrites(e, phase, w);
        } else {
          ApartFromHead(q, t, u, w);
        }
      }
    }
    forall k: nat | k < r.next ensures k in r.results || InChain(r, k) {
      if k !in q.results {
        StaysInChain(q, r, t, phase, k);
      }
    }
  }

  lemma FinallyKeepsLedger(q: Queue, t: Id, won: set<nat>)
    requires Inv(q) && Ledger(q, won) && Possible(q, Finally(t))
    ensures Ledger(Apply(q, Finally(t)), won)
  {
    var e := q.pending[t];
    var head := e.writes[0];
    var r := Apply(q, Finally(t));
    assert EntryLedger(e, q.results, won) && head in e.writes;
    WriteIsPinned(q, t, head);
    LaterWrites(q, t);
    hide Inv, Pinned;
    forall u | u in r.pending ensures EntryLedger(r.pending[u], r.results, won) {
      assert EntryLedger(q.pending[u], q.results, won);
      forall w | w in r.pending[u].writes
        ensures w.ticket !in r.results && (w.ticket in won <==> w.phase in {Settled(true), Caught(true)})
      {
        assert w in q.pending[u].writes && (u == t ==> w in e.writes[1..]);
        ApartFromHead(q, t, u, w);
      }
    }
    forall k: nat | k < r.next ensures k in r.results || InChain(r, k) {
      if k !in r.results {
        assert InChain(q, k);
        var u := q.queuedWith[k].terminal;
        var w :| w in q.pending[u].writes && w.ticket == k;
        if u == t {
          assert e.writes == [head] + e.writes[1..];
          assert w in e.writes[1..];
        }
      }
    }
  }

  lemma StepKeepsLedger(q: Queue, step: Step, won: set<nat>)
    requires Inv(q) && Possible(q, step) && Ledger(q, won)
    ensures Ledger(Apply(q, step), won + Won(q, step))
  {
    hide Inv, Full, PinTarget, StillBound, EntryLedger, InChain;
    var r := Apply(q, step);
    assert won + {} == won;
    match step
    case Enqueue(_, _, _) => EnqueueKeepsLedger(q, step, won);
    case Start(t) => MoveKeepsLedger(q, r, t, if MaySend(q, t) then Sending else Settled(false), won);
    case Settle(t, ok) => MoveKeepsLedger(q, r, t, Settled(ok), won);
    case Catch(t) =>
      HeadHasWon(q, t, won);
      MoveKeepsLedger(q, r, t, Caught(q.pending[t].writes[0].phase.ok), won);
    case Finally(t) => FinallyKeepsLedger(q, t, won);
    case Rebind(_) =>
      assert forall k: nat :: InChain(q, k) ==> InChain(r, k) by { RebindKeepsChains(q, step); }
  }

  lemma HeadHasWon(q: Queue, t: Id, won: set<nat>)
    requires Ledger(q, won) && Possible(q, Catch(t))
    ensures q.pending[t].writes[0].phase.ok ==> won + {q.pending[t].writes[0].ticket} == won
  {
  }

  lemma RebindKeepsChains(q: Queue, step: Step)
    requires step.Rebind?
    ensures forall k: nat :: InChain(q, k) ==> InChain(Apply(q, step), k)
  {
  }

  lemma {:induction false} RunKeepsLedger(q: Queue, steps: seq<Step>, won: set<nat>)
    requires Inv(q) && IsRun(q, steps) && Ledger(q, won)
    ensures Ledger(End(q, steps), won + WonIn(q, steps))
    decreases steps
  {
    hide Inv, Ledger, Won;
    if steps == [] {
      assert won + {} == won;
    } else {
      StepKeepsInv(q, steps[0]);
      StepKeepsLedger(q, steps[0], won);
      RunKeepsLedger(Apply(q, steps[0]), steps[1..], won + Won(q, steps[0]));
      var rest := WonIn(Apply(q, steps[0]), steps[1..]);
      assert won + Won(q, steps[0]) + rest == won + (Won(q, steps[0]) + rest);
    }
  }

  /**
    Over every run: each write that got in is in the chain of its terminal until it has a result, and the
    result is a success if and only if its send was answered with success.
   */
  lemma ResultsAreExact(bindings: Bindings, steps: seq<Step>, k: nat)
    requires IsRun(Initial(bindings), steps) && k < End(Initial(bindings), steps).next
    ensures var q := End(Initial(bindings), steps);
            && (k in q.results <==> !InChain(q, k))
            && (k in q.results ==> (q.results[k] <==> k in WonIn(Initial(bindings), steps)))
  {
    InitialInv(bindings);
    RunKeepsInv(Initial(bindings), steps);
    RunKeepsLedger(Initial(bindings), steps, {});
    var q := End(Initial(bindings), steps);
    hide Inv;
    assert {} + WonIn(Initial(bindings), steps) == WonIn(Initial(bindings), steps);
    if InChain(q, k) {
      assert EntryLedger(q.pending[q.queuedWith[k].terminal], q.results, WonIn(Initial(bindings), steps));
    }
  }

  /** No step of the run makes a chain of this terminal fail. */
  ghost predicate Undisturbed(q: Queue, steps: seq<Step>, t: Id)
    requires IsRun(q, steps)
    decreases steps
  {
    steps == [] || (!Dooms(q, steps[0], t) && Undisturbed(Apply(q, steps[0]), steps[1..], t))
  }

  /** The chain of this terminal is clean, and so is all that has ended on it. */
  ghost predicate Clean(q: Queue, t: Id) {
    && (t in q.pending ==> !Doomed(q.pending[t]))
    && forall k :: k in q.results && k in q.queuedWith && q.queuedWith[k].terminal == t ==> q.results[k]
  }

  lemma StepKeepsClean(q: Queue, step: Step, t: Id)
    requires Inv(q) && Possible(q, step) && Clean(q, t) && !Dooms(q, step, t)
    requires forall k :: k in q.results ==> k < q.next
    ensures Clean(Apply(q, step), t)
  {
    var r := Apply(q, step);
    if t in r.pending {
      DoomedExactlyWhen(q, step, t);
    }
    if step.Finally? {
      HeadIsPinned(q, step.terminal);
    }
    hide Inv, Dooms, Pinned;
  }

  lemma {:induction false} RunKeepsClean(q: Queue, steps: seq<Step>, t: Id, won: set<nat>)
    requires Inv(q) && Ledger(q, won) && Clean(q, t) && IsRun(q, steps) && Undisturbed(q, steps, t)
    ensures Clean(End(q, steps), t)
    decreases steps
  {
    hide Inv, Clean, Dooms, Won, EntryLedger, InChain;
    if steps != [] {
      StepKeepsInv(q, steps[0]);
      StepKeepsLedger(q, steps[0], won);
      StepKeepsClean(q, steps[0], t);
      RunKeepsClean(Apply(q, steps[0]), steps[1..], t, won + Won(q, steps[0]));
    }
  }

  lemma {:induction false} SentToHas(log: seq<Sent>, i: nat)
    requires i < |log|
    ensures log[i].ticket in SentTo(log, log[i].terminal)
    decreases |log|
  {
    if i < |log| - 1 {
      SentToHas(log[..|log| - 1], i);
    }
  }

  lemma {:induction false} AscendingOnce(s: seq<nat>, k: nat)
    requires Ascending(s) && k in s
    ensures multiset(s)[k] == 1
  {
    var rest := s[..|s| - 1];
    assert s == rest + [s[|s| - 1]];
    if k in rest {
      AscendingOnce(rest, k);
    }
  }

  lemma SentOnce(q: Queue, k: nat)
    requires Inv(q) && k in q.results && q.results[k] && k in q.queuedWith
    ensures multiset(SentTo(q.log, q.queuedWith[k].terminal))[k] == 1
  {
    assert WasSent(q.log, k);
    var i :| 0 <= i < |q.log| && q.log[i].ticket == k;
    assert WellSent(q, q.log[i]) && TerminalInv(q, q.log[i].terminal);
    SentToHas(q.log, i);
    AscendingOnce(SentTo(q.log, q.log[i].terminal), k);
  }

  /**
    Over every run in which no write to a terminal lacks room, finds its target gone or has its send
    rejected: the chain of that terminal never fails, and each of its writes that has ended was sent
    exactly once and succeeded.
   */
  lemma UndisturbedWritesSucceed(bindings: Bindings, steps: seq<Step>, t: Id, k: nat)
    requires IsRun(Initial(bindings), steps) && Undisturbed(Initial(bindings), steps, t)
    ensures var q := End(Initial(bindings), steps);
            && (t in q.pending ==> !Doomed(q.pending[t]))
            && (k in q.results && k in q.queuedWith && q.queuedWith[k].terminal == t ==>
                  q.results[k] && multiset(SentTo(q.log, t))[k] == 1)
  {
    InitialInv(bindings);
    RunKeepsInv(Initial(bindings), steps);
    RunKeepsClean(Initial(bindings), steps, t, {});
    var q := End(Initial(bindings), steps);
    hide Inv;
    if k in q.results && k in q.queuedWith && q.queuedWith[k].terminal == t {
      SentOnce(q, k);
    }
  }

  lemma FourSteps(q: Queue, a: Step, b: Step, c: Step, d: Step)
    requires Possible(q, a) && Possible(Apply(q, a), b) && Possible(Apply(Apply(q, a), b), c)
    requires Possible(Apply(Apply(Apply(q, a), b), c), d)
    ensures IsRun(q, [a, b, c, d]) && End(q, [a, b, c, d]) == Apply(Apply(Apply(Apply(q, a), b), c), d)
  {
    hide Possible, Apply;
    assert [a, b, c, d][1..] == [b, c, d] && [b, c, d][1..] == [c, d] && [c, d][1..] == [d] && [d][1..] == [];
    var q1 := Apply(q, a);
    var q2 := Apply(q1, b);
    var q3 := Apply(q2, c);
    assert IsRun(q3, [d]) && IsRun(q2, [c, d]) && IsRun(q1, [b, c, d]);
    assert End(q3, [d]) == End(Apply(q3, d), []);
    assert End(q2, [c, d]) == End(q3, [d]) && End(q1, [b, c, d]) == End(q2, [c, d]);
  }

  /** The entry without its first write, which has succeeded. */
  function WithoutFirst(e: Entry): (r: Entry)
    requires e.writes != []
  {
    Entry(e.writes[1..], e.bytes - e.writes[0].bytes, e.count - 1, e.failure, false)
  }

  lemma WithoutFirstIsClean(q: Queue, t: Id)
    requires Inv(q) && t in q.pending && q.pending[t].writes != [] && !Doomed(q.pending[t])
    ensures var e, r := q.pending[t], WithoutFirst(q.pending[t]);
            && e.count == |e.writes| && !Doomed(r) && WithoutFirst(Moved(e, Settled(true))) == r
            && r == Entry(e.writes[1..], e.bytes - e.writes[0].bytes, e.count - 1, false, false)
  {
    LaterWrites(q, t);
    hide Inv;
    var e := q.pending[t];
    assert Moved(e, Settled(true)).writes[1..] == e.writes[1..];
    if |e.writes| > 1 {
      assert e.writes[1] in e.writes[1..];
    }
  }

  lemma SendIsAnswered(q: Queue, t: Id)
    requires Head(q, t) == Some(Waiting) && MaySend(q, t)
    ensures var e := q.pending[t];
            var w := e.writes[0];
            && Possible(q, Start(t)) && Possible(Apply(q, Start(t)), Settle(t, true))
            && Apply(Apply(q, Start(t)), Settle(t, true)) ==
               q.(pending := q.pending[t := Moved(e, Settled(true))],
                  log := q.log + [Sent(t, w.ticket, w.pin.value, q.bindings)])
  {
    hide StillBound;
    var e := q.pending[t];
    assert Moved(Moved(e, Sending), Settled(true)) == Moved(e, Settled(true));
  }

  lemma AnswerIsRecorded(q: Queue, t: Id)
    requires Head(q, t) == Some(Settled(true))
    ensures var e := q.pending[t];
            var w := e.writes[0];
            && Possible(q, Catch(t)) && Possible(Apply(q, Catch(t)), Finally(t))
            && Apply(Apply(q, Catch(t)), Finally(t)) ==
               q.(results := q.results[w.ticket := true],
                  pending := if e.count == 1 then q.pending - {t} else q.pending[t := WithoutFirst(e)])
  {
    var e := q.pending[t];
    assert Moved(e, Caught(true)).writes[1..] == e.writes[1..];
    assert q.pending[t := Moved(e, Caught(true))] - {t} == q.pending - {t};
  }

  /**
    A write whose turn comes on a chain without failures, with its target still bound, and whose send
    succeeds: it is sent once, ends as a success, gives its room back and leaves the chain without failures.
   */
  lemma CleanWriteSucceeds(q: Queue, t: Id)
    requires Inv(q) && Head(q, t) == Some(Waiting) && !Doomed(q.pending[t]) && Bound(q, t)
    ensures var steps := [Start(t), Settle(t, true), Catch(t), Finally(t)];
            var w, e := q.pending[t].writes[0], q.pending[t];
            && IsRun(q, steps)
            && var r := End(q, steps);
            && r.results == q.results[w.ticket := true]
            && |r.log| == |q.log| + 1 && q.log <= r.log
            && r.log[|q.log|].terminal == t && r.log[|q.log|].ticket == w.ticket
            && r.pending.Keys == (if |e.writes| == 1 then q.pending.Keys - {t} else q.pending.Keys)
            && (t in r.pending ==>
                  && !Doomed(r.pending[t])
                  && r.pending[t] == Entry(e.writes[1..], e.bytes - w.bytes, e.count - 1, false, false))
  {
    TurnSends(q, t);
    WithoutFirstIsClean(q, t);
    SendIsAnswered(q, t);
    AnswerIsRecorded(Apply(Apply(q, Start(t)), Settle(t, true)), t);
    FourSteps(q, Start(t), Settle(t, true), Catch(t), Finally(t));
    hide Inv, StillBound, Bound, PinTarget, Apply, Possible, MaySend, Doomed, WithoutFirst, IsRun, End;
  }

  // ----- The queue object -----

  /** `TerminalInputQueue` and the callbacks of its promise chains, in the environment they run in. */
  class TerminalInputQueue {
    var pending: map<Id, Entry>
    var bindings: Bindings
    var next: nat
    ghost var queuedWith: map<nat, Request>
    ghost var log: seq<Sent>
    ghost var results: map<nat, bool>

    ghost function Model(): (q: Queue)
      reads this
    {
      Queue(pending, bindings, next, queuedWith, log, results)
    }

    constructor (bindings: Bindings)
      ensures Model() == Initial(bindings) && Inv(Model())
    {
      pending, this.bindings, next := map[], bindings, 0;
      queuedWith, log, results := map[], [], map[];
      new;
      InitialInv(bindings);
    }

    /** `writeTerminalInput` and `enqueue`: pins the target and chains the write, or refuses it for lack of room. */
    method Enqueue(terminalId: Id, workspace: Id, bytes: nat) returns (accepted: bool)
      requires Inv(Model())
      modifies this
      ensures Inv(Model()) && Model() == Apply(old(Model()), Step.Enqueue(terminalId, workspace, bytes))
      ensures accepted <==> if terminalId !in old(pending) then bytes <= 1048576
                            else
                              && old(pending)[terminalId].bytes + bytes <= 1048576
                              && old(pending)[terminalId].count < 128
      ensures accepted ==> next == old(next) + 1 && terminalId in pending && pending[terminalId].writes != [] &&
                           pending[terminalId].writes[|pending[terminalId].writes| - 1].ticket == old(next)
    {
      hide Inv, PinTarget;
      StepKeepsInv(Model(), Step.Enqueue(terminalId, workspace, bytes));
      var lifecycle := PinTarget(bindings, workspace);
      var known := terminalId in pending;
      var entry := if known then pending[terminalId] else FreshEntry;
      if entry.bytes + bytes > MAX_PENDING_INPUT_BYTES || entry.count >= MAX_PENDING_INPUT_WRITES {
        entry := entry.(failure := true);
        if known {
          pending := pending[terminalId := entry];
        }
        return false;
      }
      entry := entry.(bytes := entry.bytes + bytes);
      entry := entry.(count := entry.count + 1);
      entry := entry.(writes := entry.writes + [Write(next, bytes, lifecycle, Waiting)]);
      pending := pending[terminalId := entry];
      queuedWith := queuedWith[next := Request(terminalId, workspace, bytes, bindings)];
      next := next + 1;
      return true;
    }

    /** The `then` callback, when the previous write has settled: send, unless the chain or the target is stale. */
    method RunThen(terminalId: Id) returns (sent: bool)
      requires Inv(Model()) && Possible(Model(), Start(terminalId))
      modifies this
      ensures Inv(Model()) && Model() == Apply(old(Model()), Start(terminalId))
      ensures sent <==> !Doomed(old(Model()).pending[terminalId]) && Bound(old(Model()), terminalId)
    {
      StepKeepsInv(Model(), Start(terminalId));
      TurnSends(Model(), terminalId);
      var entry := pending[terminalId];
      var write := entry.writes[0];
      sent := false;
      if !entry.tailFailed && !entry.failure {
        if write.pin.Some? && write.pin.value.nativeId == terminalId && StillBound(write.pin.value, bindings) {
          sent := true;
          log := log + [Sent(terminalId, write.ticket, write.pin.value, bindings)];
        }
      }
      write := write.(phase := if sent then Sending else Settled(false));
      pending := pending[terminalId := entry.(writes := [write] + entry.writes[1..])];
    }

    /** The promise that `send` returned settles. */
    method SendSettled(terminalId: Id, ok: bool)
      requires Inv(Model()) && Possible(Model(), Step.Settle(terminalId, ok))
      modifies this
      ensures Inv(Model()) && Model() == Apply(old(Model()), Step.Settle(terminalId, ok))
    {
      StepKeepsInv(Model(), Step.Settle(terminalId, ok));
      var entry := pending[terminalId];
      pending := pending[terminalId := entry.(writes := [entry.writes[0].(phase := Settled(ok))] + entry.writes[1..])];
    }

    /** The `catch` callback: records a failure on the entry. */
    method RunCatch(terminalId: Id)
      requires Inv(Model()) && Possible(Model(), Step.Catch(terminalId))
      modifies this
      ensures Inv(Model()) && Model() == Apply(old(Model()), Step.Catch(terminalId))
      ensures terminalId in pending && terminalId in old(pending) &&
              var was := old(pending[terminalId]);
              pending[terminalId].failure == (was.failure || !was.writes[0].phase.ok)
    {
      ghost var after := Apply(Model(), Step.Catch(terminalId));
      StepKeepsInv(Model(), Step.Catch(terminalId));
      var entry := pending[terminalId];
      var write := entry.writes[0];
      if !write.phase.ok {
        entry := entry.(failure := true);
      }
      pending := pending[terminalId := entry.(writes := [write.(phase := Caught(write.phase.ok))] + entry.writes[1..])];
      assert pending == after.pending;
    }

    /** The `finally` callback: gives the room back, and drops the entry with its last write. */
    method RunFinally(terminalId: Id)
      requires Inv(Model()) && Possible(Model(), Step.Finally(terminalId))
      modifies this
      ensures Inv(Model()) && Model() == Apply(old(Model()), Step.Finally(terminalId))
    {
      StepKeepsInv(Model(), Step.Finally(terminalId));
      var entry := pending[terminalId];
      var write := entry.writes[0];
      entry := Entry(entry.writes[1..], entry.bytes - write.bytes, entry.count - 1, entry.failure, !write.phase.ok);
      results := results[write.ticket := write.phase.ok];
      pending := if entry.count == 0 then pending - {terminalId} else pending[terminalId := entry];
    }
  }
}
