/**
  The bounded TCP port scan: a scheduler that keeps a fixed number of checks in flight, over every order
  of completions and every moment of cancellation. Ports are `u16` and the range may end at 65535.
 */
module PortScan {
  import opened Bytes
  import opened Wrappers

  const MAX_PORTS_PER_SCAN: U16 := 4096
  const MAX_CONCURRENCY := 128

  /** `hostIsValid` stands for `validate_host`; the timeout is in any unit. */
  datatype Options = Options(hostIsValid: bool, startPort: U16, endPort: U16, concurrency: nat, timeout: nat)

  datatype Error = InvalidTarget | InvalidPortRange | Cancelled | Worker

  datatype Status = Open | Closed | TimedOut | Failed

  datatype Check = Check(port: U16, status: Status)

  /** One call of the progress callback. */
  datatype Progress = Progress(check: Check, completed: nat, total: nat)

  /**
    What the select sees next: the check of a port in flight completes, some task fails, or the
    cancellation channel moves. A port that is not in flight completes nothing.
   */
  datatype Event =
    | Completed(port: U16, status: Status)
    | WorkerFailed
    | CancellationChanged(cancelled: bool)
    | SenderDropped

  datatype Outcome = Done(results: seq<Check>) | Error(error: Error) | Unfinished

  // ----- Validation in `u16` arithmetic -----

  function SaturatingSub(a: U16, b: U16): (r: U16) {
    if a >= b then a - b else 0
  }

  function SaturatingAdd(a: U16, b: U16): (r: U16) {
    if a + b < 0x1_0000 then a + b else 0xFFFF
  }

  function CheckedAdd(a: U16, b: U16): (r: Option<U16>) {
    if a + b < 0x1_0000 then Some(a + b) else None
  }

  /** `PortScanOptions::validate`. */
  function Validate(o: Options): (r: Option<Error>)
    ensures r.None? <==>
            o.hostIsValid && 1 <= o.startPort <= o.endPort && o.endPort - o.startPort + 1 <= 4096
            && 1 <= o.concurrency <= 128 && o.timeout > 0
    ensures r.Some? ==> r.value == if o.hostIsValid then InvalidPortRange else InvalidTarget
  {
    if !o.hostIsValid then Some(InvalidTarget)
    else if o.startPort == 0
            || o.endPort < o.startPort
            || SaturatingAdd(SaturatingSub(o.endPort, o.startPort), 1) > MAX_PORTS_PER_SCAN
            || o.concurrency == 0
            || o.concurrency > MAX_CONCURRENCY
            || o.timeout == 0
    then Some(InvalidPortRange)
    else None
  }

  // ----- Ports -----

  /** The ports from `low` up to, but not including, `high`. */
  function Range(low: nat, high: nat): (ports: seq<nat>)
    requires low <= high
    decreases high - low
  {
    if low == high then [] else Range(low, high - 1) + [high - 1]
  }

  lemma {:induction false} RangeIs(low: nat, high: nat)
    requires low <= high
    ensures |Range(low, high)| == high - low
    ensures forall i :: 0 <= i < high - low ==> Range(low, high)[i] == low + i
    decreases high - low
  {
    if low < high {
      RangeIs(low, high - 1);
    }
  }

  function Ports(checks: seq<Check>): (ports: seq<nat>) {
    seq(|checks|, i requires 0 <= i < |checks| => checks[i].port)
  }

  lemma PortsConcat(a: seq<Check>, b: seq<Check>)
    ensures Ports(a + b) == Ports(a) + Ports(b)
  {
  }

  /** The next port that has not been scheduled; one past the last port when all have been. */
  function Upcoming(next: Option<U16>): (port: nat) {
    if next.Some? then next.value else 0x1_0000
  }

  /** Scanned, in flight and unscheduled ports: each port of the range is in exactly one of the three, once. */
  ghost predicate Partition(o: Options, scanned: seq<Check>, tasks: seq<nat>, next: Option<U16>) {
    && o.startPort <= Upcoming(next) <= o.endPort + 1
    && multiset(Ports(scanned)) + multiset(tasks) == multiset(Range(o.startPort, Upcoming(next)))
    && |tasks| <= o.concurrency
  }

  /** ... and the scheduler has nothing left to do. */
  ghost predicate Scheduled(o: Options, scanned: seq<Check>, tasks: seq<nat>, next: Option<U16>) {
    Partition(o, scanned, tasks, next) && (|tasks| == o.concurrency || Upcoming(next) == o.endPort + 1)
  }

  // ----- The scheduler -----

  lemma StartKeepsPartition(o: Options, scanned: seq<Check>, tasks: seq<nat>, port: U16)
    requires Partition(o, scanned, tasks, Some(port)) && port <= o.endPort && |tasks| < o.concurrency
    ensures Partition(o, scanned, tasks + [port], CheckedAdd(port, 1))
  {
    assert Upcoming(CheckedAdd(port, 1)) == port + 1;
    assert Range(o.startPort, port + 1) == Range(o.startPort, port) + [port];
    hide Range, Ports;
    assert multiset(tasks + [port]) == multiset(tasks) + multiset{port as nat};
  }

  /** `schedule_ports`: spawns checks until the limit or the end of the range. */
  method SchedulePorts(o: Options, tasks: seq<nat>, next: Option<U16>, ghost scanned: seq<Check>)
    returns (tasks': seq<nat>, next': Option<U16>)
    requires Validate(o).None? && Partition(o, scanned, tasks, next)
    ensures Scheduled(o, scanned, tasks', next')
  {
    hide Range, Ports;
    tasks', next' := tasks, next;
    while |tasks'| < o.concurrency
      invariant Partition(o, scanned, tasks', next')
      decreases o.endPort + 1 - Upcoming(next')
    {
      if next'.None? {
        break;
      }
      var port := next'.value;
      if port > o.endPort {
        break;
      }
      StartKeepsPartition(o, scanned, tasks', port);
      tasks' := tasks' + [port];
      next' := CheckedAdd(port, 1);
    }
  }

  lemma Removal(tasks: seq<nat>, k: nat)
    requires k < |tasks|
    ensures multiset(tasks) == multiset(tasks[..k] + tasks[k + 1..]) + multiset{tasks[k]}
  {
    assert tasks == tasks[..k] + [tasks[k]] + tasks[k + 1..];
  }

  /** A completed check moves its port from the tasks to the results. */
  lemma CompletionKeepsPartition(o: Options, scanned: seq<Check>, tasks: seq<nat>, next: Option<U16>,
                                 k: nat, check: Check)
    requires Partition(o, scanned, tasks, next) && k < |tasks| && check.port == tasks[k]
    ensures Partition(o, scanned + [check], tasks[..k] + tasks[k + 1..], next)
  {
    Removal(tasks, k);
    PortsConcat(scanned, [check]);
    assert Ports([check]) == [check.port];
  }

  lemma PartitionSize(o: Options, scanned: seq<Check>, tasks: seq<nat>, next: Option<U16>)
    requires Partition(o, scanned, tasks, next)
    ensures |scanned| + |tasks| == Upcoming(next) - o.startPort
  {
    RangeIs(o.startPort, Upcoming(next));
    assert |multiset(Ports(scanned)) + multiset(tasks)| == |Ports(scanned)| + |tasks|;
  }

  // ----- Sorting -----

  ghost predicate SortedByPort(checks: seq<Check>) {
    forall i, j :: 0 <= i < j < |checks| ==> checks[i].port <= checks[j].port
  }

  ghost predicate SameChecks(a: seq<Check>, b: seq<Check>) {
    multiset(a) == multiset(b)
  }

  /** `sort_by_key(|result| result.port)`, as an insertion sort. */
  function InsertByPort(check: Check, sorted: seq<Check>): (r: seq<Check>) {
    if sorted == [] || check.port < sorted[0].port then [check] + sorted
    else [sorted[0]] + InsertByPort(check, sorted[1..])
  }

  function SortByPort(checks: seq<Check>): (r: seq<Check>) {
    if checks == [] then [] else InsertByPort(checks[0], SortByPort(checks[1..]))
  }

  lemma FrontIn(check: Check, rest: seq<Check>)
    ensures multiset([check] + rest) == multiset{check} + multiset(rest)
    ensures multiset(Ports([check] + rest)) == multiset{check.port as nat} + multiset(Ports(rest))
  {
    PortsConcat([check], rest);
    assert Ports([check]) == [check.port];
  }

  lemma {:induction false} InsertIsPermutation(check: Check, sorted: seq<Check>)
    ensures multiset(InsertByPort(check, sorted)) == multiset(sorted) + multiset{check}
    ensures multiset(Ports(InsertByPort(check, sorted))) == multiset(Ports(sorted)) + multiset{check.port as nat}
  {
    hide Ports;
    FrontIn(check, sorted);
    if sorted != [] {
      InsertIsPermutation(check, sorted[1..]);
      FrontIn(sorted[0], sorted[1..]);
      FrontIn(sorted[0], InsertByPort(check, sorted[1..]));
      assert sorted == [sorted[0]] + sorted[1..];
    }
  }

  lemma {:induction false} SortIsPermutation(checks: seq<Check>)
    ensures multiset(SortByPort(checks)) == multiset(checks)
    ensures multiset(Ports(SortByPort(checks))) == multiset(Ports(checks))
  {
    hide Ports;
    if checks != [] {
      FrontIn(checks[0], checks[1..]);
      assert checks == [checks[0]] + checks[1..];
      SortIsPermutation(checks[1..]);
      InsertIsPermutation(checks[0], SortByPort(checks[1..]));
    }
  }

  lemma {:induction false} InsertKeepsSorted(check: Check, sorted: seq<Check>)
    requires SortedByPort(sorted)
    ensures SortedByPort(InsertByPort(check, sorted))
  {
    if sorted != [] && check.port >= sorted[0].port {
      InsertKeepsSorted(check, sorted[1..]);
      InsertIsPermutation(check, sorted[1..]);
      var rest := InsertByPort(check, sorted[1..]);
      forall j | 0 <= j < |rest| ensures sorted[0].port <= rest[j].port {
        assert rest[j] in multiset(rest);
        assert rest[j] == check || rest[j] in sorted[1..];
      }
    }
  }

  lemma {:induction false} SortIsSorted(checks: seq<Check>)
    ensures SortedByPort(SortByPort(checks))
  {
    if checks != [] {
      SortIsSorted(checks[1..]);
      InsertKeepsSorted(checks[0], SortByPort(checks[1..]));
    }
  }

  ghost predicate Ascending(a: seq<nat>) {
    forall i, j :: 0 <= i < j < |a| ==> a[i] <= a[j]
  }

  lemma SameLast(a: seq<nat>, b: seq<nat>)
    requires Ascending(a) && Ascending(b) && a != [] && multiset(a) == multiset(b)
    ensures b != [] && a[|a| - 1] == b[|b| - 1]
  {
    assert a[|a| - 1] in multiset(b);
    assert b[|b| - 1] in multiset(a);
  }

  lemma DropLast(a: seq<nat>)
    requires a != []
    ensures multiset(a[..|a| - 1]) == multiset(a) - multiset{a[|a| - 1]}
  {
    assert a == a[..|a| - 1] + [a[|a| - 1]];
  }

  /** Two ascending sequences with the same elements are equal. */
  lemma {:induction false} AscendingIsUnique(a: seq<nat>, b: seq<nat>)
    requires Ascending(a) && Ascending(b) && multiset(a) == multiset(b)
    ensures a == b
  {
    if a == [] {
      assert |multiset(b)| == 0;
    } else {
      SameLast(a, b);
      DropLast(a);
      DropLast(b);
      var x, y := a[..|a| - 1], b[..|b| - 1];
      AscendingIsUnique(x, y);
      assert a == x + [a[|a| - 1]] && b == y + [b[|b| - 1]];
    }
  }

  lemma SortedPortsAscend(checks: seq<Check>)
    requires SortedByPort(checks)
    ensures Ascending(Ports(checks))
  {
  }

  lemma PortsAt(checks: seq<Check>)
    ensures |Ports(checks)| == |checks| && forall i :: 0 <= i < |checks| ==> Ports(checks)[i] == checks[i].port
  {
  }

  lemma RangeAscends(low: nat, high: nat)
    requires low <= high
    ensures Ascending(Range(low, high))
  {
    RangeIs(low, high);
    hide Range;
  }

  lemma SortedPortsAreTheRange(scanned: seq<Check>, low: nat, high: nat)
    requires low <= high && multiset(Ports(scanned)) == multiset(Range(low, high))
    ensures Ports(SortByPort(scanned)) == Range(low, high)
  {
    hide Range, Ports, SortByPort, Ascending, SortedByPort;
    SortIsSorted(scanned);
    SortIsPermutation(scanned);
    SortedPortsAscend(SortByPort(scanned));
    RangeAscends(low, high);
    AscendingIsUnique(Ports(SortByPort(scanned)), Range(low, high));
  }

  /** A finished scan has every port of the range exactly once, in ascending order. */
  lemma FinishedScan(o: Options, scanned: seq<Check>, next: Option<U16>)
    requires Validate(o).None? && Scheduled(o, scanned, [], next)
    ensures var results := SortByPort(scanned);
            && |results| == |scanned| == o.endPort - o.startPort + 1
            && SameChecks(results, scanned)
            && forall i :: 0 <= i < |results| ==> results[i].port == o.startPort + i
  {
    hide Range, Ports, SortByPort;
    SortIsPermutation(scanned);
    PartitionSize(o, scanned, [], next);
    assert multiset(Ports(scanned)) + multiset([]) == multiset(Ports(scanned));
    SortedPortsAreTheRange(scanned, o.startPort, o.endPort + 1);
    RangeIs(o.startPort, o.endPort + 1);
    PortsAt(SortByPort(scanned));
  }

  lemma NothingScanned(o: Options)
    requires Validate(o).None?
    ensures Partition(o, [], [], Some(o.startPort))
  {
    assert Range(o.startPort, o.startPort) == [];
  }

  // ----- The scan -----

  /** The progress callback was called for the results in order, counting 1, 2, 3, ... of the total. */
  ghost predicate Reported(progress: seq<Progress>, results: seq<Check>, total: nat) {
    && |progress| == |results| <= total
    && forall i :: 0 <= i < |progress| ==> progress[i] == Progress(results[i], i + 1, total)
  }

  datatype Ending = AllScanned | WasCancelled | WorkerLost | StillWaiting

  /** What an onlooker who sees nothing but the events knows: the checks completed, in order, and how it ended. */
  datatype Seen = Seen(checks: seq<Check>, ending: Ending)

  /** A port is being checked: its turn has come, with as many checks before it as are done or in flight. */
  predicate InFlight(o: Options, done: seq<Check>, port: nat) {
    o.startPort <= port <= o.endPort && port < o.startPort + |done| + o.concurrency && port !in Ports(done)
  }

  /**
    The scan as its events tell it: it goes on until the last port has completed, the first cancellation
    while the sender is there, or the first failed worker, whichever is first.
   */
  function Observe(o: Options, events: seq<Event>, closed: bool, done: seq<Check>): (seen: Seen)
    decreases events
  {
    if |done| > o.endPort - o.startPort then Seen(done, AllScanned)
    else if events == [] then Seen(done, StillWaiting)
    else match events[0]
      case Completed(port, status) =>
        Observe(o, events[1..], closed, if InFlight(o, done, port) then done + [Check(port, status)] else done)
      case WorkerFailed => Seen(done, WorkerLost)
      case CancellationChanged(cancelled) =>
        if cancelled && !closed then Seen(done, WasCancelled) else Observe(o, events[1..], closed, done)
      case SenderDropped => Observe(o, events[1..], true, done)
  }

  lemma ObserveStep(o: Options, events: seq<Event>, closed: bool, done: seq<Check>)
    ensures |done| > o.endPort - o.startPort ==> Observe(o, events, closed, done) == Seen(done, AllScanned)
    ensures |done| <= o.endPort - o.startPort && events == [] ==>
              Observe(o, events, closed, done) == Seen(done, StillWaiting)
    ensures |done| <= o.endPort - o.startPort && events != [] ==>
              Observe(o, events, closed, done) ==
              match events[0]
              case Completed(port, status) =>
                Observe(o, events[1..], closed, if InFlight(o, done, port) then done + [Check(port, status)] else done)
              case WorkerFailed => Seen(done, WorkerLost)
              case CancellationChanged(cancelled) =>
                if cancelled && !closed then Seen(done, WasCancelled) else Observe(o, events[1..], closed, done)
              case SenderDropped => Observe(o, events[1..], true, done)
  {
    hide InFlight;
  }

  /** Every check reports the status with which its own port completed, and none reports a port twice. */
  lemma {:induction false} ChecksComeFromEvents(o: Options, events: seq<Event>, closed: bool, done: seq<Check>)
    requires forall i, j :: 0 <= i < j < |done| ==> done[i].port != done[j].port
    ensures var checks := Observe(o, events, closed, done).checks;
            && done <= checks
            && (forall i, j :: 0 <= i < j < |checks| ==> checks[i].port != checks[j].port)
            && (forall i :: |done| <= i < |checks| ==> Completed(checks[i].port, checks[i].status) in events)
    decreases events
  {
    if |done| <= o.endPort - o.startPort && events != [] {
      var event := events[0];
      if event.Completed? && InFlight(o, done, event.port) {
        var check := Check(event.port, event.status);
        assert forall i :: 0 <= i < |done| ==> Ports(done)[i] == done[i].port;
        ChecksComeFromEvents(o, events[1..], closed, done + [check]);
        var checks := Observe(o, events, closed, done).checks;
        assert |done| < |checks| ==> checks[|done|] == (done + [check])[|done|];
        assert done <= done + [check] <= checks;
      } else if event.Completed? || (event.CancellationChanged? && !(event.cancelled && !closed)) {
        ChecksComeFromEvents(o, events[1..], closed, done);
      } else if event.SenderDropped? {
        ChecksComeFromEvents(o, events[1..], true, done);
      }
    }
  }

  function Completions(checks: seq<Check>): (events: seq<Event>) {
    seq(|checks|, i requires 0 <= i < |checks| => Completed(checks[i].port, checks[i].status))
  }

  /**
    Undisturbed completions, in any order in which ports can be in flight: each is reported in turn with
    its status, and the scan is done once every port has been checked, and not before.
   */
  lemma {:induction false} CompletionsFinishTheScan(o: Options, closed: bool, done: seq<Check>, checks: seq<Check>)
    requires |done| + |checks| <= o.endPort - o.startPort + 1
    requires forall i :: 0 <= i < |checks| ==> InFlight(o, done + checks[..i], checks[i].port)
    ensures Observe(o, Completions(checks), closed, done) ==
            Seen(done + checks, if |done| + |checks| > o.endPort - o.startPort then AllScanned else StillWaiting)
    decreases checks
  {
    if checks == [] {
      assert done + checks == done;
    } else {
      var more := done + [checks[0]];
      assert done + checks[..0] == done;
      forall i | 0 <= i < |checks| - 1 ensures InFlight(o, more + checks[1..][..i], checks[1..][i].port) {
        assert more + checks[1..][..i] == done + checks[..i + 1];
      }
      CompletionsFinishTheScan(o, closed, more, checks[1..]);
      assert more + checks[1..] == done + checks;
      assert Completions(checks)[1..] == Completions(checks[1..]);
    }
  }

  function EndingFor(outcome: Outcome): (e: Ending) {
    match outcome
    case Done(_) => AllScanned
    case Error(Worker) => WorkerLost
    case Error(_) => WasCancelled
    case Unfinished => StillWaiting
  }

  lemma {:induction false} RangeCounts(low: nat, high: nat, p: nat)
    requires low <= high
    ensures multiset(Range(low, high))[p] == if low <= p < high then 1 else 0
    decreases high - low
  {
    if low < high {
      RangeCounts(low, high - 1, p);
    }
  }

  lemma TaskIsInFlight(o: Options, scanned: seq<Check>, tasks: seq<nat>, next: Option<U16>, port: nat)
    requires Scheduled(o, scanned, tasks, next)
    ensures port in tasks <==> InFlight(o, scanned, port)
  {
    PartitionSize(o, scanned, tasks, next);
    RangeCounts(o.startPort, Upcoming(next), port);
    assert (multiset(Ports(scanned)) + multiset(tasks))[port] ==
           multiset(Ports(scanned))[port] + multiset(tasks)[port];
    hide Range, Ports;
  }

  ghost predicate AllInFlight(o: Options, done: seq<Check>, tasks: seq<nat>) {
    forall port :: port in tasks <==> InFlight(o, done, port)
  }

  /** The scheduler's tasks are the ports in flight, as the completed checks tell them. */
  lemma TasksAreInFlight(o: Options, scanned: seq<Check>, tasks: seq<nat>, next: Option<U16>)
    requires Scheduled(o, scanned, tasks, next)
    ensures Partition(o, scanned, tasks, next) && |tasks| <= o.concurrency
    ensures |scanned| + |tasks| <= o.endPort - o.startPort + 1
    ensures AllInFlight(o, scanned, tasks)
  {
    PartitionSize(o, scanned, tasks, next);
    hide Scheduled, InFlight;
    forall port: nat ensures port in tasks <==> InFlight(o, scanned, port) {
      TaskIsInFlight(o, scanned, tasks, next, port);
    }
  }

  /**
    `scan_tcp_with_progress`, run against the events its select sees. When the events run out the scan is
    still waiting. The events alone decide which checks are reported, with which status and in which order,
    and how the scan ends; the results are those checks in port order. At every such moment, and whenever
    it returns, the ports are partitioned and at most `concurrency` checks are in flight.
   */
  method Scan(o: Options, cancelledBefore: bool, events: seq<Event>)
    returns (outcome: Outcome, progress: seq<Progress>, inFlight: seq<nat>, ghost next: Option<U16>)
    ensures Validate(o).Some? ==> outcome == Error(Validate(o).value) && progress == []
    ensures Validate(o).None? ==>
              var seen := if cancelledBefore then Seen([], WasCancelled) else Observe(o, events, false, []);
              && EndingFor(outcome) == seen.ending
              && Reported(progress, seen.checks, o.endPort - o.startPort + 1)
              && |inFlight| <= o.concurrency
              && (outcome != Error(Cancelled) ==> Partition(o, seen.checks, inFlight, next))
              && match outcome
                 case Done(results) =>
                   && |results| == |progress| == o.endPort - o.startPort + 1
                   && (forall i :: 0 <= i < |results| ==> results[i].port == o.startPort + i)
                   && SameChecks(results, seen.checks)
                 case Error(error) => error in {Cancelled, Worker} && (error == Cancelled ==> inFlight == [])
                 case Unfinished => inFlight != [] && AllInFlight(o, seen.checks, inFlight)
  {
    hide Range, Ports, SortByPort, InFlight, Partition, Scheduled, SameChecks, Observe, AllInFlight;
    progress, inFlight, next := [], [], None;
    var invalid := Validate(o);
    if invalid.Some? {
      return Error(invalid.value), [], [], None;
    }
    var upcoming := Some(o.startPort);
    var total := o.endPort - o.startPort + 1;
    var results: seq<Check> := [];
    var cancellationClosed := false;
    var rest := events;
    next := upcoming;
    if cancelledBefore {
      return Error(Cancelled), [], [], upcoming;
    }
    NothingScanned(o);
    inFlight, upcoming := SchedulePorts(o, inFlight, upcoming, results);
    while inFlight != []
      invariant Scheduled(o, results, inFlight, upcoming)
      invariant Reported(progress, results, total)
      invariant |results| <= total
      invariant Observe(o, events, false, []) == Observe(o, rest, cancellationClosed, results)
      decreases |rest|
    {
      TasksAreInFlight(o, results, inFlight, upcoming);
      ObserveStep(o, rest, cancellationClosed, results);
      if rest == [] {
        return Unfinished, progress, inFlight, upcoming;
      }
      var event := rest[0];
      rest := rest[1..];
      match event {
        case SenderDropped => cancellationClosed := true;
        case CancellationChanged(cancelled) =>
          if !cancellationClosed && cancelled {
            // Every task is aborted and joined before returning.
            while inFlight != []
              decreases |inFlight|
            {
              inFlight := inFlight[1..];
            }
            return Error(Cancelled), progress, inFlight, upcoming;
          }
        case WorkerFailed => return Error(Worker), progress, inFlight, upcoming;
        case Completed(port, status) =>
          TaskIsInFlight(o, results, inFlight, upcoming, port);
          if port in inFlight {
            var k :| 0 <= k < |inFlight| && inFlight[k] == port;
            var check := Check(port, status);
            CompletionKeepsPartition(o, results, inFlight, upcoming, k, check);
            inFlight := inFlight[..k] + inFlight[k + 1..];
            progress := progress + [Progress(check, |results| + 1, total)];
            results := results + [check];
            inFlight, upcoming := SchedulePorts(o, inFlight, upcoming, results);
            TasksAreInFlight(o, results, inFlight, upcoming);
          }
      }
    }
    FinishedScan(o, results, upcoming);
    TasksAreInFlight(o, results, inFlight, upcoming);
    ObserveStep(o, rest, cancellationClosed, results);
    return Done(SortByPort(results)), progress, inFlight, upcoming;
  }
}
