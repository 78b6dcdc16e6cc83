/**
  The desktop's framebuffer queue: one fetch or one scheduled paint at a time, over every interleaving
  of requests, resets, disposal, animation frames and fetch replies.
 */
module FramebufferQueue {
  import opened Bytes
  import opened HelperWire
  import opened Wrappers

  const MAX_SAFE_INTEGER := 0x1F_FFFF_FFFF_FFFF

  /** What a fetch was started for, and what became of the queue's failure and paint callbacks. */
  datatype Ticket = Ticket(epoch: nat, generation: nat)

  /** What the fetch promise settles to; `renders` says whether the render callback, if called, returns or throws. */
  datatype Reply = Data(bytes: seq<Byte>, renders: bool) | Rejected

  /** A painted frame, what it was fetched for, and the queue's state at the moment of painting. */
  datatype Paint = Paint(frame: Framebuffer, fetched: Ticket, current: Ticket, disposed: bool)

  datatype Queue = Queue(
    generation: Option<nat>,
    pending: bool,
    fetching: Option<Ticket>,
    animation: bool,
    epoch: nat,
    disposed: bool,
    fetches: seq<Ticket>,
    paints: seq<Paint>,
    failures: nat)

  const Initial := Queue(None, false, None, false, 0, false, [], [], 0)

  datatype Step =
    | Request(generation: int)
    | Refresh
    | Reset
    | Dispose
    | AnimationFrame
    | FetchSettles(reply: Reply)

  predicate Possible(q: Queue, step: Step) {
    match step
    case AnimationFrame => q.animation
    case FetchSettles(_) => q.fetching.Some?
    case _ => true
  }

  function DoRefresh(q: Queue): (r: Queue) {
    if q.disposed || q.generation.None? then q
    else if q.fetching.Some? || q.animation then q.(pending := true)
    else q.(pending := true, animation := true)
  }

  function DoReset(q: Queue): (r: Queue) {
    q.(epoch := q.epoch + 1, generation := None, pending := false, animation := false)
  }

  /** The reply still concerns what the queue shows now. */
  predicate IsCurrent(q: Queue, t: Ticket) {
    !q.disposed && t.epoch == q.epoch && q.generation == Some(t.generation)
  }

  function Deliver(q: Queue, t: Ticket, reply: Reply): (r: Queue) {
    if !IsCurrent(q, t) then q
    else
      match reply
      case Rejected => q.(failures := q.failures + 1)
      case Data(bytes, renders) =>
        if bytes == [] then q
        else
          var frame := DecodeOnDesktop(bytes);
          if frame.None? || !renders then q.(failures := q.failures + 1)
          else q.(paints := q.paints + [Paint(frame.value, t, Ticket(q.epoch, q.generation.value), q.disposed)])
  }

  function Apply(q: Queue, step: Step): (r: Queue)
    requires Possible(q, step)
  {
    match step
    case Request(generation) =>
      if q.disposed then q
      else if !(0 <= generation <= MAX_SAFE_INTEGER) then q.(failures := q.failures + 1)
      else DoRefresh(q.(generation := Some(generation)))
    case Refresh => DoRefresh(q)
    case Reset => DoReset(q)
    case Dispose => DoReset(q.(disposed := true))
    case AnimationFrame =>
      var idle := q.(animation := false);
      if q.disposed || !q.pending || q.generation.None? then idle
      else
        var t := Ticket(q.epoch, q.generation.value);
        idle.(pending := false, fetching := Some(t), fetches := q.fetches + [t])
    case FetchSettles(reply) =>
      var done := Deliver(q, q.fetching.value, reply).(fetching := None);
      if done.pending then DoRefresh(done) else done
  }

  function LastFetch(q: Queue): (t: Option<Ticket>) {
    if q.fetches == [] then None else Some(q.fetches[|q.fetches| - 1])
  }

  // ----- The invariant -----

  ghost predicate Inv(q: Queue) {
    // One fetch or one scheduled paint, never both; and no pending work without one of them.
    && !(q.fetching.Some? && q.animation)
    && (q.pending ==> q.fetching.Some? || q.animation)
    && (q.animation ==> q.pending)
    && (q.pending ==> q.generation.Some? && !q.disposed)
    && (q.disposed ==> q.generation.None?)
    // A generation that is not pending has been fetched, in this epoch.
    && (q.generation.Some? && !q.pending ==> LastFetch(q) == Some(Ticket(q.epoch, q.generation.value)))
    && (q.fetching.Some? ==> LastFetch(q) == q.fetching && q.fetching.value.epoch <= q.epoch)
    && (forall p :: p in q.paints ==> p.fetched == p.current && !p.disposed)
  }

  lemma StepKeepsInv(q: Queue, step: Step)
    requires Inv(q) && Possible(q, step)
    ensures Inv(Apply(q, step))
  {
  }

  // ----- Runs -----

  ghost predicate IsRun(q: Queue, steps: seq<Step>)
    decreases steps
  {
    steps == [] || (Possible(q, steps[0]) && IsRun(Apply(q, steps[0]), steps[1..]))
  }

  function End(q: Queue, steps: seq<Step>): (r: Queue)
    requires IsRun(q, steps)
    decreases steps
  {
    if steps == [] then q else End(Apply(q, steps[0]), steps[1..])
  }

  lemma {:induction false} RunKeepsInv(q: Queue, steps: seq<Step>)
    requires Inv(q) && IsRun(q, steps)
    ensures Inv(End(q, steps))
    decreases steps
  {
    if steps != [] {
      StepKeepsInv(q, steps[0]);
      RunKeepsInv(Apply(q, steps[0]), steps[1..]);
    }
  }

  predicate Idle(q: Queue) {
    q.fetching.None? && !q.animation
  }

  /**
    No lost wake-up: over every run, at most one of a fetch and a scheduled paint is outstanding, pending
    work always has one of them, and an idle queue that has a generation made its last fetch for it, in
    the current epoch. Everything painted was fetched for the epoch and generation shown at that moment.
   */
  lemma SafeAndAwake(steps: seq<Step>)
    requires IsRun(Initial, steps)
    ensures var q := End(Initial, steps);
            && !(q.fetching.Some? && q.animation)
            && (q.pending ==> !Idle(q))
            && (Idle(q) && q.generation.Some? ==> LastFetch(q) == Some(Ticket(q.epoch, q.generation.value)))
            && (forall p :: p in q.paints ==> p.fetched == p.current && !p.disposed)
  {
    RunKeepsInv(Initial, steps);
  }

  /** The generation of the last valid request since the last reset, read off the steps alone. */
  function Wanted(steps: seq<Step>, disposed: bool, wanted: Option<nat>): (g: Option<nat>)
    decreases steps
  {
    if steps == [] then wanted
    else
      match steps[0]
      case Request(g) =>
        Wanted(steps[1..], disposed, if disposed || !(0 <= g <= 9007199254740991) then wanted else Some(g))
      case Reset => Wanted(steps[1..], disposed, None)
      case Dispose => Wanted(steps[1..], true, None)
      case _ => Wanted(steps[1..], disposed, wanted)
  }

  /** The queue keeps exactly the generation that its caller asked for last. */
  lemma {:induction false} WantedIsKept(q: Queue, steps: seq<Step>)
    requires IsRun(q, steps)
    ensures End(q, steps).generation == Wanted(steps, q.disposed, q.generation)
    decreases steps
  {
    if steps != [] {
      WantedIsKept(Apply(q, steps[0]), steps[1..]);
    }
  }

  /** An idle queue has made its last fetch for what its caller asked for last, in the current epoch. */
  lemma IdleHasFetchedWhatWasWanted(steps: seq<Step>)
    requires IsRun(Initial, steps) && Idle(End(Initial, steps))
    ensures var q := End(Initial, steps);
            match Wanted(steps, false, None)
            case None => q.generation.None?
            case Some(g) => LastFetch(q) == Some(Ticket(q.epoch, g))
  {
    SafeAndAwake(steps);
    WantedIsKept(Initial, steps);
  }

  /** How many replies and animation frames are still to come if nothing more is requested. */
  function Work(q: Queue): (n: nat) {
    (if q.pending then 2 else 0) + (if q.fetching.Some? then 1 else 0)
  }

  /** The queue settles by itself: the environment's next move always exists and always uses up work. */
  lemma EveryReplyIsProgress(q: Queue, step: Step)
    requires Inv(q)
    ensures Work(q) > 0 <==> Possible(q, AnimationFrame) || Possible(q, FetchSettles(Rejected))
    ensures Possible(q, step) && (step.AnimationFrame? || step.FetchSettles?) ==> Work(Apply(q, step)) < Work(q)
    ensures Work(q) <= 3 && (Work(q) == 0 <==> Idle(q))
  {
  }

  lemma DisposedStepIsSilent(q: Queue, step: Step)
    requires Inv(q) && q.disposed && Possible(q, step)
    ensures var r := Apply(q, step);
            r.disposed && r.paints == q.paints && r.failures == q.failures && r.fetches == q.fetches
  {
  }

  /** After disposal nothing is fetched, painted or reported any more. */
  lemma {:induction false} NothingAfterDispose(q: Queue, steps: seq<Step>)
    requires Inv(q) && q.disposed && IsRun(q, steps)
    ensures var r := End(q, steps);
            r.disposed && r.paints == q.paints && r.failures == q.failures && r.fetches == q.fetches
    decreases steps
  {
    if steps != [] {
      StepKeepsInv(q, steps[0]);
      DisposedStepIsSilent(q, steps[0]);
      NothingAfterDispose(Apply(q, steps[0]), steps[1..]);
    }
  }

  /** A fetch begun before a reset never paints or fails, whatever is requested after the reset. */
  lemma {:induction false} StaleFetchIsSilent(q: Queue, steps: seq<Step>, reply: Reply)
    requires Inv(q) && q.fetching.Some? && q.fetching.value.epoch < q.epoch
    requires IsRun(q, steps) && forall s :: s in steps ==> !s.FetchSettles?
    ensures var r := End(q, steps);
            && r.fetching == q.fetching && r.fetching.value.epoch < r.epoch
            && Apply(r, FetchSettles(reply)).paints == q.paints
            && Apply(r, FetchSettles(reply)).failures == r.failures
    decreases steps
  {
    if steps != [] {
      StepKeepsInv(q, steps[0]);
      StaleFetchIsSilent(Apply(q, steps[0]), steps[1..], reply);
    }
  }

  /** In particular none that is outstanding at a reset, or at the disposal. */
  lemma ResetSilences(q: Queue, steps: seq<Step>, reply: Reply)
    requires Inv(q) && q.fetching.Some? && steps != [] && steps[0] in {Reset, Dispose}
    requires IsRun(q, steps) && forall s :: s in steps ==> !s.FetchSettles?
    ensures var r := End(q, steps);
            && Possible(r, FetchSettles(reply))
            && Apply(r, FetchSettles(reply)).paints == q.paints
            && Apply(r, FetchSettles(reply)).failures == r.failures
  {
    StepKeepsInv(q, steps[0]);
    StaleFetchIsSilent(Apply(q, steps[0]), steps[1..], reply);
  }

  /**
    Everything that is painted or reported, and when: a reply counts only while the queue is in use, still
    in the epoch and at the generation that it was fetched for.
   */
  lemma PaintedAndReportedExactlyWhen(q: Queue, step: Step)
    requires Possible(q, step)
    ensures var r := Apply(q, step);
            var counts := step.FetchSettles? && !q.disposed && q.fetching.value.epoch == q.epoch
                          && q.generation == Some(q.fetching.value.generation);
            var frame := if step.FetchSettles? && step.reply.Data? then DecodeOnDesktop(step.reply.bytes) else None;
            var thrown := step.FetchSettles? && step.reply.Data? && step.reply.bytes != [] && !step.reply.renders;
            && r.failures == q.failures +
                 (if counts && (step.reply.Rejected? || (step.reply.bytes != [] && frame.None?) || thrown) then 1
                  else if step.Request? && !q.disposed && !(0 <= step.generation <= 9007199254740991) then 1
                  else 0)
            && (if counts && frame.Some? && !thrown
                then |r.paints| == |q.paints| + 1 && q.paints <= r.paints && r.paints[|q.paints|].frame == frame.value
                else r.paints == q.paints)
  {
    NothingDecodesToNothing();
    hide DecodeOnDesktop;
  }

  lemma NothingDecodesToNothing()
    ensures DecodeOnDesktop([]) == None
  {
  }

  /** Asks for a frame, and is not refused. */
  predicate Asks(q: Queue, step: Step) {
    && !q.disposed
    && ((step.Request? && 0 <= step.generation <= 9007199254740991) || (step.Refresh? && q.generation.Some?))
  }

  lemma {:induction false} PendingIsFetched(q: Queue, steps: seq<Step>, count: nat)
    requires Inv(q) && IsRun(q, steps) && Reset !in steps && Dispose !in steps
    requires |q.fetches| >= count && (q.pending || |q.fetches| > count)
    ensures var r := End(q, steps); r.pending || |r.fetches| > count
    decreases steps
  {
    if steps != [] {
      StepKeepsInv(q, steps[0]);
      assert steps[0] in steps;
      PendingIsFetched(Apply(q, steps[0]), steps[1..], count);
    }
  }

  /**
    Whoever asks for a frame gets one fetched afterwards, even for the generation that was fetched last:
    once the queue is idle again without a reset in between, a fetch has begun after the request.
   */
  lemma AskedIsFetched(q: Queue, steps: seq<Step>)
    requires Inv(q) && steps != [] && Asks(q, steps[0]) && IsRun(q, steps)
    requires Reset !in steps && Dispose !in steps && Idle(End(q, steps))
    ensures |End(q, steps).fetches| > |q.fetches|
  {
    StepKeepsInv(q, steps[0]);
    PendingIsFetched(Apply(q, steps[0]), steps[1..], |q.fetches|);
    RunKeepsInv(q, steps);
  }

  // ----- The queue object -----

  /** `RemoteFramebufferQueue`; the three ghost fields record what its callbacks were told. */
  class RemoteFramebufferQueue {
    var generation: Option<nat>
    var pending: bool
    var fetching: bool
    var animation: bool
    var epoch: nat
    var disposed: bool
    ghost var fetch: Option<Ticket>
    ghost var fetches: seq<Ticket>
    ghost var paints: seq<Paint>
    ghost var failures: nat

    ghost function Model(): (q: Queue)
      reads this
    {
      Queue(generation, pending, fetch, animation, epoch, disposed, fetches, paints, failures)
    }

    ghost predicate Valid()
      reads this
    {
      Inv(Model()) && (fetching <==> fetch.Some?)
    }

    constructor ()
      ensures Valid() && Model() == Initial
    {
      generation, pending, fetching, animation, epoch, disposed := None, false, false, false, 0, false;
      fetch, fetches, paints, failures := None, [], [], 0;
    }

    method RequestGeneration(wanted: int)
      requires Valid()
      modifies this
      ensures Valid() && Model() == Apply(old(Model()), Request(wanted))
    {
      if disposed {
        return;
      }
      if !(0 <= wanted <= MAX_SAFE_INTEGER) {
        failures := failures + 1;
        return;
      }
      generation := Some(wanted);
      RefreshNow();
    }

    /** Schedules a paint unless a fetch or a paint is outstanding already. */
    method RefreshNow()
      requires fetching <==> fetch.Some?
      modifies this`pending, this`animation
      ensures Model() == DoRefresh(old(Model()))
    {
      if disposed || generation.None? {
        return;
      }
      pending := true;
      if fetching || animation {
        return;
      }
      animation := true;
    }

    method ResetNow()
      requires Valid()
      modifies this
      ensures Valid() && Model() == Apply(old(Model()), Reset)
    {
      epoch := epoch + 1;
      generation := None;
      pending := false;
      animation := false;
    }

    method DisposeNow()
      requires Valid()
      modifies this
      ensures Valid() && Model() == Apply(old(Model()), Dispose)
    {
      disposed := true;
      epoch := epoch + 1;
      generation := None;
      pending := false;
      animation := false;
    }

    /** The animation callback and the synchronous part of `flush`: returns the generation to fetch. */
    method OnAnimationFrame() returns (started: Option<Ticket>)
      requires Valid() && animation
      modifies this
      ensures Valid() && Model() == Apply(old(Model()), AnimationFrame)
      ensures started.Some? ==> fetch == started
    {
      animation := false;
      if disposed || !pending || generation.None? {
        return None;
      }
      started := Some(Ticket(epoch, generation.value));
      pending := false;
      fetching := true;
      fetch, fetches := started, fetches + [started.value];
    }

    /** The rest of `flush`, once the fetch for `ticket` has settled. */
    method OnFetchSettled(ticket: Ticket, reply: Reply)
      requires Valid() && fetch == Some(ticket)
      modifies this
      ensures Valid() && Model() == Apply(old(Model()), FetchSettles(reply))
    {
      hide DecodeOnDesktop, Inv;
      StepKeepsInv(Model(), FetchSettles(reply));
      if !disposed && ticket.epoch == epoch && generation == Some(ticket.generation) {
        match reply {
          case Rejected => failures := failures + 1;
          case Data(bytes, renders) =>
            if bytes != [] {
              var frame := DecodeOnDesktop(bytes);
              if frame.Some? && renders {
                paints := paints + [Paint(frame.value, ticket, Ticket(epoch, generation.value), disposed)];
              } else {
                failures := failures + 1;
              }
            }
        }
      }
      fetching := false;
      fetch := None;
      if pending {
        RefreshNow();
      }
    }
  }
}
