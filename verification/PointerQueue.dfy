/**
  The bounded pointer queue of a remote desktop: stale motion gives way, button transitions are kept
  whenever that is possible, and nothing is ever reordered.
 */
module PointerQueue {
  import opened Bytes
  import opened Wrappers

  const MAX_REMOTE_DESKTOP_POINTER_QUEUE_ITEMS := 128

  datatype Command = Command(sessionId: string, x: int, y: int, buttons: int)

  /** `arrival` numbers the browser events in the order in which they happened. */
  datatype Item = Item(command: Command, coalescible: bool, arrival: nat)

  predicate IsRelease(item: Item) {
    !item.coalescible && item.command.buttons == 0
  }

  /** Two adjacent motions of one drag: the later replaces the earlier. */
  predicate Coalesces(last: Item, item: Item) {
    && item.coalescible && last.coalescible
    && last.command.sessionId == item.command.sessionId
    && last.command.buttons == item.command.buttons
  }

  predicate HasMotion(queue: seq<Item>) {
    exists i :: 0 <= i < |queue| && queue[i].coalescible
  }

  /** The index of the oldest motion, or the length of the queue. */
  function OldestMotion(queue: seq<Item>): (k: nat)
    ensures k <= |queue|
    ensures k < |queue| ==> queue[k].coalescible
    ensures forall i :: 0 <= i < k ==> !queue[i].coalescible
  {
    if queue == [] || queue[0].coalescible then 0 else 1 + OldestMotion(queue[1..])
  }

  function Enqueued(queue: seq<Item>, item: Item): (next: seq<Item>) {
    var n := |queue|;
    if n > 0 && Coalesces(queue[n - 1], item) then queue[n - 1 := item]
    else if n < MAX_REMOTE_DESKTOP_POINTER_QUEUE_ITEMS then queue + [item]
    else if HasMotion(queue) then
      var k := OldestMotion(queue);
      assert k < |queue| by { var i :| 0 <= i < |queue| && queue[i].coalescible; }
      queue[..k] + queue[k + 1..] + [item]
    else if !IsRelease(item) then queue
    else queue[1..] + [item]
  }

  /** `enqueueRemoteDesktopPointer`: a copy of the queue, edited in place. */
  method EnqueuePointer(queue: seq<Item>, item: Item) returns (next: seq<Item>)
    ensures next == Enqueued(queue, item)
  {
    next := queue;
    if |next| > 0 {
      var last := next[|next| - 1];
      if Coalesces(last, item) {
        next := next[|next| - 1 := item];
        return;
      }
    }
    if |next| >= MAX_REMOTE_DESKTOP_POINTER_QUEUE_ITEMS {
      var stale := 0;
      while stale < |next| && !next[stale].coalescible
        invariant stale <= |next|
        invariant forall i :: 0 <= i < stale ==> !next[i].coalescible
      {
        stale := stale + 1;
      }
      if stale < |next| {
        next := next[..stale] + next[stale + 1..];
      } else if item.coalescible || item.command.buttons != 0 {
        return;
      } else {
        next := next[1..];
      }
    }
    next := next + [item];
  }

  // ----- What one event does -----

  function TransitionIn(item: Item): (s: seq<Item>) {
    if item.coalescible then [] else [item]
  }

  /** The button transitions in a queue. */
  function Transitions(queue: seq<Item>): (s: seq<Item>) {
    FlatMap(TransitionIn, queue)
  }

  lemma {:induction false} AllTransitions(queue: seq<Item>)
    requires !HasMotion(queue)
    ensures Transitions(queue) == queue
  {
    if queue != [] {
      assert forall i :: 0 <= i < |queue[1..]| ==> queue[1..][i] == queue[i + 1];
      assert !queue[0].coalescible;
      AllTransitions(queue[1..]);
    }
  }

  /** Dropping one motion leaves the transitions as they are. */
  lemma MotionDoesNotCount(before: seq<Item>, motion: Item, after: seq<Item>)
    requires motion.coalescible
    ensures Transitions(before + [motion] + after) == Transitions(before + after)
  {
    FlatMapConcat(TransitionIn, before + [motion], after);
    FlatMapConcat(TransitionIn, before, [motion]);
    FlatMapOne(TransitionIn, motion);
    FlatMapConcat(TransitionIn, before, after);
    assert Transitions(before) + [] == Transitions(before);
  }

  /** The queue is full of transitions: the only state in which one can be lost. */
  predicate Saturated(queue: seq<Item>) {
    |queue| >= 128 && !HasMotion(queue)
  }

  /**
    Which transitions survive an event, exactly. Only a queue saturated with transitions loses one: the
    oldest makes room for a release, and any other transition is refused.
   */
  lemma TransitionsSurvive(queue: seq<Item>, item: Item)
    ensures Transitions(Enqueued(queue, item)) ==
            if !Saturated(queue) then Transitions(queue) + TransitionIn(item)
            else if !item.coalescible && item.command.buttons == 0 then Transitions(queue)[1..] + [item]
            else Transitions(queue)
    ensures Saturated(queue) ==> Transitions(queue) == queue
  {
    hide FlatMap, Enqueued;
    if Saturated(queue) {
      AllTransitions(queue);
      SaturatedEnqueue(queue, item);
      if IsRelease(item) {
        AllTransitions(queue[1..] + [item]);
      }
    } else {
      var before, dropped, after := UnsaturatedEnqueue(queue, item);
      FlatMapConcat(TransitionIn, before + after, [item]);
      FlatMapOne(TransitionIn, item);
      if dropped == [] {
        assert before + dropped + after == before + after;
      } else {
        MotionDoesNotCount(before, dropped[0], after);
        assert dropped == [dropped[0]];
      }
    }
  }

  lemma SaturatedEnqueue(queue: seq<Item>, item: Item)
    requires Saturated(queue)
    ensures Enqueued(queue, item) == if IsRelease(item) then queue[1..] + [item] else queue
    ensures IsRelease(item) ==> !HasMotion(queue[1..] + [item])
  {
    assert !queue[|queue| - 1].coalescible;
    assert forall i :: 0 <= i < |queue| - 1 ==> queue[1..][i] == queue[i + 1];
  }

  /**
    Otherwise the event always gets in, at the cost of one motion at most: of the last item, if both are
    motions of one session with the same buttons, and else of the oldest motion, if the queue is full.
   */
  lemma UnsaturatedEnqueue(queue: seq<Item>, item: Item)
    returns (before: seq<Item>, dropped: seq<Item>, after: seq<Item>)
    requires !Saturated(queue)
    ensures queue == before + dropped + after && Enqueued(queue, item) == before + after + [item]
    ensures var n := |queue|;
            if n > 0 && item.coalescible && queue[n - 1].coalescible
               && queue[n - 1].command.sessionId == item.command.sessionId
               && queue[n - 1].command.buttons == item.command.buttons
            then dropped == [queue[n - 1]] && after == []
            else if n < 128 then dropped == []
            else |dropped| == 1 && dropped[0].coalescible && forall m :: m in before ==> !m.coalescible
  {
    var n := |queue|;
    before, dropped, after := queue, [], [];
    if n > 0 && Coalesces(queue[n - 1], item) {
      before, dropped := queue[..n - 1], [queue[n - 1]];
    } else if n >= MAX_REMOTE_DESKTOP_POINTER_QUEUE_ITEMS {
      var k := OldestMotion(queue);
      assert k < n by { var i :| 0 <= i < |queue| && queue[i].coalescible; }
      before, dropped, after := queue[..k], [queue[k]], queue[k + 1..];
    }
  }

  function EnqueuedAll(queue: seq<Item>, items: seq<Item>): (next: seq<Item>)
    decreases items
  {
    if items == [] then queue else EnqueuedAll(Enqueued(queue, items[0]), items[1..])
  }

  /** However many motions of one drag follow each other, the last of them is all that stays queued. */
  lemma {:induction false} DragIsOneItem(queue: seq<Item>, first: Item, more: seq<Item>)
    requires first.coalescible
    requires forall m :: m in more ==> m.coalescible && m.command.sessionId == first.command.sessionId
                                       && m.command.buttons == first.command.buttons
    ensures EnqueuedAll(queue + [first], more) == queue + [if more == [] then first else more[|more| - 1]]
    decreases more
  {
    if more != [] {
      assert more[0] in more && forall m :: m in more[1..] ==> m in more;
      assert Enqueued(queue + [first], more[0]) == queue + [more[0]];
      DragIsOneItem(queue, more[0], more[1..]);
    }
  }

  /** A release is always the last item afterwards; so is any other event unless the queue is saturated. */
  lemma LatestIsLast(queue: seq<Item>, item: Item)
    ensures (!item.coalescible && item.command.buttons == 0) || !Saturated(queue) ==>
              var next := Enqueued(queue, item); next != [] && next[|next| - 1] == item
    ensures (item.coalescible || item.command.buttons != 0) && Saturated(queue) ==> Enqueued(queue, item) == queue
  {
    if |queue| > 0 && Coalesces(queue[|queue| - 1], item) {
      assert HasMotion(queue);
    }
  }

  // ----- Runs: events arrive while the flush loop takes items from the front -----

  /** What waits, the item whose `invoke` has not settled (at most one), and those whose `invoke` succeeded. */
  datatype State = State(queue: seq<Item>, inFlight: seq<Item>, sent: seq<Item>, next: nat)

  /** `Clear` is a change of session; `current` is the session that the loop finds when it takes an item. */
  datatype Step =
    | Arrive(command: Command, coalescible: bool)
    | Take(current: Option<string>)
    | Settle(ok: bool)
    | Clear

  predicate Concerns(item: Item, current: Option<string>) {
    current == Some(item.command.sessionId)
  }

  function Apply(s: State, step: Step): (r: State) {
    match step
    case Arrive(command, coalescible) =>
      s.(queue := Enqueued(s.queue, Item(command, coalescible, s.next)), next := s.next + 1)
    case Take(current) =>
      if s.queue == [] || s.inFlight != [] then s
      else s.(queue := s.queue[1..], inFlight := if Concerns(s.queue[0], current) then [s.queue[0]] else [])
    case Settle(ok) =>
      if s.inFlight == [] then s
      else if ok then s.(sent := s.sent + s.inFlight, inFlight := [])
      else s.(queue := [], inFlight := [])
    case Clear => s.(queue := [])
  }

  function End(s: State, steps: seq<Step>): (r: State)
    decreases steps
  {
    if steps == [] then s else End(Apply(s, steps[0]), steps[1..])
  }

  /** In arrival order, and all from before `limit`. */
  ghost predicate InOrder(items: seq<Item>, limit: nat) {
    && (forall i, j :: 0 <= i < j < |items| ==> items[i].arrival < items[j].arrival)
    && (forall i :: 0 <= i < |items| ==> items[i].arrival < limit)
  }

  ghost predicate Inv(s: State) {
    && |s.queue| <= 128 && |s.inFlight| <= 1
    && InOrder(s.sent + s.inFlight + s.queue, s.next)
  }

  /** Dropping an item keeps the order of the others. */
  lemma DropKeepsOrder(before: seq<Item>, dropped: Item, after: seq<Item>, limit: nat)
    requires InOrder(before + [dropped] + after, limit)
    ensures InOrder(before + after, limit)
  {
    var all, kept := before + [dropped] + after, before + after;
    forall i | 0 <= i < |kept| ensures kept[i] == all[if i < |before| then i else i + 1] {
    }
  }

  lemma AppendKeepsOrder(items: seq<Item>, item: Item)
    requires InOrder(items, item.arrival)
    ensures InOrder(items + [item], item.arrival + 1)
  {
  }

  lemma PrefixKeepsOrder(before: seq<Item>, after: seq<Item>, limit: nat)
    requires InOrder(before + after, limit)
    ensures InOrder(before, limit)
  {
    assert forall i :: 0 <= i < |before| ==> (before + after)[i] == before[i];
  }

  lemma LaterLimit(items: seq<Item>, limit: nat)
    requires InOrder(items, limit)
    ensures InOrder(items, limit + 1)
  {
  }

  /** An arriving event is refused, appended, or takes the place of one item. */
  lemma EnqueueDropsAtMostOne(queue: seq<Item>, item: Item)
    returns (before: seq<Item>, dropped: seq<Item>, after: seq<Item>)
    ensures var next := Enqueued(queue, item);
            next != queue ==>
              && queue == before + dropped + after && next == before + after + [item]
              && |dropped| <= 1
              && (dropped == [] ==> |queue| < MAX_REMOTE_DESKTOP_POINTER_QUEUE_ITEMS)
  {
    if Saturated(queue) {
      SaturatedEnqueue(queue, item);
      before, dropped, after := [], [queue[0]], queue[1..];
    } else {
      before, dropped, after := UnsaturatedEnqueue(queue, item);
    }
  }

  lemma ReplaceKeepsOrder(taken: seq<Item>, before: seq<Item>, dropped: seq<Item>, after: seq<Item>, item: Item)
    requires InOrder(taken + (before + dropped + after), item.arrival) && |dropped| <= 1
    ensures InOrder(taken + (before + after + [item]), item.arrival + 1)
  {
    hide InOrder;
    if dropped == [] {
      assert taken + (before + dropped + after) == taken + before + after;
    } else {
      assert taken + (before + dropped + after) == (taken + before) + [dropped[0]] + after;
      DropKeepsOrder(taken + before, dropped[0], after, item.arrival);
    }
    AppendKeepsOrder(taken + before + after, item);
    assert taken + (before + after + [item]) == taken + before + after + [item];
  }

  lemma ArrivalKeepsInv(s: State, item: Item)
    requires Inv(s) && item.arrival == s.next
    ensures Inv(s.(queue := Enqueued(s.queue, item), next := s.next + 1))
  {
    hide InOrder, Enqueued;
    var before, dropped, after := EnqueueDropsAtMostOne(s.queue, item);
    if Enqueued(s.queue, item) == s.queue {
      LaterLimit(s.sent + s.inFlight + s.queue, s.next);
    } else {
      ReplaceKeepsOrder(s.sent + s.inFlight, before, dropped, after, item);
    }
  }

  lemma StepKeepsInv(s: State, step: Step)
    requires Inv(s)
    ensures Inv(Apply(s, step))
  {
    hide InOrder, Enqueued;
    match step
    case Arrive(command, coalescible) => ArrivalKeepsInv(s, Item(command, coalescible, s.next));
    case Take(current) =>
      if s.queue != [] && s.inFlight == [] {
        assert s.sent + [s.queue[0]] + s.queue[1..] == s.sent + s.inFlight + s.queue;
        DropKeepsOrder(s.sent, s.queue[0], s.queue[1..], s.next);
        assert s.sent + [] + s.queue[1..] == s.sent + s.queue[1..];
      }
    case Settle(ok) =>
      assert s.sent + (s.inFlight + s.queue) == s.sent + s.inFlight + s.queue;
      PrefixKeepsOrder(s.sent, s.inFlight + s.queue, s.next);
      assert s.sent + s.inFlight + [] + s.queue == s.sent + s.inFlight + s.queue && s.sent + [] + [] == s.sent;
    case Clear =>
      PrefixKeepsOrder(s.sent + s.inFlight, s.queue, s.next);
      assert s.sent + s.inFlight + [] == s.sent + s.inFlight;
  }

  /** Over every run at most 128 items wait and one is in flight; those sent, in flight and waiting are in order. */
  lemma {:induction false} BoundedAndInOrder(s: State, steps: seq<Step>)
    requires Inv(s)
    ensures Inv(End(s, steps))
    decreases steps
  {
    if steps != [] {
      StepKeepsInv(s, steps[0]);
      BoundedAndInOrder(Apply(s, steps[0]), steps[1..]);
    }
  }

  // ----- Transitions over whole runs -----

  /** The transitions sent so far, the one in flight and those still queued. */
  function Kept(s: State): (transitions: seq<Item>) {
    Transitions(s.sent) + Transitions(s.inFlight) + Transitions(s.queue)
  }

  /** The transition that arrives with a step, if it is one. */
  function Arriving(step: Step, next: nat): (transitions: seq<Item>) {
    if step.Arrive? then TransitionIn(Item(step.command, step.coalescible, next)) else []
  }

  /** All transitions that arrive over a run, read off the steps alone. */
  function Arrived(steps: seq<Step>, next: nat): (transitions: seq<Item>)
    decreases steps
  {
    if steps == [] then []
    else Arriving(steps[0], next) + Arrived(steps[1..], if steps[0].Arrive? then next + 1 else next)
  }

  predicate HasTransition(items: seq<Item>) {
    exists i :: 0 <= i < |items| && !items[i].coalescible
  }

  /**
    No transition arrives at a queue full of transitions, is taken for another session than the current one,
    is in flight or queued when a send fails, or queued when the session changes.
   */
  predicate LosesNothing(s: State, step: Step) {
    match step
    case Arrive(_, coalescible) => Saturated(s.queue) ==> coalescible
    case Take(current) =>
      s.queue != [] && s.inFlight == [] && current != Some(s.queue[0].command.sessionId) ==>
        s.queue[0].coalescible
    case Settle(ok) => !ok && s.inFlight != [] ==> !HasTransition(s.inFlight) && !HasTransition(s.queue)
    case Clear => !HasTransition(s.queue)
  }

  predicate RunLosesNothing(s: State, steps: seq<Step>)
    decreases steps
  {
    steps != [] ==> LosesNothing(s, steps[0]) && RunLosesNothing(Apply(s, steps[0]), steps[1..])
  }

  lemma {:induction false} NoTransitions(queue: seq<Item>)
    ensures Transitions(queue) == [] <==> !HasTransition(queue)
  {
    if queue != [] {
      NoTransitions(queue[1..]);
      assert forall i :: 0 <= i < |queue[1..]| ==> queue[1..][i] == queue[i + 1];
      assert Transitions(queue) == TransitionIn(queue[0]) + Transitions(queue[1..]);
    }
  }

  lemma StepKeepsTransitions(s: State, step: Step)
    ensures LosesNothing(s, step) ==> Kept(Apply(s, step)) == Kept(s) + Arriving(step, s.next)
    ensures !LosesNothing(s, step) ==> |Kept(Apply(s, step))| < |Kept(s)| + |Arriving(step, s.next)|
  {
    hide Transitions, Enqueued, HasMotion, HasTransition;
    NoTransitions(s.queue);
    NoTransitions(s.inFlight);
    FirstTransition(s.queue);
    match step
    case Arrive(command, coalescible) => TransitionsSurvive(s.queue, Item(command, coalescible, s.next));
    case Settle(_) => SentTransitions(s.sent, s.inFlight);
    case _ =>
  }

  lemma SentTransitions(sent: seq<Item>, more: seq<Item>)
    ensures Transitions(sent + more) == Transitions(sent) + Transitions(more)
  {
    FlatMapConcat(TransitionIn, sent, more);
  }

  /** Where there is nothing there is no transition; otherwise the first item is one, or it is not. */
  lemma FirstTransition(queue: seq<Item>)
    ensures Transitions([]) == []
    ensures queue != [] ==>
              && Transitions([queue[0]]) == TransitionIn(queue[0])
              && Transitions(queue) == TransitionIn(queue[0]) + Transitions(queue[1..])
  {
    if queue != [] {
      FlatMapOne(TransitionIn, queue[0]);
    }
  }

  /**
    Conservation over every run: the transitions sent, in flight or queued at the end are those of the start
    and all that arrived, in order, if and only if no step loses one. When nothing is in flight or queued,
    these are the ones the native side received.
   */
  lemma {:induction false} TransitionsAreConservedExactlyWhen(s: State, steps: seq<Step>)
    ensures Kept(End(s, steps)) == Kept(s) + Arrived(steps, s.next) <==> RunLosesNothing(s, steps)
    ensures |Kept(End(s, steps))| <= |Kept(s)| + |Arrived(steps, s.next)|
    decreases steps
  {
    hide Kept, LosesNothing;
    if steps != [] {
      var t := Apply(s, steps[0]);
      StepKeepsTransitions(s, steps[0]);
      TransitionsAreConservedExactlyWhen(t, steps[1..]);
      assert Kept(s) + Arriving(steps[0], s.next) + Arrived(steps[1..], t.next) == Kept(s) + Arrived(steps, s.next);
    }
  }
}
