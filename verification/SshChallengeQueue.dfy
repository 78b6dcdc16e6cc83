/**
  The desktop's SSH challenge queue: one active challenge and at most 31 waiting ones across all session
  handlers, over every interleaving of challenges, closes, answers, failures and the page being hidden.
 */
module SshChallengeQueue {
  import opened Wrappers

  const MAX_WAITING := 31

  /** One handler per session channel; request ids are looked up per handler. */
  datatype Key = Key(handler: nat, request: string)

  /** Where one challenge is: queued, at its next prompt, at its first or its second answer, or done. */
  datatype Stage = Waiting | Prompting(responses: seq<string>) | Answering | Recovering | Ended

  /**
    One challenge and its history: the answers submitted for it (`None` is the null answer), whether the
    first was rejected, whether it was closed from outside or refused for lack of room, and how often
    its cleanup ran.
   */
  datatype Challenge = Challenge(
    key: Key,
    prompts: nat,
    stage: Stage,
    aborted: bool,
    attempts: seq<Option<seq<string>>>,
    rejected: bool,
    closed: bool,
    refused: bool,
    cleanups: nat)

  /** `authenticationActive`, `waitingAuthentication`, the handlers' `pending` maps, and all challenges by arrival. */
  datatype State = State(
    active: bool,
    waiting: seq<nat>,
    pending: map<Key, nat>,
    challenges: seq<Challenge>,
    started: seq<nat>)

  const Initial := State(false, [], map[], [], [])

  datatype Step =
    | Arrive(key: Key, prompts: nat)
    | Close(key: Key)
    | PageHide
    | PromptSettles(id: nat, response: Option<string>)
    | PromptThrows(id: nat)
    | AnswerSettles(id: nat, ok: bool)

  predicate Running(c: Challenge) {
    c.stage.Prompting? || c.stage.Answering? || c.stage.Recovering?
  }

  predicate Live(c: Challenge) {
    c.stage != Ended
  }

  predicate Possible(s: State, step: Step) {
    match step
    case PromptSettles(id, _) => id < |s.challenges| && s.challenges[id].stage.Prompting?
    case PromptThrows(id) => id < |s.challenges| && s.challenges[id].stage.Prompting?
    case AnswerSettles(id, _) =>
      id < |s.challenges| && (s.challenges[id].stage.Answering? || s.challenges[id].stage.Recovering?)
    case _ => true
  }

  ghost predicate InBounds(s: State) {
    && (forall k :: k in s.waiting ==> k < |s.challenges|)
    && (forall k :: k in s.pending ==> s.pending[k] < |s.challenges|)
  }

  /**
    Whatever happens between two states, no answer is submitted for a challenge that was already aborted,
    and a challenge goes on to be the one that arrived.
   */
  ghost predicate Silent(s: State, t: State) {
    && |s.challenges| <= |t.challenges|
    && forall k :: 0 <= k < |s.challenges| ==>
         && t.challenges[k].key == s.challenges[k].key && t.challenges[k].prompts == s.challenges[k].prompts
         && t.challenges[k].refused == s.challenges[k].refused
         && (s.challenges[k].aborted ==>
               t.challenges[k].aborted && t.challenges[k].attempts == s.challenges[k].attempts)
  }

  /** Nothing is closed from outside. */
  ghost predicate NoneClosed(s: State, t: State) {
    forall k :: 0 <= k < |s.challenges| && k < |t.challenges| ==> t.challenges[k].closed == s.challenges[k].closed
  }

  ghost predicate NonePending(s: State, t: State) {
    forall k :: k in t.pending ==> k in s.pending && t.pending[k] == s.pending[k]
  }

  function With(s: State, id: nat, c: Challenge): (t: State)
    requires id < |s.challenges|
  {
    s.(challenges := s.challenges[id := c])
  }

  /** `start`: the first prompt, or an empty answer at once when there is nothing to ask. */
  function Begin(s: State, id: nat): (t: State)
    requires InBounds(s) && id < |s.challenges|
    ensures InBounds(t) && |t.challenges| == |s.challenges| && Silent(s, t)
    ensures NoneClosed(s, t) && NonePending(s, t)
    decreases |s.waiting|, 1
  {
    var c := s.challenges[id];
    var begun := s.(active := true, started := s.started + [id]);
    if c.prompts > 0 then With(begun, id, c.(stage := Prompting([])))
    else if !c.aborted then With(begun, id, c.(stage := Answering, attempts := c.attempts + [Some([])]))
    else Finish(begun, id)
  }

  /** The `finally` block: clean up, abort, and start the next waiting challenge. */
  function Finish(s: State, id: nat): (t: State)
    requires InBounds(s) && id < |s.challenges|
    ensures InBounds(t) && |t.challenges| == |s.challenges| && Silent(s, t)
    ensures NoneClosed(s, t) && NonePending(s, t)
    decreases |s.waiting|, 0
  {
    var c := s.challenges[id];
    var done := With(s, id, c.(stage := Ended, aborted := true, cleanups := c.cleanups + 1))
                .(active := false, pending := s.pending - {c.key});
    if done.waiting == [] then done
    else
      assert done.waiting[0] in done.waiting && forall k :: k in done.waiting[1..] ==> k in done.waiting;
      Begin(done.(waiting := done.waiting[1..]), done.waiting[0])
  }

  function Without(ids: seq<nat>, id: nat): (rest: seq<nat>)
    ensures forall k :: k in rest ==> k in ids
  {
    if ids == [] then []
    else if ids[0] == id then ids[1..]
    else [ids[0]] + Without(ids[1..], id)
  }

  lemma {:induction false} WithoutMembers(ids: seq<nat>, id: nat)
    requires forall i, j :: 0 <= i < j < |ids| ==> ids[i] < ids[j]
    ensures var rest := Without(ids, id);
            && (forall k :: k in rest <==> k in ids && k != id)
            && (forall i, j :: 0 <= i < j < |rest| ==> rest[i] < rest[j])
            && |rest| <= |ids|
  {
    if ids != [] {
      WithoutMembers(ids[1..], id);
      var rest := Without(ids, id);
      if ids[0] != id {
        var tail := Without(ids[1..], id);
        assert forall k :: k in rest <==> k == ids[0] || k in tail;
        forall i, j | 0 <= i < j < |rest| ensures rest[i] < rest[j] {
          if i == 0 { assert rest[j] in ids[1..]; }
        }
      }
    }
  }

  /** The controller of a live challenge is aborted from outside; a waiting one leaves the queue at once. */
  function Abort(s: State, id: nat): (t: State)
    requires InBounds(s) && id < |s.challenges|
    ensures InBounds(t) && |t.challenges| == |s.challenges| && Silent(s, t)
  {
    var c := s.challenges[id].(aborted := true, closed := true);
    if c.stage.Waiting? then
      With(s, id, c.(stage := Ended, cleanups := c.cleanups + 1))
      .(waiting := Without(s.waiting, id), pending := s.pending - {c.key})
    else With(s, id, c)
  }

  /** The `pagehide` listeners of the challenges from `id` on, in order of arrival; cleanup removes a listener. */
  function HideFrom(s: State, id: nat): (t: State)
    requires InBounds(s) && id <= |s.challenges|
    ensures InBounds(t) && |t.challenges| == |s.challenges| && Silent(s, t)
    decreases |s.challenges| - id
  {
    if id == |s.challenges| then s else HideFrom(HideOne(s, id), id + 1)
  }

  function HideOne(s: State, id: nat): (t: State)
    requires InBounds(s) && id < |s.challenges|
    ensures InBounds(t) && |t.challenges| == |s.challenges| && Silent(s, t)
  {
    if Live(s.challenges[id]) then Abort(s, id) else s
  }

  /** An answer is submitted unless the challenge has been aborted meanwhile. */
  function Submit(s: State, id: nat, answer: Option<seq<string>>, stage: Stage): (t: State)
    requires InBounds(s) && id < |s.challenges|
    ensures InBounds(t)
  {
    var c := s.challenges[id];
    if c.aborted then Finish(s, id)
    else With(s, id, c.(stage := stage, attempts := c.attempts + [answer]))
  }

  function Fresh(key: Key, prompts: nat): (c: Challenge) {
    Challenge(key, prompts, Waiting, false, [], false, false, false, 0)
  }

  function Apply(s: State, step: Step): (t: State)
    requires InBounds(s) && Possible(s, step)
    ensures InBounds(t)
  {
    match step
    case Arrive(key, prompts) =>
      var id := |s.challenges|;
      var c := Fresh(key, prompts);
      var added := s.(challenges := s.challenges + [c], pending := s.pending[key := id]);
      if !s.active then Begin(added, id)
      else if |s.waiting| < MAX_WAITING then added.(waiting := s.waiting + [id])
      else
        With(added, id, c.(stage := Ended, aborted := true, refused := true, attempts := [None], cleanups := 1))
        .(pending := added.pending - {key})
    case Close(key) =>
      if key in s.pending then Abort(s, s.pending[key]) else s
    case PageHide => HideFrom(s, 0)
    case PromptSettles(id, response) =>
      if response.None? then Submit(s, id, None, Answering)
      else
        var responses := s.challenges[id].stage.responses + [response.value];
        if |responses| < s.challenges[id].prompts then
          With(s, id, s.challenges[id].(stage := Prompting(responses)))
        else Submit(s, id, Some(responses), Answering)
    case PromptThrows(id) => Submit(s, id, None, Recovering)
    case AnswerSettles(id, ok) =>
      if ok || s.challenges[id].stage.Recovering? then Finish(s, id)
      else
        var failed := With(s, id, s.challenges[id].(rejected := true));
        Submit(failed, id, None, Recovering)
  }

  // ----- What holds of every challenge -----

  /** At most two answers: the first complete or null, the second null and only after a rejection. */
  ghost predicate WellAnswered(c: Challenge) {
    && |c.attempts| <= 2
    && (|c.attempts| >= 1 && c.attempts[0].Some? ==> |c.attempts[0].value| == c.prompts)
    && (|c.attempts| == 2 ==> c.rejected && c.attempts[1] == None)
  }

  ghost predicate ChallengeInv(c: Challenge) {
    && WellAnswered(c)
    && c.cleanups == (if c.stage.Ended? then 1 else 0)
    && (c.closed ==> c.aborted)
    && (Live(c) && c.aborted ==> c.closed)
    && match c.stage
       case Waiting => c.attempts == [] && !c.aborted && !c.refused && !c.rejected
       case Prompting(responses) => c.attempts == [] && |responses| < c.prompts && !c.refused && !c.rejected
       case Answering => |c.attempts| == 1 && !c.rejected && !c.refused
       case Recovering => |c.attempts| >= 1 && !c.refused
       case Ended => true
  }

  ghost predicate Ascending(ids: seq<nat>) {
    forall i, j :: 0 <= i < j < |ids| ==> ids[i] < ids[j]
  }

  lemma AscendingTail(ids: seq<nat>)
    requires Ascending(ids) && ids != []
    ensures Ascending(ids[1..])
    ensures forall k :: k in ids[1..] ==> ids[0] < k
    ensures forall k :: k in ids <==> k == ids[0] || k in ids[1..]
  {
    forall k | k in ids[1..] ensures ids[0] < k {
      var i :| 0 <= i < |ids| - 1 && ids[1..][i] == k;
      assert ids[i + 1] == k;
    }
  }

  lemma AscendingSnoc(ids: seq<nat>, id: nat)
    requires Ascending(ids) && forall k :: k in ids ==> k < id
    ensures Ascending(ids + [id])
    ensures forall k :: k in ids + [id] <==> k in ids || k == id
  {
    forall i, j | 0 <= i < j < |ids| + 1 ensures (ids + [id])[i] < (ids + [id])[j] {
      assert ids[i] in ids;
    }
  }

  /** Service is in order of arrival: the challenges started, then `next` if one is about to be, then the waiting. */
  ghost predicate InLine(started: seq<nat>, next: nat, waiting: seq<nat>) {
    && Ascending(started) && Ascending(waiting) && |waiting| <= MAX_WAITING
    && (forall k :: k in started ==> k < next)
    && (forall k, j :: k in started && j in waiting ==> k < j)
  }

  /**
    Which challenges are where: at most one runs, and it is the last one started; the waiting list holds
    the waiting ones, apart from `next`; and only closed or refused challenges end unstarted.
   */
  ghost predicate InPlace(s: State, next: nat) {
    && (s.active ==> s.started != [] && LastStarted(s) < |s.challenges| && Running(s.challenges[LastStarted(s)]))
    && (forall k :: 0 <= k < |s.challenges| && Running(s.challenges[k]) ==>
          s.active && s.started != [] && k == LastStarted(s))
    && (forall k :: 0 <= k < |s.challenges| ==> (s.challenges[k].stage.Waiting? <==> k in s.waiting || k == next))
    && (forall k :: k in s.started ==> k < |s.challenges|)
    && (forall k :: 0 <= k < |s.challenges| && s.challenges[k].stage.Ended? && k !in s.started ==>
          s.challenges[k].closed || s.challenges[k].refused)
  }

  ghost predicate QueueCore(s: State, next: nat) {
    InLine(s.started, next, s.waiting) && InPlace(s, next)
  }

  function LastStarted(s: State): (id: nat)
    requires s.started != []
  {
    s.started[|s.started| - 1]
  }

  ghost predicate AllFine(s: State) {
    forall k :: 0 <= k < |s.challenges| ==> ChallengeInv(s.challenges[k])
  }

  ghost predicate Inv(s: State) {
    && InBounds(s)
    && QueueCore(s, |s.challenges|)
    && (s.waiting != [] ==> s.active)
    && AllFine(s)
  }

  /** A free queue starts the next challenge in line. */
  lemma BeginKeeps(s: State, id: nat)
    requires InBounds(s) && id < |s.challenges| && !s.active
    requires QueueCore(s, id) && AllFine(s)
    requires forall j :: j in s.waiting ==> id < j
    ensures Inv(Begin(s, id))
    ensures id in Begin(s, id).started
  {
    var t := Begin(s, id);
    AscendingSnoc(s.started, id);
    assert ChallengeInv(s.challenges[id]);
    assert t.started == s.started + [id];
    assert forall k :: 0 <= k < |t.challenges| && k != id ==> t.challenges[k] == s.challenges[k];
    assert ChallengeInv(t.challenges[id]);
  }

  /** Everything of `ChallengeInv` that the end of a challenge relies on. */
  ghost predicate MayEnd(c: Challenge) {
    WellAnswered(c) && c.cleanups == 0 && Running(c)
  }

  /** The first half of `finally`: the challenge has ended and none is running. */
  function Freed(s: State, id: nat): (t: State)
    requires InBounds(s) && id < |s.challenges|
    ensures InBounds(t)
  {
    var c := s.challenges[id];
    With(s, id, c.(stage := Ended, aborted := true, cleanups := c.cleanups + 1))
    .(active := false, pending := s.pending - {c.key})
  }

  lemma FreedKeeps(s: State, id: nat)
    requires InBounds(s) && id < |s.challenges| && QueueCore(s, |s.challenges|)
    requires forall k :: 0 <= k < |s.challenges| && k != id ==> ChallengeInv(s.challenges[k])
    requires MayEnd(s.challenges[id])
    ensures QueueCore(Freed(s, id), |s.challenges|) && AllFine(Freed(s, id))
  {
    var done := Freed(s, id);
    assert id in s.started;
    assert forall k :: 0 <= k < |s.challenges| && k != id ==> done.challenges[k] == s.challenges[k];
  }

  lemma PopKeeps(s: State)
    requires InBounds(s) && QueueCore(s, |s.challenges|) && s.waiting != []
    ensures var next := s.waiting[0];
            && InBounds(s.(waiting := s.waiting[1..])) && QueueCore(s.(waiting := s.waiting[1..]), next)
            && forall j :: j in s.waiting[1..] ==> next < j
  {
    AscendingTail(s.waiting);
    hide Ascending;
    assert s.waiting[0] in s.waiting;
  }

  lemma FinishKeeps(s: State, id: nat)
    requires InBounds(s) && id < |s.challenges| && QueueCore(s, |s.challenges|)
    requires forall k :: 0 <= k < |s.challenges| && k != id ==> ChallengeInv(s.challenges[k])
    requires MayEnd(s.challenges[id])
    ensures Inv(Finish(s, id))
  {
    hide QueueCore, ChallengeInv;
    FreedKeeps(s, id);
    var done := Freed(s, id);
    if done.waiting != [] {
      PopKeeps(done);
      assert done.waiting[0] in done.waiting;
      BeginKeeps(done.(waiting := done.waiting[1..]), done.waiting[0]);
    }
  }

  /** A running challenge changes, and goes on running. */
  lemma ChangeKeeps(s: State, id: nat, c: Challenge)
    requires Inv(s) && id < |s.challenges|
    requires Running(s.challenges[id]) && Running(c) && ChallengeInv(c)
    ensures Inv(With(s, id, c))
  {
    var t := With(s, id, c);
    assert forall k :: 0 <= k < |s.challenges| && k != id ==> t.challenges[k] == s.challenges[k];
  }

  lemma SubmitKeeps(s: State, id: nat, rejected: bool, answer: Option<seq<string>>, stage: Stage)
    requires Inv(s) && id < |s.challenges|
    requires var c := s.challenges[id];
             || (c.stage.Prompting? && !rejected && (answer.Some? ==> |answer.value| == c.prompts)
                 && (stage.Answering? || (stage.Recovering? && answer.None?)))
             || (c.stage.Answering? && rejected && answer.None? && stage.Recovering?)
    ensures Inv(Submit(With(s, id, s.challenges[id].(rejected := rejected)), id, answer, stage))
  {
    var c := s.challenges[id];
    assert ChallengeInv(c);
    var marked := With(s, id, c.(rejected := rejected));
    if c.aborted {
      MarkedCore(s, id, rejected);
      FinishKeeps(marked, id);
    } else {
      var after := c.(rejected := rejected, stage := stage, attempts := c.attempts + [answer]);
      ChangeKeeps(s, id, after);
      assert With(marked, id, after).challenges == With(s, id, after).challenges;
    }
  }

  lemma MarkedCore(s: State, id: nat, rejected: bool)
    requires Inv(s) && id < |s.challenges| && Running(s.challenges[id])
    ensures var marked := With(s, id, s.challenges[id].(rejected := rejected));
            && InBounds(marked) && QueueCore(marked, |marked.challenges|)
            && (forall k :: 0 <= k < |s.challenges| && k != id ==> ChallengeInv(marked.challenges[k]))
            && MayEnd(marked.challenges[id]) == MayEnd(s.challenges[id].(rejected := rejected))
  {
    var marked := With(s, id, s.challenges[id].(rejected := rejected));
    assert forall k :: 0 <= k < |s.challenges| && k != id ==> marked.challenges[k] == s.challenges[k];
  }

  lemma ArriveKeeps(s: State, key: Key, prompts: nat)
    requires Inv(s)
    ensures Inv(Apply(s, Arrive(key, prompts)))
  {
    var id := |s.challenges|;
    var added := s.(challenges := s.challenges + [Fresh(key, prompts)], pending := s.pending[key := id]);
    var t := Apply(s, Arrive(key, prompts));
    assert forall k :: 0 <= k < id ==> added.challenges[k] == s.challenges[k];
    assert InPlace(added, id) && AllFine(added);
    assert ChallengeInv(Fresh(key, prompts));
    hide ChallengeInv, Fresh;
    if !s.active {
      BeginKeeps(added, id);
    } else if |s.waiting| < MAX_WAITING {
      AscendingSnoc(s.waiting, id);
      assert InLine(t.started, id + 1, t.waiting);
    } else {
      RefusalKeeps(s, key, prompts);
    }
  }

  lemma RefusalKeeps(s: State, key: Key, prompts: nat)
    requires Inv(s) && s.active && |s.waiting| >= MAX_WAITING
    ensures Inv(Apply(s, Arrive(key, prompts)))
  {
    var t := Apply(s, Arrive(key, prompts));
    assert forall k :: 0 <= k < |s.challenges| ==> t.challenges[k] == s.challenges[k];
    assert InPlace(t, |t.challenges|);
  }

  lemma AbortKeeps(s: State, id: nat)
    requires Inv(s) && id < |s.challenges|
    ensures Inv(Abort(s, id))
  {
    var t := Abort(s, id);
    assert ChallengeInv(s.challenges[id]);
    if s.challenges[id].stage.Waiting? {
      WithoutMembers(s.waiting, id);
      assert InLine(t.started, |t.challenges|, t.waiting) by { hide InPlace, ChallengeInv; }
      assert forall k :: 0 <= k < |s.challenges| && k != id ==> t.challenges[k] == s.challenges[k];
      assert InPlace(t, |t.challenges|);
    } else if Live(s.challenges[id]) {
      ChangeKeeps(s, id, t.challenges[id]);
    } else {
      assert forall k :: 0 <= k < |s.challenges| && k != id ==> t.challenges[k] == s.challenges[k];
    }
  }

  lemma {:induction false} HideKeeps(s: State, id: nat)
    requires Inv(s) && id <= |s.challenges|
    ensures Inv(HideFrom(s, id))
    decreases |s.challenges| - id
  {
    hide Abort, QueueCore, AllFine;
    if id < |s.challenges| {
      if Live(s.challenges[id]) {
        AbortKeeps(s, id);
      }
      HideKeeps(HideOne(s, id), id + 1);
    }
  }

  lemma StepKeepsInv(s: State, step: Step)
    requires Inv(s) && Possible(s, step)
    ensures Inv(Apply(s, step))
  {
    hide InLine;
    match step
    case Arrive(key, prompts) => ArriveKeeps(s, key, prompts);
    case Close(key) => if key in s.pending { AbortKeeps(s, s.pending[key]); }
    case PageHide => HideKeeps(s, 0);
    case PromptSettles(id, response) =>
      var c := s.challenges[id];
      assert ChallengeInv(c);
      assert With(s, id, c.(rejected := c.rejected)) == s;
      if response.None? {
        SubmitKeeps(s, id, false, None, Answering);
      } else {
        var responses := c.stage.responses + [response.value];
        if |responses| < c.prompts {
          ChangeKeeps(s, id, c.(stage := Prompting(responses)));
        } else {
          SubmitKeeps(s, id, false, Some(responses), Answering);
        }
      }
    case PromptThrows(id) =>
      var c := s.challenges[id];
      assert ChallengeInv(c);
      assert With(s, id, c.(rejected := c.rejected)) == s;
      SubmitKeeps(s, id, false, None, Recovering);
    case AnswerSettles(id, ok) =>
      assert ChallengeInv(s.challenges[id]);
      if ok || s.challenges[id].stage.Recovering? {
        FinishKeeps(s, id);
      } else {
        SubmitKeeps(s, id, true, None, Recovering);
      }
  }

  // ----- Runs -----

  ghost predicate IsRun(s: State, steps: seq<Step>)
    requires InBounds(s)
    decreases steps
  {
    steps == [] || (Possible(s, steps[0]) && IsRun(Apply(s, steps[0]), steps[1..]))
  }

  ghost function End(s: State, steps: seq<Step>): (t: State)
    requires InBounds(s) && IsRun(s, steps)
    ensures InBounds(t)
    decreases steps
  {
    if steps == [] then s else End(Apply(s, steps[0]), steps[1..])
  }

  lemma {:induction false} RunKeepsInv(s: State, steps: seq<Step>)
    requires Inv(s) && IsRun(s, steps)
    ensures Inv(End(s, steps))
    decreases steps
  {
    hide Apply;
    if steps != [] {
      StepKeepsInv(s, steps[0]);
      RunKeepsInv(Apply(s, steps[0]), steps[1..]);
    }
  }

  /**
    Over every interleaving and all handlers: never two challenges at once, never more than 31 waiting, and
    waiting only behind an active one; service strictly in order of arrival, passing over only challenges
    that were closed or refused; each challenge is cleaned up once, when it ends; and it is answered at
    most twice, the second time with null, after the first answer was rejected.
   */
  lemma ChallengesAreServedOneByOne(steps: seq<Step>)
    requires IsRun(Initial, steps)
    ensures var t := End(Initial, steps);
            && (forall i, j | 0 <= i < |t.challenges| && 0 <= j < |t.challenges| ::
                  Running(t.challenges[i]) && Running(t.challenges[j]) ==> i == j)
            && (t.active <==> exists i :: 0 <= i < |t.challenges| && Running(t.challenges[i]))
            && |t.waiting| <= 31 && (t.waiting != [] ==> t.active)
            && Ascending(t.started + t.waiting)
            && (forall k :: 0 <= k < |t.challenges| ==>
                  var c := t.challenges[k];
                  && (k !in t.started && k !in t.waiting ==> c.closed || c.refused)
                  && c.cleanups == (if Live(c) then 0 else 1)
                  && WellAnswered(c))
  {
    RunKeepsInv(Initial, steps);
    var t := End(Initial, steps);
    if t.active {
      assert Running(t.challenges[LastStarted(t)]);
    }
    forall k | 0 <= k < |t.challenges| ensures ChallengeInv(t.challenges[k]) {
    }
    InLineIsAscending(t.started, |t.challenges|, t.waiting);
  }

  lemma InLineIsAscending(started: seq<nat>, next: nat, waiting: seq<nat>)
    requires InLine(started, next, waiting)
    ensures Ascending(started + waiting)
  {
    var all := started + waiting;
    forall i, j | 0 <= i < j < |all| ensures all[i] < all[j] {
      if i < |started| <= j {
        assert all[i] in started && all[j] in waiting;
      }
    }
  }

  // ----- A closed challenge is not answered -----

  lemma SilentReflexive(s: State)
    ensures Silent(s, s)
  {
  }

  lemma SilentTransitive(s: State, t: State, u: State)
    requires Silent(s, t) && Silent(t, u)
    ensures Silent(s, u)
  {
    forall k | 0 <= k < |s.challenges|
      ensures u.challenges[k].key == s.challenges[k].key && u.challenges[k].prompts == s.challenges[k].prompts
      ensures u.challenges[k].refused == s.challenges[k].refused
      ensures s.challenges[k].aborted ==>
                u.challenges[k].aborted && u.challenges[k].attempts == s.challenges[k].attempts
    {
      assert s.challenges[k].aborted ==> t.challenges[k].aborted;
    }
  }

  lemma SubmitIsSilent(s: State, id: nat, answer: Option<seq<string>>, stage: Stage)
    requires InBounds(s) && id < |s.challenges|
    ensures Silent(s, Submit(s, id, answer, stage))
  {
    hide Finish, NoneClosed, NonePending;
  }

  /** Changing one challenge, short of who it is and of what an aborted one has been answered. */
  lemma WithIsSilent(s: State, id: nat, c: Challenge)
    requires id < |s.challenges| && c.aborted == s.challenges[id].aborted && c.attempts == s.challenges[id].attempts
    requires c.key == s.challenges[id].key && c.prompts == s.challenges[id].prompts
    requires c.refused == s.challenges[id].refused
    ensures Silent(s, With(s, id, c))
  {
  }

  lemma ArriveIsSilent(s: State, key: Key, prompts: nat)
    requires InBounds(s)
    ensures Silent(s, Apply(s, Arrive(key, prompts)))
  {
    hide Begin, NoneClosed, NonePending;
    var id, t := |s.challenges|, Apply(s, Arrive(key, prompts));
    var added := s.(challenges := s.challenges + [Fresh(key, prompts)], pending := s.pending[key := id]);
    assert Silent(s, added);
    if !s.active {
      SilentTransitive(s, added, Begin(added, id));
    } else {
      assert forall k :: 0 <= k < id ==> t.challenges[k] == s.challenges[k];
    }
  }

  lemma StepIsSilent(s: State, step: Step)
    requires InBounds(s) && Possible(s, step)
    ensures Silent(s, Apply(s, step))
  {
    hide Begin, Finish, Submit, Silent, NoneClosed, NonePending;
    match step
    case Arrive(key, prompts) => ArriveIsSilent(s, key, prompts);
    case Close(_) => SilentReflexive(s);
    case PageHide =>
    case PromptSettles(id, response) =>
      if response.None? {
        SubmitIsSilent(s, id, None, Answering);
      } else {
        var responses := s.challenges[id].stage.responses + [response.value];
        WithIsSilent(s, id, s.challenges[id].(stage := Prompting(responses)));
        SubmitIsSilent(s, id, Some(responses), Answering);
      }
    case PromptThrows(id) => SubmitIsSilent(s, id, None, Recovering);
    case AnswerSettles(id, ok) =>
      var failed := With(s, id, s.challenges[id].(rejected := true));
      WithIsSilent(s, id, s.challenges[id].(rejected := true));
      SubmitIsSilent(failed, id, None, Recovering);
      SilentTransitive(s, failed, Submit(failed, id, None, Recovering));
  }

  /** Once a challenge has been aborted, no answer is ever submitted for it again. */
  lemma {:induction false} AbortedIsNeverAnswered(s: State, steps: seq<Step>, k: nat)
    requires InBounds(s) && IsRun(s, steps) && k < |s.challenges| && s.challenges[k].aborted
    ensures var t := End(s, steps);
            k < |t.challenges| && t.challenges[k].aborted && t.challenges[k].attempts == s.challenges[k].attempts
    decreases steps
  {
    if steps != [] {
      StepIsSilent(s, steps[0]);
      AbortedIsNeverAnswered(Apply(s, steps[0]), steps[1..], k);
    }
  }

  lemma {:induction false} HideReachesAll(s: State, id: nat)
    requires InBounds(s) && id <= |s.challenges|
    ensures var t := HideFrom(s, id);
            && (forall k :: 0 <= k < id ==> t.challenges[k] == s.challenges[k])
            && (forall k :: id <= k < |s.challenges| ==> t.challenges[k].stage.Ended? || t.challenges[k].aborted)
    decreases |s.challenges| - id
  {
    hide HideOne;
    if id < |s.challenges| {
      HideOneReaches(s, id);
      HideReachesAll(HideOne(s, id), id + 1);
    }
  }

  lemma HideOneReaches(s: State, id: nat)
    requires InBounds(s) && id < |s.challenges|
    ensures var t := HideOne(s, id);
            && (forall k :: 0 <= k < |s.challenges| && k != id ==> t.challenges[k] == s.challenges[k])
            && (t.challenges[id].stage.Ended? || t.challenges[id].aborted)
  {
  }

  lemma WaitersAreNotAborted(s: State)
    requires Inv(s)
    ensures s.waiting != [] ==> var k := s.waiting[0];
              k < |s.challenges| && s.challenges[k].stage.Waiting? && !s.challenges[k].aborted
  {
    if s.waiting != [] {
      assert s.waiting[0] in s.waiting && ChallengeInv(s.challenges[s.waiting[0]]);
    }
  }

  /** When the page is hidden every challenge is aborted or over, and none waits any more. */
  lemma PageHideAbortsAll(s: State)
    requires Inv(s)
    ensures var t := Apply(s, PageHide);
            && t.waiting == []
            && forall k :: 0 <= k < |t.challenges| ==> t.challenges[k].stage.Ended? || t.challenges[k].aborted
  {
    HideKeeps(s, 0);
    WaitersAreNotAborted(HideFrom(s, 0));
    HideReachesAll(s, 0);
  }

  // ----- Which challenge a close reaches -----

  /** A handler's pending map leads to live challenges only, under their own request ids. */
  ghost predicate Sound(s: State) {
    forall k :: k in s.pending ==>
      s.pending[k] < |s.challenges| && Live(s.challenges[s.pending[k]]) && s.challenges[s.pending[k]].key == k
  }

  /** ... and every live challenge is found there, so that a close reaches exactly the challenge it names. */
  ghost predicate Exact(s: State) {
    && Sound(s)
    && forall i :: 0 <= i < |s.challenges| && Live(s.challenges[i]) ==>
         s.challenges[i].key in s.pending && s.pending[s.challenges[i].key] == i
  }

  ghost predicate KeyInUse(s: State, key: Key) {
    exists i :: 0 <= i < |s.challenges| && Live(s.challenges[i]) && s.challenges[i].key == key
  }

  /** Stages and keys are all that exactness looks at. */
  lemma ExactDependsOn(s: State, t: State)
    requires Exact(s) && t.pending == s.pending && |t.challenges| == |s.challenges|
    requires forall k :: 0 <= k < |s.challenges| ==>
               t.challenges[k].key == s.challenges[k].key && (Live(t.challenges[k]) <==> Live(s.challenges[k]))
    ensures Exact(t)
  {
  }

  lemma EndingKeepsExact(s: State, t: State, id: nat)
    requires Exact(s) && id < |s.challenges| && Live(s.challenges[id])
    requires t.pending == s.pending - {s.challenges[id].key} && |t.challenges| == |s.challenges|
    requires forall k :: 0 <= k < |s.challenges| ==> t.challenges[k].key == s.challenges[k].key
    requires forall k :: 0 <= k < |s.challenges| && k != id ==> (Live(t.challenges[k]) <==> Live(s.challenges[k]))
    requires !Live(t.challenges[id])
    ensures Exact(t)
  {
    var key := s.challenges[id].key;
    forall k | 0 <= k < |s.challenges| && k != id && Live(s.challenges[k]) ensures s.challenges[k].key != key {
      assert s.pending[s.challenges[k].key] == k;
    }
  }

  lemma BeginKeepsExact(s: State, id: nat)
    requires InBounds(s) && id < |s.challenges| && Exact(s) && Live(s.challenges[id]) && !s.challenges[id].aborted
    ensures Exact(Begin(s, id))
  {
    ExactDependsOn(s, Begin(s, id));
  }

  /** The waiting challenges have not been touched since they arrived. */
  ghost predicate WaitingAreFresh(s: State) {
    forall j :: j in s.waiting ==> j < |s.challenges| && s.challenges[j].stage.Waiting? && !s.challenges[j].aborted
  }

  lemma NextKeepsExact(done: State)
    requires InBounds(done) && Exact(done) && WaitingAreFresh(done) && done.waiting != []
    ensures var next, popped := done.waiting[0], done.(waiting := done.waiting[1..]);
            next < |done.challenges| && InBounds(popped) && Exact(Begin(popped, next))
  {
    var next, popped := done.waiting[0], done.(waiting := done.waiting[1..]);
    assert next in done.waiting && forall k :: k in popped.waiting ==> k in done.waiting;
    ExactDependsOn(done, popped);
    hide Exact;
    BeginKeepsExact(popped, next);
  }

  lemma FinishKeepsExact(s: State, id: nat)
    requires InBounds(s) && id < |s.challenges| && Exact(s) && Running(s.challenges[id]) && WaitingAreFresh(s)
    ensures Exact(Finish(s, id))
  {
    hide Exact, Begin, Silent;
    var done := Freed(s, id);
    EndingKeepsExact(s, done, id);
    if done.waiting != [] {
      NextKeepsExact(done);
    }
  }

  lemma SubmitKeepsExact(s: State, id: nat, answer: Option<seq<string>>, stage: Stage)
    requires InBounds(s) && id < |s.challenges| && Exact(s) && Running(s.challenges[id])
    requires WaitingAreFresh(s)
    requires stage.Answering? || stage.Recovering?
    ensures Exact(Submit(s, id, answer, stage))
  {
    if s.challenges[id].aborted {
      FinishKeepsExact(s, id);
    } else {
      ExactDependsOn(s, Submit(s, id, answer, stage));
    }
  }

  lemma {:induction false} HideKeepsExact(s: State, id: nat)
    requires InBounds(s) && Exact(s) && id <= |s.challenges|
    ensures Exact(HideFrom(s, id))
    decreases |s.challenges| - id
  {
    hide Abort, Exact;
    if id < |s.challenges| {
      if Live(s.challenges[id]) {
        CloseKeepsExact(s, id);
      }
      HideKeepsExact(HideOne(s, id), id + 1);
    }
  }

  lemma PendingIsLive(s: State)
    requires Exact(s)
    ensures forall k :: k in s.pending ==> s.pending[k] < |s.challenges| && Live(s.challenges[s.pending[k]])
                                           && s.challenges[s.pending[k]].key == k
  {
  }

  lemma CloseKeepsExact(s: State, id: nat)
    requires InBounds(s) && Exact(s) && id < |s.challenges| && Live(s.challenges[id])
    ensures Exact(Abort(s, id))
  {
    var t := Abort(s, id);
    if s.challenges[id].stage.Waiting? { EndingKeepsExact(s, t, id); } else { ExactDependsOn(s, t); }
  }

  lemma PromptKeepsExact(s: State, id: nat, response: Option<string>)
    requires InBounds(s) && Exact(s) && WaitingAreFresh(s) && Possible(s, PromptSettles(id, response))
    ensures Exact(Apply(s, PromptSettles(id, response)))
  {
    if response.None? {
      SubmitKeepsExact(s, id, None, Answering);
    } else {
      var responses := s.challenges[id].stage.responses + [response.value];
      if |responses| < s.challenges[id].prompts {
        ExactDependsOn(s, Apply(s, PromptSettles(id, response)));
      } else {
        SubmitKeepsExact(s, id, Some(responses), Answering);
      }
    }
  }

  lemma AnswerKeepsExact(s: State, id: nat, ok: bool)
    requires InBounds(s) && Exact(s) && WaitingAreFresh(s) && Possible(s, AnswerSettles(id, ok))
    ensures Exact(Apply(s, AnswerSettles(id, ok)))
  {
    if ok || s.challenges[id].stage.Recovering? {
      FinishKeepsExact(s, id);
    } else {
      var failed := With(s, id, s.challenges[id].(rejected := true));
      ExactDependsOn(s, failed);
      SubmitKeepsExact(failed, id, None, Recovering);
    }
  }

  /** Every step but an arrival keeps the pending maps exact. */
  lemma StepKeepsExact(s: State, step: Step)
    requires Inv(s) && Exact(s) && Possible(s, step) && !step.Arrive?
    ensures Exact(Apply(s, step))
  {
    forall j | j in s.waiting ensures s.challenges[j].stage.Waiting? && !s.challenges[j].aborted {
      assert ChallengeInv(s.challenges[j]);
    }
    PendingIsLive(s);
    hide Exact, Finish, Silent, ChallengeInv, QueueCore;
    match step
    case Close(key) => if key in s.pending { CloseKeepsExact(s, s.pending[key]); }
    case PageHide => HideKeepsExact(s, 0);
    case PromptSettles(id, response) => PromptKeepsExact(s, id, response);
    case PromptThrows(id) => SubmitKeepsExact(s, id, None, Recovering);
    case AnswerSettles(id, ok) => AnswerKeepsExact(s, id, ok);
  }

  lemma FreshArrivalIsExact(s: State, key: Key, prompts: nat)
    requires Inv(s) && Exact(s) && !KeyInUse(s, key)
    ensures Exact(Apply(s, Arrive(key, prompts)))
  {
    var id := |s.challenges|;
    var added := s.(challenges := s.challenges + [Fresh(key, prompts)], pending := s.pending[key := id]);
    var t := Apply(s, Arrive(key, prompts));
    assert key !in s.pending;
    assert Exact(added);
    hide Exact, Silent, NoneClosed, NonePending, Inv, Begin;
    if !s.active {
      BeginKeepsExact(added, id);
    } else if |s.waiting| < MAX_WAITING {
      ExactDependsOn(added, t);
    } else {
      EndingKeepsExact(added, t, id);
    }
  }

  lemma RepeatedArrivalIsNotExact(s: State, key: Key, prompts: nat)
    requires Inv(s) && KeyInUse(s, key)
    ensures !Exact(Apply(s, Arrive(key, prompts)))
  {
    var id := |s.challenges|;
    var t := Apply(s, Arrive(key, prompts));
    var i :| 0 <= i < id && Live(s.challenges[i]) && s.challenges[i].key == key;
    assert t.challenges[i] == s.challenges[i];
    assert key in t.pending ==> t.pending[key] == id;
  }

  /**
    An arrival keeps them exact if and only if no live challenge of that handler has the same request id.
    The native side draws request ids at random, so the condition holds in practice; with a repeated id,
    closing it would no longer reach the earlier challenge.
   */
  lemma ArrivalIsExactExactlyWhen(s: State, key: Key, prompts: nat)
    requires Inv(s) && Exact(s)
    ensures Exact(Apply(s, Arrive(key, prompts))) <==> !KeyInUse(s, key)
  {
    if KeyInUse(s, key) {
      RepeatedArrivalIsNotExact(s, key, prompts);
    } else {
      FreshArrivalIsExact(s, key, prompts);
    }
  }

  /** The pending maps are exact at every moment of a run. */
  ghost predicate AlwaysExact(s: State, steps: seq<Step>)
    requires InBounds(s) && IsRun(s, steps)
    decreases steps
  {
    Exact(s) && (steps != [] ==> AlwaysExact(Apply(s, steps[0]), steps[1..]))
  }

  /** Every challenge arrives under a request id that no live challenge of its handler has. */
  ghost predicate ArrivalsAreFresh(s: State, steps: seq<Step>)
    requires InBounds(s) && IsRun(s, steps)
    decreases steps
  {
    steps != [] ==>
      && (steps[0].Arrive? ==> !KeyInUse(s, steps[0].key))
      && ArrivalsAreFresh(Apply(s, steps[0]), steps[1..])
  }

  /** Over every run: closes always reach the challenges they name if and only if request ids are fresh on arrival. */
  lemma {:induction false} RunIsExactExactlyWhen(s: State, steps: seq<Step>)
    requires Inv(s) && IsRun(s, steps) && Exact(s)
    ensures AlwaysExact(s, steps) <==> ArrivalsAreFresh(s, steps)
    ensures ArrivalsAreFresh(s, steps) ==> Exact(End(s, steps))
    decreases steps
  {
    if steps != [] {
      StepKeepsInv(s, steps[0]);
      hide Exact, KeyInUse, Apply;
      var t := Apply(s, steps[0]);
      if steps[0].Arrive? {
        ArrivalIsExactExactlyWhen(s, steps[0].key, steps[0].prompts);
      } else {
        StepKeepsExact(s, steps[0]);
      }
      if Exact(t) {
        RunIsExactExactlyWhen(t, steps[1..]);
      } else {
        assert !AlwaysExact(t, steps[1..]);
      }
    }
  }

  /**
    A close reaches the challenge it names: whatever happens afterwards, no answer is submitted for that
    challenge any more, and none at all if it was closed before its first answer.
   */
  lemma ClosedIsNeverAnswered(s: State, k: nat, steps: seq<Step>)
    requires InBounds(s) && Exact(s) && k < |s.challenges| && Live(s.challenges[k])
    requires IsRun(s, [Close(s.challenges[k].key)] + steps)
    ensures var t := End(s, [Close(s.challenges[k].key)] + steps);
            k < |t.challenges|
            && t.challenges[k].aborted && t.challenges[k].attempts == s.challenges[k].attempts
  {
    var run := [Close(s.challenges[k].key)] + steps;
    assert run[0] == Close(s.challenges[k].key) && run[1..] == steps;
    AbortedIsNeverAnswered(Apply(s, run[0]), steps, k);
  }

  // ----- A challenge that nobody disturbs -----

  /** The user answers the prompts of one challenge, one after another. */
  function Typing(id: nat, typed: seq<string>): (steps: seq<Step>) {
    if typed == [] then [] else [PromptSettles(id, Some(typed[0]))] + Typing(id, typed[1..])
  }

  /** The answers typed for the remaining prompts are submitted once, all together and in order. */
  lemma {:induction false} TypedAnswersAreSubmitted(s: State, id: nat, typed: seq<string>)
    requires InBounds(s) && id < |s.challenges| && typed != []
    requires var c := s.challenges[id];
             c.stage.Prompting? && !c.aborted && |c.stage.responses| + |typed| == c.prompts
    ensures IsRun(s, Typing(id, typed))
    ensures var c := s.challenges[id];
            var t := End(s, Typing(id, typed));
            && |t.challenges| == |s.challenges|
            && t.challenges[id] == c.(stage := Answering, attempts := c.attempts + [Some(c.stage.responses + typed)])
    decreases typed
  {
    var c := s.challenges[id];
    var steps := Typing(id, typed);
    assert steps[0] == PromptSettles(id, Some(typed[0])) && steps[1..] == Typing(id, typed[1..]);
    var t := Apply(s, steps[0]);
    var responses := c.stage.responses + [typed[0]];
    if |typed| == 1 {
      assert typed == [typed[0]];
    } else {
      TypedAnswersAreSubmitted(t, id, typed[1..]);
      assert responses + typed[1..] == c.stage.responses + typed;
    }
  }

  /** An arrival at an idle queue is at its first prompt, or answered at once if it has none. */
  lemma ArrivalIsServed(s: State, key: Key, prompts: nat)
    requires InBounds(s) && !s.active
    ensures var id, t := |s.challenges|, Apply(s, Arrive(key, prompts));
            && |t.challenges| == id + 1 && t.challenges[id].key == key && !t.challenges[id].aborted
            && t.challenges[id].prompts == prompts
            && t.challenges[id].stage == (if prompts > 0 then Prompting([]) else Answering)
            && t.challenges[id].attempts == (if prompts > 0 then [] else [Some([])])
  {
  }

  /** A challenge that nobody disturbs, arriving while none is active, is answered with exactly what was typed. */
  lemma UndisturbedChallengeIsAnswered(s: State, key: Key, typed: seq<string>)
    requires InBounds(s) && !s.active
    ensures var id, steps := |s.challenges|, [Arrive(key, |typed|)] + Typing(|s.challenges|, typed);
            && IsRun(s, steps)
            && var t := End(s, steps);
            && id < |t.challenges| && t.challenges[id].key == key
            && t.challenges[id].stage == Answering && t.challenges[id].attempts == [Some(typed)]
  {
    var id, arrival := |s.challenges|, Arrive(key, |typed|);
    hide Apply;
    var t := Apply(s, arrival);
    ArrivalIsServed(s, key, |typed|);
    var steps := [arrival] + Typing(id, typed);
    assert steps[0] == arrival && steps[1..] == Typing(id, typed);
    if typed != [] {
      TypedAnswersAreSubmitted(t, id, typed);
      assert [] + typed == typed;
    }
  }

  // ----- Which answers are submitted -----

  /** What a run tells of one challenge: what was typed, whether a prompt was cancelled or threw, how answers fared. */
  datatype Story = Story(typed: seq<string>, cancelled: bool, threw: bool, answers: seq<bool>)

  const Untold := Story([], false, false, [])

  function Told(h: Story, step: Step, k: nat): (r: Story) {
    match step
    case PromptSettles(id, response) =>
      if id != k then h
      else if response.None? then h.(cancelled := true)
      else h.(typed := h.typed + [response.value])
    case PromptThrows(id) => if id == k then h.(threw := true) else h
    case AnswerSettles(id, ok) => if id == k then h.(answers := h.answers + [ok]) else h
    case _ => h
  }

  function StoryOf(steps: seq<Step>, k: nat): (h: Story)
    decreases |steps|
  {
    if steps == [] then Untold else Told(StoryOf(steps[..|steps| - 1], k), steps[|steps| - 1], k)
  }

  lemma StoryGoesOn(steps: seq<Step>, step: Step, k: nat)
    ensures StoryOf(steps + [step], k) == Told(StoryOf(steps, k), step, k)
  {
    assert (steps + [step])[..|steps|] == steps;
  }

  /** How many answers a challenge gets that ends by itself. */
  function AnswersDue(h: Story): (n: nat) {
    if !h.threw && h.answers != [] && !h.answers[0] then 2 else 1
  }

  /** The answers of a challenge are those that its story calls for. */
  ghost predicate Explained(c: Challenge, h: Story) {
    && (c.attempts != [] ==>
          c.attempts[0] == if c.refused || h.cancelled || h.threw then None else Some(h.typed))
    && (c.refused ==> c.attempts == [None])
    && (|c.attempts| == 2 ==> !h.threw && h.answers != [] && !h.answers[0])
    && match c.stage
       case Waiting => h == Untold
       case Prompting(responses) => h == Untold.(typed := responses)
       case Answering => !h.threw && h.answers == []
       case Recovering => h.answers == (if h.threw then [] else [false]) && |c.attempts| == |h.answers| + 1
       case Ended => c.closed || c.refused || |c.attempts| == AnswersDue(h) == |h.answers|
  }

  ghost predicate AllExplained(s: State, past: seq<Step>) {
    && (forall k :: 0 <= k < |s.challenges| ==> Explained(s.challenges[k], StoryOf(past, k)))
    && (forall k: nat :: k >= |s.challenges| ==> StoryOf(past, k) == Untold)
  }

  /** A challenge that has just been started. */
  function Begun(c: Challenge): (r: Challenge) {
    if c.prompts > 0 then c.(stage := Prompting([]))
    else c.(stage := Answering, attempts := c.attempts + [Some([])])
  }

  /** All but one challenge stay as they are, or are started. */
  ghost predicate Passed(s: State, t: State, id: nat) {
    && |t.challenges| == |s.challenges|
    && forall k :: 0 <= k < |s.challenges| && k != id ==>
         t.challenges[k] == s.challenges[k]
         || (s.challenges[k].stage.Waiting? && t.challenges[k] == Begun(s.challenges[k]))
  }

  lemma BeginStarts(s: State, id: nat)
    requires InBounds(s) && id < |s.challenges| && !s.challenges[id].aborted
    ensures Begin(s, id).challenges == s.challenges[id := Begun(s.challenges[id])]
  {
    hide Silent, NoneClosed, NonePending;
  }

  lemma FinishPasses(s: State, id: nat)
    requires InBounds(s) && id < |s.challenges| && WaitingAreFresh(s) && !s.challenges[id].stage.Waiting?
    ensures Passed(s, Finish(s, id), id)
    ensures var c := s.challenges[id];
            Finish(s, id).challenges[id] == c.(stage := Ended, aborted := true, cleanups := c.cleanups + 1)
  {
    hide Silent, NoneClosed, NonePending, Begin;
    var done := Freed(s, id);
    if done.waiting != [] {
      assert done.waiting[0] in s.waiting && forall k :: k in done.waiting[1..] ==> k in done.waiting;
      BeginStarts(done.(waiting := done.waiting[1..]), done.waiting[0]);
    }
  }

  /** The challenge of the step is explained by its longer story; so are the others by theirs. */
  lemma PassedIsExplained(s: State, t: State, id: nat, past: seq<Step>, step: Step)
    requires AllExplained(s, past) && Passed(s, t, id) && id < |s.challenges| && AllFine(s)
    requires (step.PromptSettles? || step.PromptThrows? || step.AnswerSettles?) && step.id == id
    requires Explained(t.challenges[id], Told(StoryOf(past, id), step, id))
    ensures AllExplained(t, past + [step])
  {
    forall k: nat ensures StoryOf(past + [step], k) == Told(StoryOf(past, k), step, k) {
      StoryGoesOn(past, step, k);
    }
    hide StoryOf;
    forall k | 0 <= k < |t.challenges| ensures Explained(t.challenges[k], StoryOf(past + [step], k)) {
      assert Explained(s.challenges[k], StoryOf(past, k)) && ChallengeInv(s.challenges[k]);
    }
  }

  lemma SubmitIsExplained(s: State, past: seq<Step>, step: Step, rejected: bool,
                          answer: Option<seq<string>>, stage: Stage)
    requires Inv(s) && WaitingAreFresh(s) && AllExplained(s, past)
    requires step.PromptSettles? || step.PromptThrows? || step.AnswerSettles?
    requires step.id < |s.challenges| && Running(s.challenges[step.id]) && !stage.Waiting? && !stage.Prompting?
    requires var c, h := s.challenges[step.id], Told(StoryOf(past, step.id), step, step.id);
             if c.aborted then Explained(c.(stage := Ended), h)
             else Explained(c.(stage := stage, attempts := c.attempts + [answer]), h)
    ensures var marked := With(s, step.id, s.challenges[step.id].(rejected := rejected));
            AllExplained(Submit(marked, step.id, answer, stage), past + [step])
  {
    hide Finish, Silent, NoneClosed, NonePending, QueueCore, StoryOf, AllExplained, Explained, ChallengeInv, Submit;
    var c, h := s.challenges[step.id], Told(StoryOf(past, step.id), step, step.id);
    var marked := With(s, step.id, c.(rejected := rejected));
    SubmitPasses(s, step.id, rejected, answer, stage);
    IgnoresTheRest(if c.aborted then c.(stage := Ended)
                   else c.(stage := stage, attempts := c.attempts + [answer]),
                   Submit(marked, step.id, answer, stage).challenges[step.id], h);
    PassedIsExplained(s, Submit(marked, step.id, answer, stage), step.id, past, step);
  }

  lemma SubmitPasses(s: State, id: nat, rejected: bool, answer: Option<seq<string>>, stage: Stage)
    requires InBounds(s) && id < |s.challenges| && WaitingAreFresh(s) && !s.challenges[id].stage.Waiting?
    ensures var c := s.challenges[id];
            var t := Submit(With(s, id, c.(rejected := rejected)), id, answer, stage);
            && Passed(s, t, id)
            && t.challenges[id].stage == (if c.aborted then Ended else stage)
            && t.challenges[id].attempts == (if c.aborted then c.attempts else c.attempts + [answer])
            && t.challenges[id].refused == c.refused && t.challenges[id].closed == c.closed
  {
    hide Finish, Silent, NoneClosed, NonePending;
    if s.challenges[id].aborted {
      FinishPasses(With(s, id, s.challenges[id].(rejected := rejected)), id);
    }
  }

  lemma IgnoresTheRest(c: Challenge, d: Challenge, h: Story)
    requires Explained(c, h) && d.stage == c.stage && d.attempts == c.attempts
    requires d.refused == c.refused && d.closed == c.closed
    ensures Explained(d, h)
  {
  }

  lemma EndedIsExplained(c: Challenge, h: Story, k: nat, ok: bool)
    requires Explained(c, h) && ChallengeInv(c) && (c.stage.Answering? || c.stage.Recovering?)
    requires ok || c.stage.Recovering?
    ensures Explained(c.(stage := Ended, aborted := true, cleanups := c.cleanups + 1), Told(h, AnswerSettles(k, ok), k))
  {
    assert [false, ok][0] == false && [false] + [ok] == [false, ok];
  }

  lemma EndIsExplained(s: State, past: seq<Step>, step: Step)
    requires Inv(s) && WaitingAreFresh(s) && AllExplained(s, past)
    requires Possible(s, step) && step.AnswerSettles? && (step.ok || s.challenges[step.id].stage.Recovering?)
    ensures AllExplained(Finish(s, step.id), past + [step])
  {
    hide Finish, Silent, QueueCore, StoryOf, Explained, ChallengeInv, Told, Passed;
    var c, h := s.challenges[step.id], StoryOf(past, step.id);
    assert Explained(c, h) && ChallengeInv(c);
    FinishPasses(s, step.id);
    EndedIsExplained(c, h, step.id, step.ok);
    PassedIsExplained(s, Finish(s, step.id), step.id, past, step);
  }

  /** Steps that are in nobody's story. */
  lemma StoriesStay(past: seq<Step>, step: Step)
    requires step.Arrive? || step.Close? || step.PageHide?
    ensures forall k: nat :: StoryOf(past + [step], k) == StoryOf(past, k)
  {
    forall k: nat ensures StoryOf(past + [step], k) == StoryOf(past, k) {
      StoryGoesOn(past, step, k);
    }
  }

  lemma ArrivalIsExplained(s: State, past: seq<Step>, step: Step)
    requires Inv(s) && AllExplained(s, past) && step.Arrive?
    ensures AllExplained(Apply(s, step), past + [step])
  {
    hide Silent, QueueCore, StoryOf;
    StoriesStay(past, step);
  }

  lemma AbortIsExplained(s: State, id: nat, past: seq<Step>)
    requires InBounds(s) && id < |s.challenges| && AllExplained(s, past)
    ensures AllExplained(Abort(s, id), past)
  {
    assert Explained(s.challenges[id], StoryOf(past, id));
    hide Silent, StoryOf;
  }

  lemma {:induction false} HideIsExplained(s: State, id: nat, past: seq<Step>)
    requires InBounds(s) && id <= |s.challenges| && AllExplained(s, past)
    ensures AllExplained(HideFrom(s, id), past)
    decreases |s.challenges| - id
  {
    hide Abort, AllExplained, Silent;
    if id < |s.challenges| {
      if Live(s.challenges[id]) {
        AbortIsExplained(s, id, past);
      }
      HideIsExplained(HideOne(s, id), id + 1, past);
    }
  }

  lemma PromptIsExplained(s: State, past: seq<Step>, step: Step)
    requires Inv(s) && WaitingAreFresh(s) && AllExplained(s, past)
    requires Possible(s, step) && (step.PromptSettles? || step.PromptThrows?)
    ensures AllExplained(Apply(s, step), past + [step])
  {
    var id := step.id;
    var c, h := s.challenges[id], StoryOf(past, id);
    assert Explained(c, h) && ChallengeInv(c);
    assert With(s, id, c.(rejected := c.rejected)) == s;
    hide Finish, Silent, QueueCore, StoryOf, Submit;
    if step.PromptThrows? {
      SubmitIsExplained(s, past, step, c.rejected, None, Recovering);
    } else if step.response.None? {
      SubmitIsExplained(s, past, step, c.rejected, None, Answering);
    } else {
      var responses := c.stage.responses + [step.response.value];
      if |responses| < c.prompts {
        PassedIsExplained(s, With(s, id, c.(stage := Prompting(responses))), id, past, step);
      } else {
        SubmitIsExplained(s, past, step, c.rejected, Some(responses), Answering);
      }
    }
  }

  lemma RejectionIsExplained(c: Challenge, h: Story, k: nat)
    requires Explained(c, h) && ChallengeInv(c) && c.stage.Answering?
    ensures var told := Told(h, AnswerSettles(k, false), k);
            if c.aborted then Explained(c.(stage := Ended), told)
            else Explained(c.(stage := Recovering, attempts := c.attempts + [None]), told)
  {
  }

  lemma AnswerIsExplained(s: State, past: seq<Step>, step: Step)
    requires Inv(s) && WaitingAreFresh(s) && AllExplained(s, past)
    requires Possible(s, step) && step.AnswerSettles?
    ensures AllExplained(Apply(s, step), past + [step])
  {
    var c, h := s.challenges[step.id], StoryOf(past, step.id);
    assert Explained(c, h) && ChallengeInv(c);
    hide Finish, Silent, QueueCore, StoryOf, Submit, Explained, ChallengeInv, Told, AllExplained;
    if step.ok || c.stage.Recovering? {
      EndIsExplained(s, past, step);
    } else {
      RejectionIsExplained(c, h, step.id);
      SubmitIsExplained(s, past, step, true, None, Recovering);
    }
  }

  lemma StepIsExplained(s: State, past: seq<Step>, step: Step)
    requires Inv(s) && AllExplained(s, past) && Possible(s, step)
    ensures AllExplained(Apply(s, step), past + [step])
  {
    forall j | j in s.waiting ensures s.challenges[j].stage.Waiting? && !s.challenges[j].aborted {
      assert ChallengeInv(s.challenges[j]);
    }
    StoriesStayIfOutside(past, step);
    hide Finish, Silent, QueueCore, StoryOf, Submit, ChallengeInv, Explained;
    match step
    case Arrive(_, _) => ArrivalIsExplained(s, past, step);
    case Close(key) => if key in s.pending { AbortIsExplained(s, s.pending[key], past); }
    case PageHide => HideIsExplained(s, 0, past);
    case PromptSettles(_, _) => PromptIsExplained(s, past, step);
    case PromptThrows(_) => PromptIsExplained(s, past, step);
    case AnswerSettles(_, _) => AnswerIsExplained(s, past, step);
  }

  lemma StoriesStayIfOutside(past: seq<Step>, step: Step)
    ensures step.Close? || step.PageHide? ==> forall k: nat :: StoryOf(past + [step], k) == StoryOf(past, k)
  {
    if step.Close? || step.PageHide? {
      StoriesStay(past, step);
    }
  }

  lemma {:induction false} RunIsExplained(s: State, past: seq<Step>, steps: seq<Step>)
    requires Inv(s) && AllExplained(s, past) && IsRun(s, steps)
    ensures AllExplained(End(s, steps), past + steps)
    decreases steps
  {
    hide Apply, AllExplained, QueueCore, AllFine;
    if steps == [] {
      assert past + [] == past;
    } else {
      StepKeepsInv(s, steps[0]);
      StepIsExplained(s, past, steps[0]);
      RunIsExplained(Apply(s, steps[0]), past + [steps[0]], steps[1..]);
      assert past + [steps[0]] + steps[1..] == past + steps;
    }
  }

  // ----- Which challenges are refused, and which are closed -----

  /** A handler's pending map leads to challenges under their own request ids. */
  ghost predicate KeysMatch(s: State) {
    forall key :: key in s.pending ==>
      s.pending[key] < |s.challenges| && s.challenges[s.pending[key]].key == key
  }

  /** Whatever is marked as closed was closed under its request id, or the page was hidden. */
  ghost predicate Traced(s: State, past: seq<Step>) {
    && KeysMatch(s)
    && forall k :: 0 <= k < |s.challenges| && s.challenges[k].closed ==>
         Close(s.challenges[k].key) in past || PageHide in past
  }

  lemma StaysTraced(s: State, t: State, past: seq<Step>, step: Step)
    requires Traced(s, past) && Silent(s, t) && NoneClosed(s, t) && NonePending(s, t)
    requires |t.challenges| == |s.challenges|
    ensures Traced(t, past + [step])
  {
    forall k | 0 <= k < |t.challenges| && t.challenges[k].closed
      ensures Close(t.challenges[k].key) in past + [step] || PageHide in past + [step]
    {
      assert s.challenges[k].closed;
    }
  }

  lemma SubmitStaysTraced(s: State, past: seq<Step>, id: nat, answer: Option<seq<string>>, stage: Stage)
    requires InBounds(s) && Traced(s, past) && id < |s.challenges|
    ensures Traced(Submit(s, id, answer, stage), past)
  {
    hide Finish;
    var t := Submit(s, id, answer, stage);
    forall k | 0 <= k < |t.challenges| && t.challenges[k].closed
      ensures Close(t.challenges[k].key) in past || PageHide in past
    {
      assert s.challenges[k].closed && s.challenges[k].key == t.challenges[k].key;
    }
  }

  lemma SubmitIsTraced(s: State, past: seq<Step>, step: Step, rejected: bool,
                       answer: Option<seq<string>>, stage: Stage)
    requires InBounds(s) && Traced(s, past)
    requires (step.PromptSettles? || step.PromptThrows? || step.AnswerSettles?) && step.id < |s.challenges|
    ensures var marked := With(s, step.id, s.challenges[step.id].(rejected := rejected));
            Traced(Submit(marked, step.id, answer, stage), past + [step])
  {
    hide Submit;
    var marked := With(s, step.id, s.challenges[step.id].(rejected := rejected));
    assert Silent(s, marked) && NoneClosed(s, marked) && NonePending(s, marked);
    StaysTraced(s, marked, past, step);
    SubmitStaysTraced(marked, past + [step], step.id, answer, stage);
  }

  lemma AbortIsTraced(s: State, id: nat, past: seq<Step>)
    requires InBounds(s) && id < |s.challenges| && Traced(s, past)
    requires Close(s.challenges[id].key) in past || PageHide in past
    ensures Traced(Abort(s, id), past)
  {
    var t := Abort(s, id);
    forall k | 0 <= k < |t.challenges| && t.challenges[k].closed
      ensures Close(t.challenges[k].key) in past || PageHide in past
    {
      assert k == id || t.challenges[k] == s.challenges[k];
    }
  }

  lemma {:induction false} HideIsTraced(s: State, id: nat, past: seq<Step>)
    requires InBounds(s) && id <= |s.challenges| && Traced(s, past) && PageHide in past
    ensures Traced(HideFrom(s, id), past)
    decreases |s.challenges| - id
  {
    hide Abort, Traced, Silent;
    if id < |s.challenges| {
      if Live(s.challenges[id]) {
        AbortIsTraced(s, id, past);
      }
      HideIsTraced(HideOne(s, id), id + 1, past);
    }
  }

  lemma TracedGrows(s: State, past: seq<Step>, step: Step)
    requires Traced(s, past)
    ensures Traced(s, past + [step]) && step in past + [step]
  {
  }

  lemma ArrivalIsTraced(s: State, past: seq<Step>, step: Step)
    requires InBounds(s) && Traced(s, past) && step.Arrive?
    ensures Traced(Apply(s, step), past + [step])
  {
    var id := |s.challenges|;
    var added := s.(challenges := s.challenges + [Fresh(step.key, step.prompts)], pending := s.pending[step.key := id]);
    assert KeysMatch(added) && Traced(added, past);
    var t := Apply(s, step);
    hide Begin;
    assert Silent(added, t) || !s.active || |s.waiting| >= MAX_WAITING;
    if s.active && |s.waiting| >= MAX_WAITING {
      assert forall k :: 0 <= k < id ==> t.challenges[k] == s.challenges[k];
      TracedGrows(added, past, step);
    } else {
      StaysTraced(added, t, past, step);
    }
  }

  lemma StepIsTraced(s: State, past: seq<Step>, step: Step)
    requires InBounds(s) && Traced(s, past) && Possible(s, step)
    ensures Traced(Apply(s, step), past + [step])
  {
    TracedGrows(s, past, step);
    hide Traced, Silent, Begin, Finish, Submit;
    match step
    case Arrive(_, _) => ArrivalIsTraced(s, past, step);
    case Close(key) =>
      if key in s.pending {
        PendingIsNamed(s, past, key);
        AbortIsTraced(s, s.pending[key], past + [step]);
      }
    case PageHide => HideIsTraced(s, 0, past + [step]);
    case PromptSettles(id, response) =>
      var c := s.challenges[id];
      assert With(s, id, c.(rejected := c.rejected)) == s;
      if response.None? {
        SubmitIsTraced(s, past, step, c.rejected, None, Answering);
      } else if |c.stage.responses + [response.value]| < c.prompts {
        PromptIsTraced(s, past, step);
      } else {
        SubmitIsTraced(s, past, step, c.rejected, Some(c.stage.responses + [response.value]), Answering);
      }
    case PromptThrows(id) =>
      var c := s.challenges[id];
      assert With(s, id, c.(rejected := c.rejected)) == s;
      SubmitIsTraced(s, past, step, c.rejected, None, Recovering);
    case AnswerSettles(id, ok) =>
      if ok || s.challenges[id].stage.Recovering? {
        StaysTraced(s, Finish(s, id), past, step);
      } else {
        SubmitIsTraced(s, past, step, true, None, Recovering);
      }
  }

  lemma PendingIsNamed(s: State, past: seq<Step>, key: Key)
    requires Traced(s, past) && key in s.pending
    ensures s.pending[key] < |s.challenges| && s.challenges[s.pending[key]].key == key
  {
  }

  lemma PromptIsTraced(s: State, past: seq<Step>, step: Step)
    requires InBounds(s) && Traced(s, past) && Possible(s, step) && step.PromptSettles? && step.response.Some?
    requires |s.challenges[step.id].stage.responses + [step.response.value]| < s.challenges[step.id].prompts
    ensures Traced(Apply(s, step), past + [step])
  {
    StaysTraced(s, Apply(s, step), past, step);
  }

  lemma {:induction false} RunIsTraced(s: State, past: seq<Step>, steps: seq<Step>)
    requires InBounds(s) && Traced(s, past) && IsRun(s, steps)
    ensures Traced(End(s, steps), past + steps)
    decreases steps
  {
    hide Apply, Traced;
    if steps == [] {
      assert past + [] == past;
    } else {
      StepIsTraced(s, past, steps[0]);
      RunIsTraced(Apply(s, steps[0]), past + [steps[0]], steps[1..]);
      assert past + [steps[0]] + steps[1..] == past + steps;
    }
  }

  /**
    Over every run, the answers of every challenge, told from its own events alone: the first is null if
    and only if a prompt was cancelled or threw or there was no room, and otherwise what was typed; a
    challenge that nobody closes ends only when it has been answered, and a second, null answer follows if
    and only if the first was rejected and no prompt had thrown.
   */
  lemma AnswersAreExplained(steps: seq<Step>, k: nat)
    requires IsRun(Initial, steps) && k < |End(Initial, steps).challenges|
    ensures var c := End(Initial, steps).challenges[k];
            var h := StoryOf(steps, k);
            && (c.attempts != [] ==>
                  c.attempts[0] == if c.refused || h.cancelled || h.threw then None else Some(h.typed))
            && (c.refused ==> c.attempts == [None])
            && (c.stage.Ended? && !c.closed && !c.refused ==>
                  && h.answers != [] && |c.attempts| == |h.answers|
                  && |c.attempts| == if !h.threw && !h.answers[0] then 2 else 1)
            && (c.closed ==> Close(c.key) in steps || PageHide in steps)
            && (|c.attempts| == 2 ==> c.attempts[1] == None && h.answers != [] && !h.answers[0])
  {
    RunKeepsInv(Initial, steps);
    RunIsExplained(Initial, [], steps);
    RunIsTraced(Initial, [], steps);
    hide IsRun, End, QueueCore, StoryOf;
    assert [] + steps == steps;
    var t := End(Initial, steps);
    assert Explained(t.challenges[k], StoryOf(steps, k)) && ChallengeInv(t.challenges[k]);
  }

  lemma {:induction false} EndConcat(s: State, a: seq<Step>, b: seq<Step>)
    requires InBounds(s) && IsRun(s, a + b)
    ensures IsRun(s, a) && IsRun(End(s, a), b) && End(s, a + b) == End(End(s, a), b)
    decreases a
  {
    if a == [] {
      assert a + b == b;
    } else {
      assert (a + b)[1..] == a[1..] + b;
      EndConcat(Apply(s, a[0]), a[1..], b);
    }
  }

  lemma {:induction false} RunIsSilent(s: State, steps: seq<Step>)
    requires InBounds(s) && IsRun(s, steps)
    ensures Silent(s, End(s, steps))
    decreases steps
  {
    hide Apply, Silent;
    if steps == [] {
      assert Silent(s, s) by { SilentReflexive(s); }
    } else {
      StepIsSilent(s, steps[0]);
      RunIsSilent(Apply(s, steps[0]), steps[1..]);
      SilentTransitive(s, Apply(s, steps[0]), End(s, steps));
    }
  }

  /** Over every run, a challenge is refused if and only if 31 others wait behind an active one when it arrives. */
  lemma RefusedExactlyWhen(before: seq<Step>, key: Key, prompts: nat, after: seq<Step>)
    requires IsRun(Initial, before + ([Arrive(key, prompts)] + after))
    ensures IsRun(Initial, before)
    ensures var s, t := End(Initial, before), End(Initial, before + ([Arrive(key, prompts)] + after));
            && |s.challenges| < |t.challenges|
            && var c := t.challenges[|s.challenges|];
            && c.key == key && c.prompts == prompts
            && (c.refused <==> s.active && |s.waiting| == 31)
  {
    var run := [Arrive(key, prompts)] + after;
    EndConcat(Initial, before, run);
    RunKeepsInv(Initial, before);
    var s := End(Initial, before);
    assert run[0] == Arrive(key, prompts) && run[1..] == after;
    RunIsSilent(Apply(s, run[0]), after);
    ArrivalIsRefused(s, key, prompts);
  }

  lemma ArrivalIsRefused(s: State, key: Key, prompts: nat)
    requires Inv(s)
    ensures var id, t := |s.challenges|, Apply(s, Arrive(key, prompts));
            && |t.challenges| == id + 1 && t.challenges[id].key == key && t.challenges[id].prompts == prompts
            && (t.challenges[id].refused <==> s.active && |s.waiting| == 31)
  {
    hide Finish;
  }

  // ----- The module's variables and the handlers that change them -----

  class SshAuthentication {
    var active: bool
    var waiting: seq<nat>
    var pending: map<Key, nat>
    var challenges: seq<Challenge>
    ghost var started: seq<nat>

    ghost function Model(): (s: State)
      reads this
    {
      State(active, waiting, pending, challenges, started)
    }

    constructor ()
      ensures Model() == Initial && Inv(Model())
    {
      active, waiting, pending, challenges, started := false, [], map[], [], [];
    }

    method Update(id: nat, c: Challenge)
      requires id < |challenges|
      modifies this`challenges
      ensures Model() == With(old(Model()), id, c)
    {
      challenges := challenges[id := c];
    }

    /** `start`. */
    method StartChallenge(id: nat)
      requires InBounds(Model()) && id < |challenges|
      modifies this
      ensures Model() == Begin(old(Model()), id)
      decreases |waiting|, 1
    {
      var c := challenges[id];
      active := true;
      started := started + [id];
      if c.prompts > 0 {
        Update(id, c.(stage := Prompting([])));
      } else if !c.aborted {
        Update(id, c.(stage := Answering, attempts := c.attempts + [Some([])]));
      } else {
        FinishChallenge(id);
      }
    }

    /** The `finally` block: clean up, abort, clear the flag, and shift the next waiter. */
    method FinishChallenge(id: nat)
      requires InBounds(Model()) && id < |challenges|
      modifies this
      ensures Model() == Finish(old(Model()), id)
      decreases |waiting|, 0
    {
      var c := challenges[id];
      Update(id, c.(stage := Ended, aborted := true, cleanups := c.cleanups + 1));
      pending := pending - {c.key};
      active := false;
      if waiting != [] {
        var next := waiting[0];
        assert next in waiting && forall k :: k in waiting[1..] ==> k in waiting;
        waiting := waiting[1..];
        StartChallenge(next);
      }
    }

    /** `if (!aborted) await invoke(...)`: otherwise straight to the `finally` block. */
    method SubmitAnswer(id: nat, answer: Option<seq<string>>, stage: Stage)
      requires InBounds(Model()) && id < |challenges|
      modifies this
      ensures Model() == Submit(old(Model()), id, answer, stage)
    {
      var c := challenges[id];
      if c.aborted {
        FinishChallenge(id);
      } else {
        Update(id, c.(stage := stage, attempts := c.attempts + [answer]));
      }
    }

    /** A "challenge" event on one handler. */
    method OnChallenge(key: Key, prompts: nat)
      requires Inv(Model())
      modifies this
      ensures Inv(Model()) && Model() == Apply(old(Model()), Arrive(key, prompts))
    {
      StepKeepsInv(Model(), Arrive(key, prompts));
      var id := |challenges|;
      var c := Fresh(key, prompts);
      challenges := challenges + [c];
      pending := pending[key := id];
      if !active {
        StartChallenge(id);
      } else if |waiting| < MAX_WAITING {
        waiting := waiting + [id];
      } else {
        Update(id, c.(stage := Ended, aborted := true, refused := true, attempts := [None], cleanups := 1));
        pending := pending - {key};
      }
    }

    /** A "closed" event: abort the challenge found under its request id; a waiting one leaves the list. */
    method OnClosed(key: Key)
      requires Inv(Model())
      modifies this
      ensures Inv(Model()) && Model() == Apply(old(Model()), Close(key))
    {
      StepKeepsInv(Model(), Close(key));
      if key !in pending {
        return;
      }
      AbortChallenge(pending[key]);
    }

    /** The page is hidden: every live challenge's own listener aborts it, in order of arrival. */
    method OnPageHide()
      requires Inv(Model())
      modifies this
      ensures Inv(Model()) && Model() == Apply(old(Model()), PageHide)
    {
      hide QueueCore, AllFine, HideOne;
      StepKeepsInv(Model(), PageHide);
      var count := |challenges|;
      for id := 0 to count
        invariant count == |challenges| && InBounds(Model())
        invariant HideFrom(Model(), id) == HideFrom(old(Model()), 0)
      {
        HideChallenge(id);
      }
    }

    /** One challenge's `pagehide` listener, which its cleanup removes. */
    method HideChallenge(id: nat)
      requires InBounds(Model()) && id < |challenges|
      modifies this
      ensures Model() == HideOne(old(Model()), id)
    {
      if Live(challenges[id]) {
        AbortChallenge(id);
      }
    }

    /** `controller.abort()`; a waiting challenge's own listener takes it out of the list. */
    method AbortChallenge(id: nat)
      requires InBounds(Model()) && id < |challenges|
      modifies this
      ensures Model() == Abort(old(Model()), id)
    {
      var c := challenges[id].(aborted := true, closed := true);
      if c.stage.Waiting? {
        waiting := Without(waiting, id);
        c := c.(stage := Ended, cleanups := c.cleanups + 1);
        pending := pending - {c.key};
      }
      Update(id, c);
    }

    /** `promptText` throws for the running challenge. */
    method OnPromptThrows(id: nat)
      requires Inv(Model()) && Possible(Model(), PromptThrows(id))
      modifies this
      ensures Inv(Model()) && Model() == Apply(old(Model()), PromptThrows(id))
    {
      StepKeepsInv(Model(), PromptThrows(id));
      SubmitAnswer(id, None, Recovering);
    }

    /** `promptText` resolves for the running challenge. */
    method OnPrompt(id: nat, response: Option<string>)
      requires Inv(Model()) && Possible(Model(), PromptSettles(id, response))
      modifies this
      ensures Inv(Model()) && Model() == Apply(old(Model()), PromptSettles(id, response))
    {
      StepKeepsInv(Model(), PromptSettles(id, response));
      if response.None? {
        SubmitAnswer(id, None, Answering);
        return;
      }
      var responses := challenges[id].stage.responses + [response.value];
      if |responses| < challenges[id].prompts {
        Update(id, challenges[id].(stage := Prompting(responses)));
      } else {
        SubmitAnswer(id, Some(responses), Answering);
      }
    }

    /** The answer's `invoke` settles; a rejected first answer is followed by a null one. */
    method OnAnswer(id: nat, ok: bool)
      requires Inv(Model()) && Possible(Model(), AnswerSettles(id, ok))
      modifies this
      ensures Inv(Model()) && Model() == Apply(old(Model()), AnswerSettles(id, ok))
    {
      StepKeepsInv(Model(), AnswerSettles(id, ok));
      if ok || challenges[id].stage.Recovering? {
        FinishChallenge(id);
      } else {
        Update(id, challenges[id].(rejected := true));
        SubmitAnswer(id, None, Recovering);
      }
    }
  }
}
