/**
  Two of these codecs wired back to back over byte channels. Every interleaving of reads of any size,
  response flushes and user writes reaches the same agreement after boundedly many option messages:
  the negotiation cannot loop, which is the concern of RFC 1143.
 */
module TelnetPeers {
  import opened Bytes
  import opened TelnetFraming
  import opened TelnetNegotiation
  import opened TelnetCodecs

  /** One end: its codec, its response queue, and the history of what it sent, was fed and delivered. */
  datatype Peer = Peer(
    settings: Settings,
    codec: Codec,
    queue: seq<Message>,
    sent: seq<Message>,
    received: seq<Byte>,
    delivered: seq<Byte>)

  datatype Net = Net(left: Peer, right: Peer)

  datatype Step =
    | Deliver(toLeft: bool, count: nat)
    | Flush(atLeft: bool)
    | Write(atLeft: bool, text: seq<Byte>)

  /** All that either end ever says about options. */
  const Script: seq<Message> :=
    Hello + [Negotiate(DO, SUPPRESS_GO_AHEAD), Negotiate(DONT, TERMINAL_TYPE), Negotiate(DONT, NAWS),
             Negotiate(WILL, SUPPRESS_GO_AHEAD)]

  function Start(settings: Settings): (p: Peer) {
    Peer(settings, InitialCodec, [], Hello, [], [])
  }

  /** The bytes on their way: a FIFO channel holds what was sent and not yet read. */
  function Channel(from: Peer, to: Peer): (s: seq<Byte>) {
    if to.received <= Wire(from.sent) then Wire(from.sent)[|to.received|..] else []
  }

  /** One read of `count` bytes: fed to the codec, text delivered, responses queued. */
  function Receive(me: Peer, chunk: seq<Byte>): (p: Peer) {
    var d := Decode(me.codec, chunk, me.settings);
    me.(codec := d.codec, queue := me.queue + d.responses,
        received := me.received + chunk, delivered := me.delivered + d.data)
  }

  function FlushOne(me: Peer): (p: Peer)
    requires me.queue != []
  {
    me.(queue := me.queue[1..], sent := me.sent + [me.queue[0]])
  }

  predicate Possible(n: Net, step: Step) {
    match step
    case Deliver(toLeft, count) =>
      1 <= count <= |if toLeft then Channel(n.right, n.left) else Channel(n.left, n.right)|
    case Flush(atLeft) => (if atLeft then n.left.queue else n.right.queue) != []
    case Write(_, _) => true
  }

  function Apply(n: Net, step: Step): (m: Net)
    requires Possible(n, step)
  {
    match step
    case Deliver(toLeft, count) =>
      if toLeft then n.(left := Receive(n.left, Channel(n.right, n.left)[..count]))
      else n.(right := Receive(n.right, Channel(n.left, n.right)[..count]))
    case Flush(atLeft) =>
      if atLeft then n.(left := FlushOne(n.left)) else n.(right := FlushOne(n.right))
    case Write(atLeft, text) =>
      if atLeft then n.(left := n.left.(sent := n.left.sent + [Literal(text)]))
      else n.(right := n.right.(sent := n.right.sent + [Literal(text)]))
  }

  // ----- User text does not disturb negotiation -----

  function ControlIn(m: Message): (ms: seq<Message>) {
    if m.Literal? then [] else [m]
  }

  /** The option messages among those sent. */
  function Controls(ms: seq<Message>): (controls: seq<Message>) {
    FlatMap(ControlIn, ms)
  }

  function NonTextIn(e: Event): (events: seq<Event>) {
    if e.Text? then [] else [e]
  }

  function NonText(events: seq<Event>): (rest: seq<Event>) {
    FlatMap(NonTextIn, events)
  }

  lemma {:induction false} ReactIgnoresText(o: Options, events: seq<Event>, settings: Settings)
    ensures ReactAll(o, events, settings) == ReactAll(o, NonText(events), settings)
    decreases events
  {
    if events != [] {
      var rest := NonText(events[1..]);
      ReactIgnoresText(React(o, events[0], settings).options, events[1..], settings);
      if events[0].Text? {
        assert NonText(events) == rest;
      } else {
        assert NonText(events)[0] == events[0] && NonText(events)[1..] == rest;
      }
    }
  }

  lemma {:induction false} LiteralHasNoControl(text: seq<Byte>)
    ensures NonText(Meaning(Literal(text))) == []
  {
    if text != [] {
      LiteralHasNoControl(text[1..]);
      assert Meaning(Literal(text))[1..] == Meaning(Literal(text[1..]));
    }
  }

  lemma {:induction false} ControlMeanings(ms: seq<Message>)
    ensures NonText(Meanings(ms)) == Meanings(Controls(ms))
  {
    if ms != [] {
      ControlMeanings(ms[1..]);
      FlatMapConcat(NonTextIn, Meaning(ms[0]), Meanings(ms[1..]));
      FlatMapConcat(Meaning, ControlIn(ms[0]), Controls(ms[1..]));
      if ms[0].Literal? {
        LiteralHasNoControl(ms[0].text);
      } else {
        FlatMapOne(Meaning, ms[0]);
        if Meaning(ms[0]) != [] {
          assert Meaning(ms[0]) == [Meaning(ms[0])[0]];
          FlatMapOne(NonTextIn, Meaning(ms[0])[0]);
        }
      }
    }
  }

  // ----- The script -----

  /** How many answers the first `k` messages of the script draw, and the options after them. */
  function AnswersTo(k: nat): (n: nat) {
    if k <= 4 then k else 4
  }

  function OptionsAfter(k: nat): (o: Options) {
    Options(if k >= 1 then {SUPPRESS_GO_AHEAD} else {}, if k >= 4 then {SUPPRESS_GO_AHEAD} else {})
  }

  /** The codec's answers to the script are the script's own continuation. */
  lemma {:induction false} ScriptReplies(k: nat, settings: Settings)
    requires k <= |Script|
    ensures ReactAll(NoOptions, Meanings(Script[..k]), settings)
         == Reply(OptionsAfter(k), Script[3..3 + AnswersTo(k)])
  {
    if k == 0 {
      assert Meanings(Script[..0]) == [];
    } else {
      var j := k - 1;
      ScriptReplies(j, settings);
      var e := Request(Script[j].command, Script[j].option);
      assert Meaning(Script[j]) == [e];
      assert Script[..k] == Script[..j] + [Script[j]];
      FlatMapConcat(Meaning, Script[..j], [Script[j]]);
      FlatMapOne(Meaning, Script[j]);
      ReactConcat(NoOptions, Meanings(Script[..j]), [e], settings);
      ReactOne(OptionsAfter(j), e, settings);
      ScriptStep(j, settings);
    }
  }

  lemma ScriptStep(j: nat, settings: Settings)
    requires j < |Script|
    ensures Script[j].Negotiate?
    ensures React(OptionsAfter(j), Request(Script[j].command, Script[j].option), settings)
         == Reply(OptionsAfter(j + 1), Script[3 + AnswersTo(j)..3 + AnswersTo(j + 1)])
    ensures Script[3..3 + AnswersTo(j)] + Script[3 + AnswersTo(j)..3 + AnswersTo(j + 1)]
         == Script[3..3 + AnswersTo(j + 1)]
  {
  }

  // ----- The invariant -----

  /** Everything this end has said about options, on the wire or still queued. */
  function Said(p: Peer): (ms: seq<Message>) {
    Controls(p.sent) + p.queue
  }

  /** One end is the decoder of what it was fed, and has said exactly what that calls for. */
  ghost predicate Consistent(me: Peer) {
    var d := Decode(InitialCodec, me.received, me.settings);
    && me.codec == d.codec && !d.tripped
    && me.delivered == d.data
    && Said(me) == Hello + d.responses
    && Said(me) <= Script
    && (forall m :: m in me.sent ==> Sendable(m))
    && (forall m :: m in me.queue ==> Sendable(m) && !m.Literal?)
  }

  ghost predicate Inv(n: Net) {
    && Consistent(n.left) && Consistent(n.right)
    && n.left.received <= Wire(n.right.sent)
    && n.right.received <= Wire(n.left.sent)
  }

  lemma StartIsConsistent(settings: Settings)
    ensures Consistent(Start(settings))
  {
    var p := Start(settings);
    NothingDecoded(InitialCodec, settings);
    assert Controls(Hello) == Hello by {
      assert Hello == [Hello[0]] + [Hello[1]] + [Hello[2]];
      FlatMapConcat(ControlIn, [Hello[0]] + [Hello[1]], [Hello[2]]);
      FlatMapConcat(ControlIn, [Hello[0]], [Hello[1]]);
      FlatMapOne(ControlIn, Hello[0]);
      FlatMapOne(ControlIn, Hello[1]);
      FlatMapOne(ControlIn, Hello[2]);
    }
    assert Said(p) == Hello;
  }

  /** Whatever part of a conforming peer's stream arrives, the answers to it stay within the script. */
  lemma AnswersFollowScript(received: seq<Byte>, other: Peer, settings: Settings)
    requires received <= Wire(other.sent)
    requires forall m :: m in other.sent ==> Sendable(m)
    requires Controls(other.sent) <= Script
    ensures var d := Decode(InitialCodec, received, settings);
            !d.tripped && Hello + d.responses <= Script
  {
    hide Parse, ReactAll, FlatMap;
    var whole := Wire(other.sent);
    var p, q := Parse(InitialFraming, received), Parse(InitialFraming, whole);
    ParseWire(InitialFraming, other.sent);
    ParseConcat(InitialFraming, received, whole[|received|..]);
    assert whole == received + whole[|received|..];
    ParsePrefix(InitialFraming, received, whole);
    ReactPrefix(NoOptions, p.events, q.events, settings);
    ReactIgnoresText(NoOptions, q.events, settings);
    ControlMeanings(other.sent);
    var k := |Controls(other.sent)|;
    assert Controls(other.sent) == Script[..k];
    ScriptReplies(k, settings);
    var answers := Decode(InitialCodec, received, settings).responses;
    assert answers <= Script[3..3 + AnswersTo(k)];
    assert Hello + Script[3..3 + AnswersTo(k)] == Script[..3 + AnswersTo(k)];
  }

  lemma ScriptIsSendable(ms: seq<Message>)
    requires ms <= Script
    ensures forall m :: m in ms ==> Sendable(m) && m.Negotiate? && |WireForm(m)| == 3
  {
    forall m | m in ms ensures m in Script {
      var i :| 0 <= i < |ms| && ms[i] == m;
      assert Script[i] == m;
    }
  }

  /**
    What remains to happen in one direction: bytes to read, responses to flush, messages still unsaid.
    Every step other than the user's own writes uses some of it up.
   */
  function Load(from: Peer, to: Peer): (m: int) {
    |Channel(from, to)| + 4 * |from.queue| + 5 * (|Script| - |Said(from)|)
  }

  lemma ReceiveKeepsInv(me: Peer, other: Peer, count: nat)
    requires Consistent(me) && Consistent(other)
    requires me.received <= Wire(other.sent) && other.received <= Wire(me.sent)
    requires count <= |Channel(other, me)|
    ensures var after := Receive(me, Channel(other, me)[..count]);
            && Consistent(after) && after.received <= Wire(other.sent) && after.sent == me.sent
            && Load(after, other) <= Load(me, other)
            && Load(other, after) == Load(other, me) - count
  {
    hide Decode, Wire;
    var chunk := Channel(other, me)[..count];
    var after := Receive(me, chunk);
    var before := Decode(InitialCodec, me.received, me.settings);
    var d := Decode(me.codec, chunk, me.settings);
    DecodeConcat(InitialCodec, me.received, chunk, me.settings);
    assert Controls(other.sent) <= Said(other) <= Script;
    assert after.received <= Wire(other.sent);
    AnswersFollowScript(after.received, other, me.settings);
    assert Said(after) == Said(me) + d.responses;
    assert Hello + before.responses + d.responses == Hello + (before.responses + d.responses);
    ScriptIsSendable(Said(after));
    assert forall m :: m in after.queue ==> m in Said(after);
  }

  /** Sending user text, or the oldest queued response. */
  lemma SendKeepsInv(me: Peer, other: Peer, m: Message)
    requires Consistent(me) && other.received <= Wire(me.sent)
    requires m.Literal? || (me.queue != [] && m == me.queue[0])
    ensures var after := if m.Literal? then me.(sent := me.sent + [m]) else FlushOne(me);
            && Consistent(after) && Wire(me.sent) <= Wire(after.sent)
            && Load(after, other) == Load(me, other) + (if m.Literal? then |WireForm(m)| else -1)
            && Load(other, after) == Load(other, me)
  {
    hide Decode, FlatMap;
    ScriptIsSendable(Said(me));
    FlatMapConcat(ControlIn, me.sent, [m]);
    FlatMapOne(ControlIn, m);
    FlatMapConcat(WireForm, me.sent, [m]);
    FlatMapOne(WireForm, m);
    if !m.Literal? {
      assert me.queue == [m] + me.queue[1..];
      assert Controls(me.sent) + [m] + me.queue[1..] == Controls(me.sent) + me.queue;
    }
  }

  function Remaining(n: Net): (m: int) {
    Load(n.left, n.right) + Load(n.right, n.left)
  }

  function Typed(step: Step): (bytes: nat) {
    if step.Write? then |Escape(step.text)| else 0
  }

  lemma ConsistentBasics(p: Peer)
    requires Consistent(p)
    ensures |Said(p)| <= |Script| && forall m :: m in p.queue ==> !m.Literal?
  {
  }

  lemma StepKeepsInv(n: Net, step: Step)
    requires Inv(n) && Possible(n, step)
    ensures var m := Apply(n, step);
            Inv(m) && Remaining(m) <= Remaining(n) - (if step.Write? then 0 else 1) + Typed(step)
  {
    hide Consistent, Load, Wire;
    ConsistentBasics(n.left);
    ConsistentBasics(n.right);
    match step
    case Deliver(toLeft, count) =>
      if toLeft { ReceiveKeepsInv(n.left, n.right, count); } else { ReceiveKeepsInv(n.right, n.left, count); }
    case Flush(atLeft) =>
      if atLeft {
        SendKeepsInv(n.left, n.right, n.left.queue[0]);
      } else {
        SendKeepsInv(n.right, n.left, n.right.queue[0]);
      }
    case Write(atLeft, text) =>
      if atLeft { SendKeepsInv(n.left, n.right, Literal(text)); } else { SendKeepsInv(n.right, n.left, Literal(text)); }
  }

  // ----- Runs -----

  ghost predicate IsRun(n: Net, steps: seq<Step>)
    decreases steps
  {
    steps == [] || (Possible(n, steps[0]) && IsRun(Apply(n, steps[0]), steps[1..]))
  }

  function End(n: Net, steps: seq<Step>): (m: Net)
    requires IsRun(n, steps)
    decreases steps
  {
    if steps == [] then n else End(Apply(n, steps[0]), steps[1..])
  }

  /** How many steps are the protocol's own, and how many bytes the users' writes put on the wire. */
  function OwnSteps(steps: seq<Step>): (k: nat) {
    if steps == [] then 0 else (if steps[0].Write? then 0 else 1) + OwnSteps(steps[1..])
  }

  function TypedBytes(steps: seq<Step>): (k: nat) {
    if steps == [] then 0 else Typed(steps[0]) + TypedBytes(steps[1..])
  }

  lemma {:induction false} RunKeepsInv(n: Net, steps: seq<Step>)
    requires Inv(n) && IsRun(n, steps)
    ensures var m := End(n, steps);
            Inv(m) && 0 <= Remaining(m) <= Remaining(n) - OwnSteps(steps) + TypedBytes(steps)
    decreases steps
  {
    ConsistentBasics(n.left);
    ConsistentBasics(n.right);
    if steps != [] {
      StepKeepsInv(n, steps[0]);
      RunKeepsInv(Apply(n, steps[0]), steps[1..]);
    }
  }

  function Begin(left: Settings, right: Settings): (n: Net) {
    Net(Start(left), Start(right))
  }

  lemma BeginIsFine(left: Settings, right: Settings)
    ensures Inv(Begin(left, right)) && Remaining(Begin(left, right)) == 58
  {
    StartIsConsistent(left);
    StartIsConsistent(right);
    HelloWire();
    assert Said(Start(left)) == Hello && Said(Start(right)) == Hello by {
      NothingDecoded(InitialCodec, left);
      NothingDecoded(InitialCodec, right);
    }
  }

  /** Nothing is queued and nothing is on its way. */
  predicate Quiet(n: Net) {
    && n.left.queue == [] && n.right.queue == []
    && Channel(n.left, n.right) == [] && Channel(n.right, n.left) == []
  }

  lemma StuckMeansQuiet(n: Net)
    ensures Quiet(n) <==> forall step :: Possible(n, step) ==> step.Write?
  {
    if !Quiet(n) {
      if n.left.queue != [] { assert Possible(n, Flush(true)); }
      if n.right.queue != [] { assert Possible(n, Flush(false)); }
      if Channel(n.left, n.right) != [] { assert Possible(n, Deliver(false, 1)); }
      if Channel(n.right, n.left) != [] { assert Possible(n, Deliver(true, 1)); }
    }
  }

  /** When all is quiet, one end has answered everything the other said. */
  lemma QuietMeansAnswered(me: Peer, other: Peer)
    requires Consistent(me) && Consistent(other)
    requires me.received == Wire(other.sent) && me.queue == [] && other.queue == []
    ensures var k := |Said(other)|;
            && |Said(me)| == 3 + AnswersTo(k)
            && me.codec.options == OptionsAfter(k)
            && me.delivered == Literals(other.sent)
  {
    ParseWire(InitialFraming, other.sent);
    MeaningsText(other.sent);
    ReactIgnoresText(NoOptions, Meanings(other.sent), me.settings);
    ControlMeanings(other.sent);
    var k := |Said(other)|;
    assert Controls(other.sent) == Said(other) == Script[..k];
    ScriptReplies(k, me.settings);
    assert Decode(InitialCodec, me.received, me.settings).responses == Script[3..3 + AnswersTo(k)];
  }

  /**
    Quiescence. Over every interleaving of reads of any size, flushes and user writes, the protocol
    itself takes at most 58 steps beyond the bytes the users type, neither end ever says more than the
    seven messages of the script or trips, and NAWS and TERMINAL-TYPE are never enabled. Whenever only
    the users can move, both ends have agreed on SUPPRESS-GO-AHEAD in both directions and nothing else,
    and each user's text has reached the other whole and in order.
   */
  lemma NegotiationQuiesces(left: Settings, right: Settings, steps: seq<Step>)
    requires IsRun(Begin(left, right), steps)
    ensures var n := End(Begin(left, right), steps);
            && OwnSteps(steps) <= 58 + TypedBytes(steps)
            && Said(n.left) <= Script && Said(n.right) <= Script
            && (Quiet(n) ==>
                  && n.left.codec.options == Options({SUPPRESS_GO_AHEAD}, {SUPPRESS_GO_AHEAD})
                  && n.right.codec.options == Options({SUPPRESS_GO_AHEAD}, {SUPPRESS_GO_AHEAD})
                  && n.left.delivered == Literals(n.right.sent)
                  && n.right.delivered == Literals(n.left.sent))
  {
    BeginIsFine(left, right);
    RunKeepsInv(Begin(left, right), steps);
    var n := End(Begin(left, right), steps);
    if Quiet(n) {
      QuietMeansAnswered(n.left, n.right);
      QuietMeansAnswered(n.right, n.left);
    }
  }

  /** At every moment, what has been delivered is a prefix of what the other user wrote. */
  lemma DeliveredIsPrefix(left: Settings, right: Settings, steps: seq<Step>)
    requires IsRun(Begin(left, right), steps)
    ensures var n := End(Begin(left, right), steps);
            && n.left.delivered <= Literals(n.right.sent)
            && n.right.delivered <= Literals(n.left.sent)
            && NAWS !in n.left.codec.options.local && NAWS !in n.right.codec.options.local
            && TERMINAL_TYPE !in n.left.codec.options.local && TERMINAL_TYPE !in n.right.codec.options.local
  {
    BeginIsFine(left, right);
    RunKeepsInv(Begin(left, right), steps);
    var n := End(Begin(left, right), steps);
    PrefixDelivered(n.left, n.right);
    PrefixDelivered(n.right, n.left);
  }

  lemma PrefixDelivered(me: Peer, other: Peer)
    requires Consistent(me) && Consistent(other) && me.received <= Wire(other.sent)
    ensures me.delivered <= Literals(other.sent)
    ensures me.codec.options.local <= {SUPPRESS_GO_AHEAD}
  {
    var whole := Wire(other.sent);
    ParseWire(InitialFraming, other.sent);
    MeaningsText(other.sent);
    ParsePrefix(InitialFraming, me.received, whole);
    var p, q := Parse(InitialFraming, me.received).events, Parse(InitialFraming, whole).events;
    FlatMapConcat(TextIn, p, q[|p|..]);
    assert q == p + q[|p|..];
    OnlyAnsweredAreLocal(me);
  }

  /** An option is performed locally only after this end has said "WILL" for it. */
  lemma OnlyAnsweredAreLocal(me: Peer)
    requires Consistent(me)
    ensures me.codec.options.local <= {SUPPRESS_GO_AHEAD}
  {
    var events := Parse(InitialFraming, me.received).events;
    var answers := ReactAll(NoOptions, events, me.settings).messages;
    forall option | option in me.codec.options.local ensures option == SUPPRESS_GO_AHEAD {
      History(Local, option, NoOptions, events, me.settings);
      var asked := Requests(Local, option, events);
      if option in {TERMINAL_TYPE, NAWS} {
        ChangesAlternate(false, asked);
        assert Answers(Local, option, answers) != [];
        AnswersOfScript(option, answers);
        assert false;
      }
    }
  }

  lemma AnswersOfScript(option: Byte, answers: seq<Message>)
    requires Hello + answers <= Script && option in {TERMINAL_TYPE, NAWS}
    ensures Answers(Local, option, answers) == []
  {
    assert answers <= Script[3..];
    NoAnswer(option, answers);
  }

  lemma {:induction false} NoAnswer(option: Byte, ms: seq<Message>)
    requires forall m :: m in ms ==> m in Script[3..]
    requires option in {TERMINAL_TYPE, NAWS}
    ensures Answers(Local, option, ms) == []
  {
    if ms != [] {
      NoAnswer(option, ms[1..]);
      assert ms[0] in Script[3..];
    }
  }
}
