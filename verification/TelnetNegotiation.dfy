/**
  Option negotiation: what the codec answers to each event, as a function of the options that are
  currently enabled. The history laws below are the loop-freedom discipline of RFC 1143.
 */
module TelnetNegotiation {
  import opened Bytes
  import opened TelnetFraming

  datatype Settings = Settings(terminal: seq<Byte>, columns: U16, rows: U16)

  /** The options the peer performs (`remote`) and the options this side performs (`local`). */
  datatype Options = Options(remote: set<Byte>, local: set<Byte>)

  const NoOptions := Options({}, {})

  datatype Reply = Reply(options: Options, messages: seq<Message>)

  predicate AcceptsRemote(option: Byte) {
    option in {ECHO, SUPPRESS_GO_AHEAD}
  }

  predicate SupportsLocal(option: Byte) {
    option in {SUPPRESS_GO_AHEAD, TERMINAL_TYPE, NAWS}
  }

  /** A request or an answer for one option, on the peer's side (WILL/WONT, answered DO/DONT) or on ours. */
  datatype Side = Remote | Local

  /**
    The options that a terminal is meant to agree to: ECHO (1) and SUPPRESS-GO-AHEAD (3) from the peer, and
    SUPPRESS-GO-AHEAD, TERMINAL-TYPE (24) and NAWS (31) on its own side.
   */
  predicate Negotiable(side: Side, option: Byte) {
    match side case Remote => option == 1 || option == 3 case Local => option == 3 || option == 24 || option == 31
  }

  ghost predicate Known(o: Options) {
    && (forall x :: x in o.remote ==> Negotiable(Remote, x))
    && (forall x :: x in o.local ==> Negotiable(Local, x))
  }

  function React(o: Options, e: Event, settings: Settings): (r: Reply) {
    match e
    case Text(_) => Reply(o, [])
    case Request(command, option) => Answer(o, command, option, settings)
    case Subframe(payload) =>
      if payload == [TERMINAL_TYPE, TERMINAL_TYPE_SEND] && TERMINAL_TYPE in o.local
      then Reply(o, [TerminalTypeIs(settings.terminal)])
      else Reply(o, [])
  }

  function Answer(o: Options, command: Byte, option: Byte, settings: Settings): (r: Reply) {
    if command == WILL then
      if !AcceptsRemote(option) then Reply(o, [Negotiate(DONT, option)])
      else if option in o.remote then Reply(o, [])
      else Reply(o.(remote := o.remote + {option}), [Negotiate(DO, option)])
    else if command == WONT then
      if option in o.remote then Reply(o.(remote := o.remote - {option}), [Negotiate(DONT, option)])
      else Reply(o, [])
    else if command == DO then
      if !SupportsLocal(option) then Reply(o, [Negotiate(WONT, option)])
      else if option in o.local then Reply(o, [])
      else Reply(o.(local := o.local + {option}),
                 [Negotiate(WILL, option)] + if option == NAWS then [Window(settings.columns, settings.rows)] else [])
    else if command == DONT && option in o.local then
      Reply(o.(local := o.local - {option}), [Negotiate(WONT, option)])
    else Reply(o, [])
  }

  /** The answer to every request, in the numbers of RFC 854 and the option assignments. */
  lemma AnswersInNumbers(o: Options, option: Byte, settings: Settings)
    ensures var r := React(o, Request(251, option), settings);
            if option != 1 && option != 3 then r == Reply(o, [Negotiate(254, option)])
            else if option in o.remote then r == Reply(o, [])
            else r == Reply(Options(o.remote + {option}, o.local), [Negotiate(253, option)])
    ensures React(o, Request(252, option), settings) ==
            if option in o.remote then Reply(Options(o.remote - {option}, o.local), [Negotiate(254, option)])
            else Reply(o, [])
    ensures var r := React(o, Request(253, option), settings);
            if option != 3 && option != 24 && option != 31 then r == Reply(o, [Negotiate(252, option)])
            else if option in o.local then r == Reply(o, [])
            else
              && r.options == Options(o.remote, o.local + {option})
              && r.messages == [Negotiate(251, option)] +
                               if option == 31 then [Window(settings.columns, settings.rows)] else []
    ensures React(o, Request(254, option), settings) ==
            if option in o.local then Reply(Options(o.remote, o.local - {option}), [Negotiate(252, option)])
            else Reply(o, [])
  {
  }

  function ReactAll(o: Options, events: seq<Event>, settings: Settings): (r: Reply)
    decreases events
  {
    if events == [] then Reply(o, [])
    else
      var first := React(o, events[0], settings);
      var rest := ReactAll(first.options, events[1..], settings);
      Reply(rest.options, first.messages + rest.messages)
  }

  lemma {:induction false} ReactConcat(o: Options, a: seq<Event>, b: seq<Event>, settings: Settings)
    ensures var first := ReactAll(o, a, settings);
            var second := ReactAll(first.options, b, settings);
            ReactAll(o, a + b, settings) == Reply(second.options, first.messages + second.messages)
    decreases a
  {
    if a == [] {
      assert a + b == b;
      assert [] + ReactAll(o, b, settings).messages == ReactAll(o, b, settings).messages;
    } else {
      assert (a + b)[1..] == a[1..] + b;
      var first := React(o, a[0], settings);
      ReactConcat(first.options, a[1..], b, settings);
      var middle := ReactAll(first.options, a[1..], settings);
      var last := ReactAll(middle.options, b, settings);
      assert first.messages + (middle.messages + last.messages) == first.messages + middle.messages + last.messages;
    }
  }

  lemma ReactOne(o: Options, e: Event, settings: Settings)
    ensures ReactAll(o, [e], settings) == React(o, e, settings)
  {
    var first := React(o, e, settings);
    assert [e][1..] == [];
    assert first.messages + [] == first.messages;
  }

  /** The answers to a prefix of the events are a prefix of the answers. */
  lemma ReactPrefix(o: Options, a: seq<Event>, events: seq<Event>, settings: Settings)
    requires a <= events
    ensures ReactAll(o, a, settings).messages <= ReactAll(o, events, settings).messages
  {
    ReactConcat(o, a, events[|a|..], settings);
    assert events == a + events[|a|..];
  }

  /** `send_initial_capabilities`. */
  const Hello: seq<Message> :=
    [Negotiate(WILL, SUPPRESS_GO_AHEAD), Negotiate(WILL, TERMINAL_TYPE), Negotiate(WILL, NAWS)]

  lemma HelloWire()
    ensures Wire(Hello) == [IAC, WILL, SUPPRESS_GO_AHEAD, IAC, WILL, TERMINAL_TYPE, IAC, WILL, NAWS]
  {
    assert Hello == [Hello[0]] + [Hello[1]] + [Hello[2]];
    FlatMapConcat(WireForm, [Hello[0]] + [Hello[1]], [Hello[2]]);
    FlatMapConcat(WireForm, [Hello[0]], [Hello[1]]);
    FlatMapOne(WireForm, Hello[0]);
    FlatMapOne(WireForm, Hello[1]);
    FlatMapOne(WireForm, Hello[2]);
  }

  // ----- Which part of an answer depends on the settings -----

  /** The size and the terminal name only fill in frames: the options never depend on them. */
  lemma {:induction false} OptionsIgnoreSettings(o: Options, events: seq<Event>, settings: Settings, other: Settings)
    ensures ReactAll(o, events, settings).options == ReactAll(o, events, other).options
    decreases events
  {
    if events != [] {
      OptionsIgnoreSettings(React(o, events[0], settings).options, events[1..], settings, other);
    }
  }

  // ----- History, one option and one direction at a time -----

  predicate Enabled(o: Options, side: Side, option: Byte) {
    match side case Remote => option in o.remote case Local => option in o.local
  }

  function OnRequest(side: Side): Byte { match side case Remote => WILL case Local => DO }
  function OffRequest(side: Side): Byte { match side case Remote => WONT case Local => DONT }
  function OnAnswer(side: Side): Byte { match side case Remote => DO case Local => WILL }
  function OffAnswer(side: Side): Byte { match side case Remote => DONT case Local => WONT }

  function RequestIn(side: Side, option: Byte, e: Event): (asked: seq<bool>) {
    if e == Request(OnRequest(side), option) then [true]
    else if e == Request(OffRequest(side), option) then [false]
    else []
  }

  function AnswerIn(side: Side, option: Byte, m: Message): (answered: seq<bool>) {
    if m == Negotiate(OnAnswer(side), option) then [true]
    else if m == Negotiate(OffAnswer(side), option) then [false]
    else []
  }

  /** What the peer asked for this option, in order: on (true) or off (false). */
  function Requests(side: Side, option: Byte, events: seq<Event>): (asked: seq<bool>) {
    if events == [] then [] else RequestIn(side, option, events[0]) + Requests(side, option, events[1..])
  }

  /** What this side answered for this option, in order. */
  function Answers(side: Side, option: Byte, ms: seq<Message>): (answered: seq<bool>) {
    if ms == [] then [] else AnswerIn(side, option, ms[0]) + Answers(side, option, ms[1..])
  }

  lemma {:induction false} AnswersConcat(side: Side, option: Byte, a: seq<Message>, b: seq<Message>)
    ensures Answers(side, option, a + b) == Answers(side, option, a) + Answers(side, option, b)
  {
    if a == [] {
      assert a + b == b;
    } else {
      assert (a + b)[1..] == a[1..] + b;
      AnswersConcat(side, option, a[1..], b);
    }
  }

  /** The requests that change the state of a switch that is `on`. */
  function Changes(on: bool, asked: seq<bool>): (changes: seq<bool>)
    decreases asked
  {
    if asked == [] then []
    else if asked[0] == on then Changes(on, asked[1..])
    else [asked[0]] + Changes(asked[0], asked[1..])
  }

  function Final(on: bool, asked: seq<bool>): (final: bool) {
    if asked == [] then on else asked[|asked| - 1]
  }

  function Repeat(n: nat): (refusals: seq<bool>) {
    if n == 0 then [] else [false] + Repeat(n - 1)
  }

  function OnCount(asked: seq<bool>): (n: nat) {
    if asked == [] then 0 else (if asked[0] then 1 else 0) + OnCount(asked[1..])
  }

  /** A switch's changes alternate, and its last change is its final state. */
  lemma {:induction false} ChangesAlternate(on: bool, asked: seq<bool>)
    ensures var changes := Changes(on, asked);
            && (forall i :: 0 <= i < |changes| ==> changes[i] == (if i % 2 == 0 then !on else on))
            && Final(on, changes) == Final(on, asked)
    decreases asked
  {
    if asked == [] {
    } else if asked[0] == on {
      ChangesAlternate(on, asked[1..]);
    } else {
      ChangesAlternate(asked[0], asked[1..]);
      var rest := Changes(asked[0], asked[1..]);
      var changes := Changes(on, asked);
      assert changes == [asked[0]] + rest;
      forall i | 0 <= i < |changes| ensures changes[i] == (if i % 2 == 0 then !on else on) {
        if i > 0 { assert changes[i] == rest[i - 1]; }
      }
    }
  }

  lemma {:induction false} ChangesConcat(on: bool, a: seq<bool>, b: seq<bool>)
    ensures Changes(on, a + b) == Changes(on, a) + Changes(Final(on, a), b)
    ensures Final(on, a + b) == Final(Final(on, a), b)
    decreases a
  {
    if a == [] {
      assert a + b == b;
    } else {
      assert (a + b)[1..] == a[1..] + b;
      ChangesConcat(a[0], a[1..], b);
    }
  }

  lemma AnswersNone(side: Side, option: Byte)
    ensures Answers(side, option, []) == []
  {
  }

  lemma AnswersOne(side: Side, option: Byte, m: Message)
    ensures Answers(side, option, [m]) == AnswerIn(side, option, m)
  {
    assert [m][1..] == [];
  }

  lemma AnswersTwo(side: Side, option: Byte, m: Message, n: Message)
    ensures Answers(side, option, [m, n]) == AnswerIn(side, option, m) + AnswerIn(side, option, n)
  {
    assert [m, n] == [m] + [n];
    AnswersConcat(side, option, [m], [n]);
    AnswersOne(side, option, m);
    AnswersOne(side, option, n);
  }

  /** The law for a single request, as one option on one side sees it. */
  ghost predicate Lawful(side: Side, option: Byte, on: bool, asked: seq<bool>, answered: seq<bool>, after: bool) {
    && answered == (if Negotiable(side, option) then Changes(on, asked) else Repeat(OnCount(asked)))
    && (after <==> Negotiable(side, option) && Final(on, asked))
  }

  lemma LawfulSilence(side: Side, option: Byte, on: bool)
    requires on ==> Negotiable(side, option)
    ensures Lawful(side, option, on, [], [], on)
  {
  }

  lemma LawfulRequest(side: Side, option: Byte, on: bool, wanted: bool, answered: seq<bool>, after: bool)
    requires on ==> Negotiable(side, option)
    requires answered == if Negotiable(side, option) then (if wanted != on then [wanted] else [])
                         else (if wanted then [false] else [])
    requires after <==> Negotiable(side, option) && wanted
    ensures Lawful(side, option, on, [wanted], answered, after)
  {
    assert [wanted][1..] == [];
    assert Repeat(1) == [false] + Repeat(0);
  }

  /** One event, seen by one option on one side. */
  lemma OneAnswer(side: Side, option: Byte, o: Options, e: Event, settings: Settings)
    requires Known(o)
    ensures var r := React(o, e, settings);
            && Known(r.options)
            && Lawful(side, option, Enabled(o, side, option), RequestIn(side, option, e),
                      Answers(side, option, r.messages), Enabled(r.options, side, option))
  {
    var r := React(o, e, settings);
    hide Answers, Requests;
    var on := Enabled(o, side, option);
    var answered := Answers(side, option, r.messages);
    if |r.messages| == 1 {
      AnswersOne(side, option, r.messages[0]);
      assert r.messages == [r.messages[0]];
    } else if |r.messages| == 2 {
      AnswersTwo(side, option, r.messages[0], r.messages[1]);
      assert r.messages == [r.messages[0], r.messages[1]];
    } else {
      assert answered == [] by { AnswersNone(side, option); assert r.messages == []; }
    }
    if RequestIn(side, option, e) == [] {
      hide Lawful;
      LawfulSilence(side, option, on);
    } else {
      hide Lawful;
      LawfulRequest(side, option, on, RequestIn(side, option, e)[0], answered, Enabled(r.options, side, option));
    }
  }

  lemma {:induction false} RepeatConcat(a: seq<bool>, b: seq<bool>)
    ensures Repeat(OnCount(a + b)) == Repeat(OnCount(a)) + Repeat(OnCount(b))
  {
    if a == [] {
      assert a + b == b;
    } else {
      assert (a + b)[1..] == a[1..] + b;
      RepeatConcat(a[1..], b);
    }
  }

  /**
    The main history law: for every option the code negotiates, the answers given are exactly the
    state-changing requests, and the option is enabled exactly when the last request was "on"; an
    option it refuses is refused once per "on" request and never enabled.
   */
  lemma {:induction false} History(side: Side, option: Byte, o: Options, events: seq<Event>, settings: Settings)
    requires Known(o)
    ensures var r := ReactAll(o, events, settings);
            var asked := Requests(side, option, events);
            var on := Enabled(o, side, option);
            && Known(r.options)
            && Answers(side, option, r.messages) ==
               (if Negotiable(side, option) then Changes(on, asked) else Repeat(OnCount(asked)))
            && (Enabled(r.options, side, option) <==> Negotiable(side, option) && Final(on, asked))
    decreases events
  {
    if events == [] {
    } else {
      var first := React(o, events[0], settings);
      var rest := ReactAll(first.options, events[1..], settings);
      OneAnswer(side, option, o, events[0], settings);
      History(side, option, first.options, events[1..], settings);
      AnswersConcat(side, option, first.messages, rest.messages);
      var asked := RequestIn(side, option, events[0]);
      var later := Requests(side, option, events[1..]);
      ChangesConcat(Enabled(o, side, option), asked, later);
      RepeatConcat(asked, later);
    }
  }

  // ----- Window reports -----

  /** Window frames and "WILL NAWS" answers come in adjacent pairs, with no window frame on its own. */
  ghost predicate WindowsPaired(ms: seq<Message>) {
    && (ms != [] ==> !ms[0].Window?)
    && (ms != [] ==> ms[|ms| - 1] != Negotiate(WILL, NAWS))
    && forall i :: 0 <= i < |ms| - 1 ==> (ms[i] == Negotiate(WILL, NAWS) <==> ms[i + 1].Window?)
  }

  lemma WindowsPairedConcat(a: seq<Message>, b: seq<Message>)
    requires WindowsPaired(a) && WindowsPaired(b)
    ensures WindowsPaired(a + b)
  {
    var c := a + b;
    forall i | 0 <= i < |c| - 1
      ensures c[i] == Negotiate(WILL, NAWS) <==> c[i + 1].Window?
    {
      if i < |a| - 1 {
        assert c[i] == a[i] && c[i + 1] == a[i + 1];
      } else if i == |a| - 1 {
        assert c[i] == a[i] && c[i + 1] == b[0];
      } else {
        assert c[i] == b[i - |a|] && c[i + 1] == b[i + 1 - |a|];
      }
    }
  }

  /** Every "WILL NAWS" is followed at once by exactly one window frame, which carries the current size. */
  lemma {:induction false} WindowReports(o: Options, events: seq<Event>, settings: Settings)
    ensures var ms := ReactAll(o, events, settings).messages;
            && WindowsPaired(ms)
            && forall m :: m in ms && m.Window? ==> m == Window(settings.columns, settings.rows)
    decreases events
  {
    if events != [] {
      var first := React(o, events[0], settings);
      WindowReports(first.options, events[1..], settings);
      WindowsPairedConcat(first.messages, ReactAll(first.options, events[1..], settings).messages);
    }
  }

  // ----- Terminal type -----

  /** The peer's terminal-type queries (RFC 1091) that arrive while it has the option enabled. */
  function TerminalQueries(enabled: bool, events: seq<Event>): (n: nat)
    decreases events
  {
    if events == [] then 0
    else
      var rest := events[1..];
      match events[0]
      case Request(command, option) =>
        TerminalQueries(if option != TERMINAL_TYPE then enabled
                        else if command == DO then true
                        else if command == DONT then false
                        else enabled, rest)
      case Subframe(payload) =>
        (if enabled && payload == [TERMINAL_TYPE, TERMINAL_TYPE_SEND] then 1 else 0) + TerminalQueries(enabled, rest)
      case Text(_) => TerminalQueries(enabled, rest)
  }

  function TerminalReplyIn(m: Message): (names: seq<seq<Byte>>) {
    if m.TerminalTypeIs? then [m.terminal] else []
  }

  lemma TerminalReplyToOne(o: Options, e: Event, settings: Settings)
    ensures FlatMap(TerminalReplyIn, React(o, e, settings).messages) ==
            if e == Subframe([TERMINAL_TYPE, TERMINAL_TYPE_SEND]) && TERMINAL_TYPE in o.local
            then [settings.terminal] else []
  {
    var ms := React(o, e, settings).messages;
    if |ms| == 1 {
      assert ms == [ms[0]];
      FlatMapOne(TerminalReplyIn, ms[0]);
    } else if |ms| == 2 {
      assert ms == [ms[0]] + [ms[1]];
      FlatMapConcat(TerminalReplyIn, [ms[0]], [ms[1]]);
      FlatMapOne(TerminalReplyIn, ms[0]);
      FlatMapOne(TerminalReplyIn, ms[1]);
    }
  }

  /** The terminal name is told once per query, and never unless the peer has enabled the option. */
  lemma {:induction false} TerminalTypeReplies(o: Options, events: seq<Event>, settings: Settings)
    ensures var names := FlatMap(TerminalReplyIn, ReactAll(o, events, settings).messages);
            && |names| == TerminalQueries(TERMINAL_TYPE in o.local, events)
            && forall name :: name in names ==> name == settings.terminal
    decreases events
  {
    hide FlatMap;
    if events == [] {
      assert FlatMap(TerminalReplyIn, []) == [] by { NoReplies(); }
    } else {
      var first := React(o, events[0], settings);
      TerminalReplyToOne(o, events[0], settings);
      TerminalTypeReplies(first.options, events[1..], settings);
      FlatMapConcat(TerminalReplyIn, first.messages, ReactAll(first.options, events[1..], settings).messages);
    }
  }

  lemma NoReplies()
    ensures FlatMap(TerminalReplyIn, []) == []
  {
  }

  /** Everything the codec answers is a frame, and one the peer understands if the terminal name was validated. */
  lemma {:induction false} RepliesAreFrames(o: Options, events: seq<Event>, settings: Settings)
    ensures forall m :: m in ReactAll(o, events, settings).messages ==>
              || (m.Negotiate? && 251 <= m.command <= 254)
              || m == Window(settings.columns, settings.rows) || m == TerminalTypeIs(settings.terminal)
    ensures IAC !in settings.terminal && |settings.terminal| <= 128 ==>
              forall m :: m in ReactAll(o, events, settings).messages ==> Sendable(m)
    decreases events
  {
    if events != [] {
      RepliesAreFrames(React(o, events[0], settings).options, events[1..], settings);
    }
  }
}
