/**
  The framing layer of the Telnet codec: which protocol events a byte stream carries, independently
  of which options are enabled. RFC 854 "TELNET Command Structure" and RFC 855 (IAC doubling inside
  a subnegotiation) define the wire form; the receiving automaton is `TelnetCodec::feed`.
 */
module TelnetFraming {
  import opened Bytes

  const IAC: Byte := 255
  const DONT: Byte := 254
  const DO: Byte := 253
  const WONT: Byte := 252
  const WILL: Byte := 251
  const SB: Byte := 250
  const SE: Byte := 240

  const ECHO: Byte := 1
  const SUPPRESS_GO_AHEAD: Byte := 3
  const TERMINAL_TYPE: Byte := 24
  const NAWS: Byte := 31
  const TERMINAL_TYPE_IS: Byte := 0
  const TERMINAL_TYPE_SEND: Byte := 1

  const MAX_SUBNEGOTIATION_BYTES := 4096

  predicate IsNegotiationCommand(b: Byte) {
    b in {WILL, WONT, DO, DONT}
  }

  // ----- The receiving side -----

  datatype DecodeState = Data | Iac | Command(command: Byte) | Subnegotiation | SubnegotiationIac

  datatype Framing = Framing(state: DecodeState, buffer: seq<Byte>)

  const InitialFraming := Framing(Data, [])

  /** What one or more input bytes mean to the layers above. */
  datatype Event =
    | Text(byte: Byte)
    | Request(command: Byte, option: Byte)
    | Subframe(payload: seq<Byte>)

  /** `tripped` means that the subnegotiation bound was exceeded; the offending byte is dropped. */
  datatype Parsed = Parsed(framing: Framing, events: seq<Event>, tripped: bool)

  predicate Bounded(f: Framing) {
    |f.buffer| <= 4096
  }

  function Store(f: Framing, b: Byte): (p: Parsed) {
    if |f.buffer| >= MAX_SUBNEGOTIATION_BYTES then
      Parsed(f, [], true)
    else
      Parsed(Framing(Subnegotiation, f.buffer + [b]), [], false)
  }

  function ParseByte(f: Framing, b: Byte): (p: Parsed)
    ensures Bounded(f) ==> Bounded(p.framing)
    ensures p.tripped ==> f.state in {Subnegotiation, SubnegotiationIac} && p == Parsed(f, [], true)
  {
    match f.state
    case Data =>
      if b == IAC then Parsed(f.(state := Iac), [], false) else Parsed(f, [Text(b)], false)
    case Iac =>
      if b == IAC then Parsed(f.(state := Data), [Text(IAC)], false)
      else if IsNegotiationCommand(b) then Parsed(f.(state := Command(b)), [], false)
      else if b == SB then Parsed(Framing(Subnegotiation, []), [], false)
      else Parsed(f.(state := Data), [], false)
    case Command(command) =>
      Parsed(f.(state := Data), [Request(command, b)], false)
    case Subnegotiation =>
      if b == IAC then Parsed(f.(state := SubnegotiationIac), [], false) else Store(f, b)
    case SubnegotiationIac =>
      if b == SE then Parsed(InitialFraming, [Subframe(f.buffer)], false)
      else if b == IAC then Store(f, b)
      else Parsed(f.(state := Data), [], false)
  }

  /** The whole stream, byte by byte, up to its end or to the byte that trips the bound. */
  function Parse(f: Framing, s: seq<Byte>): (p: Parsed)
    ensures Bounded(f) ==> Bounded(p.framing)
    decreases s
  {
    if s == [] then Parsed(f, [], false)
    else
      var head := ParseByte(f, s[0]);
      if head.tripped then head
      else Then(head, Parse(head.framing, s[1..]))
  }

  function Then(first: Parsed, second: Parsed): (p: Parsed) {
    Parsed(second.framing, first.events + second.events, second.tripped)
  }

  /** Parsing a concatenation is parsing its parts; a trip in the first part hides the second. */
  lemma {:induction false} ParseConcat(f: Framing, a: seq<Byte>, b: seq<Byte>)
    ensures Parse(f, a + b) ==
            var first := Parse(f, a);
            if first.tripped then first else Then(first, Parse(first.framing, b))
    decreases a
  {
    if a == [] {
      assert a + b == b;
      assert Then(Parse(f, a), Parse(f, b)) == Parse(f, b);
    } else {
      var head := ParseByte(f, a[0]);
      assert (a + b)[0] == a[0] && (a + b)[1..] == a[1..] + b;
      if !head.tripped {
        ParseConcat(head.framing, a[1..], b);
        var middle := Parse(head.framing, a[1..]);
        if !middle.tripped {
          var last := Parse(middle.framing, b);
          assert head.events + (middle.events + last.events) == (head.events + middle.events) + last.events;
        }
      }
    }
  }

  lemma ParseOne(f: Framing, b: Byte)
    ensures Parse(f, [b]) == ParseByte(f, b)
  {
    var head := ParseByte(f, b);
    if !head.tripped {
      assert [b][1..] == [];
      assert head.events + [] == head.events;
    }
  }

  /** Two bytes, neither of which trips the bound. */
  lemma ParseTwo(f: Framing, a: Byte, b: Byte)
    requires !ParseByte(f, a).tripped
    ensures Parse(f, [a, b]) == Then(ParseByte(f, a), ParseByte(ParseByte(f, a).framing, b))
  {
    hide ParseByte;
    ParseConcat(f, [a], [b]);
    assert [a] + [b] == [a, b];
    ParseOne(f, a);
    ParseOne(ParseByte(f, a).framing, b);
  }

  /** The events of a prefix are a prefix of the events. */
  lemma ParsePrefix(f: Framing, a: seq<Byte>, s: seq<Byte>)
    requires a <= s
    ensures Parse(f, a).events <= Parse(f, s).events
  {
    ParseConcat(f, a, s[|a|..]);
    assert s == a + s[|a|..];
  }

  // ----- The sending side -----

  function EscapeByte(b: Byte): (e: seq<Byte>) {
    if b == IAC then [IAC, IAC] else [b]
  }

  /** Doubles every IAC, as `TelnetConnection::write` and RFC 854 require of data bytes. */
  function Escape(s: seq<Byte>): (e: seq<Byte>) {
    FlatMap(EscapeByte, s)
  }

  lemma {:induction false} EscapeIsIdentity(s: seq<Byte>)
    ensures IAC !in s <==> Escape(s) == s
    ensures |Escape(s)| >= |s|
    ensures |Escape(s)| == |s| <==> IAC !in s
  {
    if s != [] {
      EscapeIsIdentity(s[1..]);
      assert s == [s[0]] + s[1..];
    }
  }

  lemma {:induction false} EscapeIsShort(bytes: seq<Byte>)
    ensures |Escape(bytes)| <= 2 * |bytes|
  {
    if bytes != [] {
      EscapeIsShort(bytes[1..]);
    }
  }

  /** Everything that this program puts on the wire as a unit, plus the frames a peer may send. */
  datatype Message =
    | Literal(text: seq<Byte>)
    | Negotiate(command: Byte, option: Byte)
    | Signal(code: Byte)
    | Window(columns: U16, rows: U16)
    | TerminalTypeIs(terminal: seq<Byte>)
    | Subnegotiate(payload: seq<Byte>)

  function WireForm(m: Message): (s: seq<Byte>) {
    match m
    case Literal(text) => Escape(text)
    case Negotiate(command, option) => [IAC, command, option]
    case Signal(code) => [IAC, code]
    case Window(columns, rows) => [IAC, SB, NAWS] + Escape(BigEndian16(columns) + BigEndian16(rows)) + [IAC, SE]
    case TerminalTypeIs(terminal) => [IAC, SB, TERMINAL_TYPE, TERMINAL_TYPE_IS] + terminal + [IAC, SE]
    case Subnegotiate(payload) => [IAC, SB] + Escape(payload) + [IAC, SE]
  }

  function Wire(ms: seq<Message>): (s: seq<Byte>) {
    FlatMap(WireForm, ms)
  }

  /** The payload that a subnegotiation message is meant to carry. */
  function Payload(m: Message): (payload: seq<Byte>)
    requires m.Window? || m.TerminalTypeIs? || m.Subnegotiate?
  {
    match m
    case Window(columns, rows) => [NAWS] + BigEndian16(columns) + BigEndian16(rows)
    case TerminalTypeIs(terminal) => [TERMINAL_TYPE, TERMINAL_TYPE_IS] + terminal
    case Subnegotiate(payload) => payload
  }

  /** What the receiver is meant to understand; written without reference to the automaton. */
  function Meaning(m: Message): (events: seq<Event>) {
    match m
    case Literal(text) => seq(|text|, i requires 0 <= i < |text| => Text(text[i]))
    case Negotiate(command, option) => [Request(command, option)]
    case Signal(_) => []
    case Window(_, _) => [Subframe(Payload(m))]
    case TerminalTypeIs(_) => [Subframe(Payload(m))]
    case Subnegotiate(_) => [Subframe(Payload(m))]
  }

  function Meanings(ms: seq<Message>): (events: seq<Event>) {
    FlatMap(Meaning, ms)
  }

  /** The messages a conforming sender may emit; the terminal name is checked by `TelnetOptions::validate`. */
  predicate Sendable(m: Message) {
    match m
    case Literal(_) => true
    case Negotiate(command, _) => command in {251, 252, 253, 254}
    case Signal(code) => code !in {250, 251, 252, 253, 254, 255}
    case Window(_, _) => true
    case TerminalTypeIs(terminal) => IAC !in terminal && |terminal| <= 128
    case Subnegotiate(payload) => |payload| <= 4096
  }

  /** The terminal-type frame is sent unescaped; that is the escaped form exactly for names without IAC. */
  lemma TerminalTypeWireForm(terminal: seq<Byte>)
    ensures var m := TerminalTypeIs(terminal);
            WireForm(m) == [IAC, SB] + Escape(Payload(m)) + [IAC, SE] <==> IAC !in terminal
  {
    hide FlatMap;
    var head := [TERMINAL_TYPE, TERMINAL_TYPE_IS];
    FlatMapConcat(EscapeByte, head, terminal);
    EscapeIsIdentity(head);
    EscapeIsIdentity(terminal);
    var plain, escaped := WireForm(TerminalTypeIs(terminal)), [IAC, SB] + (head + Escape(terminal)) + [IAC, SE];
    if IAC in terminal {
      assert |plain| == |terminal| + 6 && |escaped| == |Escape(terminal)| + 6;
    } else {
      assert plain == [IAC, SB] + (head + terminal) + [IAC, SE];
    }
  }

  lemma WindowWireForm(columns: U16, rows: U16)
    ensures var m := Window(columns, rows); WireForm(m) == [IAC, SB] + Escape(Payload(m)) + [IAC, SE]
  {
    var size := BigEndian16(columns) + BigEndian16(rows);
    assert [NAWS] + BigEndian16(columns) + BigEndian16(rows) == [NAWS] + size;
    FlatMapConcat(EscapeByte, [NAWS], size);
    EscapeIsIdentity([NAWS]);
    assert [IAC, SB, NAWS] + Escape(size) + [IAC, SE] == [IAC, SB] + ([NAWS] + Escape(size)) + [IAC, SE];
  }

  lemma ParseEscapedByte(f: Framing, b: Byte)
    requires f.state == Data
    ensures Parse(f, EscapeByte(b)) == Parsed(f, [Text(b)], false)
  {
    if b == IAC {
      ParseTwo(f, IAC, IAC);
    } else {
      ParseOne(f, b);
    }
  }

  /** Escaped data bytes arrive as exactly those bytes, in any number of writes. */
  lemma {:induction false} ParseEscapedText(f: Framing, text: seq<Byte>)
    requires f.state == Data
    ensures Parse(f, Escape(text)) == Parsed(f, Meaning(Literal(text)), false)
  {
    hide Parse;
    if text == [] {
      NothingParsed(f);
    } else {
      ParseEscapedByte(f, text[0]);
      ParseConcat(f, EscapeByte(text[0]), Escape(text[1..]));
      ParseEscapedText(f, text[1..]);
      assert [Text(text[0])] + Meaning(Literal(text[1..])) == Meaning(Literal(text));
    }
  }

  /** One payload byte on the wire, doubled if it is IAC, stores one byte or trips the bound. */
  lemma ParseStoredByte(buffer: seq<Byte>, b: Byte)
    ensures Parse(Framing(Subnegotiation, buffer), EscapeByte(b)) ==
            if |buffer| < 4096 then Parsed(Framing(Subnegotiation, buffer + [b]), [], false)
            else Parsed(Framing(if b == IAC then SubnegotiationIac else Subnegotiation, buffer), [], true)
  {
    var f := Framing(Subnegotiation, buffer);
    if b == IAC {
      ParseTwo(f, IAC, IAC);
    } else {
      ParseOne(f, b);
    }
  }

  lemma NothingParsed(f: Framing)
    ensures Escape([]) == [] && Parse(f, []) == Parsed(f, [], false)
  {
  }

  /**
    Inside a frame the buffer un-escapes the payload; the bound trips exactly when the payload, on top
    of what is already stored, is longer than 4096 bytes.
   */
  lemma {:induction false} ParseEscapedPayload(buffer: seq<Byte>, payload: seq<Byte>)
    requires |buffer| <= 4096
    ensures var p := Parse(Framing(Subnegotiation, buffer), Escape(payload));
            && (p.tripped <==> |buffer| + |payload| > 4096)
            && (!p.tripped ==> p == Parsed(Framing(Subnegotiation, buffer + payload), [], false))
            && p.events == []
    decreases payload
  {
    hide Parse;
    var f := Framing(Subnegotiation, buffer);
    if payload == [] {
      NothingParsed(f);
      assert buffer + payload == buffer;
    } else {
      var b := payload[0];
      ParseStoredByte(buffer, b);
      ParseConcat(f, EscapeByte(b), Escape(payload[1..]));
      if |buffer| < 4096 {
        ParseEscapedPayload(buffer + [b], payload[1..]);
        assert buffer + [b] + payload[1..] == buffer + payload;
      }
    }
  }

  /**
    A subnegotiation up to the byte after its closing IAC. With SE the payload is delivered; with any
    other byte the frame is abandoned without a trace; an oversized payload trips the bound before that.
   */
  lemma ParseSubframe(f: Framing, payload: seq<Byte>, last: Byte)
    requires f.state == Data && last != IAC
    ensures var p := Parse(f, [IAC, SB] + Escape(payload) + [IAC, last]);
            && (p.tripped <==> |payload| > 4096)
            && (!p.tripped ==> p.framing.state == Data)
            && p.events == if last == SE && !p.tripped then [Subframe(payload)] else []
  {
    var body := Escape(payload);
    var entered, stored := Framing(Subnegotiation, []), Framing(Subnegotiation, payload);
    var closed := ParseByte(Framing(SubnegotiationIac, payload), last);
    assert Parse(f, [IAC, SB]) == Parsed(entered, [], false) by { ParseTwo(f, IAC, SB); }
    assert Parse(stored, [IAC, last]) == Parsed(closed.framing, closed.events, false) by {
      ParseTwo(stored, IAC, last);
    }
    hide Parse, FlatMap;
    ParseEscapedPayload([], payload);
    assert [] + payload == payload;
    ParseConcat(f, [IAC, SB], body + [IAC, last]);
    assert [IAC, SB] + (body + [IAC, last]) == [IAC, SB] + body + [IAC, last];
    ParseConcat(entered, body, [IAC, last]);
  }

  /** Every message a conforming sender emits arrives with its meaning, and leaves the receiver in `Data`. */
  lemma ParseMessage(f: Framing, m: Message)
    requires f.state == Data && Sendable(m)
    ensures var p := Parse(f, WireForm(m)); p.framing.state == Data && p.events == Meaning(m) && !p.tripped
  {
    match m
    case Literal(text) => ParseEscapedText(f, text);
    case Negotiate(command, option) =>
      ParseTwo(f, IAC, command);
      ParseConcat(f, [IAC, command], [option]);
      assert [IAC, command] + [option] == WireForm(m);
      ParseOne(f.(state := Command(command)), option);
    case Signal(code) =>
      ParseTwo(f, IAC, code);
    case Window(columns, rows) => WindowWireForm(columns, rows); ParseSubframe(f, Payload(m), SE);
    case TerminalTypeIs(terminal) => TerminalTypeWireForm(terminal); ParseSubframe(f, Payload(m), SE);
    case Subnegotiate(_) => ParseSubframe(f, Payload(m), SE);
  }

  /** Sender and receiver are inverse on any sequence of whole messages, however they are mixed. */
  lemma {:induction false} ParseWire(f: Framing, ms: seq<Message>)
    requires f.state == Data && forall m :: m in ms ==> Sendable(m)
    ensures var p := Parse(f, Wire(ms)); p.framing.state == Data && p.events == Meanings(ms) && !p.tripped
    decreases ms
  {
    hide Parse;
    if ms == [] {
      NothingParsed(f);
    } else {
      ParseMessage(f, ms[0]);
      var first := Parse(f, WireForm(ms[0]));
      ParseConcat(f, WireForm(ms[0]), Wire(ms[1..]));
      ParseWire(first.framing, ms[1..]);
    }
  }

  // ----- Subnegotiations of any length -----

  /** The guard of the branch that fails: a payload of more than 4096 bytes. */
  predicate Oversized(m: Message) {
    m.Subnegotiate? && |m.payload| > 4096
  }

  /** Whole messages, whose subnegotiations may be of any length. */
  predicate Whole(m: Message) {
    Sendable(m) || m.Subnegotiate?
  }

  function BeforeOversized(ms: seq<Message>): (before: seq<Message>) {
    if ms == [] || Oversized(ms[0]) then [] else [ms[0]] + BeforeOversized(ms[1..])
  }

  /**
    Of any whole messages, exactly those before the first oversized one are understood, and the bound
    trips if and only if there is an oversized one.
   */
  lemma {:induction false} ParseUntilOversized(f: Framing, ms: seq<Message>)
    requires f.state == Data && forall m :: m in ms ==> Whole(m)
    ensures var p := Parse(f, Wire(ms));
            && (p.tripped <==> exists m :: m in ms && Oversized(m))
            && p.events == Meanings(BeforeOversized(ms))
    decreases ms
  {
    hide Parse;
    if ms == [] {
      NothingParsed(f);
    } else {
      ParseConcat(f, WireForm(ms[0]), Wire(ms[1..]));
      assert forall m :: m in ms <==> m == ms[0] || m in ms[1..];
      assert Whole(ms[0]);
      if Oversized(ms[0]) {
        ParseSubframe(f, ms[0].payload, SE);
      } else {
        ParseMessage(f, ms[0]);
        ParseUntilOversized(Parse(f, WireForm(ms[0])).framing, ms[1..]);
      }
    }
  }

  // ----- User data -----

  function TextIn(e: Event): (text: seq<Byte>) {
    if e.Text? then [e.byte] else []
  }

  /** The data bytes among the events: what the application is given. */
  function TextOf(events: seq<Event>): (text: seq<Byte>) {
    FlatMap(TextIn, events)
  }

  function LiteralIn(m: Message): (text: seq<Byte>) {
    if m.Literal? then m.text else []
  }

  /** The user's own bytes in a list of messages. */
  function Literals(ms: seq<Message>): (text: seq<Byte>) {
    FlatMap(LiteralIn, ms)
  }

  lemma {:induction false} LiteralMeaning(text: seq<Byte>)
    ensures TextOf(Meaning(Literal(text))) == text
  {
    if text != [] {
      LiteralMeaning(text[1..]);
      assert Meaning(Literal(text))[1..] == Meaning(Literal(text[1..]));
    }
  }

  /** No control frame leaks into, or swallows, user data. */
  lemma {:induction false} MeaningsText(ms: seq<Message>)
    ensures TextOf(Meanings(ms)) == Literals(ms)
  {
    if ms == [] {
    } else {
      MeaningsText(ms[1..]);
      FlatMapConcat(TextIn, Meaning(ms[0]), Meanings(ms[1..]));
      if ms[0].Literal? {
        LiteralMeaning(ms[0].text);
      } else {
        assert TextOf(Meaning(ms[0])) == [];
      }
    }
  }

  /** The window frame, received, is the option byte followed by columns and rows, big-endian (RFC 1073). */
  lemma WindowRoundTrip(f: Framing, columns: U16, rows: U16)
    requires f.state == Data
    ensures var p := Parse(f, WireForm(Window(columns, rows)));
            && !p.tripped && |p.events| == 1 && p.events[0].Subframe?
            && var payload := p.events[0].payload;
            && |payload| == 5 && payload[0] == NAWS
            && FromBigEndian16(payload[1], payload[2]) == columns
            && FromBigEndian16(payload[3], payload[4]) == rows
  {
    ParseMessage(f, Window(columns, rows));
  }

  /** Whole writes and frames in, user bytes out: the transport is transparent for user data. */
  lemma SenderReceiverInverse(f: Framing, ms: seq<Message>)
    requires f.state == Data && forall m :: m in ms ==> Sendable(m)
    ensures var p := Parse(f, Wire(ms));
            p.framing.state == Data && !p.tripped && TextOf(p.events) == Literals(ms)
  {
    ParseWire(f, ms);
    MeaningsText(ms);
  }
}
