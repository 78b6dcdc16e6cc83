/**
  The Telnet codec: framing and negotiation together, first as a function of the bytes read, then as
  the incremental object that the connection feeds one read at a time.
 */
module TelnetCodecs {
  import opened Bytes
  import opened TelnetFraming
  import opened TelnetNegotiation

  datatype Codec = Codec(framing: Framing, options: Options)

  const InitialCodec := Codec(InitialFraming, NoOptions)

  /** Everything one pass over some bytes produces, up to their end or to the byte that trips the bound. */
  datatype Decoded = Decoded(codec: Codec, data: seq<Byte>, responses: seq<Message>, tripped: bool)

  function Decode(c: Codec, s: seq<Byte>, settings: Settings): (d: Decoded) {
    var p := Parse(c.framing, s);
    var r := ReactAll(c.options, p.events, settings);
    Decoded(Codec(p.framing, r.options), TextOf(p.events), r.messages, p.tripped)
  }

  function Follow(first: Decoded, second: Decoded): (d: Decoded) {
    Decoded(second.codec, first.data + second.data, first.responses + second.responses, second.tripped)
  }

  lemma DecodeConcat(c: Codec, a: seq<Byte>, b: seq<Byte>, settings: Settings)
    ensures var first := Decode(c, a, settings);
            Decode(c, a + b, settings) ==
            if first.tripped then first else Follow(first, Decode(first.codec, b, settings))
  {
    ParseConcat(c.framing, a, b);
    var p := Parse(c.framing, a);
    if !p.tripped {
      var q := Parse(p.framing, b);
      ReactConcat(c.options, p.events, q.events, settings);
      FlatMapConcat(TextIn, p.events, q.events);
    }
  }

  lemma NothingDecoded(c: Codec, settings: Settings)
    ensures Decode(c, [], settings) == Decoded(c, [], [], false)
  {
  }

  // ----- Reads of any size -----

  /**
    What a reader is handed when the stream arrives in the given reads: a read that trips the bound
    ends the stream with an error, and the `?` in `TelnetConnection::read` drops that read's output.
   */
  function FeedAll(c: Codec, chunks: seq<seq<Byte>>, settings: Settings): (d: Decoded)
    decreases chunks
  {
    if chunks == [] then Decoded(c, [], [], false)
    else
      var first := Decode(c, chunks[0], settings);
      if first.tripped then Decoded(first.codec, [], [], true)
      else Follow(first, FeedAll(first.codec, chunks[1..], settings))
  }

  /** The output of the read that trips the bound, which nobody is handed. */
  function Dropped(c: Codec, chunks: seq<seq<Byte>>, settings: Settings): (d: Decoded)
    decreases chunks
  {
    if chunks == [] then Decoded(c, [], [], false)
    else
      var first := Decode(c, chunks[0], settings);
      if first.tripped then first else Dropped(first.codec, chunks[1..], settings)
  }

  /**
    Chunk independence: however the bytes are split into chunks, the bound trips for the same streams,
    the codec ends in the same state, and a stream that does not trip yields the same data and the same
    responses as one pass over all bytes. A tripped stream yields what that pass yields, less exactly
    the output of the read in which it tripped.
   */
  lemma {:induction false} ChunkIndependence(c: Codec, chunks: seq<seq<Byte>>, settings: Settings)
    ensures var whole := Decode(c, Flatten(chunks), settings);
            var fed := FeedAll(c, chunks, settings);
            var dropped := Dropped(c, chunks, settings);
            && fed.tripped == whole.tripped
            && fed.codec == whole.codec
            && (!whole.tripped ==> fed == whole)
            && (whole.tripped ==> whole.data == fed.data + dropped.data
                                  && whole.responses == fed.responses + dropped.responses)
    decreases chunks
  {
    hide Decode;
    if chunks == [] {
      NothingDecoded(c, settings);
    } else {
      var first := Decode(c, chunks[0], settings);
      DecodeConcat(c, chunks[0], Flatten(chunks[1..]), settings);
      if first.tripped {
        assert [] + first.data == first.data && [] + first.responses == first.responses;
      } else {
        ChunkIndependence(first.codec, chunks[1..], settings);
        var rest := FeedAll(first.codec, chunks[1..], settings);
        var dropped := Dropped(c, chunks, settings);
        assert (first.data + rest.data) + dropped.data == first.data + (rest.data + dropped.data);
        assert (first.responses + rest.responses) + dropped.responses
            == first.responses + (rest.responses + dropped.responses);
      }
    }
  }

  /** The reader is handed all data and all responses that come before the trip, if there is one. */
  ghost predicate NothingLost(c: Codec, chunks: seq<seq<Byte>>, settings: Settings) {
    var fed, whole := FeedAll(c, chunks, settings), Decode(c, Flatten(chunks), settings);
    fed.data == whole.data && fed.responses == whole.responses
  }

  /**
    Fed in chunks of any length, a stream survives every way of cutting it if and only if it does not trip
    the bound, or has nothing to hand out before it does.
   */
  lemma NothingLostExactlyWhen(c: Codec, s: seq<Byte>, settings: Settings)
    ensures (forall chunks: seq<seq<Byte>> | Flatten(chunks) == s :: NothingLost(c, chunks, settings))
       <==> var whole := Decode(c, s, settings);
            whole.tripped ==> whole.data == [] && whole.responses == []
  {
    hide Decode;
    forall chunks: seq<seq<Byte>> | Flatten(chunks) == s
      ensures var whole := Decode(c, s, settings);
              (whole.tripped ==> whole.data == [] && whole.responses == []) ==> NothingLost(c, chunks, settings)
    {
      ChunkIndependence(c, chunks, settings);
    }
    FlattenOne(s);
    assert Decode(c, s, settings).tripped ==>
      FeedAll(c, [s], settings) == Decoded(Decode(c, s, settings).codec, [], [], true);
    assert NothingLost(c, [s], settings) <==>
      (Decode(c, s, settings).tripped ==> Decode(c, s, settings).data == [] && Decode(c, s, settings).responses == [])
    by {
      ChunkIndependence(c, [s], settings);
    }
  }

  /**
    The same for whole messages, read off the messages: there must be no oversized frame, or else no user
    text and nothing to answer before the first one.
   */
  lemma MessagesSurviveExactlyWhen(c: Codec, ms: seq<Message>, settings: Settings)
    requires c.framing.state == Data && forall m :: m in ms ==> Whole(m)
    ensures (forall chunks: seq<seq<Byte>> | Flatten(chunks) == Wire(ms) :: NothingLost(c, chunks, settings))
       <==> ((exists m :: m in ms && Oversized(m)) ==>
               var before := BeforeOversized(ms);
               Literals(before) == [] && ReactAll(c.options, Meanings(before), settings).messages == [])
  {
    hide NothingLost;
    NothingLostExactlyWhen(c, Wire(ms), settings);
    ParseUntilOversized(c.framing, ms);
    MeaningsText(BeforeOversized(ms));
  }

  // ----- Whole messages -----

  /**
    On whole messages the byte-level codec is the message-level one: the peer's text is delivered, its
    requests are answered, and nothing is left over.
   */
  lemma DecodeWire(c: Codec, ms: seq<Message>, settings: Settings)
    requires c.framing.state == Data && forall m :: m in ms ==> Sendable(m)
    ensures var d := Decode(c, Wire(ms), settings);
            var r := ReactAll(c.options, Meanings(ms), settings);
            && d.data == Literals(ms) && d.responses == r.messages && d.codec.options == r.options
            && d.codec.framing.state == Data && !d.tripped
  {
    ParseWire(c.framing, ms);
    MeaningsText(ms);
  }

  /** A fresh codec's answers to a first request and to a terminal-type query, byte by byte. */
  lemma AnswersInBytes(option: Byte, settings: Settings)
    ensures Wire(Decode(InitialCodec, [255, 251, option], settings).responses) ==
            [255, if option == 1 || option == 3 then 253 else 254, option]
    ensures Wire(Decode(InitialCodec, [255, 253, option], settings).responses) ==
            if option == 31 then
              var columns, rows := settings.columns, settings.rows;
              [255, 251, 31] +
              ([255, 250, 31] + Escape([columns / 256, columns % 256, rows / 256, rows % 256]) + [255, 240])
            else [255, if option == 3 || option == 24 then 251 else 252, option]
    ensures Wire(Decode(InitialCodec, [255, 253, 24] + [255, 250, 24, 1, 255, 240], settings).responses) ==
            [255, 251, 24] + ([255, 250, 24, 0] + settings.terminal + [255, 240])
  {
    hide FlatMap;
    OneRequest(Negotiate(251, option), settings);
    OneRequest(Negotiate(253, option), settings);
    AnswersInNumbers(NoOptions, option, settings);
    forall command: Byte { FlatMapOne(WireForm, Negotiate(command, option)); }
    if option == 31 {
      var on, window := Negotiate(251, 31), Window(settings.columns, settings.rows);
      assert Decode(InitialCodec, [255, 253, option], settings).responses == [on] + [window];
      FlatMapConcat(WireForm, [on], [window]);
      FlatMapOne(WireForm, on);
      FlatMapOne(WireForm, window);
      assert Wire([on] + [window]) == WireForm(on) + WireForm(window);
      assert BigEndian16(settings.columns) + BigEndian16(settings.rows) ==
             [settings.columns / 256, settings.columns % 256, settings.rows / 256, settings.rows % 256];
    } else {
      var answer := Negotiate(if option == 3 || option == 24 then 251 else 252, option);
      assert Decode(InitialCodec, [255, 253, option], settings).responses == [answer];
      FlatMapOne(WireForm, answer);
    }
    TerminalTypeInBytes(settings);
  }

  lemma OneRequest(m: Message, settings: Settings)
    requires m.Negotiate? && IsNegotiationCommand(m.command)
    ensures Decode(InitialCodec, WireForm(m), settings).responses ==
            React(NoOptions, Request(m.command, m.option), settings).messages
    ensures Decode(InitialCodec, WireForm(m), settings).codec.framing.state == Data
  {
    ParseMessage(InitialFraming, m);
    ReactOne(NoOptions, Request(m.command, m.option), settings);
  }

  lemma TerminalTypeInBytes(settings: Settings)
    ensures Wire(Decode(InitialCodec, [255, 253, 24] + [255, 250, 24, 1, 255, 240], settings).responses) ==
            [255, 251, 24] + ([255, 250, 24, 0] + settings.terminal + [255, 240])
  {
    var request, query := Negotiate(253, 24), Subnegotiate([24, 1]);
    var ms := [request, query];
    assert EscapeByte(24) + EscapeByte(1) == [24, 1];
    assert Escape([24, 1]) == [24, 1] by { EscapeIsIdentity([24, 1]); }
    assert WireForm(query) == [255, 250, 24, 1, 255, 240];
    assert ms == [request] + [query];
    FlatMapConcat(WireForm, [request], [query]);
    FlatMapOne(WireForm, request);
    FlatMapOne(WireForm, query);
    DecodeWire(InitialCodec, ms, settings);
    FlatMapConcat(Meaning, [request], [query]);
    FlatMapOne(Meaning, request);
    FlatMapOne(Meaning, query);
    var events := [Request(253, 24)] + [Subframe([24, 1])];
    assert Meanings(ms) == events;
    ReactConcat(NoOptions, [Request(253, 24)], [Subframe([24, 1])], settings);
    ReactOne(NoOptions, Request(253, 24), settings);
    ReactOne(Options({}, {24}), Subframe([24, 1]), settings);
    var answers := [Negotiate(251, 24)] + [TerminalTypeIs(settings.terminal)];
    FlatMapConcat(WireForm, [Negotiate(251, 24)], [TerminalTypeIs(settings.terminal)]);
    FlatMapOne(WireForm, Negotiate(251, 24));
    FlatMapOne(WireForm, TerminalTypeIs(settings.terminal));
  }

  // ----- History over many reads, with the window resized in between -----

  datatype Read = Read(bytes: seq<Byte>, settings: Settings)

  /** A run of successful feeds, each with the settings of its moment. */
  function Run(c: Codec, chunks: seq<Read>): (d: Decoded)
    decreases chunks
  {
    if chunks == [] then Decoded(c, [], [], false)
    else
      var first := Decode(c, chunks[0].bytes, chunks[0].settings);
      if first.tripped then first else Follow(first, Run(first.codec, chunks[1..]))
  }

  /** All requests for one option over a run. */
  function RunRequests(c: Codec, chunks: seq<Read>, side: Side, option: Byte): (asked: seq<bool>)
    decreases chunks
  {
    if chunks == [] then []
    else
      var p := Parse(c.framing, chunks[0].bytes);
      var first := Decode(c, chunks[0].bytes, chunks[0].settings);
      Requests(side, option, p.events)
      + if first.tripped then [] else RunRequests(first.codec, chunks[1..], side, option)
  }

  lemma {:induction false} RunLaw(c: Codec, chunks: seq<Read>, side: Side, option: Byte)
    requires Known(c.options)
    ensures var d := Run(c, chunks);
            && Known(d.codec.options)
            && Lawful(side, option, Enabled(c.options, side, option), RunRequests(c, chunks, side, option),
                      Answers(side, option, d.responses), Enabled(d.codec.options, side, option))
    decreases chunks
  {
    if chunks == [] {
    } else {
      var p := Parse(c.framing, chunks[0].bytes);
      var first := Decode(c, chunks[0].bytes, chunks[0].settings);
      var asked := Requests(side, option, p.events);
      History(side, option, c.options, p.events, chunks[0].settings);
      if first.tripped {
        assert asked + [] == asked;
      } else {
        RunLaw(first.codec, chunks[1..], side, option);
        var later := RunRequests(first.codec, chunks[1..], side, option);
        AnswersConcat(side, option, first.responses, Run(first.codec, chunks[1..]).responses);
        ChangesConcat(Enabled(c.options, side, option), asked, later);
        RepeatConcat(asked, later);
      }
    }
  }

  lemma {:induction false} RepeatIsRefusals(n: nat)
    ensures |Repeat(n)| == n && forall i :: 0 <= i < n ==> !Repeat(n)[i]
  {
    if n > 0 {
      RepeatIsRefusals(n - 1);
    }
  }

  /**
    Negotiation history of a connection, over every input in any number of reads. A negotiable option
    is answered on, off, on, off and so on, beginning with "on", and is enabled exactly when the last
    answer was "on"; any other option is never enabled and is refused once for each "on" request.
   */
  lemma NegotiationHistory(chunks: seq<Read>, side: Side, option: Byte)
    ensures var d := Run(InitialCodec, chunks);
            var answered := Answers(side, option, d.responses);
            var enabled := Enabled(d.codec.options, side, option);
            if Negotiable(side, option) then
              && (forall i :: 0 <= i < |answered| ==> (answered[i] <==> i % 2 == 0))
              && (enabled <==> answered != [] && answered[|answered| - 1])
            else
              && !enabled
              && |answered| == OnCount(RunRequests(InitialCodec, chunks, side, option))
              && forall i :: 0 <= i < |answered| ==> !answered[i]
  {
    RunLaw(InitialCodec, chunks, side, option);
    var asked := RunRequests(InitialCodec, chunks, side, option);
    ChangesAlternate(false, asked);
    RepeatIsRefusals(OnCount(asked));
  }

  /** Over every run, each "WILL NAWS" is followed at once by one window frame, and none stands alone. */
  lemma {:induction false} RunWindowReports(c: Codec, chunks: seq<Read>)
    ensures WindowsPaired(Run(c, chunks).responses)
    decreases chunks
  {
    if chunks != [] {
      var first := Decode(c, chunks[0].bytes, chunks[0].settings);
      WindowReports(c.options, Parse(c.framing, chunks[0].bytes).events, chunks[0].settings);
      if !first.tripped {
        RunWindowReports(first.codec, chunks[1..]);
        WindowsPairedConcat(first.responses, Run(first.codec, chunks[1..]).responses);
      }
    }
  }

  // ----- The incremental object -----

  datatype FeedError = SubnegotiationTooLong

  datatype FeedResult = Output(data: seq<Byte>, responses: seq<seq<Byte>>) | Protocol(error: FeedError)

  function WireForms(ms: seq<Message>): (frames: seq<seq<Byte>>)
    ensures |frames| == |ms|
  {
    if ms == [] then [] else [WireForm(ms[0])] + WireForms(ms[1..])
  }

  lemma {:induction false} WireFormsConcat(a: seq<Message>, b: seq<Message>)
    ensures WireForms(a + b) == WireForms(a) + WireForms(b)
  {
    if a == [] {
      assert a + b == b;
    } else {
      assert (a + b)[1..] == a[1..] + b;
      WireFormsConcat(a[1..], b);
    }
  }

  /** One byte, given directly: what it means, and the answer to that. */
  function DecodeOne(c: Codec, b: Byte, settings: Settings): (d: Decoded) {
    var p := ParseByte(c.framing, b);
    if p.events == [] then Decoded(Codec(p.framing, c.options), [], [], p.tripped)
    else
      var r := React(c.options, p.events[0], settings);
      var text := if p.events[0].Text? then [p.events[0].byte] else [];
      Decoded(Codec(p.framing, r.options), text, r.messages, p.tripped)
  }

  /** Decoding is a byte-by-byte fold. */
  lemma DecodeByte(c: Codec, s: seq<Byte>, b: Byte, settings: Settings)
    requires !Decode(c, s, settings).tripped
    ensures var before := Decode(c, s, settings);
            var one := DecodeOne(before.codec, b, settings);
            && Decode(c, s + [b], settings) == Follow(before, one)
            && WireForms(before.responses + one.responses) == WireForms(before.responses) + WireForms(one.responses)
  {
    var before := Decode(c, s, settings);
    var one := DecodeOne(before.codec, b, settings);
    DecodeConcat(c, s, [b], settings);
    ParseOne(before.codec.framing, b);
    var p := ParseByte(before.codec.framing, b);
    if p.events != [] {
      assert p.events == [p.events[0]] && p.events[1..] == [];
      ReactOne(before.codec.options, p.events[0], settings);
      FlatMapOne(TextIn, p.events[0]);
    }
    assert Decode(before.codec, [b], settings) == one;
    WireFormsConcat(before.responses, one.responses);
  }

  lemma EscapeSnoc(s: seq<Byte>, i: nat)
    requires i < |s|
    ensures Escape(s[..i + 1]) == Escape(s[..i]) + EscapeByte(s[i])
  {
    FlatMapConcat(EscapeByte, s[..i], [s[i]]);
    FlatMapOne(EscapeByte, s[i]);
    assert s[..i] + [s[i]] == s[..i + 1];
  }

  /** `TelnetConnection::write`'s escaping loop. */
  method EscapeBytes(bytes: seq<Byte>) returns (escaped: seq<Byte>)
    ensures escaped == Escape(bytes)
  {
    escaped := [];
    for i := 0 to |bytes|
      invariant escaped == Escape(bytes[..i])
    {
      ghost var before := escaped;
      escaped := escaped + [bytes[i]];
      if bytes[i] == IAC {
        escaped := escaped + [IAC];
      }
      EscapeSnoc(bytes, i);
      assert escaped == before + EscapeByte(bytes[i]);
    }
    assert bytes[..|bytes|] == bytes;
  }

  /** `naws_response`: columns, then rows, each big-endian, with IAC doubled as it is pushed. */
  method WindowFrame(settings: Settings) returns (response: seq<Byte>)
    ensures response == WireForm(Window(settings.columns, settings.rows))
  {
    response := [IAC, SB, NAWS];
    var size := BigEndian16(settings.columns) + BigEndian16(settings.rows);
    for i := 0 to |size|
      invariant response == [IAC, SB, NAWS] + Escape(size[..i])
    {
      ghost var before := response;
      response := response + [size[i]];
      if size[i] == IAC {
        response := response + [IAC];
      }
      EscapeSnoc(size, i);
      assert response == before + EscapeByte(size[i]);
    }
    assert size[..|size|] == size;
    response := response + [IAC, SE];
  }

  class TelnetCodec {
    var state: DecodeState
    var subnegotiation: seq<Byte>
    var remoteOptions: set<Byte>
    var localOptions: set<Byte>

    /** The codec's value. */
    function View(): Codec
      reads this
    {
      Codec(Framing(state, subnegotiation), Options(remoteOptions, localOptions))
    }

    constructor ()
      ensures View() == InitialCodec
    {
      state, subnegotiation := Data, [];
      remoteOptions, localOptions := {}, {};
    }

    /** `push_subnegotiation`: false when the frame is already 4096 bytes long. */
    method PushSubnegotiation(byte: Byte) returns (ok: bool)
      modifies this`subnegotiation
      ensures ok <==> |old(subnegotiation)| < 4096
      ensures subnegotiation == if ok then old(subnegotiation) + [byte] else old(subnegotiation)
    {
      if |subnegotiation| >= MAX_SUBNEGOTIATION_BYTES {
        return false;
      }
      subnegotiation := subnegotiation + [byte];
      return true;
    }

    /** `negotiate`: updates the option sets and appends the answers. */
    method NegotiateOption(command: Byte, option: Byte, settings: Settings, responses: seq<seq<Byte>>)
      returns (extended: seq<seq<Byte>>)
      modifies this`remoteOptions, this`localOptions
      ensures var r := Answer(Options(old(remoteOptions), old(localOptions)), command, option, settings);
              && Options(remoteOptions, localOptions) == r.options
              && extended == responses + WireForms(r.messages)
    {
      extended := responses;
      if command == WILL {
        if AcceptsRemote(option) {
          if option !in remoteOptions {
            remoteOptions := remoteOptions + {option};
            extended := extended + [[IAC, DO, option]];
          }
        } else {
          extended := extended + [[IAC, DONT, option]];
        }
      } else if command == WONT && option in remoteOptions {
        remoteOptions := remoteOptions - {option};
        extended := extended + [[IAC, DONT, option]];
      } else if command == DO {
        if SupportsLocal(option) {
          if option !in localOptions {
            localOptions := localOptions + {option};
            extended := extended + [[IAC, WILL, option]];
            if option == NAWS {
              var window := WindowFrame(settings);
              extended := extended + [window];
            }
          }
        } else {
          extended := extended + [[IAC, WONT, option]];
        }
      } else if command == DONT && option in localOptions {
        localOptions := localOptions - {option};
        extended := extended + [[IAC, WONT, option]];
      }
    }

    /** The loop body of `feed`: one byte, appended to the output so far. */
    method FeedByte(byte: Byte, settings: Settings, data: seq<Byte>, responses: seq<seq<Byte>>)
      returns (ok: bool, data': seq<Byte>, responses': seq<seq<Byte>>)
      modifies this
      ensures var d := DecodeOne(old(View()), byte, settings);
              && View() == d.codec && ok == !d.tripped
              && data' == data + d.data
              && responses' == responses + WireForms(d.responses)
    {
      ok, data', responses' := true, data, responses;
      match state {
        case Data =>
          if byte == IAC {
            state := Iac;
          } else {
            data' := data' + [byte];
          }
        case Iac =>
          if byte == IAC {
            data' := data' + [IAC];
            state := Data;
          } else if byte in {WILL, WONT, DO, DONT} {
            state := Command(byte);
          } else if byte == SB {
            subnegotiation := [];
            state := Subnegotiation;
          } else {
            state := Data;
          }
        case Command(command) =>
          responses' := NegotiateOption(command, byte, settings, responses');
          state := Data;
        case Subnegotiation =>
          if byte == IAC {
            state := SubnegotiationIac;
          } else {
            ok := PushSubnegotiation(byte);
          }
        case SubnegotiationIac =>
          if byte == SE {
            if subnegotiation == [TERMINAL_TYPE, TERMINAL_TYPE_SEND] && TERMINAL_TYPE in localOptions {
              responses' := responses' + [WireForm(TerminalTypeIs(settings.terminal))];
            }
            state := Data;
            subnegotiation := [];
          } else if byte == IAC {
            ok := PushSubnegotiation(IAC);
            if ok {
              state := Subnegotiation;
            }
          } else {
            state := Data;
          }
      }
    }

    /** `feed`: one read. The output is exactly that of `Decode`, dropped as a whole when the bound trips. */
    method Feed(input: seq<Byte>, settings: Settings) returns (result: FeedResult)
      modifies this
      ensures var d := Decode(old(View()), input, settings);
              && View() == d.codec
              && result == if d.tripped then Protocol(SubnegotiationTooLong)
                           else Output(d.data, WireForms(d.responses))
    {
      var data: seq<Byte> := [];
      var responses: seq<seq<Byte>> := [];
      ghost var start := View();
      for i := 0 to |input|
        invariant var d := Decode(start, input[..i], settings);
                  && !d.tripped && d.codec == View()
                  && data == d.data && responses == WireForms(d.responses)
      {
        DecodeByte(start, input[..i], input[i], settings);
        assert input[..i] + [input[i]] == input[..i + 1];
        assert input == input[..i + 1] + input[i + 1..];
        DecodeConcat(start, input[..i + 1], input[i + 1..], settings);
        var ok;
        ok, data, responses := FeedByte(input[i], settings, data, responses);
        if !ok {
          return Protocol(SubnegotiationTooLong);
        }
      }
      assert input[..|input|] == input;
      return Output(data, responses);
    }
  }

}
