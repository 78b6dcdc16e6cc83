/**
  The streaming UTF-8 decoder and the output batcher in front of it. The reference is lossy decoding of
  the whole byte string: a scalar value for every well-formed unit, U+FFFD for every maximal subpart.
 */
module Utf8Stream {
  import opened Bytes
  import opened Utf8
  import opened Wrappers

  // ----- Whole-buffer decoding -----

  function Lossy(s: seq<Byte>): (text: seq<Scalar>)
    decreases s
  {
    if s == [] then []
    else
      match First(s)
      case Good(n) => [Value(s[..n])] + Lossy(s[n..])
      case Bad(n) => [REPLACEMENT] + Lossy(s[n..])
      case Short => [REPLACEMENT]
  }

  /** `n` is the length of the maximal subpart at the start of `s`, which starts with no well-formed unit. */
  ghost predicate IsMaximalSubpart(s: seq<Byte>, n: nat) {
    && 1 <= n <= |s|
    && (n == 1 || Begins(s[..n]))
    && (forall k :: n < k <= |s| ==> !Begins(s[..k]))
    && !exists v: Scalar :: Encode(v) <= s
  }

  /** `Lossy` in the Unicode Standard's own terms: these two equations determine it on every input. */
  lemma LossyIsSubstitutionOfMaximalSubparts(s: seq<Byte>, v: Scalar, n: nat)
    requires s != []
    ensures Encode(v) <= s ==> Lossy(s) == [v] + Lossy(s[|Encode(v)|..])
    ensures IsMaximalSubpart(s, n) ==> Lossy(s) == [REPLACEMENT] + Lossy(s[n..])
    ensures (exists w: Scalar :: Encode(w) <= s) || exists m :: IsMaximalSubpart(s, m)
  {
    if Encode(v) <= s {
      GoodMeansEncoded(s, v);
      EncodeIsAccepted(v);
    }
    match First(s)
    case Good(m) =>
      GoodIsLocal(s, s[..m]);
      AcceptedIsEncoded(s[..m]);
      assert Encode(Value(s[..m])) <= s;
    case Bad(m) =>
      BadMeansMaximalSubpart(s);
      assert IsMaximalSubpart(s, m);
      if IsMaximalSubpart(s, n) {
        assert Begins(s[..n]) || n == 1;
        assert Begins(s[..m]) || m == 1;
        assert m == n;
      }
    case Short =>
      ShortMeansProperPrefix(s);
      assert s[..|s|] == s;
      assert Begins(s[..|s|]);
      if w: Scalar :| Encode(w) <= s {
        GoodMeansEncoded(s, w);
      }
      assert IsMaximalSubpart(s, |s|);
      if IsMaximalSubpart(s, n) {
        assert n == |s|;
        assert Lossy(s[n..]) == [];
      }
  }

  /** Well-formed text is not altered. */
  lemma {:induction false} LossyInvertsEncode(text: seq<Scalar>)
    ensures Lossy(EncodeAll(text)) == text
  {
    hide Encode;
    if text != [] {
      var s := EncodeAll(text);
      var u := Encode(text[0]);
      LossyIsSubstitutionOfMaximalSubparts(s, text[0], 0);
      assert s[|u|..] == EncodeAll(text[1..]);
      LossyInvertsEncode(text[1..]);
    }
  }

  // ----- Decoding up to an undecided tail -----

  /** The text decided so far and the bytes that may still become part of a longer unit. */
  datatype Streamed = Streamed(text: seq<Scalar>, pending: seq<Byte>)

  function Stream(s: seq<Byte>): (r: Streamed)
    decreases s
  {
    if s == [] || First(s).Short? then Streamed([], s)
    else Prepend(Unit(s), Stream(s[First(s).length..]))
  }

  /** The character that the first unit decodes to. */
  function Unit(s: seq<Byte>): (v: Scalar)
    requires s != [] && !First(s).Short?
  {
    if First(s).Good? then Value(s[..First(s).length]) else REPLACEMENT
  }

  function Prepend(v: Scalar, r: Streamed): (p: Streamed) {
    Streamed([v] + r.text, r.pending)
  }

  /** What the decoder keeps between reads: nothing, or at most three bytes that start a well-formed unit. */
  ghost predicate Undecided(p: seq<Byte>) {
    p == [] || exists v: Scalar :: p < Encode(v)
  }

  lemma {:induction false} StreamKeepsUndecided(s: seq<Byte>)
    ensures Undecided(Stream(s).pending) && |Stream(s).pending| <= 3
    ensures Stream(Stream(s).pending) == Streamed([], Stream(s).pending)
    decreases s
  {
    if s != [] {
      match First(s)
      case Good(n) => StreamKeepsUndecided(s[n..]);
      case Bad(n) => StreamKeepsUndecided(s[n..]);
      case Short => ShortMeansProperPrefix(s);
    }
  }

  lemma UnitIsStable(s: seq<Byte>, t: seq<Byte>)
    requires s != [] && !First(s).Short?
    ensures var n := First(s).length;
            First(s + t) == First(s) && Unit(s + t) == Unit(s) && (s + t)[n..] == s[n..] + t
  {
    FirstIsStable(s, t);
    var n := First(s).length;
    assert (s + t)[..n] == s[..n];
  }

  /** Decoding resumes where it stopped: the undecided tail and the next bytes are all that matters. */
  lemma {:induction false} StreamConcat(s: seq<Byte>, t: seq<Byte>)
    ensures var first := Stream(s);
            var second := Stream(first.pending + t);
            Stream(s + t) == Streamed(first.text + second.text, second.pending)
    decreases s
  {
    hide First, Unit;
    if s == [] {
      assert s + t == t;
    } else if First(s).Short? {
      assert [] + Stream(s + t).text == Stream(s + t).text;
    } else {
      UnitIsStable(s, t);
      var rest := s[First(s).length..];
      StreamConcat(rest, t);
      var first, second := Stream(rest), Stream(Stream(rest).pending + t);
      assert Stream(s + t) == Prepend(Unit(s), Stream(rest + t));
      assert [Unit(s)] + (first.text + second.text) == [Unit(s)] + first.text + second.text;
    }
  }

  /** At the end of the input an undecided tail is one maximal subpart. */
  lemma {:induction false} LossyIsStreamThenFinish(s: seq<Byte>)
    ensures Lossy(s) == Stream(s).text + if Stream(s).pending == [] then [] else [REPLACEMENT]
    decreases s
  {
    if s != [] {
      match First(s)
      case Good(n) => LossyIsStreamThenFinish(s[n..]);
      case Bad(n) => LossyIsStreamThenFinish(s[n..]);
      case Short =>
    }
  }

  lemma NothingStreamed()
    ensures Stream([]) == Streamed([], [])
  {
  }

  // ----- Many pushes -----

  function PushAll(pending: seq<Byte>, chunks: seq<seq<Byte>>): (r: Streamed)
    decreases chunks
  {
    if chunks == [] then Streamed([], pending)
    else
      var first := Stream(pending + chunks[0]);
      var rest := PushAll(first.pending, chunks[1..]);
      Streamed(first.text + rest.text, rest.pending)
  }

  lemma {:induction false} PushAllIsStream(pending: seq<Byte>, chunks: seq<seq<Byte>>)
    requires Stream(pending) == Streamed([], pending)
    ensures PushAll(pending, chunks) == Stream(pending + Flatten(chunks))
    decreases chunks
  {
    hide First, Unit, Stream;
    if chunks == [] {
      assert pending + [] == pending;
    } else {
      var s := pending + chunks[0];
      var first := Stream(s);
      StreamKeepsUndecided(s);
      PushAllIsStream(first.pending, chunks[1..]);
      StreamConcat(s, Flatten(chunks[1..]));
      assert pending + Flatten(chunks) == s + Flatten(chunks[1..]);
    }
  }

  /**
    The main theorem: for every byte string and every way of cutting it into chunks, what the pushes
    return, followed by what `finish` returns, is lossy decoding of the whole.
   */
  lemma StreamingEqualsWholeBuffer(chunks: seq<seq<Byte>>)
    ensures var r := PushAll([], chunks);
            && r.text + (if r.pending == [] then [] else [REPLACEMENT]) == Lossy(Flatten(chunks))
            && Undecided(r.pending) && |r.pending| <= 3
  {
    PushAllIsStream([], chunks);
    assert [] + Flatten(chunks) == Flatten(chunks);
    LossyIsStreamThenFinish(Flatten(chunks));
    StreamKeepsUndecided(Flatten(chunks));
  }

  // ----- The standard library's scan -----

  /** `std::str::from_utf8`: the text, or `valid_up_to` and `error_len`. */
  datatype Scan = Ok(text: seq<Scalar>) | Err(validUpTo: nat, errorLength: Option<nat>)

  function FromUtf8(s: seq<Byte>): (r: Scan)
    ensures r.Err? ==> r.validUpTo <= |s|
    decreases s
  {
    if s == [] then Ok([])
    else if First(s).Good? then
      var n := First(s).length;
      var r := FromUtf8(s[n..]);
      if r.Ok? then Ok([Unit(s)] + r.text) else Err(n + r.validUpTo, r.errorLength)
    else Err(0, if First(s).Bad? then Some(First(s).length) else None)
  }

  lemma ValidPrefix(s: seq<Byte>, k: nat)
    requires s != [] && First(s).Good? && First(s).length + k <= |s|
    requires FromUtf8(s[First(s).length..][..k]).Ok?
    ensures FromUtf8(s[..First(s).length + k]) == Ok([Unit(s)] + FromUtf8(s[First(s).length..][..k]).text)
  {
    hide First;
    var n := First(s).length;
    var valid := s[..n + k];
    assert s[..n] <= valid;
    GoodIsLocal(s, valid);
    assert valid[..n] == s[..n] && valid[n..] == s[n..][..k];
  }

  lemma {:induction false} FromUtf8Ok(s: seq<Byte>)
    requires FromUtf8(s).Ok?
    ensures Stream(s) == Streamed(FromUtf8(s).text, [])
    decreases s
  {
    hide First;
    if s != [] {
      FromUtf8Ok(s[First(s).length..]);
    }
  }

  /** The prefix before the error is valid, and the error is the verdict on what follows it. */
  lemma {:induction false} FromUtf8Err(s: seq<Byte>)
    requires FromUtf8(s).Err?
    ensures var Err(k, e) := FromUtf8(s);
            var valid, invalid := s[..k], s[k..];
            && invalid != [] && FromUtf8(valid).Ok?
            && Stream(s) == Streamed(FromUtf8(valid).text + Stream(invalid).text, Stream(invalid).pending)
            && (if e.Some? then First(invalid) == Bad(e.value) else First(invalid).Short?)
    decreases s
  {
    hide First, Unit;
    if First(s).Good? {
      var n := First(s).length;
      FromUtf8Err(s[n..]);
      var k := FromUtf8(s[n..]).validUpTo;
      ValidPrefix(s, k);
      assert s[n + k..] == s[n..][k..];
      PrependAssociates(Unit(s), FromUtf8(s[n..][..k]).text, Stream(s[n..][k..]));
    } else {
      hide Stream;
      FailsAtOnce(s);
    }
  }

  lemma FailsAtOnce(s: seq<Byte>)
    requires s != [] && !First(s).Good?
    ensures FromUtf8(s) == Err(0, if First(s).Bad? then Some(First(s).length) else None)
    ensures s[0..] == s && s[..0] == [] && FromUtf8([]) == Ok([])
    ensures Stream(s) == Streamed([] + Stream(s).text, Stream(s).pending)
  {
    hide First, Stream;
    assert [] + Stream(s).text == Stream(s).text;
  }

  lemma PrependAssociates(v: Scalar, text: seq<Scalar>, r: Streamed)
    ensures Prepend(v, Streamed(text + r.text, r.pending)) == Streamed([v] + text + r.text, r.pending)
  {
    assert [v] + (text + r.text) == [v] + text + r.text;
  }

  // ----- The decoder object -----

  class Utf8OutputDecoder {
    var pending: seq<Byte>

    constructor ()
      ensures pending == []
    {
      pending := [];
    }

    method Push(bytes: seq<Byte>) returns (output: seq<Scalar>)
      modifies this
      ensures Streamed(output, pending) == Stream(old(pending) + bytes)
    {
      hide First;
      if pending == [] {
        var whole := FromUtf8(bytes);
        if whole.Ok? {
          FromUtf8Ok(bytes);
          assert pending + bytes == bytes;
          return whole.text;
        }
      }
      var input := pending + bytes;
      pending := [];
      var remaining := input;
      output := [];
      while true
        invariant pending == []
        invariant Stream(input) == Streamed(output + Stream(remaining).text, Stream(remaining).pending)
        decreases |remaining|
      {
        match FromUtf8(remaining) {
          case Ok(text) =>
            FromUtf8Ok(remaining);
            output := output + text;
            break;
          case Err(validUpTo, errorLength) =>
            FromUtf8Err(remaining);
            var valid, invalid := remaining[..validUpTo], remaining[validUpTo..];
            ghost var before := output;
            output := output + FromUtf8(valid).text;
            assert output + Stream(invalid).text == before + Stream(remaining).text;
            match errorLength {
              case Some(n) =>
                assert output + Stream(invalid).text == output + [REPLACEMENT] + Stream(invalid[n..]).text by {
                  assert Unit(invalid) == REPLACEMENT;
                }
                output := output + [REPLACEMENT];
                remaining := invalid[n..];
              case None =>
                pending := invalid;
                break;
            }
        }
      }
    }

    method Finish() returns (output: seq<Scalar>)
      modifies this
      ensures output == if old(pending) == [] then [] else [REPLACEMENT]
      ensures pending == []
    {
      if pending == [] {
        output := [];
      } else {
        pending := [];
        output := [REPLACEMENT];
      }
    }
  }

  // ----- The batcher object -----

  class OutputBatcher {
    const maxBytes: nat
    var pending: seq<Byte>

    predicate Valid()
      reads this
    {
      |pending| < maxBytes
    }

    constructor (maxBytes: nat)
      requires maxBytes > 0
      ensures Valid() && this.maxBytes == maxBytes && pending == []
    {
      this.maxBytes := maxBytes;
      pending := [];
    }

    method TakePending() returns (chunk: seq<Byte>)
      modifies this
      ensures chunk == old(pending) && pending == []
    {
      chunk := pending;
      pending := [];
    }

    /** Cuts the stream into chunks of exactly `maxBytes` bytes, keeping back fewer than that. */
    method Push(bytes: seq<Byte>) returns (chunks: seq<seq<Byte>>)
      requires Valid()
      modifies this
      ensures Valid()
      ensures Flatten(chunks) + pending == old(pending) + bytes
      ensures forall i :: 0 <= i < |chunks| ==> |chunks[i]| == maxBytes
    {
      chunks := [];
      var remaining := bytes;
      while remaining != []
        invariant Valid()
        invariant Flatten(chunks) + pending + remaining == old(pending) + bytes
        invariant forall i :: 0 <= i < |chunks| ==> |chunks[i]| == maxBytes
        decreases |remaining|
      {
        var room := maxBytes - |pending|;
        var take := if room < |remaining| then room else |remaining|;
        assert remaining == remaining[..take] + remaining[take..];
        pending := pending + remaining[..take];
        remaining := remaining[take..];
        if |pending| == maxBytes {
          var chunk := TakePending();
          FlattenSnoc(chunks, chunk);
          chunks := chunks + [chunk];
        }
      }
    }

    method Flush() returns (chunk: Option<seq<Byte>>)
      requires Valid()
      modifies this
      ensures Valid() && pending == []
      ensures chunk == if old(pending) == [] then None else Some(old(pending))
    {
      if pending == [] {
        chunk := None;
      } else {
        var bytes := TakePending();
        chunk := Some(bytes);
      }
    }
  }

  // ----- The terminal's output loop -----

  datatype PumpEvent = Received(bytes: seq<Byte>) | Timeout

  function BytesIn(e: PumpEvent): (s: seq<Byte>) {
    if e.Received? then e.bytes else []
  }

  function ReceivedBytes(events: seq<PumpEvent>): (s: seq<Byte>) {
    FlatMap(BytesIn, events)
  }

  /** What is shown is the text of the bytes received, less those that are held back: fewer than `limit`. */
  ghost predicate ShownUpTo(received: seq<Byte>, shown: seq<Scalar>, limit: nat) {
    exists n :: 0 <= n <= |received| && |received| - n < limit && shown == Stream(received[..n]).text
  }

  /** After each event fewer bytes than a batch are held back, and none after a timeout. */
  ghost predicate Prompt(events: seq<PumpEvent>, k: nat, shown: seq<Scalar>, batchBytes: nat)
    requires k < |events|
  {
    ShownUpTo(ReceivedBytes(events[..k + 1]), shown, if events[k].Timeout? then 1 else batchBytes)
  }

  lemma PromptNow(events: seq<PumpEvent>, k: nat, shown: seq<Scalar>, batchBytes: nat,
                  emitted: seq<Byte>, held: seq<Byte>)
    requires k < |events| && emitted + held == ReceivedBytes(events[..k + 1])
    requires shown == Stream(emitted).text && |held| < batchBytes && (events[k].Timeout? ==> held == [])
    ensures Prompt(events, k, shown, batchBytes)
  {
    hide Stream;
    assert (emitted + held)[..|emitted|] == emitted;
  }

  ghost predicate AllPrompt(events: seq<PumpEvent>, marks: seq<nat>, shown: seq<Scalar>, batchBytes: nat) {
    && |marks| <= |events|
    && forall k :: 0 <= k < |marks| ==> marks[k] <= |shown| && Prompt(events, k, shown[..marks[k]], batchBytes)
  }

  lemma AllPromptSoFar(events: seq<PumpEvent>, marks: seq<nat>, shown: seq<Scalar>, more: seq<Scalar>, batchBytes: nat)
    ensures AllPrompt(events, marks, shown, batchBytes) ==> AllPrompt(events, marks, shown + more, batchBytes)
    ensures AllPrompt(events, [], [], batchBytes)
  {
    hide Prompt;
    assert forall k :: 0 <= k < |marks| && marks[k] <= |shown| ==> (shown + more)[..marks[k]] == shown[..marks[k]];
  }

  lemma AllPromptSnoc(events: seq<PumpEvent>, marks: seq<nat>, shown: seq<Scalar>, batchBytes: nat)
    requires AllPrompt(events, marks, shown, batchBytes) && |marks| < |events|
    requires Prompt(events, |marks|, shown, batchBytes)
    ensures AllPrompt(events, marks + [|shown|], shown, batchBytes)
  {
    hide Prompt;
    assert shown[..|shown|] == shown;
  }

  /** Sends chunks through the decoder, in order. */
  method EmitChunks(decoder: Utf8OutputDecoder, chunks: seq<seq<Byte>>) returns (text: seq<Scalar>)
    requires Stream(decoder.pending) == Streamed([], decoder.pending)
    modifies decoder
    ensures Streamed(text, decoder.pending) == Stream(old(decoder.pending) + Flatten(chunks))
    ensures Stream(decoder.pending) == Streamed([], decoder.pending)
  {
    hide First, Unit, Stream;
    text := [];
    ghost var start := decoder.pending;
    assert start + [] == start;
    for i := 0 to |chunks|
      invariant Streamed(text, decoder.pending) == Stream(start + Flatten(chunks[..i]))
    {
      ghost var soFar := start + Flatten(chunks[..i]);
      StreamConcat(soFar, chunks[i]);
      FlattenSnoc(chunks[..i], chunks[i]);
      assert chunks[..i] + [chunks[i]] == chunks[..i + 1];
      assert soFar + chunks[i] == start + Flatten(chunks[..i + 1]);
      var more := decoder.Push(chunks[i]);
      text := text + more;
    }
    assert chunks[..|chunks|] == chunks;
    StreamKeepsUndecided(start + Flatten(chunks));
  }

  /** One event: what was read is batched, a timeout flushes the batch, and full batches are decoded. */
  method PumpEventThrough(batcher: OutputBatcher, decoder: Utf8OutputDecoder, event: PumpEvent)
    returns (text: seq<Scalar>, ghost sent: seq<Byte>)
    requires batcher.Valid() && Stream(decoder.pending) == Streamed([], decoder.pending)
    modifies batcher, decoder
    ensures batcher.Valid() && Stream(decoder.pending) == Streamed([], decoder.pending)
    ensures sent + batcher.pending == old(batcher.pending) + BytesIn(event)
    ensures event.Timeout? ==> batcher.pending == []
    ensures Streamed(text, decoder.pending) == Stream(old(decoder.pending) + sent)
  {
    hide First, Unit, Stream;
    var chunks: seq<seq<Byte>> := [];
    if event.Received? {
      chunks := batcher.Push(event.bytes);
    } else {
      var last := batcher.Flush();
      if last.Some? {
        chunks := [last.value];
        FlattenOne(last.value);
      }
    }
    sent := Flatten(chunks);
    text := EmitChunks(decoder, chunks);
  }

  /**
    The loop that feeds a terminal: reads are batched, flushed on a timeout and at the end, and decoded.
    What is shown is lossy decoding of everything received, whatever the reads and timeouts were; and
    `marks` says how much of it was shown after each event.
   */
  method Pump(events: seq<PumpEvent>, batchBytes: nat) returns (shown: seq<Scalar>, marks: seq<nat>)
    requires batchBytes > 0
    ensures shown == Lossy(ReceivedBytes(events))
    ensures |marks| == |events| && AllPrompt(events, marks, shown, batchBytes)
  {
    hide First, Unit, Stream, AllPrompt, Lossy;
    AllPromptSoFar(events, [], [], [], batchBytes);
    NothingStreamed();
    var batcher := new OutputBatcher(batchBytes);
    var decoder := new Utf8OutputDecoder();
    shown, marks := [], [];
    ghost var emitted: seq<Byte> := [];
    for i := 0 to |events|
      invariant |marks| == i && AllPrompt(events, marks, shown, batchBytes)
      invariant batcher.Valid() && fresh(batcher) && fresh(decoder)
      invariant emitted + batcher.pending == ReceivedBytes(events[..i])
      invariant Stream(decoder.pending) == Streamed([], decoder.pending)
      invariant Streamed(shown, decoder.pending) == Stream(emitted)
    {
      FlatMapConcat(BytesIn, events[..i], [events[i]]);
      FlatMapOne(BytesIn, events[i]);
      assert events[..i] + [events[i]] == events[..i + 1];
      ghost var held := batcher.pending;
      var text, sent := PumpEventThrough(batcher, decoder, events[i]);
      assert emitted + sent + batcher.pending == emitted + (held + BytesIn(events[i]));
      StreamConcat(emitted, sent);
      AllPromptSoFar(events, marks, shown, text, batchBytes);
      shown := shown + text;
      emitted := emitted + sent;
      PromptNow(events, i, shown, batchBytes, emitted, batcher.pending);
      AllPromptSnoc(events, marks, shown, batchBytes);
      marks := marks + [|shown|];
    }
    assert events[..|events|] == events;
    // At the end the rest of the batch is flushed as on a timeout.
    ghost var held := batcher.pending;
    var last, sent := PumpEventThrough(batcher, decoder, Timeout);
    assert sent + [] == sent && held + [] == held;
    StreamConcat(emitted, sent);
    AllPromptSoFar(events, marks, shown, last, batchBytes);
    shown := shown + last;
    emitted := emitted + sent;
    LossyIsStreamThenFinish(emitted);
    var tail := decoder.Finish();
    AllPromptSoFar(events, marks, shown, tail, batchBytes);
    shown := shown + tail;
    assert emitted == ReceivedBytes(events);
  }
}
