/**
  Which streams survive the reads of a connection. A read takes at most 16 KiB, and when it trips the
  subnegotiation bound its own output is dropped, so what matters is how far before the tripping byte
  the stream's last output was.
 */
module TelnetReads {
  import opened Bytes
  import opened TelnetFraming
  import opened TelnetNegotiation
  import opened TelnetCodecs

  const MAX_READ_BYTES := 16384

  /** What successive calls of `read` may be given: at least one byte each, and no more than the buffer holds. */
  ghost predicate AreReads(chunks: seq<seq<Byte>>) {
    forall i :: 0 <= i < |chunks| ==> 0 < |chunks[i]| <= 16384
  }

  /** The number of bytes up to and including the one that trips the bound. */
  function TripLength(f: Framing, s: seq<Byte>): (n: nat)
    requires Parse(f, s).tripped
    ensures 0 < n <= |s|
    decreases s
  {
    if ParseByte(f, s[0]).tripped then 1 else 1 + TripLength(ParseByte(f, s[0]).framing, s[1..])
  }

  /** It is the shortest prefix that trips, and nothing after it is looked at. */
  lemma {:induction false} TripsFrom(f: Framing, s: seq<Byte>, k: nat)
    requires Parse(f, s).tripped && k <= |s|
    ensures Parse(f, s[..k]).tripped <==> TripLength(f, s) <= k
    ensures TripLength(f, s) <= k ==> Parse(f, s[..k]) == Parse(f, s)
    decreases s
  {
    if k > 0 && !ParseByte(f, s[0]).tripped {
      assert s[..k][0] == s[0] && s[..k][1..] == s[1..][..k - 1];
      TripsFrom(ParseByte(f, s[0]).framing, s[1..], k - 1);
    }
  }

  /** Where the read that holds the tripping byte begins at the earliest. */
  function EarliestRead(f: Framing, s: seq<Byte>): (m: nat)
    requires Parse(f, s).tripped
    ensures m < TripLength(f, s) <= m + 16384
  {
    var n := TripLength(f, s);
    if n > MAX_READ_BYTES then n - MAX_READ_BYTES else 0
  }

  /** All reads but the tripping one hand over their part of the stream. */
  lemma {:induction false} TrippingRead(c: Codec, chunks: seq<seq<Byte>>, settings: Settings) returns (i: nat)
    requires FeedAll(c, chunks, settings).tripped
    ensures i < |chunks|
    ensures var before, fed := Decode(c, Flatten(chunks[..i]), settings), FeedAll(c, chunks, settings);
            !before.tripped && fed.data == before.data && fed.responses == before.responses
    ensures Decode(c, Flatten(chunks[..i]) + chunks[i], settings).tripped
    decreases chunks
  {
    hide Decode;
    var first := Decode(c, chunks[0], settings);
    if first.tripped {
      i := 0;
      NothingDecoded(c, settings);
      assert [] + chunks[0] == chunks[0];
    } else {
      var j := TrippingRead(first.codec, chunks[1..], settings);
      i := j + 1;
      var rest := Flatten(chunks[1..][..j]);
      assert chunks[..i][0] == chunks[0] && chunks[..i][1..] == chunks[1..][..j];
      assert Flatten(chunks[..i]) == chunks[0] + rest;
      assert chunks[0] + rest + chunks[i] == chunks[0] + (rest + chunks[i]);
      DecodeConcat(c, chunks[0], rest, settings);
      DecodeConcat(c, chunks[0], rest + chunks[i], settings);
    }
  }

  lemma DecodePrefix(c: Codec, a: seq<Byte>, s: seq<Byte>, settings: Settings)
    requires a <= s
    ensures Decode(c, a, settings).data <= Decode(c, s, settings).data
    ensures Decode(c, a, settings).responses <= Decode(c, s, settings).responses
  {
    hide Decode;
    DecodeConcat(c, a, s[|a|..], settings);
    assert s == a + s[|a|..];
  }

  lemma {:induction false} FlattenPrefix(chunks: seq<seq<Byte>>, i: nat)
    requires i < |chunks|
    ensures Flatten(chunks[..i]) + chunks[i] <= Flatten(chunks)
  {
    assert chunks == chunks[..i] + ([chunks[i]] + chunks[i + 1..]);
    FlattenConcat(chunks[..i], [chunks[i]] + chunks[i + 1..]);
    FlattenConcat([chunks[i]], chunks[i + 1..]);
    FlattenOne(chunks[i]);
  }

  /** No cut into reads loses what was output before the earliest beginning of the tripping read. */
  lemma EarlyOutputSurvives(c: Codec, chunks: seq<seq<Byte>>, settings: Settings)
    requires AreReads(chunks) && Parse(c.framing, Flatten(chunks)).tripped
    ensures var s := Flatten(chunks);
            var early, fed := Decode(c, s[..EarliestRead(c.framing, s)], settings), FeedAll(c, chunks, settings);
            early.data <= fed.data && early.responses <= fed.responses
  {
    hide Parse;
    var s := Flatten(chunks);
    ChunkIndependence(c, chunks, settings);
    var i := TrippingRead(c, chunks, settings);
    FlattenPrefix(chunks, i);
    var start := Flatten(chunks[..i]);
    var until := start + chunks[i];
    assert until == s[..|until|] && start == s[..|start|];
    TripsFrom(c.framing, s, |until|);
    var m := EarliestRead(c.framing, s);
    assert s[..m] <= start;
    DecodePrefix(c, s[..m], start, settings);
  }

  function Chop(s: seq<Byte>): (chunks: seq<seq<Byte>>) {
    if s == [] then []
    else if |s| <= MAX_READ_BYTES then [s]
    else [s[..MAX_READ_BYTES]] + Chop(s[MAX_READ_BYTES..])
  }

  lemma {:induction false} ChopIsReads(s: seq<Byte>)
    ensures AreReads(Chop(s)) && Flatten(Chop(s)) == s
    decreases |s|
  {
    if 0 < |s| <= MAX_READ_BYTES {
      FlattenOne(s);
    } else if s != [] {
      ChopIsReads(s[MAX_READ_BYTES..]);
    }
  }

  lemma {:induction false} FeedConcat(c: Codec, a: seq<seq<Byte>>, b: seq<seq<Byte>>, settings: Settings)
    ensures var first := FeedAll(c, a, settings);
            FeedAll(c, a + b, settings) ==
            if first.tripped then first else Follow(first, FeedAll(first.codec, b, settings))
    decreases a
  {
    hide Decode;
    if a == [] {
      assert a + b == b;
    } else {
      assert (a + b)[0] == a[0] && (a + b)[1..] == a[1..] + b;
      FeedConcat(Decode(c, a[0], settings).codec, a[1..], b, settings);
    }
  }

  /** Reads that cut the stream just before and just after `last`. */
  lemma ReadsAround(c: Codec, before: seq<Byte>, last: seq<Byte>, after: seq<Byte>, settings: Settings)
    returns (chunks: seq<seq<Byte>>)
    requires 0 < |last| <= MAX_READ_BYTES
    requires !Decode(c, before, settings).tripped && Decode(c, before + last, settings).tripped
    ensures AreReads(chunks) && Flatten(chunks) == before + (last + after)
    ensures var early, fed := Decode(c, before, settings), FeedAll(c, chunks, settings);
            early.data == fed.data && early.responses == fed.responses
  {
    hide Decode, Chop;
    chunks := Chop(before) + ([last] + Chop(after));
    ChopIsReads(before);
    ChopIsReads(after);
    FlattenConcat(Chop(before), [last] + Chop(after));
    FlattenConcat([last], Chop(after));
    FlattenOne(last);
    ChunkIndependence(c, Chop(before), settings);
    DecodeConcat(c, before, last, settings);
    FeedConcat(c, Chop(before), [last] + Chop(after), settings);
    assert ([last] + Chop(after))[0] == last;
  }

  /** The worst cut: the tripping read is as long as it can be. */
  lemma WorstReads(c: Codec, s: seq<Byte>, settings: Settings) returns (chunks: seq<seq<Byte>>)
    requires Parse(c.framing, s).tripped
    ensures AreReads(chunks) && Flatten(chunks) == s
    ensures var early, fed := Decode(c, s[..EarliestRead(c.framing, s)], settings), FeedAll(c, chunks, settings);
            early.data == fed.data && early.responses == fed.responses
  {
    hide Parse, Decode, FeedAll, TripLength, AreReads;
    var n, m := TripLength(c.framing, s), EarliestRead(c.framing, s);
    TripsFrom(c.framing, s, m);
    TripsFrom(c.framing, s, n);
    assert s[..m] + s[m..n] == s[..n] && s[..m] + (s[m..n] + s[n..]) == s;
    TrippedParse(c, s[..n], settings);
    TrippedParse(c, s[..m], settings);
    chunks := ReadsAround(c, s[..m], s[m..n], s[n..], settings);
  }

  lemma TrippedParse(c: Codec, s: seq<Byte>, settings: Settings)
    ensures Decode(c, s, settings).tripped == Parse(c.framing, s).tripped
  {
  }

  /**
    A stream survives every way of reading it if and only if it does not trip the bound, or all its output
    comes before the last 16384 bytes up to the tripping one.
   */
  lemma NothingLostByReadsExactlyWhen(c: Codec, s: seq<Byte>, settings: Settings)
    ensures (forall chunks: seq<seq<Byte>> | AreReads(chunks) && Flatten(chunks) == s ::
               NothingLost(c, chunks, settings))
       <==> (Parse(c.framing, s).tripped ==>
               var early, whole := Decode(c, s[..EarliestRead(c.framing, s)], settings), Decode(c, s, settings);
               early.data == whole.data && early.responses == whole.responses)
  {
    hide Decode, Parse, EarliestRead, FeedAll;
    TrippedParse(c, s, settings);
    if Parse(c.framing, s).tripped {
      var worst := WorstReads(c, s, settings);
      forall chunks: seq<seq<Byte>> | AreReads(chunks) && Flatten(chunks) == s
        ensures var early, whole := Decode(c, s[..EarliestRead(c.framing, s)], settings), Decode(c, s, settings);
                early.data == whole.data && early.responses == whole.responses ==> NothingLost(c, chunks, settings)
      {
        EarlyOutputSurvives(c, chunks, settings);
        ChunkIndependence(c, chunks, settings);
      }
    } else {
      forall chunks: seq<seq<Byte>> | AreReads(chunks) && Flatten(chunks) == s
        ensures NothingLost(c, chunks, settings)
      {
        ChunkIndependence(c, chunks, settings);
      }
    }
  }

  /**
    The losing case is real: one read holding a request and an oversized frame enables ECHO in the
    codec, yet the agreement is never sent. A payload of up to 8000 bytes fits into one read.
   */
  lemma LostAgreement(payload: seq<Byte>, settings: Settings)
    requires |payload| > 4096
    ensures var frame := WireForm(Negotiate(WILL, ECHO)) + WireForm(Subnegotiate(payload));
            var fed := FeedAll(InitialCodec, [frame], settings);
            && fed.tripped && ECHO in fed.codec.options.remote && fed.responses == []
            && (|payload| <= 8000 ==> AreReads([frame]))
  {
    var request := WireForm(Negotiate(WILL, ECHO));
    var frame := WireForm(Subnegotiate(payload));
    ParseMessage(InitialFraming, Negotiate(WILL, ECHO));
    var p := Parse(InitialFraming, request);
    ParseSubframe(p.framing, payload, SE);
    ParseConcat(InitialFraming, request, frame);
    assert p.events + [] == [Request(WILL, ECHO)];
    EscapeIsShort(payload);
    ReactOne(NoOptions, Request(WILL, ECHO), settings);
  }
}
