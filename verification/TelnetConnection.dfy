/**
  The buffers of a Telnet connection: decoded bytes waiting for a reader and responses waiting for the
  socket. Every await may be dropped, may time out, may fail, or may transfer any number of bytes.
 */
module TelnetConnections {
  import opened Bytes
  import opened TelnetFraming
  import opened TelnetNegotiation
  import opened TelnetCodecs
  import opened TelnetReads
  import opened Wrappers

  /** What becomes of one write: the future is dropped or times out, the socket fails, or takes some bytes. */
  datatype Writing = WriteDropped | WriteError | Took(count: nat)

  /** What becomes of one read: the future is dropped or times out, the socket fails, or bytes arrive. */
  datatype Reading = ReadDropped | ReadError | Arrived(bytes: seq<Byte>)

  datatype ReadOutcome = Count(bytes: nat) | Abandoned | IoError | ProtocolError | NotConnected

  datatype FlushOutcome = Flushed | FlushAbandoned | FlushFailed

  /** The states of the lifecycle that readings, writes and reconnects tell apart; `Closed` is any other one. */
  datatype Link = Connected | Reconnecting | Connecting | Broken | Closed

  /** What becomes of the attempt to connect again: a new socket, an error or timeout, or a dropped future. */
  datatype Attempt = Reached | Unreachable | GivenUp

  /** A queued response and how much of it the socket has taken. */
  datatype Outgoing = Outgoing(frame: seq<Byte>, written: nat)

  function RestOf(r: Outgoing): (s: seq<Byte>) {
    if r.written <= |r.frame| then r.frame[r.written..] else []
  }

  /** The response bytes still to be written. */
  function Unsent(queue: seq<Outgoing>): (s: seq<Byte>) {
    FlatMap(RestOf, queue)
  }

  /** What is left of each queued response. */
  function Rests(queue: seq<Outgoing>): (frames: seq<seq<Byte>>)
    ensures |frames| == |queue|
  {
    seq(|queue|, i requires 0 <= i < |queue| => RestOf(queue[i]))
  }

  function Enqueued(frames: seq<seq<Byte>>): (queue: seq<Outgoing>) {
    seq(|frames|, i requires 0 <= i < |frames| => Outgoing(frames[i], 0))
  }

  lemma {:induction false} EnqueuedIsUnsent(ms: seq<Message>)
    ensures Unsent(Enqueued(WireForms(ms))) == Wire(ms)
  {
    if ms != [] {
      EnqueuedIsUnsent(ms[1..]);
      assert Enqueued(WireForms(ms))[1..] == Enqueued(WireForms(ms[1..]));
    }
  }

  /** Everything the codec has handed over across readings; a read that trips the bound hands over nothing. */
  function HandedOver(c: Codec, feeds: seq<Read>): (d: Decoded)
    decreases feeds
  {
    if feeds == [] then Decoded(c, [], [], false)
    else
      var first := Decode(c, feeds[0].bytes, feeds[0].settings);
      var rest := HandedOver(first.codec, feeds[1..]);
      if first.tripped then rest.(tripped := true) else Follow(first, rest)
  }

  lemma {:induction false} HandedOverSnoc(c: Codec, feeds: seq<Read>, feed: Read)
    ensures var before := HandedOver(c, feeds);
            var last := Decode(before.codec, feed.bytes, feed.settings);
            HandedOver(c, feeds + [feed]) ==
            if last.tripped then Decoded(last.codec, before.data, before.responses, true)
            else Decoded(last.codec, before.data + last.data, before.responses + last.responses, before.tripped)
    decreases feeds
  {
    hide Decode;
    if feeds == [] {
      assert [feed][1..] == [];
    } else {
      var first := Decode(c, feeds[0].bytes, feeds[0].settings);
      assert (feeds + [feed])[0] == feeds[0] && (feeds + [feed])[1..] == feeds[1..] + [feed];
      HandedOverSnoc(first.codec, feeds[1..], feed);
      var rest := HandedOver(first.codec, feeds[1..]);
      var last := Decode(rest.codec, feed.bytes, feed.settings);
      assert first.data + (rest.data + last.data) == first.data + rest.data + last.data;
      assert first.responses + (rest.responses + last.responses) == first.responses + rest.responses + last.responses;
    }
  }

  /** While no read has tripped the bound, that is the run of the whole stream. */
  lemma {:induction false} HandedOverIsRun(c: Codec, feeds: seq<Read>)
    ensures !HandedOver(c, feeds).tripped ==> HandedOver(c, feeds) == Run(c, feeds)
    decreases feeds
  {
    if feeds != [] {
      HandedOverIsRun(Decode(c, feeds[0].bytes, feeds[0].settings).codec, feeds[1..]);
    }
  }

  /** All bytes that the socket delivered. */
  function BytesOf(feeds: seq<Read>): (s: seq<Byte>) {
    if feeds == [] then [] else feeds[0].bytes + BytesOf(feeds[1..])
  }

  lemma DecodeIgnoresSettings(c: Codec, s: seq<Byte>, settings: Settings, other: Settings)
    ensures var d, e := Decode(c, s, settings), Decode(c, s, other);
            d.codec == e.codec && d.data == e.data && d.tripped == e.tripped
  {
    OptionsIgnoreSettings(c.options, Parse(c.framing, s).events, settings, other);
  }

  /**
    However the socket cut its bytes into readings, what was handed over is one decoding of all bytes: the
    same streams trip the bound, and without a trip the data and the codec are the same whatever the
    settings were at each read; the responses are too if the settings did not change.
   */
  lemma {:induction false} HandedOverIsOneDecode(c: Codec, feeds: seq<Read>, settings: Settings)
    ensures var fed, whole := HandedOver(c, feeds), Decode(c, BytesOf(feeds), settings);
            && fed.tripped == whole.tripped
            && (!fed.tripped ==> fed.data == whole.data && fed.codec == whole.codec)
            && (!fed.tripped && (forall r :: r in feeds ==> r.settings == settings) ==> fed == whole)
    decreases feeds
  {
    hide Decode;
    if feeds == [] {
      NothingDecoded(c, settings);
    } else {
      var first := Decode(c, feeds[0].bytes, feeds[0].settings);
      DecodeIgnoresSettings(c, feeds[0].bytes, feeds[0].settings, settings);
      DecodeConcat(c, feeds[0].bytes, BytesOf(feeds[1..]), settings);
      HandedOverIsOneDecode(first.codec, feeds[1..], settings);
    }
  }

  /** The write gets somewhere. */
  predicate Accepted(w: Writing) {
    w.Took? && w.count > 0
  }

  predicate AllAccepted(writes: seq<Writing>) {
    forall w :: w in writes ==> Accepted(w)
  }

  /** The writes numbered from `first` up to `next` get somewhere. */
  predicate AcceptedBetween(writes: seq<Writing>, first: nat, next: int)
    requires next <= |writes|
  {
    forall i :: first <= i < next ==> Accepted(writes[i])
  }

  /** An error, or a socket that takes nothing. */
  predicate Fails(w: Writing) {
    w == WriteError || w == Took(0)
  }

  function Least(a: nat, b: nat): (n: nat)
    ensures n <= a && n <= b && n in {a, b}
  {
    if a < b then a else b
  }

  /** How many bytes the socket is ready to take before a write gets nowhere. */
  function Taken(writes: seq<Writing>): (n: nat)
    decreases |writes|
  {
    if writes == [] || !Accepted(writes[0]) then 0 else writes[0].count + Taken(writes[1..])
  }

  /** What such a socket gets of frames that are written one after the other, each to its end. */
  function OnTheWire(frames: seq<seq<Byte>>, writes: seq<Writing>): (s: seq<Byte>)
    decreases |writes|, |frames|
  {
    if frames == [] then []
    else if frames[0] == [] then OnTheWire(frames[1..], writes)
    else if writes == [] || !Accepted(writes[0]) then []
    else
      var n := Least(writes[0].count, |frames[0]|);
      frames[0][..n] + OnTheWire([frames[0][n..]] + frames[1..], writes[1..])
  }

  /** It is a prefix of the frames, at most what the socket is ready to take and at least a byte a write. */
  lemma {:induction false} WireIsPrefix(frames: seq<seq<Byte>>, writes: seq<Writing>)
    ensures OnTheWire(frames, writes) <= Flatten(frames)
    ensures |OnTheWire(frames, writes)| <= Taken(writes)
    ensures AllAccepted(writes) ==> |OnTheWire(frames, writes)| >= Least(|writes|, |Flatten(frames)|)
    decreases |writes|, |frames|
  {
    if frames != [] {
      if frames[0] == [] {
        WireIsPrefix(frames[1..], writes);
      } else if writes != [] && Accepted(writes[0]) {
        var n := Least(writes[0].count, |frames[0]|);
        var left := [frames[0][n..]] + frames[1..];
        WireIsPrefix(left, writes[1..]);
        assert left[1..] == frames[1..];
        assert frames[0] == frames[0][..n] + frames[0][n..];
        Regroup(frames[0][..n], frames[0][n..], Flatten(frames[1..]));
      }
    }
  }

  /** Of one frame, exactly as many bytes as the socket is ready to take. */
  lemma {:induction false} OneFrameOnTheWire(frame: seq<Byte>, writes: seq<Writing>)
    ensures OnTheWire([frame], writes) == frame[..Least(|frame|, Taken(writes))]
    decreases |writes|
  {
    if frame != [] && writes != [] && Accepted(writes[0]) {
      var n := Least(writes[0].count, |frame|);
      OneFrameOnTheWire(frame[n..], writes[1..]);
      assert [frame[n..]] + [frame][1..] == [frame[n..]];
    } else if frame == [] {
      assert [frame][1..] == [];
    }
  }

  lemma WireStep(frames: seq<seq<Byte>>, writes: seq<Writing>, i: nat)
    requires frames != [] && frames[0] != [] && i < |writes| && Accepted(writes[i])
    ensures var n := Least(writes[i].count, |frames[0]|);
            var left := if n == |frames[0]| then frames[1..] else [frames[0][n..]] + frames[1..];
            && OnTheWire(frames, writes[i..]) == frames[0][..n] + OnTheWire(left, writes[i + 1..])
            && OnTheWire(left, writes[i + 1..]) == OnTheWire([frames[0][n..]] + frames[1..], writes[i + 1..])
  {
    assert writes[i..][0] == writes[i] && writes[i..][1..] == writes[i + 1..];
    var n := Least(writes[i].count, |frames[0]|);
    var left := [frames[0][n..]] + frames[1..];
    assert left[1..] == frames[1..];
  }

  lemma WireMoves(sent: seq<Byte>, more: seq<Byte>, before: seq<seq<Byte>>, after: seq<seq<Byte>>,
                  writes: seq<Writing>, i: nat)
    requires before != [] && before[0] != [] && i < |writes| && Accepted(writes[i])
    requires var n := Least(writes[i].count, |before[0]|);
             && more == sent + before[0][..n]
             && after == if n == |before[0]| then before[1..] else [before[0][n..]] + before[1..]
    ensures sent + OnTheWire(before, writes[i..]) == more + OnTheWire(after, writes[i + 1..])
  {
    hide OnTheWire;
    WireStep(before, writes, i);
  }

  lemma NextPart(bytes: seq<Byte>, from: nat, count: nat)
    requires from + count <= |bytes|
    ensures bytes[..from + count] == bytes[..from] + bytes[from..][..count]
    ensures bytes[from..][count..] == bytes[from + count..]
    ensures [bytes[from..][count..]] + [bytes[from..]][1..] == [bytes[from + count..]]
  {
  }

  lemma WireStop(frames: seq<seq<Byte>>, writes: seq<Writing>, i: nat)
    requires i <= |writes|
    requires frames == [] || (frames[0] != [] && (i < |writes| ==> !Accepted(writes[i])))
    ensures OnTheWire(frames, writes[i..]) == []
  {
  }

  /** The bytes that a run of socket reads brings, no more than 16384 at a time. */
  function Received(readings: seq<Reading>): (s: seq<Byte>) {
    if readings == [] then []
    else if !readings[0].Arrived? then Received(readings[1..])
    else readings[0].bytes[..Least(|readings[0].bytes|, 16384)] + Received(readings[1..])
  }

  lemma NothingReceived()
    ensures Received([]) == []
  {
  }

  lemma {:induction false} ReceivedSnoc(readings: seq<Reading>, r: Reading)
    ensures Received(readings + [r]) ==
            Received(readings) + if r.Arrived? then r.bytes[..Least(|r.bytes|, 16384)] else []
  {
    if readings == [] {
      assert [r][1..] == [];
    } else {
      assert (readings + [r])[1..] == readings[1..] + [r];
      ReceivedSnoc(readings[1..], r);
    }
  }

  /** Nothing of what fits into the read buffer is left behind. */
  lemma {:induction false} EverythingReceived(readings: seq<Reading>, chunks: seq<seq<Byte>>)
    requires |readings| == |chunks| && forall i :: 0 <= i < |chunks| ==> readings[i] == Arrived(chunks[i])
    requires forall i :: 0 <= i < |chunks| ==> |chunks[i]| <= 16384
    ensures Received(readings) == Flatten(chunks)
  {
    if readings != [] {
      EverythingReceived(readings[1..], chunks[1..]);
      assert chunks[0][..Least(|chunks[0]|, 16384)] == chunks[0];
    }
  }

  lemma {:induction false} BytesOfSnoc(feeds: seq<Read>, feed: Read)
    ensures BytesOf(feeds + [feed]) == BytesOf(feeds) + feed.bytes
  {
    if feeds == [] {
      assert [feed][1..] == [];
    } else {
      assert (feeds + [feed])[1..] == feeds[1..] + [feed];
      BytesOfSnoc(feeds[1..], feed);
    }
  }

  lemma MoreReceived(feeds: seq<Read>, before: seq<Read>, settings: Settings, readings: seq<Reading>, i: nat)
    requires i < |readings| && BytesOf(feeds) == BytesOf(before) + Received(readings[..i])
    ensures var reading := readings[i];
            BytesOf(feeds + if !reading.Arrived? || reading.bytes == [] then []
                            else [Read(reading.bytes[..Least(|reading.bytes|, 16384)], settings)]) ==
            BytesOf(before) + Received(readings[..i + 1])
  {
    hide BytesOf, Received;
    var reading := readings[i];
    ReceivedSnoc(readings[..i], reading);
    assert readings[..i] + [reading] == readings[..i + 1];
    if !reading.Arrived? || reading.bytes == [] {
      assert feeds + [] == feeds;
    } else {
      BytesOfSnoc(feeds, Read(reading.bytes[..Least(|reading.bytes|, 16384)], settings));
    }
  }

  /** A partial write moves bytes from the front of the queue to the socket. */
  lemma AdvanceHead(queue: seq<Outgoing>, count: nat)
    requires queue != [] && queue[0].written + count <= |queue[0].frame|
    ensures var head := queue[0];
            var advanced := Outgoing(head.frame, head.written + count);
            var taken := head.frame[head.written..head.written + count];
            && (advanced.written == |head.frame| ==> Unsent(queue) == taken + Unsent(queue[1..]))
            && Unsent(queue) == taken + Unsent([advanced] + queue[1..])
  {
    var head := queue[0];
    var advanced := Outgoing(head.frame, head.written + count);
    var taken := head.frame[head.written..head.written + count];
    assert RestOf(head) == taken + RestOf(advanced);
    assert ([advanced] + queue[1..])[1..] == queue[1..];
    assert taken + RestOf(advanced) + Unsent(queue[1..]) == taken + (RestOf(advanced) + Unsent(queue[1..]));
  }

  lemma AdvanceRests(queue: seq<Outgoing>, count: nat)
    requires queue != [] && queue[0].written + count <= |queue[0].frame|
    ensures var head := queue[0];
            && Rests(queue)[0] == head.frame[head.written..]
            && Rests(queue)[0][..count] == head.frame[head.written..head.written + count]
            && Rests(queue[1..]) == Rests(queue)[1..]
            && Rests([Outgoing(head.frame, head.written + count)] + queue[1..]) ==
               [Rests(queue)[0][count..]] + Rests(queue)[1..]
  {
  }

  lemma QueueGrows(queue: seq<Outgoing>, before: seq<Message>, more: seq<Message>)
    ensures Unsent(queue + Enqueued(WireForms(more))) == Unsent(queue) + Wire(more)
    ensures Wire(before + more) == Wire(before) + Wire(more)
  {
    FlatMapConcat(RestOf, queue, Enqueued(WireForms(more)));
    EnqueuedIsUnsent(more);
    FlatMapConcat(WireForm, before, more);
  }

  lemma {:induction false} WireFormsNonEmpty(ms: seq<Message>)
    requires forall m :: m in ms ==> !m.Literal?
    ensures forall f :: f in WireForms(ms) ==> f != []
  {
    if ms != [] {
      WireFormsNonEmpty(ms[1..]);
      assert forall m :: m in ms[1..] ==> m in ms;
    }
  }

  lemma ResponsesAreFrames(c: Codec, raw: seq<Byte>, settings: Settings)
    ensures forall r :: r in Enqueued(WireForms(Decode(c, raw, settings).responses)) ==> r.written < |r.frame|
  {
    RepliesAreFrames(c.options, Parse(c.framing, raw).events, settings);
    var frames := WireForms(Decode(c, raw, settings).responses);
    WireFormsNonEmpty(Decode(c, raw, settings).responses);
    forall r | r in Enqueued(frames) ensures r.written < |r.frame| {
      assert r.frame in frames;
    }
  }

  lemma NothingUnsent()
    ensures Unsent([]) == Wire([])
  {
  }

  lemma TakeOne(s: seq<Byte>, i: nat)
    requires i < |s|
    ensures s[i..][0] == s[i] && s[i..][1..] == s[i + 1..] && s[..i + 1] == s[..i] + [s[i]]
  {
  }

  lemma Regroup(a: seq<Byte>, b: seq<Byte>, c: seq<Byte>)
    ensures a + (b + c) == (a + b) + c
  {
  }

  /** How a write of the user's, of a window frame or of the first capabilities ends. */
  datatype WriteOutcome = Written | WriteAbandoned | WriteFailed | WriteRefused

  /**
    `write_control`: writes until all bytes are taken, the future is dropped or times out, or the socket
    fails. The socket gets exactly what it is ready to take, and the last write made decides the outcome.
   */
  method WriteControl(bytes: seq<Byte>, writes: seq<Writing>)
    returns (sent: seq<Byte>, outcome: WriteOutcome, next: nat)
    ensures sent == bytes[..Least(|bytes|, Taken(writes))]
    ensures next <= |writes| && AcceptedBetween(writes, 0, next - 1)
    ensures outcome == Written <==> sent == bytes
    ensures outcome == Written ==> AcceptedBetween(writes, 0, next)
    ensures outcome == WriteFailed <==> next > 0 && Fails(writes[next - 1])
    ensures outcome == WriteAbandoned ==> next == |writes| || (next > 0 && writes[next - 1] == WriteDropped)
    ensures outcome != WriteRefused
  {
    hide OnTheWire, Taken;
    sent, next := [], 0;
    OneFrameOnTheWire(bytes, writes);
    assert writes[0..] == writes && bytes[0..] == bytes;
    while |sent| < |bytes|
      invariant sent <= bytes && next <= |writes| && AcceptedBetween(writes, 0, next)
      invariant OnTheWire([bytes], writes) == sent + OnTheWire([bytes[|sent|..]], writes[next..])
      decreases |writes| - next
    {
      var rest := bytes[|sent|..];
      if next == |writes| {
        WireStop([rest], writes, next);
        return sent, WriteAbandoned, next;
      }
      var writing := writes[next];
      next := next + 1;
      if writing.WriteDropped? {
        WireStop([rest], writes, next - 1);
        return sent, WriteAbandoned, next;
      }
      var count := if writing.WriteError? then 0 else Least(writing.count, |rest|);
      if count == 0 {
        WireStop([rest], writes, next - 1);
        return sent, WriteFailed, next;
      }
      WireStep([rest], writes, next - 1);
      NextPart(bytes, |sent|, count);
      sent := bytes[..|sent| + count];
    }
    WireStop([], writes, next);
    outcome := Written;
  }

  class TelnetConnection {
    var settings: Settings
    var link: Link
    var codec: TelnetCodec
    var pending: seq<Byte>
    var responses: seq<Outgoing>
    ghost var feeds: seq<Read>
    ghost var delivered: seq<Byte>
    ghost var written: seq<Byte>

    /**
      The buffers lose, repeat and reorder nothing: delivered and pending bytes together are the decoded
      data, and written and unsent response bytes together are all the responses produced.
     */
    ghost predicate Valid()
      reads this, codec
    {
      var all := HandedOver(InitialCodec, feeds);
      && codec.View() == all.codec
      && delivered + pending == all.data
      && written + Unsent(responses) == Wire(all.responses)
      && forall r :: r in responses ==> r.written < |r.frame|
    }

    constructor (settings: Settings)
      ensures Valid() && fresh(codec)
      ensures link == Connected && feeds == [] && delivered == [] && written == []
      ensures this.settings == settings
    {
      this.settings, link := settings, Connected;
      codec := new TelnetCodec();
      pending, responses := [], [];
      feeds, delivered, written := [], [], [];
    }

    /**
      `flush_responses`: partial writes advance an offset that survives a dropped future. The socket gets
      exactly what it is ready to take of the queued responses, and the last write made decides the outcome.
     */
    method FlushResponses(writes: seq<Writing>, first: nat) returns (outcome: FlushOutcome, next: nat)
      requires Valid() && first <= |writes|
      modifies this`responses, this`written
      ensures Valid()
      ensures written == old(written) + OnTheWire(Rests(old(responses)), writes[first..])
      ensures first <= next <= |writes| && AcceptedBetween(writes, first, next - 1)
      ensures outcome == Flushed <==> responses == []
      ensures outcome == Flushed ==> AcceptedBetween(writes, first, next)
      ensures outcome == FlushFailed <==> next > first && Fails(writes[next - 1])
      ensures outcome == FlushAbandoned ==> next == |writes| || (next > first && writes[next - 1] == WriteDropped)
      ensures AcceptedBetween(writes, first, |writes|) && |writes| - first >= |Unsent(old(responses))| ==>
                outcome == Flushed
      ensures old(responses) == [] ==> outcome == Flushed && next == first
    {
      hide Valid, Unsent, OnTheWire, Rests;
      next := first;
      while responses != []
        invariant Valid()
        invariant first <= next <= |writes| && AcceptedBetween(writes, first, next)
        invariant old(written) + OnTheWire(Rests(old(responses)), writes[first..]) ==
                  written + OnTheWire(Rests(responses), writes[next..])
        invariant AcceptedBetween(writes, first, |writes|) && |writes| - first >= |Unsent(old(responses))| ==>
                    |writes| - next >= |Unsent(responses)|
        invariant old(responses) == [] ==> responses == [] && next == first
        decreases |writes| - next
      {
        HeadHasRoom();
        if next == |writes| {
          WireStop(Rests(responses), writes, next);
          return FlushAbandoned, next;
        }
        var writing := writes[next];
        next := next + 1;
        if writing.WriteDropped? {
          WireStop(Rests(responses), writes, next - 1);
          return FlushAbandoned, next;
        }
        var room := |responses[0].frame| - responses[0].written;
        var count := if writing.WriteError? then 0 else Least(writing.count, room);
        if count == 0 {
          WireStop(Rests(responses), writes, next - 1);
          return FlushFailed, next;
        }
        ghost var sent, before := written, Rests(responses);
        Advance(count);
        WireMoves(sent, written, before, Rests(responses), writes, next - 1);
      }
      WireStop(Rests(responses), writes, next);
      outcome := Flushed;
    }

    lemma HeadHasRoom()
      requires Valid() && responses != []
      ensures responses[0].written < |responses[0].frame| && |Unsent(responses)| > 0
      ensures Rests(responses)[0] == responses[0].frame[responses[0].written..] && Rests(responses)[0] != []
    {
      assert responses[0] in responses;
      assert |RestOf(responses[0])| > 0;
    }

    /** The socket has taken `count` more bytes of the first response. */
    method Advance(count: nat)
      requires Valid() && responses != []
      requires responses[0].written + count <= |responses[0].frame|
      modifies this`responses, this`written
      ensures Valid()
      ensures old(written) <= written && written + Unsent(responses) == old(written) + Unsent(old(responses))
      ensures |Unsent(responses)| == |Unsent(old(responses))| - count
      ensures var rests := Rests(old(responses));
              && written == old(written) + rests[0][..count]
              && Rests(responses) ==
                 if count == |rests[0]| then rests[1..] else [rests[0][count..]] + rests[1..]
    {
      hide HandedOver, Unsent, Wire, RestOf, Decode, TelnetCodec.View;
      AdvanceRests(responses, count);
      var head := responses[0];
      assert head in responses;
      var advanced := Outgoing(head.frame, head.written + count);
      AdvanceHead(responses, count);
      written := written + head.frame[head.written..head.written + count];
      responses := if advanced.written == |head.frame| then responses[1..] else [advanced] + responses[1..];
    }

    /** `pop_pending`: moves the oldest bytes, as many as fit, and leaves the rest of both buffers alone. */
    method PopPending(destination: array<Byte>) returns (count: nat)
      requires Valid()
      modifies this`pending, this`delivered, destination
      ensures count == if |old(pending)| < destination.Length then |old(pending)| else destination.Length
      ensures Valid() && delivered == old(delivered) + destination[..count]
      ensures destination[..count] + pending == old(pending)
      ensures destination[count..] == old(destination[count..])
    {
      hide HandedOver, Unsent;
      count := if |pending| < destination.Length then |pending| else destination.Length;
      for i := 0 to count
        invariant delivered == old(delivered) && pending == old(pending)[i..]
        invariant destination[..i] == old(pending)[..i]
        invariant destination[count..] == old(destination[count..])
      {
        TakeOne(old(pending), i);
        destination[i] := pending[0];
        pending := pending[1..];
      }
      assert old(pending) == old(pending)[..count] + old(pending)[count..];
      Regroup(old(delivered), old(pending)[..count], old(pending)[count..]);
      delivered := delivered + destination[..count];
    }

    /** `mark_connection_lost`: the peer has closed the stream. */
    method MarkConnectionLost()
      requires Valid()
      modifies this`link
      ensures Valid() && link == Reconnecting
    {
      link := Reconnecting;
    }

    /** One successful socket read: decode it and queue what it yields, or drop it if it trips the bound. */
    method Absorb(raw: seq<Byte>) returns (ok: bool)
      requires Valid()
      modifies this`pending, this`responses, this`feeds, codec
      ensures Valid() && feeds == old(feeds) + [Read(raw, settings)]
      ensures ok <==> !Decode(old(codec.View()), raw, settings).tripped
      ensures HandedOver(InitialCodec, feeds).tripped <==> !ok || HandedOver(InitialCodec, old(feeds)).tripped
      ensures !ok ==> pending == old(pending) && responses == old(responses) && HandedOver(InitialCodec, feeds).tripped
    {
      hide HandedOver, Unsent, Decode, Wire;
      ghost var before := HandedOver(InitialCodec, feeds);
      ghost var d := Decode(before.codec, raw, settings);
      HandedOverSnoc(InitialCodec, feeds, Read(raw, settings));
      ResponsesAreFrames(before.codec, raw, settings);
      QueueGrows(responses, before.responses, d.responses);
      feeds := feeds + [Read(raw, settings)];
      var decoded := codec.Feed(raw, settings);
      if decoded.Protocol? {
        return false;
      }
      Regroup(delivered, pending, decoded.data);
      pending := pending + decoded.data;
      responses := responses + Enqueued(decoded.responses);
      return true;
    }

    /** One socket read into a buffer of 16384 bytes, and the end of the call that it may bring. */
    method ReadSocket(reading: Reading) returns (end: Option<ReadOutcome>)
      requires Valid() && link == Connected && pending == [] && responses == []
      modifies this`pending, this`responses, this`feeds, this`link, codec
      ensures Valid()
      ensures feeds == old(feeds) +
              if !reading.Arrived? || reading.bytes == [] then []
              else [Read(reading.bytes[..Least(|reading.bytes|, 16384)], settings)]
      ensures link == if reading == Arrived([]) then Reconnecting else Connected
      ensures reading == ReadDropped <==> end == Some(Abandoned)
      ensures reading == ReadError <==> end == Some(IoError)
      ensures reading == Arrived([]) <==> end == Some(Count(0))
      ensures end in {None, Some(Abandoned), Some(IoError), Some(Count(0)), Some(ProtocolError)}
      ensures end != None && end != Some(ProtocolError) ==> pending == [] && responses == []
      ensures HandedOver(InitialCodec, feeds).tripped <==>
              end == Some(ProtocolError) || HandedOver(InitialCodec, old(feeds)).tripped
    {
      hide Valid, HandedOver, Unsent, Decode, Wire, TelnetCodec.View;
      if !reading.Arrived? {
        return Some(if reading.ReadError? then IoError else Abandoned);
      }
      var raw := reading.bytes[..Least(|reading.bytes|, MAX_READ_BYTES)];
      if raw == [] {
        MarkConnectionLost();
        return Some(Count(0));
      }
      var ok := Absorb(raw);
      return if ok then None else Some(ProtocolError);
    }

    /**
      The loop of `read`: flushes responses, and while nothing is pending reads and decodes. It ends without
      an outcome when bytes are pending and every response is on the wire.
     */
    method FillPending(writes: seq<Writing>, readings: seq<Reading>)
      returns (end: Option<ReadOutcome>, w: nat, r: nat)
      requires Valid() && link == Connected
      modifies this`pending, this`responses, this`feeds, this`written, this`link, codec
      ensures Valid()
      ensures old(feeds) <= feeds && old(written) <= written && w <= |writes| && r <= |readings|
      ensures BytesOf(feeds) == BytesOf(old(feeds)) + Received(readings[..r])
      ensures link == if r > 0 && readings[r - 1] == Arrived([]) then Reconnecting else Connected
      ensures end.None? ==> responses == [] && pending != [] && link == Connected
      ensures end.Some? ==> end.value in {Count(0), Abandoned, IoError, ProtocolError}
      ensures end == Some(Count(0)) <==> link == Reconnecting
      ensures old(pending) != [] ==> r == 0 && pending == old(pending) && (old(responses) == [] ==> end.None?)
      ensures end == Some(IoError) <==>
              (w > 0 && Fails(writes[w - 1])) || (r > 0 && readings[r - 1] == ReadError)
      ensures end == Some(Abandoned) ==>
                || (w > 0 && writes[w - 1] == WriteDropped) || (r > 0 && readings[r - 1] == ReadDropped)
                || (w == |writes| && responses != []) || (r == |readings| && responses == [])
      ensures end in {Some(IoError), Some(Abandoned)} ==> responses != [] || pending == []
      ensures HandedOver(InitialCodec, feeds).tripped <==>
              end == Some(ProtocolError) || HandedOver(InitialCodec, old(feeds)).tripped
    {
      hide Valid, HandedOver, Unsent, Decode, Wire, OnTheWire, Received, BytesOf, Rests, TelnetCodec.View;
      w, r := 0, 0;
      assert Received(readings[..0]) == [] by { NothingReceived(); }
      while true
        invariant Valid() && link == Connected
        invariant old(feeds) <= feeds && old(written) <= written && w <= |writes| && r <= |readings|
        invariant BytesOf(feeds) == BytesOf(old(feeds)) + Received(readings[..r])
        invariant old(pending) != [] ==> pending == old(pending) && r == 0 && (old(responses) == [] ==> responses == [])
        invariant w > 0 ==> Accepted(writes[w - 1])
        invariant r > 0 ==> readings[r - 1].Arrived? && readings[r - 1].bytes != []
        invariant HandedOver(InitialCodec, feeds).tripped <==> HandedOver(InitialCodec, old(feeds)).tripped
        decreases |readings| - r
      {
        var flushed;
        flushed, w := FlushResponses(writes, w);
        if flushed != Flushed {
          return Some(if flushed == FlushAbandoned then Abandoned else IoError), w, r;
        }
        if pending != [] {
          return None, w, r;
        }
        if r == |readings| {
          return Some(Abandoned), w, r;
        }
        MoreReceived(feeds, old(feeds), settings, readings, r);
        end := ReadSocket(readings[r]);
        r := r + 1;
        if end.Some? {
          return end, w, r;
        }
      }
    }

    /**
      `read`: flushes responses, then hands out pending bytes, then reads and decodes. Bytes reach the
      caller in order, none is lost when the call is abandoned or fails, and none is handed out before
      every response to the bytes decoded so far is on the wire. What the decoder is fed is what the socket
      brings, and only an empty read marks the connection lost.
     */
    method ReadBytes(destination: array<Byte>, writes: seq<Writing>, readings: seq<Reading>)
      returns (outcome: ReadOutcome, w: nat, r: nat)
      requires Valid()
      modifies this, codec, destination
      ensures Valid() && codec == old(codec) && settings == old(settings)
      ensures old(feeds) <= feeds && old(written) <= written && w <= |writes| && r <= |readings|
      ensures BytesOf(feeds) == BytesOf(old(feeds)) + Received(readings[..r])
      ensures link == if r > 0 && readings[r - 1] == Arrived([]) then Reconnecting else old(link)
      ensures match outcome
              case Count(n) =>
                && n <= destination.Length
                && delivered == old(delivered) + destination[..n]
                && destination[n..] == old(destination[n..])
                && (n > 0 ==> responses == [] && (n == destination.Length || pending == []))
                && (n == 0 ==> destination.Length == 0 || link == Reconnecting)
              case _ => delivered == old(delivered) && destination[..] == old(destination[..])
      ensures destination.Length == 0 ==> outcome == Count(0)
      ensures destination.Length > 0 && old(link) != Connected ==>
                outcome == if old(link) == Reconnecting then Count(0) else NotConnected
      ensures destination.Length == 0 || old(link) != Connected ==> w == 0 && r == 0
      ensures old(pending) != [] ==> r == 0
      ensures destination.Length > 0 && old(link) == Connected && old(responses) == [] && old(pending) != [] ==>
                outcome == Count(Least(|old(pending)|, destination.Length))
      ensures outcome == IoError <==> (w > 0 && Fails(writes[w - 1])) || (r > 0 && readings[r - 1] == ReadError)
      ensures outcome == Abandoned ==>
                || (w > 0 && writes[w - 1] == WriteDropped) || (r > 0 && readings[r - 1] == ReadDropped)
                || (w == |writes| && responses != []) || (r == |readings| && responses == [])
      ensures outcome in {IoError, Abandoned} ==> responses != [] || pending == []
      ensures HandedOver(InitialCodec, feeds).tripped <==>
              outcome == ProtocolError || HandedOver(InitialCodec, old(feeds)).tripped
    {
      hide Valid, HandedOver, Unsent, Decode, Wire, Received, BytesOf, TelnetCodec.View;
      w, r := 0, 0;
      assert Received(readings[..0]) == [] by { NothingReceived(); }
      assert destination[0..] == old(destination[0..]);
      if destination.Length == 0 {
        return Count(0), w, r;
      }
      if link != Connected {
        return if link == Reconnecting then Count(0) else NotConnected, w, r;
      }
      var end;
      end, w, r := FillPending(writes, readings);
      if end.Some? {
        return end.value, w, r;
      }
      var n := PopPending(destination);
      outcome := Count(n);
    }

    /**
      `write`: writes the escaped bytes, all of them if it succeeds and a prefix if it is cut short, and
      writes nothing unless connected.
     */
    method WriteBytes(bytes: seq<Byte>, writes: seq<Writing>)
      returns (sent: seq<Byte>, outcome: WriteOutcome, next: nat)
      ensures outcome == WriteRefused <==> link != Connected
      ensures outcome == WriteRefused ==> sent == [] && next == 0
      ensures var escaped := WireForm(Literal(bytes));
              && (outcome == Written <==> link == Connected && sent == escaped)
              && (link == Connected ==> sent == escaped[..Least(|escaped|, Taken(writes))])
      ensures next <= |writes|
      ensures outcome == WriteFailed <==> next > 0 && Fails(writes[next - 1])
    {
      if link != Connected {
        return [], WriteRefused, 0;
      }
      var escaped := EscapeBytes(bytes);
      sent, outcome, next := WriteControl(escaped, writes);
    }

    /**
      `resize`: records the size, even when the write that follows is cut short, and reports it only if
      the peer asked for window reports.
     */
    method Resize(columns: U16, rows: U16, writes: seq<Writing>)
      returns (sent: seq<Byte>, outcome: WriteOutcome, next: nat)
      requires Valid()
      modifies this`settings
      ensures Valid()
      ensures outcome == WriteRefused <==> columns == 0 || rows == 0
      ensures settings ==
              if outcome == WriteRefused then old(settings) else old(settings).(columns := columns, rows := rows)
      ensures var report := if outcome != WriteRefused && 31 in codec.View().options.local
                            then WireForm(Window(columns, rows)) else [];
              && sent == report[..Least(|report|, Taken(writes))]
              && (outcome == Written <==> outcome != WriteRefused && sent == report)
      ensures next <= |writes|
      ensures outcome == WriteFailed <==> next > 0 && Fails(writes[next - 1])
    {
      if columns == 0 || rows == 0 {
        return [], WriteRefused, 0;
      }
      settings := settings.(columns := columns, rows := rows);
      sent, outcome, next := [], Written, 0;
      if NAWS in codec.localOptions {
        var frame := WindowFrame(settings);
        sent, outcome, next := WriteControl(frame, writes);
      }
    }

    /** The new socket's halves, a fresh codec and empty buffers. */
    method Renew()
      modifies this
      ensures Valid() && fresh(codec) && codec.View() == InitialCodec
      ensures settings == old(settings) && link == old(link)
      ensures pending == [] && responses == [] && feeds == [] && delivered == [] && written == []
    {
      hide Unsent, Wire;
      codec := new TelnetCodec();
      pending, responses := [], [];
      feeds, delivered, written := [], [], [];
      NothingUnsent();
    }

    /** `mark_failed`: only a connection that is being set up fails; a connected one stays connected. */
    method MarkFailed()
      requires Valid()
      modifies this`link
      ensures Valid() && link == if old(link) in {Connecting, Reconnecting} then Broken else old(link)
    {
      if link in {Connecting, Reconnecting} {
        link := Broken;
      }
    }

    /**
      `reconnect`: only a new socket gives a fresh codec and empty buffers, with the settings kept. From then
      on the connection counts as connected, even when announcing the capabilities fails or is cut short.
     */
    method Reconnect(attempt: Attempt, writes: seq<Writing>)
      returns (sent: seq<Byte>, outcome: WriteOutcome, next: nat)
      requires Valid()
      modifies this
      ensures Valid() && settings == old(settings)
      ensures var begun := old(link) in {Connected, Reconnecting, Broken};
              var hello := [255, 251, 3, 255, 251, 24, 255, 251, 31];
              if begun && attempt == Reached then
                && link == Connected && outcome != WriteRefused
                && fresh(codec) && codec.View() == InitialCodec
                && pending == [] && responses == [] && feeds == [] && delivered == [] && written == []
                && sent == hello[..Least(9, Taken(writes))] && (outcome == Written <==> sent == hello)
              else
                && link == (if !begun then old(link) else if attempt == Unreachable then Broken else Connecting)
                && outcome == WriteRefused && sent == []
                && codec == old(codec) && pending == old(pending) && responses == old(responses)
    {
      if link !in {Connected, Reconnecting, Broken} {
        return [], WriteRefused, 0;
      }
      link := Connecting;
      if attempt != Reached {
        if attempt == Unreachable {
          MarkFailed();
        }
        return [], WriteRefused, 0;
      }
      hide Valid, HandedOver, Unsent, Wire, Decode, TelnetCodec.View;
      Renew();
      var capabilities: seq<Byte> := [IAC, WILL, SUPPRESS_GO_AHEAD, IAC, WILL, TERMINAL_TYPE, IAC, WILL, NAWS];
      sent, outcome, next := WriteControl(capabilities, writes);
      link := Connected;
      if outcome != Written {
        MarkFailed();
      }
    }
  }

  /**
    The whole refinement, at every moment between calls: whatever readings, cancellations and partial writes
    there were, delivered and pending bytes are one decoding of all bytes the socket delivered, the codec
    is in that decoding's state, and what has been written is a prefix of that decoding's responses.
   */
  lemma ConnectionIsOneDecode(connection: TelnetConnection, settings: Settings)
    requires connection.Valid()
    ensures var whole := Decode(InitialCodec, BytesOf(connection.feeds), settings);
            && (HandedOver(InitialCodec, connection.feeds).tripped <==> whole.tripped)
            && (!whole.tripped ==>
                  && connection.delivered + connection.pending == whole.data
                  && connection.codec.View() == whole.codec
                  && ((forall r :: r in connection.feeds ==> r.settings == settings) ==>
                        connection.written + Unsent(connection.responses) == Wire(whole.responses)))
  {
    hide HandedOver, Decode, Unsent, Wire;
    HandedOverIsOneDecode(InitialCodec, connection.feeds, settings);
  }
}
