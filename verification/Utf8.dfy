/**
  UTF-8 and its malformed input: the byte table that `std::str::from_utf8` scans with, and its agreement
  with the encoding of RFC 3629 section 3 and the replacement rule of the Unicode Standard, section 3.9.
 */
module Utf8 {
  import opened Bytes

  /** A Unicode scalar value. */
  type Scalar = v: int | 0 <= v < 0xD800 || 0xE000 <= v < 0x11_0000

  const REPLACEMENT: Scalar := 0xFFFD

  // ----- The encoding -----

  function Encode(v: Scalar): (u: seq<Byte>)
    ensures 1 <= |u| <= 4
  {
    if v < 0x80 then [v]
    else if v < 0x800 then [0xC0 + v / 0x40, 0x80 + v % 0x40]
    else if v < 0x1_0000 then [0xE0 + v / 0x40 / 0x40, 0x80 + v / 0x40 % 0x40, 0x80 + v % 0x40]
    else [0xF0 + v / 0x40 / 0x40 / 0x40, 0x80 + v / 0x40 / 0x40 % 0x40, 0x80 + v / 0x40 % 0x40, 0x80 + v % 0x40]
  }

  function EncodeAll(text: seq<Scalar>): (s: seq<Byte>) {
    if text == [] then [] else Encode(text[0]) + EncodeAll(text[1..])
  }

  // ----- The scan -----

  /** The first unit of a non-empty byte string: a character, an error of some length, or not yet known. */
  datatype Verdict = Good(length: nat) | Bad(length: nat) | Short

  predicate IsContinuation(b: Byte) {
    0x80 <= b < 0xC0
  }

  function Width(first: Byte): (w: nat) {
    if first < 0x80 then 1
    else if 0xC2 <= first <= 0xDF then 2
    else if 0xE0 <= first <= 0xEF then 3
    else if 0xF0 <= first <= 0xF4 then 4
    else 0
  }

  /** Which second bytes may follow a lead byte: excludes overlong forms, surrogates and values above U+10FFFF. */
  predicate SecondFits(first: Byte, second: Byte) {
    if first == 0xE0 then 0xA0 <= second <= 0xBF
    else if first == 0xED then 0x80 <= second <= 0x9F
    else if first == 0xF0 then 0x90 <= second <= 0xBF
    else if first == 0xF4 then 0x80 <= second <= 0x8F
    else IsContinuation(second)
  }

  function First(s: seq<Byte>): (verdict: Verdict)
    requires s != []
    ensures !verdict.Short? ==> 1 <= verdict.length <= |s|
    ensures verdict.Bad? ==> verdict.length <= 3
    ensures verdict.Good? ==> verdict.length <= 4
    ensures verdict.Short? ==> |s| <= 3
  {
    var w := Width(s[0]);
    if w == 0 then Bad(1)
    else if w == 1 then Good(1)
    else if |s| == 1 then Short
    else if !SecondFits(s[0], s[1]) then Bad(1)
    else if w == 2 then Good(2)
    else if |s| == 2 then Short
    else if !IsContinuation(s[2]) then Bad(2)
    else if w == 3 then Good(3)
    else if |s| == 3 then Short
    else if !IsContinuation(s[3]) then Bad(3)
    else Good(4)
  }

  /** A verdict other than `Short` depends only on the bytes it covers and the one after them. */
  lemma FirstIsStable(s: seq<Byte>, t: seq<Byte>)
    requires s != [] && !First(s).Short?
    ensures First(s + t) == First(s)
  {
    assert forall i :: 0 <= i < |s| ==> (s + t)[i] == s[i];
  }

  lemma GoodIsLocal(s: seq<Byte>, t: seq<Byte>)
    requires s != [] && First(s).Good? && s[..First(s).length] <= t
    ensures First(t) == First(s)
  {
    var n := First(s).length;
    assert forall i :: 0 <= i < n ==> t[i] == s[..n][i] == s[i];
  }

  /** Appends the six payload bits of a continuation byte. */
  function Extend(high: int, b: Byte): (v: int) {
    0x40 * high + (b - 0x80)
  }

  /** The scalar value of an accepted unit. */
  function Value(u: seq<Byte>): (v: Scalar)
    requires u != [] && First(u) == Good(|u|)
  {
    if |u| == 1 then u[0]
    else if |u| == 2 then Extend(u[0] - 0xC0, u[1])
    else if |u| == 3 then Extend(Extend(u[0] - 0xE0, u[1]), u[2])
    else Extend(Extend(Extend(u[0] - 0xF0, u[1]), u[2]), u[3])
  }

  // ----- Agreement with the encoding -----

  lemma ExtendSplits(high: int, b: Byte)
    requires IsContinuation(b)
    ensures Extend(high, b) / 0x40 == high && Extend(high, b) % 0x40 == b - 0x80
  {
  }

  lemma SplitExtends(v: int)
    ensures IsContinuation(0x80 + v % 0x40) && Extend(v / 0x40, 0x80 + v % 0x40) == v
  {
  }

  lemma EncodeIsAccepted(v: Scalar)
    ensures First(Encode(v)) == Good(|Encode(v)|) && Value(Encode(v)) == v
  {
    SplitExtends(v);
    if v >= 0x800 {
      SplitExtends(v / 0x40);
    }
    if v >= 0x1_0000 {
      SplitExtends(v / 0x40 / 0x40);
    }
  }

  lemma AcceptedIsEncoded(u: seq<Byte>)
    requires u != [] && First(u) == Good(|u|)
    ensures Encode(Value(u)) == u
  {
    if |u| == 2 {
      ExtendSplits(u[0] - 0xC0, u[1]);
    } else if |u| == 3 {
      ExtendSplits(u[0] - 0xE0, u[1]);
      ExtendSplits(Extend(u[0] - 0xE0, u[1]), u[2]);
    } else if |u| == 4 {
      ExtendSplits(u[0] - 0xF0, u[1]);
      ExtendSplits(Extend(u[0] - 0xF0, u[1]), u[2]);
      ExtendSplits(Extend(Extend(u[0] - 0xF0, u[1]), u[2]), u[3]);
    }
  }

  /** Some well-formed sequence begins with `p`. */
  ghost predicate Begins(p: seq<Byte>) {
    exists v: Scalar :: p <= Encode(v)
  }

  /** The scan accepts a unit exactly when the input starts with the encoding of that scalar value. */
  lemma GoodMeansEncoded(s: seq<Byte>, v: Scalar)
    requires s != []
    ensures Encode(v) <= s <==>
            First(s).Good? && (var n := First(s).length; s[..n] == Encode(v))
  {
    EncodeIsAccepted(v);
    if Encode(v) <= s {
      FirstIsStable(Encode(v), s[|Encode(v)|..]);
      assert s == Encode(v) + s[|Encode(v)|..];
    }
  }

  /** A well-formed unit that starts with the given bytes. */
  function Completion(p: seq<Byte>): (u: seq<Byte>)
    requires p != [] && First(p).Short?
    ensures p < u && First(u) == Good(|u|)
  {
    var w := Width(p[0]);
    var second := if |p| >= 2 then p[1] else if p[0] == 0xE0 then 0xA0 else if p[0] == 0xF0 then 0x90 else 0x80;
    var third := if |p| >= 3 then p[2] else 0x80;
    if w == 2 then [p[0], second]
    else if w == 3 then [p[0], second, third]
    else [p[0], second, third, 0x80]
  }

  /** `Short` means: a proper, non-empty prefix of a well-formed sequence. */
  lemma ShortMeansProperPrefix(s: seq<Byte>)
    requires s != []
    ensures First(s).Short? <==> exists v: Scalar :: s < Encode(v)
  {
    if First(s).Short? {
      AcceptedIsEncoded(Completion(s));
      assert s < Encode(Value(Completion(s)));
    } else {
      forall v: Scalar | s < Encode(v) ensures false {
        var rest := Encode(v)[|s|..];
        assert s + rest == Encode(v);
        FirstIsStable(s, rest);
        EncodeIsAccepted(v);
      }
    }
  }

  lemma BadIsLocal(s: seq<Byte>, k: nat)
    requires s != [] && First(s).Bad? && First(s).length < k <= |s|
    ensures First(s[..k]) == First(s)
  {
  }

  /**
    The error length is that of the maximal subpart (section 3.9 of the Unicode Standard): the longest
    prefix that begins some well-formed sequence, or a single byte when there is none.
   */
  lemma BadMeansMaximalSubpart(s: seq<Byte>)
    requires s != [] && First(s).Bad?
    ensures var n := First(s).length;
            && (n == 1 || Begins(s[..n]))
            && (forall k :: n < k <= |s| ==> !Begins(s[..k]))
            && !exists v: Scalar :: Encode(v) <= s
  {
    var n := First(s).length;
    if n > 1 {
      assert First(s[..n]).Short?;
      ShortMeansProperPrefix(s[..n]);
    }
    forall k, v: Scalar | n < k <= |s| && s[..k] <= Encode(v) ensures false {
      var rest := Encode(v)[k..];
      assert s[..k] + rest == Encode(v);
      BadIsLocal(s, k);
      FirstIsStable(s[..k], rest);
      EncodeIsAccepted(v);
    }
    forall v: Scalar | Encode(v) <= s ensures false {
      GoodMeansEncoded(s, v);
    }
  }
}
