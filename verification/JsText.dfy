/** JavaScript strings: UTF-16 code units, and the length that `TextEncoder` gives them in UTF-8. */
module JsText {
  import opened Bytes
  import Utf8

  type Text = seq<U16>

  predicate IsHigh(u: U16) {
    0xD800 <= u < 0xDC00
  }

  predicate IsLow(u: U16) {
    0xDC00 <= u < 0xE000
  }

  /** A unit on its own; a lone surrogate becomes U+FFFD. */
  function UnitLength(u: U16): (n: nat) {
    if u < 0x80 then 1 else if u < 0x800 then 2 else 3
  }

  function Utf8Length(t: Text): (n: nat) {
    if t == [] then 0
    else if |t| >= 2 && IsHigh(t[0]) && IsLow(t[1]) then 4 + Utf8Length(t[2..])
    else UnitLength(t[0]) + Utf8Length(t[1..])
  }

  /** What `TextEncoder` encodes: the scalar values of the text, with U+FFFD for every lone surrogate. */
  function Scalars(t: Text): (text: seq<Utf8.Scalar>) {
    if t == [] then []
    else if |t| >= 2 && 0xD800 <= t[0] <= 0xDBFF && 0xDC00 <= t[1] <= 0xDFFF then
      var high: int, low: int := t[0] - 0xD800, t[1] - 0xDC00;
      [0x1_0000 + 0x400 * high + low] + Scalars(t[2..])
    else [if 0xD800 <= t[0] <= 0xDFFF then 0xFFFD else t[0]] + Scalars(t[1..])
  }

  /** UTF-16: one unit, or a pair of surrogates from U+10000 on. */
  function Utf16(v: Utf8.Scalar): (t: Text) {
    if v < 0x1_0000 then [v] else [0xD800 + (v - 0x1_0000) / 0x400, 0xDC00 + (v - 0x1_0000) % 0x400]
  }

  lemma {:induction false} ScalarsInvertUtf16(text: seq<Utf8.Scalar>)
    ensures Scalars(FlatMap(Utf16, text)) == text
  {
    if text != [] {
      var first, rest := Utf16(text[0]), FlatMap(Utf16, text[1..]);
      ScalarsInvertUtf16(text[1..]);
      assert FlatMap(Utf16, text) == first + rest && (first + rest)[|first|..] == rest;
      assert text == [text[0]] + text[1..];
    }
  }

  /** The counted length is that of the encoding. */
  lemma {:induction false} Utf8LengthIsEncodedLength(t: Text)
    ensures Utf8Length(t) == |Utf8.EncodeAll(Scalars(t))|
  {
    if |t| >= 2 && IsHigh(t[0]) && IsLow(t[1]) {
      Utf8LengthIsEncodedLength(t[2..]);
      assert Scalars(t)[1..] == Scalars(t[2..]);
    } else if t != [] {
      Utf8LengthIsEncodedLength(t[1..]);
      assert Scalars(t)[1..] == Scalars(t[1..]);
    }
  }

  /** The first text ends, and the second begins, in the middle of a surrogate pair. */
  predicate CompletesPair(a: Text, b: Text) {
    a != [] && b != [] && IsHigh(a[|a| - 1]) && IsLow(b[0])
  }

  /** UTF-8 length is additive, less two bytes where a concatenation completes a surrogate pair. */
  lemma {:induction false} Utf8LengthConcat(a: Text, b: Text)
    ensures Utf8Length(a + b) + (if CompletesPair(a, b) then 2 else 0) == Utf8Length(a) + Utf8Length(b)
  {
    if a == [] {
      assert a + b == b;
    } else if |a| >= 2 && IsHigh(a[0]) && IsLow(a[1]) {
      assert (a + b)[2..] == a[2..] + b;
      Utf8LengthConcat(a[2..], b);
    } else if |a| >= 2 {
      assert (a + b)[1..] == a[1..] + b;
      Utf8LengthConcat(a[1..], b);
    } else {
      assert (a + b)[1..] == b && a[1..] == [];
      if CompletesPair(a, b) {
        assert (a + b)[2..] == b[1..];
        assert Utf8Length(b) == 3 + Utf8Length(b[1..]);
      }
    }
  }
}
