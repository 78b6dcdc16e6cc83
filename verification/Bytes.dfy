/** Bytes, big-endian words and concatenation of chunk lists. */
module Bytes {
  type Byte = b: int | 0 <= b < 0x100
  type U16 = n: int | 0 <= n < 0x1_0000

  /** The two bytes of `to_be_bytes` on a `u16`. */
  function BigEndian16(n: U16): (s: seq<Byte>) {
    [n / 0x100, n % 0x100]
  }

  function FromBigEndian16(high: Byte, low: Byte): (n: U16) {
    0x100 * high + low
  }

  /** The low `count` bytes of a number, the highest first. */
  function BigEndian(n: nat, count: nat): (s: seq<Byte>)
    ensures |s| == count
    decreases n, count
  {
    if count == 0 then [] else BigEndian(n / 0x100, count - 1) + [n % 0x100]
  }

  /** The four bytes of `to_be_bytes` on a value cast `as u32`. */
  function BigEndian32(n: nat): (s: seq<Byte>) {
    BigEndian(n, 4)
  }

  function FromBigEndian(s: seq<Byte>): (n: nat)
    decreases |s|
  {
    if s == [] then 0 else 0x100 * FromBigEndian(s[..|s| - 1]) + s[|s| - 1]
  }

  lemma {:induction false} FromBigEndianRoundTrip(s: seq<Byte>)
    ensures BigEndian(FromBigEndian(s), |s|) == s
    decreases |s|
  {
    if s != [] {
      FromBigEndianRoundTrip(s[..|s| - 1]);
    }
  }

  lemma {:induction false} BigEndianRoundTrip(n: nat, count: nat)
    requires n < Capacity(count)
    ensures FromBigEndian(BigEndian(n, count)) == n
    decreases count
  {
    if count > 0 {
      BigEndianRoundTrip(n / 0x100, count - 1);
      assert BigEndian(n, count)[..count - 1] == BigEndian(n / 0x100, count - 1);
    }
  }

  /** How many numbers fit into `count` bytes. */
  function Capacity(count: nat): (n: nat) {
    if count == 0 then 1 else 0x100 * Capacity(count - 1)
  }

  lemma FromBigEndianSnoc(s: seq<Byte>, b: Byte)
    ensures FromBigEndian(s + [b]) == 0x100 * FromBigEndian(s) + b && FromBigEndian([]) == 0
  {
    assert (s + [b])[..|s|] == s;
  }

  lemma FourBytes(a: Byte, b: Byte, c: Byte, d: Byte)
    ensures FromBigEndian([a, b, c, d]) == 0x100_0000 * a + 0x1_0000 * b + 0x100 * c + d
  {
    hide FromBigEndian;
    FromBigEndianSnoc([a, b, c], d);
    FromBigEndianSnoc([a, b], c);
    FromBigEndianSnoc([a], b);
    FromBigEndianSnoc([], a);
    assert [a, b, c] + [d] == [a, b, c, d] && [a, b] + [c] == [a, b, c] && [a] + [b] == [a, b] && [] + [a] == [a];
  }

  /** The chunks of a stream, put back together. */
  function Flatten<T>(chunks: seq<seq<T>>): (s: seq<T>) {
    if chunks == [] then [] else chunks[0] + Flatten(chunks[1..])
  }

  lemma {:induction false} FlattenConcat<T>(a: seq<seq<T>>, b: seq<seq<T>>)
    ensures Flatten(a + b) == Flatten(a) + Flatten(b)
  {
    if a == [] {
      assert a + b == b;
    } else {
      assert (a + b)[1..] == a[1..] + b;
      FlattenConcat(a[1..], b);
    }
  }

  /** Replaces every element by a sequence. */
  function FlatMap<A, B>(f: A -> seq<B>, s: seq<A>): (t: seq<B>) {
    if s == [] then [] else f(s[0]) + FlatMap(f, s[1..])
  }

  lemma {:induction false} FlatMapConcat<A, B>(f: A -> seq<B>, a: seq<A>, b: seq<A>)
    ensures FlatMap(f, a + b) == FlatMap(f, a) + FlatMap(f, b)
  {
    if a == [] {
      assert a + b == b;
    } else {
      assert (a + b)[1..] == a[1..] + b;
      FlatMapConcat(f, a[1..], b);
      assert f(a[0]) + (FlatMap(f, a[1..]) + FlatMap(f, b)) == f(a[0]) + FlatMap(f, a[1..]) + FlatMap(f, b);
    }
  }

  lemma FlatMapOne<A, B>(f: A -> seq<B>, a: A)
    ensures FlatMap(f, [a]) == f(a)
  {
    assert FlatMap(f, [a]) == f(a) + FlatMap(f, []);
  }

  lemma FlattenOne<T>(s: seq<T>)
    ensures Flatten([s]) == s
  {
    assert Flatten([s]) == s + Flatten<T>([]);
  }

  lemma FlattenSnoc<T>(a: seq<seq<T>>, s: seq<T>)
    ensures Flatten(a + [s]) == Flatten(a) + s
  {
    FlattenConcat(a, [s]);
    FlattenOne(s);
  }

  lemma SamePrefix<T>(head: seq<T>, x: seq<T>, y: seq<T>)
    ensures head + x == head + y <==> x == y
  {
    assert (head + x)[|head|..] == x && (head + y)[|head|..] == y;
  }

  lemma SplitConcat<T>(a: seq<T>, b: seq<T>)
    ensures (a + b)[..|a|] == a && (a + b)[|a|..] == b
  {
  }

  lemma RegroupSix<T>(a: seq<T>, b: seq<T>, c: seq<T>, d: seq<T>, e: seq<T>, f: seq<T>)
    ensures a + b + c + d + e + f == a + (b + c + d + e + f)
  {
  }
}
