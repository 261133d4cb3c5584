/** Byte strings: the lexicographic order every key and Record ID is compared by,
    and fixed-width big-endian integers, whose byte order is their numeric order. */
module Bytes {

  type Byte = b: nat | b < 256
  type Bytes = seq<Byte>

  const U16_MAX := 0xFFFF
  const U32_MAX := 0xFFFF_FFFF
  const U64_MAX := 0xFFFF_FFFF_FFFF_FFFF

  const MAX_RECORD_ID_BYTES := 256

  /** Strict lexicographic order; a proper prefix comes first. */
  predicate Less(a: Bytes, b: Bytes)
    decreases |a|
  {
    if b == [] then false
    else if a == [] then true
    else a[0] < b[0] || (a[0] == b[0] && Less(a[1..], b[1..]))
  }

  lemma {:induction false} LessIrreflexive(a: Bytes)
    ensures !Less(a, a)
    decreases |a|
  {
    if a != [] { LessIrreflexive(a[1..]); }
  }

  lemma {:induction false} LessTransitive(a: Bytes, b: Bytes, c: Bytes)
    requires Less(a, b) && Less(b, c)
    ensures Less(a, c)
    decreases |a|
  {
    if a != [] && a[0] == b[0] && b[0] == c[0] {
      LessTransitive(a[1..], b[1..], c[1..]);
    }
  }

  lemma {:induction false} LessTotal(a: Bytes, b: Bytes)
    ensures a == b || Less(a, b) || Less(b, a)
    decreases |a|
  {
    if a != [] && b != [] && a[0] == b[0] {
      LessTotal(a[1..], b[1..]);
      assert a == [a[0]] + a[1..] && b == [b[0]] + b[1..];
    }
  }

  lemma {:induction false} LessCommonPrefix(p: Bytes, a: Bytes, b: Bytes)
    ensures Less(p + a, p + b) <==> Less(a, b)
    decreases |p|
  {
    if p == [] {
      assert p + a == a && p + b == b;
    } else {
      LessCommonPrefix(p[1..], a, b);
      assert (p + a)[1..] == p[1..] + a && (p + b)[1..] == p[1..] + b;
    }
  }

  /** 256 to the power of the width: how many values the width can hold. */
  function Span(width: nat): (r: nat)
    ensures r > 0
  {
    if width == 0 then 1 else 256 * Span(width - 1)
  }

  lemma Spans()
    ensures Span(1) == 256 && Span(2) == U16_MAX + 1 && Span(4) == U32_MAX + 1 && Span(8) == U64_MAX + 1
  {
    assert Span(1) == 256;
    assert Span(2) == 256 * 256;
    assert Span(4) == 256 * (256 * Span(2));
    assert Span(8) == 256 * (256 * (256 * (256 * Span(4))));
  }

  /** The fixed-width big-endian form: most significant byte first. */
  function BigEndian(value: nat, width: nat): (r: Bytes)
    ensures |r| == width
  {
    if width == 0 then [] else BigEndian(value / 256, width - 1) + [value % 256]
  }

  /** The number a big-endian byte string denotes. */
  function FromBigEndian(bytes: Bytes): (r: nat)
    ensures r < Span(|bytes|)
  {
    if bytes == [] then 0
    else 256 * FromBigEndian(bytes[..|bytes| - 1]) + bytes[|bytes| - 1]
  }

  lemma {:induction false} BigEndianRoundTrip(value: nat, width: nat)
    requires value < Span(width)
    ensures FromBigEndian(BigEndian(value, width)) == value
  {
    if width > 0 {
      BigEndianRoundTrip(value / 256, width - 1);
      var bytes := BigEndian(value, width);
      assert bytes[..|bytes| - 1] == BigEndian(value / 256, width - 1);
    }
  }

  lemma {:induction false} FromBigEndianRoundTrip(bytes: Bytes)
    ensures BigEndian(FromBigEndian(bytes), |bytes|) == bytes
    decreases |bytes|
  {
    if bytes != [] {
      var front := bytes[..|bytes| - 1];
      FromBigEndianRoundTrip(front);
      var value := FromBigEndian(bytes);
      assert value / 256 == FromBigEndian(front) && value % 256 == bytes[|bytes| - 1];
      assert bytes == front + [bytes[|bytes| - 1]];
    }
  }

  /** Appending one more byte keeps the order of equally long strings. */
  lemma {:induction false} LessExtend(a: Bytes, b: Bytes, x: Byte, y: Byte)
    requires |a| == |b|
    requires Less(a, b) || (a == b && x < y)
    ensures Less(a + [x], b + [y])
    decreases |a|
  {
    if a != [] {
      assert (a + [x])[1..] == a[1..] + [x] && (b + [y])[1..] == b[1..] + [y];
      if a[0] == b[0] { LessExtend(a[1..], b[1..], x, y); }
    }
  }

  /** Numeric order of fixed-width integers is the byte order of their encodings. */
  lemma {:induction false} BigEndianOrder(v: nat, w: nat, width: nat)
    requires v < w < Span(width)
    ensures Less(BigEndian(v, width), BigEndian(w, width))
    decreases width
  {
    if v / 256 < w / 256 {
      BigEndianOrder(v / 256, w / 256, width - 1);
    }
    LessExtend(BigEndian(v / 256, width - 1), BigEndian(w / 256, width - 1), v % 256, w % 256);
  }
}
