/** QUIC variable-length integers (section 16 of RFC 9000). */
module VarInts {
  import opened Bytes

  const MAX: nat := 0x3FFF_FFFF_FFFF_FFFF

  /** An integer below 2^62. */
  type VarInt = x: int | 0 <= x <= MAX

  /** A parsed integer and the number of bytes it took. */
  datatype Parsed = Parsed(value: VarInt, len: nat)

  /** The length announced by the two high bits of the first byte. */
  function WireLen(first: byte): nat {
    match first / 64
    case 0 => 1
    case 1 => 2
    case 2 => 4
    case _ => 8
  }

  function Size(x: VarInt): nat {
    if x < 0x40 then 1 else if x < 0x4000 then 2 else if x < 0x4000_0000 then 4 else 8
  }

  lemma Pow256Values()
    ensures Pow256(0) == 1 && Pow256(1) == 0x100 && Pow256(2) == 0x1_0000 && Pow256(3) == 0x100_0000
    ensures Pow256(4) == 0x1_0000_0000 && Pow256(7) == 0x100_0000_0000_0000
    ensures Pow256(8) == 0x1_0000_0000_0000_0000
  {
    assert Pow256(2) == 256 * Pow256(1);
    assert Pow256(3) == 256 * Pow256(2);
    assert Pow256(4) == 256 * Pow256(3);
    assert Pow256(5) == 256 * Pow256(4);
    assert Pow256(6) == 256 * Pow256(5);
    assert Pow256(7) == 256 * Pow256(6);
  }

  /** What the n bytes of `b` mean once the two tag bits are cleared. */
  function Untagged(b: seq<byte>): (x: VarInt)
    requires |b| in {1, 2, 4, 8}
  {
    Pow256Values();
    FromBigEndian([b[0] % 64] + b[1..])
  }

  /** The integer at the front of `b`, or None when the bytes end too early. */
  function Parse(b: seq<byte>): (r: Option<Parsed>)
    ensures r.Some? ==> 1 <= r.value.len <= 8 && r.value.len <= |b|
    ensures r.None? ==> |b| <= 7
  {
    if b == [] then None
    else
      var n := WireLen(b[0]);
      if |b| < n then None else Some(Parsed(Untagged(b[..n]), n))
  }

  /** The bytes `encode` emits: the value with the length tag in the two high bits. */
  function Encode(x: VarInt): (b: seq<byte>)
    ensures |b| == Size(x)
  {
    Pow256Values();
    if x < 0x40 then ToBigEndian(x, 1)
    else if x < 0x4000 then ToBigEndian(0x4000 + x, 2)
    else if x < 0x4000_0000 then ToBigEndian(0x8000_0000 + x, 4)
    else ToBigEndian(0xC000_0000_0000_0000 + x, 8)
  }

  /** Decoding in place: `r` is left just after the integer, and an early end is an error. */
  method Decode(r: Buf) returns (v: Option<VarInt>)
    modifies r
    ensures match Parse(old(r.rest))
            case None => v == None
            case Some(p) => v == Some(p.value) && r.rest == old(r.rest)[p.len..]
  {
    if r.rest == [] {
      return None;
    }
    ghost var all := r.rest;
    var head := r.GetU8();
    var tag := head / 64;
    var first: byte := head % 64;
    var more := if tag == 0 then 0 else if tag == 1 then 1 else if tag == 2 then 3 else 7;
    if |r.rest| < more {
      return None;
    }
    var tail := r.Take(more);
    assert all[..1 + more] == [head] + tail;
    Pow256Values();
    assert FromBigEndian([first] + tail) == Untagged(all[..1 + more]);
    v := Some(FromBigEndian([first] + tail));
  }

  /** Reading from a stream: the first byte decides how many more are awaited. */
  method Read(stream: Buf) returns (v: Option<VarInt>)
    modifies stream
    ensures match Parse(old(stream.rest))
            case None => v == None && stream.rest == []
            case Some(p) => v == Some(p.value) && stream.rest == old(stream.rest)[p.len..]
  {
    var head := stream.ReadExact(1);
    if head.None? {
      return None;
    }
    var size := WireLen(head.value[0]);
    var tail := stream.ReadExact(size - 1);
    if tail.None? {
      return None;
    }
    var slice := new Buf(head.value + tail.value);
    assert old(stream.rest)[..size] == head.value + tail.value;
    ParseStable(head.value + tail.value, stream.rest);
    assert old(stream.rest) == head.value + tail.value + stream.rest;
    v := Decode(slice);
  }

  method Put(x: VarInt, w: BufMut)
    modifies w
    ensures w.bytes == old(w.bytes) + Encode(x)
  {
    Pow256Values();
    if x < 0x40 {
      assert ToBigEndian(x, 1) == [x];
      w.PutU8(x);
    } else if x < 0x4000 {
      w.PutSlice(ToBigEndian(0x4000 + x, 2));
    } else if x < 0x4000_0000 {
      w.PutSlice(ToBigEndian(0x8000_0000 + x, 4));
    } else {
      w.PutSlice(ToBigEndian(0xC000_0000_0000_0000 + x, 8));
    }
  }

  // ---------------------------------------------------------------- properties

  /** An answer does not change when more bytes arrive. */
  lemma ParseStable(b: seq<byte>, more: seq<byte>)
    requires Parse(b).Some?
    ensures Parse(b + more) == Parse(b)
  {
    var n := WireLen(b[0]);
    assert (b + more)[..n] == b[..n];
  }

  /** No encoding is a proper prefix of another. */
  lemma PrefixFree(b: seq<byte>, k: nat)
    requires Parse(b).Some?
    requires k < Parse(b).value.len
    ensures Parse(b[..k]) == None
  {
  }

  /** Adding a tag on top of a value below 64 * p only changes its first byte. */
  lemma TaggedQuotient(x: nat, tag: nat, p: nat)
    requires p >= 1 && tag < 4
    requires x < 64 * p
    ensures var y := tag * (64 * p) + x;
            x / p < 64 && y < 256 * p && y / p == tag * 64 + x / p && y % p == x % p
  {
    var hi, low := x / p, x % p;
    QuotientBound(x, 64, p);
    assert x == hi * p + low;
    var q := tag * 64 + hi;
    assert tag * (64 * p) == (tag * 64) * p;
    assert tag * (64 * p) + x == q * p + low;
    HighByteBound(q, p, low);
    QuotientOf(q, p, low);
  }

  lemma TagRoundTrip(x: nat, tag: nat, n: nat)
    requires n >= 1 && tag < 4
    requires x < 64 * Pow256(n - 1)
    ensures var y := tag * (64 * Pow256(n - 1)) + x;
            && y < Pow256(n)
            && ToBigEndian(y, n)[0] / 64 == tag
            && FromBigEndian([ToBigEndian(y, n)[0] % 64] + ToBigEndian(y, n)[1..]) == x
  {
    var p := Pow256(n - 1);
    var hi, low := x / p, x % p;
    var y := tag * (64 * p) + x;
    TaggedQuotient(x, tag, p);
    HighByte(x, p);
    var b := ToBigEndian(y, n);
    var rest := ToBigEndian(low, n - 1);
    assert b == [tag * 64 + hi] + rest;
    BigEndianRoundTrip(low, n - 1);
    var c: seq<byte> := [hi] + rest;
    assert b[1..] == rest && c[1..] == rest;
    assert FromBigEndian(c) == hi * p + low;
  }

  /** The tag tells the size, and clearing it gives the value. */
  lemma EncodedIsTagged(x: VarInt)
    ensures var e := Encode(x); e != [] && WireLen(e[0]) == Size(x) && Untagged(e) == x
  {
    Pow256Values();
    hide ToBigEndian, FromBigEndian, Pow256;
    if x < 0x40 {
      TagRoundTrip(x, 0, 1);
    } else if x < 0x4000 {
      TagRoundTrip(x, 1, 2);
    } else if x < 0x4000_0000 {
      TagRoundTrip(x, 2, 4);
    } else {
      TagRoundTrip(x, 3, 8);
    }
  }

  /** Decoding what was encoded gives the value back and leaves the suffix. */
  lemma RoundTrip(x: VarInt, suffix: seq<byte>)
    ensures Parse(Encode(x) + suffix) == Some(Parsed(x, Size(x)))
  {
    EncodedIsTagged(x);
    hide Encode, Untagged, WireLen;
    var b := Encode(x) + suffix;
    assert b[..Size(x)] == Encode(x);
  }

  /** `Encode` is the shortest of all encodings of its value. */
  lemma Shortest(b: seq<byte>)
    requires Parse(b).Some?
    ensures Size(Parse(b).value.value) <= Parse(b).value.len
  {
    Pow256Values();
    var n := WireLen(b[0]);
    var c := [b[0] % 64] + b[1..n];
    assert c == [b[..n][0] % 64] + b[..n][1..];
    assert c[1..] == b[1..n];
    assert FromBigEndian(c) == (b[0] % 64) * Pow256(n - 1) + FromBigEndian(b[1..n]);
  }

  /** Two values share an encoding only if they are equal. */
  lemma EncodeInjective(x: VarInt, y: VarInt, r: seq<byte>, s: seq<byte>)
    requires Encode(x) + r == Encode(y) + s
    ensures x == y && r == s
  {
    RoundTrip(x, r);
    RoundTrip(y, s);
    assert r == (Encode(x) + r)[Size(x)..];
    assert s == (Encode(y) + s)[Size(y)..];
  }
}
