/** Bytes, buffers and byte streams: the vocabulary shared by every codec. */
module Bytes {

  type byte = x: int | 0 <= x < 256

  const TWO_32: nat := 0x1_0000_0000
  const TWO_64: nat := 0x1_0000_0000_0000_0000

  type u32 = x: int | 0 <= x < TWO_32
  type u64 = x: int | 0 <= x < TWO_64

  datatype Option<+T> = None | Some(value: T)

  datatype Result<+T, +E> = Ok(value: T) | Err(error: E)
  {
    predicate IsFailure() {
      Err?
    }

    function PropagateFailure<U>(): Result<U, E>
      requires Err?
    {
      Err(error)
    }

    function Extract(): T
      requires Ok?
    {
      value
    }
  }

  /** 256 to the power n: the number of n-byte strings. */
  function Pow256(n: nat): (p: nat)
    ensures p >= 1
  {
    if n == 0 then 1 else 256 * Pow256(n - 1)
  }

  lemma MulMonotone(a: nat, b: nat, p: nat)
    requires a <= b
    ensures a * p <= b * p
  {
  }

  lemma HighByteBound(head: byte, p: nat, low: nat)
    requires low < p
    ensures head * p + low < 256 * p
  {
    MulMonotone(head, 255, p);
  }

  /** The number that b spells most significant byte first. */
  function FromBigEndian(b: seq<byte>): (x: nat)
    ensures x < Pow256(|b|)
  {
    if b == [] then 0
    else
      var low := FromBigEndian(b[1..]);
      HighByteBound(b[0], Pow256(|b| - 1), low);
      b[0] * Pow256(|b| - 1) + low
  }

  /** The n-byte big-endian spelling of x. */
  function ToBigEndian(x: nat, n: nat): (b: seq<byte>)
    requires x < Pow256(n)
    ensures |b| == n
    decreases n
  {
    if n == 0 then []
    else
      var p := Pow256(n - 1);
      HighByte(x, p);
      [x / p] + ToBigEndian(x % p, n - 1)
  }

  lemma HighByte(x: nat, p: nat)
    requires p >= 1
    requires x < 256 * p
    ensures 0 <= x / p < 256
    ensures 0 <= x % p < p
    ensures x == x / p * p + x % p
  {
    QuotientBound(x, 256, p);
  }

  /** The quotient of x by p is below q exactly when x is below q * p. */
  lemma QuotientBound(x: nat, q: nat, p: nat)
    requires p >= 1
    ensures x / p < q <==> x < q * p
  {
    var d := x / p;
    assert x == d * p + x % p;
    if d < q {
      MulMonotone(d + 1, q, p);
    } else {
      MulMonotone(q, d, p);
    }
  }

  lemma {:induction false} BigEndianRoundTrip(x: nat, n: nat)
    requires x < Pow256(n)
    ensures FromBigEndian(ToBigEndian(x, n)) == x
    decreases n
  {
    if n > 0 {
      var p := Pow256(n - 1);
      HighByte(x, p);
      BigEndianRoundTrip(x % p, n - 1);
      assert ToBigEndian(x, n)[1..] == ToBigEndian(x % p, n - 1);
    }
  }

  lemma QuotientOf(q: nat, p: nat, r: nat)
    requires r < p
    ensures (q * p + r) / p == q
    ensures (q * p + r) % p == r
  {
    var x := q * p + r;
    assert q * p + r < (q + 1) * p;
    QuotientBound(x, q, p);
    QuotientBound(x, q + 1, p);
  }

  lemma SmallRemainder(x: nat, m: nat)
    requires x < m
    ensures x % m == x
  {
  }

  function Min(a: nat, b: nat): nat {
    if a <= b then a else b
  }

  function Max(a: nat, b: nat): nat {
    if a <= b then b else a
  }

  /** An input buffer that is consumed from the front; also a peer's stream that ends after `rest`. */
  class Buf {
    var rest: seq<byte>

    constructor (bytes: seq<byte>)
      ensures rest == bytes
    {
      rest := bytes;
    }

    method GetU8() returns (b: byte)
      requires rest != []
      modifies this
      ensures old(rest) == [b] + rest
    {
      b := rest[0];
      rest := rest[1..];
    }

    method Take(n: nat) returns (s: seq<byte>)
      requires n <= |rest|
      modifies this
      ensures |s| == n
      ensures old(rest) == s + rest
    {
      s := rest[..n];
      rest := rest[n..];
    }

    /** `read_exact` on a stream: everything is consumed when the stream ends too early. */
    method ReadExact(n: nat) returns (r: Option<seq<byte>>)
      modifies this
      ensures n <= |old(rest)| ==> r == Some(old(rest)[..n]) && rest == old(rest)[n..]
      ensures n > |old(rest)| ==> r == None && rest == []
    {
      if n <= |rest| {
        r := Some(rest[..n]);
        rest := rest[n..];
      } else {
        r := None;
        rest := [];
      }
    }
  }

  /** An output buffer that only grows. */
  class BufMut {
    var bytes: seq<byte>

    constructor ()
      ensures bytes == []
    {
      bytes := [];
    }

    method PutU8(b: byte)
      modifies this
      ensures bytes == old(bytes) + [b]
    {
      bytes := bytes + [b];
    }

    method PutSlice(s: seq<byte>)
      modifies this
      ensures bytes == old(bytes) + s
    {
      bytes := bytes + s;
    }
  }

  /** A growable buffer that is extended at the back and consumed from the front. */
  class BytesMut {
    var bytes: seq<byte>

    constructor ()
      ensures bytes == []
    {
      bytes := [];
    }

    method ExtendFromSlice(s: seq<byte>)
      modifies this
      ensures bytes == old(bytes) + s
    {
      bytes := bytes + s;
    }

    method Advance(n: nat)
      requires n <= |bytes|
      modifies this
      ensures bytes == old(bytes)[n..]
    {
      bytes := bytes[n..];
    }
  }
}
