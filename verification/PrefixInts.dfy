/** Prefix integers (section 5.1 of RFC 7541) as a 64-bit platform reads and writes them. */
module PrefixInts {
  import opened Bytes
  import opened Bits

  datatype PrefixError = UnexpectedEnd | BoundsExceeded

  /** The high bits in front of the prefix, the integer, and the number of bytes it took. */
  datatype PrefixInt = PrefixInt(flags: byte, value: u64, len: nat)

  /** What a continuation byte stands for. */
  function Term(b: byte, power: nat): nat {
    b % 128 * Pow2(power)
  }

  /** `checked_shl` checks the distance only: bits shifted out at the top are lost. */
  function Increment(b: byte, power: nat): u64 {
    Term(b, power) % TWO_64
  }

  /** The continuation bytes: seven bits each, least significant first. */
  function Continue(b: seq<byte>, value: u64, power: nat): (r: Result<(u64, nat), PrefixError>)
    ensures r.Ok? ==> 1 <= r.value.1 <= |b|
  {
    if b == [] then Err(UnexpectedEnd)
    else if power >= 64 then Err(BoundsExceeded)
    else
      var total := value + Increment(b[0], power);
      if total >= TWO_64 then Err(BoundsExceeded)
      else if b[0] < 128 then Ok((total, 1))
      else
        match Continue(b[1..], total, power + 7)
        case Ok((v, n)) => Ok((v, n + 1))
        case Err(e) => Err(e)
  }

  /** The integer at the front of b, whose first byte keeps its low `size` bits for the prefix. */
  function ParsePrefix(b: seq<byte>, size: nat): (r: Result<PrefixInt, PrefixError>)
    requires 1 <= size <= 8
    ensures r.Ok? ==> 1 <= r.value.len <= |b|
  {
    if b == [] then Err(UnexpectedEnd)
    else
      PrefixWidth(size);
      var flags := FlagsOf(b[0], size);
      var mask := Pow2(size) - 1;
      var first := b[0] % Pow2(size);
      if first < mask then Ok(PrefixInt(flags, first, 1))
      else
        match Continue(b[1..], mask, 0)
        case Ok((v, n)) => Ok(PrefixInt(flags, v, n + 1))
        case Err(e) => Err(e)
  }

  lemma PrefixWidth(size: nat)
    requires 1 <= size <= 8
    ensures 2 <= Pow2(size) <= 256
    ensures Pow2(size) * Pow2(8 - size) == 256
  {
    SmallPowers();
    Pow2Add(size, 8 - size);
  }

  function FlagsOf(first: byte, size: nat): (f: byte)
    requires 1 <= size <= 8
  {
    PrefixWidth(size);
    first / Pow2(size)
  }

  function Shift(r: Result<(u64, nat), PrefixError>, n: nat): Result<(u64, nat), PrefixError> {
    match r
    case Ok((v, k)) => Ok((v, n + k))
    case Err(e) => Err(e)
  }

  lemma ContinueStep(b: seq<byte>, value: u64, power: nat)
    requires b != [] && power < 64
    ensures var total := value + Increment(b[0], power);
            Continue(b, value, power) ==
              if total >= TWO_64 then Err(BoundsExceeded)
              else if b[0] < 128 then Ok((total, 1))
              else Shift(Continue(b[1..], total, power + 7), 1)
  {
  }

  lemma ParseLong(b: seq<byte>, size: nat)
    requires 1 <= size <= 8 && b != []
    requires b[0] % Pow2(size) == Pow2(size) - 1 < TWO_64
    ensures ParsePrefix(b, size) ==
              match Continue(b[1..], Pow2(size) - 1, 0)
              case Ok((v, n)) => Ok(PrefixInt(FlagsOf(b[0], size), v, n + 1))
              case Err(e) => Err(e)
  {
    hide Continue, Pow2, FlagsOf;
  }

  method DecodePrefix(buf: Buf, size: nat) returns (r: Result<(byte, u64), PrefixError>)
    requires 1 <= size <= 8
    modifies buf
    ensures match ParsePrefix(old(buf.rest), size)
            case Ok(p) => r == Ok((p.flags, p.value)) && buf.rest == old(buf.rest)[p.len..]
            case Err(e) => r == Err(e)
  {
    if buf.rest == [] {
      return Err(UnexpectedEnd);
    }
    PrefixWidth(size);
    ghost var all := buf.rest;
    var head := buf.GetU8();
    var flags := FlagsOf(head, size);
    var mask := Pow2(size) - 1;
    var first := head % Pow2(size);
    if first < mask {
      return Ok((flags, first));
    }
    ParseLong(all, size);
    hide Continue, Pow2, ParsePrefix, FlagsOf;
    assert all[1..] == buf.rest;
    var value := DecodeContinuation(buf, mask);
    r := if value.Ok? then Ok((flags, value.value)) else Err(value.error);
  }

  /** The loop over the continuation bytes. */
  method DecodeContinuation(buf: Buf, mask: u64) returns (r: Result<u64, PrefixError>)
    modifies buf
    ensures match Continue(old(buf.rest), mask, 0)
            case Ok((v, n)) => r == Ok(v) && buf.rest == old(buf.rest)[n..]
            case Err(e) => r == Err(e)
  {
    hide Continue, Increment, Term;
    var value: u64, power: nat := mask, 0;
    ghost var all, consumed: nat := buf.rest, 0;
    while true
      invariant consumed <= |all| && buf.rest == all[consumed..]
      invariant Continue(all, mask, 0) == Shift(Continue(buf.rest, value, power), consumed)
      decreases |buf.rest|
    {
      ghost var b := buf.rest;
      if buf.rest == [] {
        ContinueAtEnd(value, power);
        return Err(UnexpectedEnd);
      }
      var next := buf.GetU8();
      if power >= 64 {
        ContinueTooLong(b, value, power);
        return Err(BoundsExceeded);
      }
      ContinueStep(b, value, power);
      var increment := Increment(next, power);
      if value + increment >= TWO_64 {
        return Err(BoundsExceeded);
      }
      value := value + increment;
      consumed := consumed + 1;
      if next < 128 {
        break;
      }
      power := power + 7;
    }
    r := Ok(value);
  }

  lemma ContinueAtEnd(value: u64, power: nat)
    ensures Continue([], value, power) == Err(UnexpectedEnd)
  {
  }

  lemma ContinueTooLong(b: seq<byte>, value: u64, power: nat)
    requires b != [] && power >= 64
    ensures Continue(b, value, power) == Err(BoundsExceeded)
  {
  }

  // ------------------------------------------------------- writing

  /** The continuation bytes of `rest`. */
  function Emit(rest: nat): (b: seq<byte>)
    ensures b != []
  {
    if rest < 128 then [rest] else [rest % 128 + 128] + Emit(rest / 128)
  }

  function EncodePrefix(size: nat, flags: byte, value: u64): (b: seq<byte>)
    requires 1 <= size <= 8
    ensures b != []
  {
    PrefixWidth(size);
    HighFlags(size, flags);
    var mask := Pow2(size) - 1;
    var high := flags * Pow2(size) % 256;
    if value < mask then [high + value] else [high + mask] + Emit(value - mask)
  }

  /** The flags keep their low bits and leave the prefix free. */
  lemma HighFlags(size: nat, flags: byte)
    requires 1 <= size <= 8
    ensures Pow2(size) >= 1
    ensures flags * Pow2(size) % 256 == flags % Pow2(8 - size) * Pow2(size)
    ensures flags * Pow2(size) % 256 + Pow2(size) <= 256
  {
    PrefixWidth(size);
    hide Pow2;
    ScaledFlags(flags, Pow2(size), Pow2(8 - size));
  }

  lemma ScaledFlags(f: nat, p: nat, q: nat)
    requires q >= 1 && p * q == 256
    ensures f * p % 256 == f % q * p
    ensures f % q * p + p <= 256
  {
    var k, low := f / q, f % q;
    assert f == k * q + low;
    ScaledSplit(k, low, p, q);
    MulMonotone(low + 1, q, p);
    Distribute(low, 1, p);
    QuotientOf(k, 256, low * p);
  }

  lemma ScaledSplit(k: nat, low: nat, p: nat, q: nat)
    requires p * q == 256
    ensures (k * q + low) * p == k * 256 + low * p
    ensures q * p == 256
  {
    Distribute(k * q, low, p);
    Associate(k, q, p);
  }

  method PutPrefix(w: BufMut, size: nat, flags: byte, value: u64)
    requires 1 <= size <= 8
    modifies w
    ensures w.bytes == old(w.bytes) + EncodePrefix(size, flags, value)
  {
    PrefixWidth(size);
    HighFlags(size, flags);
    hide Pow2, Emit;
    var mask := Pow2(size) - 1;
    var high := flags * Pow2(size) % 256;
    if value < mask {
      w.PutU8(high + value);
      return;
    }
    w.PutU8(high + mask);
    PutContinuation(w, value - mask);
  }

  /** The loop over the continuation bytes. */
  method PutContinuation(w: BufMut, rest: nat)
    modifies w
    ensures w.bytes == old(w.bytes) + Emit(rest)
  {
    var remaining := rest;
    while remaining >= 128
      invariant w.bytes + Emit(remaining) == old(w.bytes) + Emit(rest)
    {
      w.PutU8(remaining % 128 + 128);
      remaining := remaining / 128;
    }
    w.PutU8(remaining);
  }

  // ------------------------------------------------------- properties

  /** Room for what is still to be added: no bit of it is shifted out. */
  lemma RoomForRest(rest: nat, value: nat, power: nat)
    requires value + rest * Pow2(power) < TWO_64
    requires rest >= 1 || power == 0
    ensures power < 64
    ensures value + Term(rest % 128, power) + rest / 128 * Pow2(power + 7) == value + rest * Pow2(power)
    ensures 0 <= rest / 128 * Pow2(power + 7)
  {
    ShortDistance(rest, power);
    Pow2Add(7, power);
    SmallPowers();
    hide Pow2;
    assert rest % 128 % 128 == rest % 128;
    SevenBits(rest, Pow2(power), Pow2(power + 7));
  }

  lemma ShortDistance(rest: nat, power: nat)
    requires rest * Pow2(power) < TWO_64
    requires rest >= 1 || power == 0
    ensures power < 64
  {
    if power >= 64 {
      Pow2At64();
      hide Pow2;
      Pow2Monotone(64, power);
      MulMonotone(1, rest, Pow2(power));
    }
  }

  lemma SevenBits(rest: nat, p: nat, q: nat)
    requires q == 128 * p
    ensures rest % 128 * p + rest / 128 * q == rest * p
    ensures 0 <= rest / 128 * q
  {
    var k, low := rest / 128, rest % 128;
    assert rest == k * 128 + low;
    Distribute(k * 128, low, p);
    Associate(k, 128, p);
  }

  lemma Pow2At64()
    ensures Pow2(56) == 0x100_0000_0000_0000 && Pow2(63) == 0x8000_0000_0000_0000 && Pow2(64) == TWO_64
  {
    SmallPowers();
    Pow2Add(16, 16);
    Pow2Add(32, 16);
    Pow2Add(48, 8);
    Pow2Add(56, 7);
    Pow2Add(63, 1);
  }

  lemma {:induction false} EmitRoundTrip(rest: nat, value: u64, power: nat, more: seq<byte>)
    requires value + rest * Pow2(power) < TWO_64
    requires rest >= 1 || power == 0
    ensures Continue(Emit(rest) + more, value, power) == Ok((value + rest * Pow2(power), |Emit(rest)|))
    decreases rest
  {
    hide Continue, Emit, Term, Pow2;
    RoomForRest(rest, value, power);
    EmitStep(rest, value, power, more);
    if rest >= 128 {
      EmitRoundTrip(rest / 128, value + Term(rest % 128, power), power + 7, more);
      EmitLength(rest);
    }
  }

  lemma EmitLength(rest: nat)
    requires rest >= 128
    ensures |Emit(rest)| == 1 + |Emit(rest / 128)|
  {
  }

  /** Reading back the first continuation byte. */
  lemma EmitStep(rest: nat, value: u64, power: nat, more: seq<byte>)
    requires power < 64 && value + Term(rest % 128, power) < TWO_64
    ensures var next := value + Term(rest % 128, power);
            Continue(Emit(rest) + more, value, power) ==
              if rest < 128 then Ok((next, |Emit(rest)|))
              else Shift(Continue(Emit(rest / 128) + more, next, power + 7), 1)
  {
    hide Pow2;
    var b := Emit(rest) + more;
    assert b[0] % 128 == rest % 128 % 128;
    assert Term(b[0], power) == Term(rest % 128, power);
    hide Term;
    SmallRemainder(Term(rest % 128, power), TWO_64);
    ContinueStep(b, value, power);
    if rest >= 128 {
      assert b[1..] == Emit(rest / 128) + more;
    }
    hide Continue;
  }

  /** Decoding what was encoded: the flags that fit, the value, and the suffix left alone. */
  lemma RoundTrip(size: nat, flags: byte, value: u64, more: seq<byte>)
    requires 1 <= size <= 8
    ensures flags % Pow2(8 - size) < 256
    ensures ParsePrefix(EncodePrefix(size, flags, value) + more, size) ==
              Ok(PrefixInt(flags % Pow2(8 - size), value, |EncodePrefix(size, flags, value)|))
  {
    PrefixWidth(size);
    HighFlags(size, flags);
    var p, mask := Pow2(size), Pow2(size) - 1;
    var kept := flags % Pow2(8 - size);
    var b := EncodePrefix(size, flags, value) + more;
    if value < mask {
      ShortRoundTrip(size, flags, value, more);
    } else {
      var one := Pow2(0);
      assert one == 1;
      assert flags % Pow2(8 - size) * p == flags * p % 256;
      EncodeLong(size, flags, value, more);
      hide Pow2, Continue, EncodePrefix, ParsePrefix, Emit;
      ParseLong(b, size);
      var rest := value - mask;
      assert mask + rest * one == value;
      EmitRoundTrip(rest, mask, 0, more);
    }
  }

  lemma ShortRoundTrip(size: nat, flags: byte, value: u64, more: seq<byte>)
    requires 1 <= size <= 8 && value < Pow2(size) - 1
    ensures 0 <= flags % Pow2(8 - size) < 256
    ensures ParsePrefix(EncodePrefix(size, flags, value) + more, size) ==
              Ok(PrefixInt(flags % Pow2(8 - size), value, |EncodePrefix(size, flags, value)|))
  {
    PrefixWidth(size);
    HighFlags(size, flags);
    QuotientOf(flags % Pow2(8 - size), Pow2(size), value);
    hide Pow2, Continue;
  }

  lemma EncodeLong(size: nat, flags: byte, value: u64, more: seq<byte>)
    requires 1 <= size <= 8 && value >= Pow2(size) - 1
    ensures var b := EncodePrefix(size, flags, value) + more;
            && b != []
            && b[0] % Pow2(size) == Pow2(size) - 1
            && FlagsOf(b[0], size) == flags % Pow2(8 - size)
            && b[1..] == Emit(value - (Pow2(size) - 1)) + more
            && |EncodePrefix(size, flags, value)| == 1 + |Emit(value - (Pow2(size) - 1))|
  {
    PrefixWidth(size);
    HighFlags(size, flags);
    QuotientOf(flags % Pow2(8 - size), Pow2(size), Pow2(size) - 1);
    hide Pow2, Emit;
  }

  // ------------------------------------------------------- against the unbounded decoder of the RFC

  /** Section 5.1 of RFC 7541 with unbounded integers: the value the continuation bytes stand for. */
  function Sum(b: seq<byte>, power: nat): (r: Option<(nat, nat)>)
    ensures r.Some? ==> 1 <= r.value.1 <= |b|
  {
    if b == [] then None
    else if b[0] < 128 then Some((Term(b[0], power), 1))
    else
      match Sum(b[1..], power + 7)
      case None => None
      case Some((v, n)) => Some((Term(b[0], power) + v, n + 1))
  }

  /** Bits are lost only at the tenth continuation byte, when it carries more than one. */
  lemma IncrementExact(b: byte, power: nat)
    requires power < 64 && power % 7 == 0
    ensures power < 63 ==> Increment(b, power) == Term(b, power)
    ensures power == 63 ==> (Increment(b, power) == Term(b, power) <==> b % 128 <= 1)
    ensures Increment(b, power) <= Term(b, power)
  {
    Pow2At64();
    hide Pow2;
    if power < 63 {
      Pow2Monotone(power, 56);
      MulMonotone(b % 128, 127, Pow2(power));
      SmallRemainder(b % 128 * Pow2(power), TWO_64);
    }
  }

  /** Nothing is lost when at most nine continuation bytes are used, or the tenth carries at most one. */
  predicate Lossless(b: seq<byte>, power: nat, n: nat)
    requires 1 <= n <= |b|
  {
    power / 7 + n < 10 || b[n - 1] % 128 <= 1
  }

  /** The 64-bit loop and the unbounded sum, on the same bytes. */
  predicate Agree(r: Result<(u64, nat), PrefixError>, e: Option<(nat, nat)>, b: seq<byte>, value: u64, power: nat)
    requires e.Some? ==> 1 <= e.value.1 <= |b|
  {
    && (r.Ok? ==> e.Some? && e.value.1 == r.value.1 && power / 7 + e.value.1 <= 10)
    && (r.Ok? ==> (r.value.0 == value + e.value.0 <==> Lossless(b, power, e.value.1)))
    && (e.Some? && value + e.value.0 < TWO_64 && power / 7 + e.value.1 <= 10 ==>
          r.Ok? && r.value.0 == value + e.value.0)
    && (r == Err(UnexpectedEnd) ==> e.None? && power / 7 + |b| <= 10)
  }

  lemma {:induction false} ContinueRefines(b: seq<byte>, value: u64, power: nat)
    requires power % 7 == 0 && power <= 70
    ensures Agree(Continue(b, value, power), Sum(b, power), b, value, power)
  {
    if b == [] || power >= 64 {
      AgreeAtEnd(b, value, power);
    } else {
      hide Agree, Sum, Continue, Term, Increment;
      IncrementExact(b[0], power);
      NextPower(power);
      ContinueStep(b, value, power);
      var total := value + Increment(b[0], power);
      if b[0] >= 128 && total < TWO_64 {
        ContinueRefines(b[1..], total, power + 7);
        AgreeStep(b, value, power);
      } else {
        AgreeHere(b, value, power);
      }
    }
  }

  lemma NextPower(power: nat)
    requires power < 64 && power % 7 == 0
    ensures power == 63 || power <= 56
    ensures (power + 7) % 7 == 0 && (power + 7) / 7 == power / 7 + 1
  {
  }

  lemma AgreeAtEnd(b: seq<byte>, value: u64, power: nat)
    requires power % 7 == 0 && power <= 70
    requires b == [] || power >= 64
    ensures Agree(Continue(b, value, power), Sum(b, power), b, value, power)
  {
    hide Term, Increment;
    assert power >= 64 ==> power == 70;
  }

  lemma AgreeHere(b: seq<byte>, value: u64, power: nat)
    requires b != [] && power < 64 && power % 7 == 0
    requires b[0] < 128 || value + Increment(b[0], power) >= TWO_64
    requires Increment(b[0], power) <= Term(b[0], power)
    requires power < 63 ==> Increment(b[0], power) == Term(b[0], power)
    requires power == 63 ==> (Increment(b[0], power) == Term(b[0], power) <==> b[0] % 128 <= 1)
    ensures Agree(Continue(b, value, power), Sum(b, power), b, value, power)
  {
    ContinueStep(b, value, power);
    hide Pow2, Term, Increment, Continue;
  }

  lemma AgreeStep(b: seq<byte>, value: u64, power: nat)
    requires b != [] && b[0] >= 128 && power % 7 == 0 && (power == 63 || power <= 56)
    requires value + Increment(b[0], power) < TWO_64
    requires Increment(b[0], power) <= Term(b[0], power)
    requires power < 63 ==> Increment(b[0], power) == Term(b[0], power)
    requires Continue(b, value, power) == Shift(Continue(b[1..], value + Increment(b[0], power), power + 7), 1)
    requires Agree(Continue(b[1..], value + Increment(b[0], power), power + 7), Sum(b[1..], power + 7),
                   b[1..], value + Increment(b[0], power), power + 7)
    ensures Agree(Continue(b, value, power), Sum(b, power), b, value, power)
  {
    hide Pow2, Term, Increment, Continue;
    NextPower(power);
    var e := Sum(b[1..], power + 7);
    if e.Some? {
      assert b[1..][e.value.1 - 1] == b[e.value.1];
    }
  }

  /** The mathematical value of a prefix integer, and its length. */
  function Meaning(b: seq<byte>, size: nat): (r: Option<(nat, nat)>)
    requires 1 <= size <= 8
    ensures r.Some? ==> 1 <= r.value.1 <= |b|
  {
    if b == [] then None
    else
      var mask := Pow2(size) - 1;
      if b[0] % Pow2(size) < mask then Some((b[0] % Pow2(size), 1))
      else
        match Sum(b[1..], 0)
        case None => None
        case Some((v, n)) => Some((mask + v, n + 1))
  }

  /**
   * The decoder gives the mathematical value exactly when that fits 64 bits and takes at most ten
   * continuation bytes. An integer it accepts has the right length and at most ten continuation bytes,
   * and its value is right exactly when the tenth, if there is one, carries at most one.
   */
  lemma ExactlyTheMeaning(b: seq<byte>, size: nat)
    requires 1 <= size <= 8
    ensures var r, m := ParsePrefix(b, size), Meaning(b, size);
            && ((r.Ok? && m.Some? && r.value.value == m.value.0) <==>
                (m.Some? && m.value.0 < TWO_64 && m.value.1 <= 11))
            && (r.Ok? ==> m.Some? && r.value.len == m.value.1 <= 11)
            && (r.Ok? ==> (r.value.value == m.value.0 <==> r.value.len <= 10 || b[10] % 128 <= 1))
            && (r == Err(UnexpectedEnd) ==> m.None? && |b| <= 11)
  {
    if b != [] {
      PrefixWidth(size);
      var mask := Pow2(size) - 1;
      if b[0] % Pow2(size) == mask {
        ContinueRefines(b[1..], mask, 0);
        ParseLong(b, size);
        hide Pow2, Continue, Sum, Term, ParsePrefix, FlagsOf, Agree;
        TenthByte(b, mask, Sum(b[1..], 0), Continue(b[1..], mask, 0));
      }
    }
  }

  lemma TenthByte(b: seq<byte>, mask: u64, e: Option<(nat, nat)>, r: Result<(u64, nat), PrefixError>)
    requires b != [] && (e.Some? ==> 1 <= e.value.1 < |b|)
    requires Agree(r, e, b[1..], mask, 0)
    ensures r.Ok? ==> e.Some? && e.value.1 == r.value.1 <= 10
    ensures r.Ok? ==> (r.value.0 == mask + e.value.0 <==> r.value.1 <= 9 || b[10] % 128 <= 1)
    ensures e.Some? && mask + e.value.0 < TWO_64 && e.value.1 <= 10 ==> r.Ok? && r.value.0 == mask + e.value.0
  {
  }

  lemma {:induction false} ContinueBounded(b: seq<byte>, value: u64, power: nat)
    requires power % 7 == 0 && power <= 70
    requires |b| >= 11 - power / 7
    ensures Continue(b[..11 - power / 7], value, power) == Continue(b, value, power)
  {
    hide Increment;
    var c := b[..11 - power / 7];
    if power < 64 {
      ContinueStep(b, value, power);
      ContinueStep(c, value, power);
      var total := value + Increment(b[0], power);
      if b[0] >= 128 && total < TWO_64 {
        assert (power + 7) / 7 == power / 7 + 1;
        assert c[1..] == b[1..][..11 - (power + 7) / 7];
        ContinueBounded(b[1..], total, power + 7);
      }
    }
  }

  /** Whatever the input, the loop looks at no more than eleven continuation bytes. */
  lemma AtMostElevenContinuationBytes(b: seq<byte>, size: nat)
    requires 1 <= size <= 8
    requires |b| >= 12
    ensures ParsePrefix(b[..12], size) == ParsePrefix(b, size)
  {
    PrefixWidth(size);
    if b[0] % Pow2(size) == Pow2(size) - 1 {
      LongInTwelveBytes(b, size);
    }
  }

  lemma LongInTwelveBytes(b: seq<byte>, size: nat)
    requires 1 <= size <= 8 && |b| >= 12
    requires b[0] % Pow2(size) == Pow2(size) - 1 < TWO_64
    ensures ParsePrefix(b[..12], size) == ParsePrefix(b, size)
  {
    hide Pow2, Continue, FlagsOf, ParsePrefix;
    ParseLong(b, size);
    ParseLong(b[..12], size);
    assert b[..12][1..] == b[1..][..11];
    ContinueBounded(b[1..], Pow2(size) - 1, 0);
  }

  function Zeroes(k: nat): (b: seq<byte>)
    ensures |b| == k + 1
  {
    seq(k, _ => 0x80) + [2]
  }

  lemma ZeroesParts(k: nat)
    ensures Zeroes(k)[0] == if k > 0 then 0x80 else 2
    ensures k > 0 ==> Zeroes(k)[1..] == Zeroes(k - 1)
  {
  }

  lemma NothingLeft(b: byte, power: nat)
    requires b == 0x80 || (b == 2 && power == 63)
    ensures Increment(b, power) == 0
  {
    Pow2At64();
    hide Pow2;
  }

  lemma {:induction false} ZeroesThenTwo(k: nat, value: u64)
    requires k <= 9
    ensures Continue(Zeroes(k), value, 63 - 7 * k) == Ok((value, k + 1))
  {
    hide *;
    ZeroesParts(k);
    NothingLeft(Zeroes(k)[0], 63 - 7 * k);
    ContinueStep(Zeroes(k), value, 63 - 7 * k);
    if k > 0 {
      ZeroesThenTwo(k - 1, value);
      ShiftOnce(value, k);
    }
  }

  lemma ShiftOnce(value: u64, k: nat)
    ensures Shift(Ok((value, k)), 1) == Ok((value, k + 1))
  {
  }

  /** The shift does lose bits: 255 + 2^64 is read as 255. */
  lemma LostBits()
    ensures var b: seq<byte> := [0xFF] + seq(9, _ => 0x80) + [2];
            ParsePrefix(b, 8) == Ok(PrefixInt(0, 255, 11)) && Meaning(b, 8).Some? && Meaning(b, 8).value.0 != 255
  {
    SmallPowers();
    var b: seq<byte> := [0xFF] + seq(9, _ => 0x80) + [2];
    assert b[1..] == Zeroes(9);
    assert b[10] == 2;
    assert FlagsOf(b[0], 8) == 0;
    ZeroesThenTwo(9, 255);
    ParseLong(b, 8);
    ExactlyTheMeaning(b, 8);
  }
}
