/** Bit strings, most significant bit first, and the numbers they spell. */
module Bits {
  import opened Bytes

  type Bits = seq<bool>

  function Pow2(n: nat): (p: nat)
    ensures p >= 1
  {
    if n == 0 then 1 else 2 * Pow2(n - 1)
  }

  /** Bit i of a byte string. */
  function BitAt(s: seq<byte>, i: nat): bool
    requires i < 8 * |s|
  {
    SmallPowers();
    Spell(s[i / 8], 8)[i % 8]
  }

  function BitsOf(s: seq<byte>): (b: Bits)
    ensures |b| == 8 * |s|
  {
    seq(8 * |s|, i requires 0 <= i < 8 * |s| => BitAt(s, i))
  }

  function ValueOf(b: Bits): (v: nat)
    ensures v < Pow2(|b|)
  {
    if b == [] then 0 else (if b[0] then Pow2(|b| - 1) else 0) + ValueOf(b[1..])
  }

  /** The n-bit spelling of v. */
  function Spell(v: nat, n: nat): (b: Bits)
    requires v < Pow2(n)
    ensures |b| == n
    decreases n
  {
    if n == 0 then []
    else if v < Pow2(n - 1) then [false] + Spell(v, n - 1)
    else [true] + Spell(v - Pow2(n - 1), n - 1)
  }

  function Ones(n: nat): (b: Bits)
    ensures |b| == n
  {
    seq(n, _ => true)
  }

  predicate AllOnes(b: Bits) {
    forall i :: 0 <= i < |b| ==> b[i]
  }

  lemma {:induction false} SpellValue(b: Bits)
    ensures Spell(ValueOf(b), |b|) == b
  {
    if b != [] {
      SpellValue(b[1..]);
      assert b == [b[0]] + b[1..];
    }
  }

  lemma {:induction false} ValueSpell(v: nat, n: nat)
    requires v < Pow2(n)
    ensures ValueOf(Spell(v, n)) == v
    decreases n
  {
    if n > 0 {
      if v < Pow2(n - 1) {
        ValueSpell(v, n - 1);
      } else {
        ValueSpell(v - Pow2(n - 1), n - 1);
      }
      assert Spell(v, n)[1..] == if v < Pow2(n - 1) then Spell(v, n - 1) else Spell(v - Pow2(n - 1), n - 1);
    }
  }

  /** Equally long bit strings with the same value are equal. */
  lemma ValueInjective(a: Bits, b: Bits)
    requires |a| == |b| && ValueOf(a) == ValueOf(b)
    ensures a == b
  {
    SpellValue(a);
    SpellValue(b);
  }

  lemma {:induction false} Pow2Add(m: nat, n: nat)
    ensures Pow2(m + n) == Pow2(m) * Pow2(n)
    decreases m
  {
    if m > 0 {
      Pow2Add(m - 1, n);
      assert Pow2(m + n) == 2 * Pow2(m - 1 + n);
      Associate(2, Pow2(m - 1), Pow2(n));
    }
  }

  lemma {:induction false} Pow2Monotone(m: nat, n: nat)
    requires m <= n
    ensures Pow2(m) <= Pow2(n)
    decreases n
  {
    if m < n {
      Pow2Monotone(m, n - 1);
    }
  }

  lemma Distribute(a: nat, b: nat, p: nat)
    ensures (a + b) * p == a * p + b * p
  {
  }

  lemma Associate(a: nat, b: nat, c: nat)
    ensures (a * b) * c == a * (b * c)
  {
  }

  lemma {:induction false} ValueConcat(a: Bits, b: Bits)
    ensures ValueOf(a + b) == ValueOf(a) * Pow2(|b|) + ValueOf(b)
  {
    if a == [] {
      assert a + b == b;
    } else {
      assert (a + b)[1..] == a[1..] + b;
      ValueConcat(a[1..], b);
      Pow2Add(|a| - 1, |b|);
      Distribute(if a[0] then Pow2(|a| - 1) else 0, ValueOf(a[1..]), Pow2(|b|));
    }
  }

  /** Cutting bits [i, j) out of a word is a remainder followed by a division. */
  lemma ValueSlice(b: Bits, i: nat, j: nat)
    requires i <= j <= |b|
    ensures ValueOf(b) % Pow2(|b| - i) / Pow2(|b| - j) == ValueOf(b[i..j])
  {
    hide ValueOf, Pow2;
    ValueDrop(b, i);
    var c := b[i..];
    assert c == b[i..j] + b[j..];
    ValueConcat(b[i..j], b[j..]);
    QuotientOf(ValueOf(b[i..j]), Pow2(|b| - j), ValueOf(b[j..]));
  }

  lemma ValueDrop(b: Bits, i: nat)
    requires i <= |b|
    ensures ValueOf(b) % Pow2(|b| - i) == ValueOf(b[i..])
  {
    hide ValueOf, Pow2;
    assert b == b[..i] + b[i..];
    ValueConcat(b[..i], b[i..]);
    QuotientOf(ValueOf(b[..i]), Pow2(|b| - i), ValueOf(b[i..]));
  }

  lemma SmallPowers()
    ensures Pow2(0) == 1 && Pow2(1) == 2 && Pow2(2) == 4 && Pow2(3) == 8 && Pow2(4) == 16
    ensures Pow2(5) == 32 && Pow2(6) == 64 && Pow2(7) == 128 && Pow2(8) == 256
    ensures Pow2(16) == 0x1_0000
  {
    assert Pow2(2) == 2 * Pow2(1);
    assert Pow2(3) == 2 * Pow2(2);
    assert Pow2(4) == 2 * Pow2(3);
    assert Pow2(5) == 2 * Pow2(4);
    assert Pow2(6) == 2 * Pow2(5);
    assert Pow2(7) == 2 * Pow2(6);
    Pow2Add(8, 8);
  }

  /** Bytes k and onwards are bits 8k and onwards. */
  lemma BitsOfDrop(s: seq<byte>, k: nat)
    requires k <= |s|
    ensures BitsOf(s)[8 * k..] == BitsOf(s[k..])
  {
    hide Spell, Pow2;
    var a, b := BitsOf(s)[8 * k..], BitsOf(s[k..]);
    forall i | 0 <= i < |b| ensures a[i] == b[i] {
      assert (8 * k + i) / 8 == k + i / 8;
    }
  }

  lemma FirstByte(s: seq<byte>)
    requires |s| >= 1
    ensures Pow2(8) == 256 && BitsOf(s)[..8] == Spell(s[0], 8)
  {
    SmallPowers();
    hide Spell, Pow2;
    forall i | 0 <= i < 8 ensures BitsOf(s)[i] == Spell(s[0], 8)[i] {
      assert i / 8 == 0 && i % 8 == i;
    }
  }

  lemma FirstTwoBytes(s: seq<byte>)
    requires |s| >= 2
    ensures Pow2(8) == 256 && BitsOf(s)[..16] == Spell(s[0], 8) + Spell(s[1], 8)
  {
    hide Spell, BitAt, BitsOf, Pow2;
    FirstByte(s);
    BitsOfDrop(s, 1);
    FirstByte(s[1..]);
    var all := BitsOf(s);
    assert all[..16] == all[..8] + all[8..][..8];
  }

  /** A left shift that drops the high bits, then a right shift, selects a window of an n-bit word. */
  lemma ShiftWindow(v: nat, n: nat, i: nat, len: nat)
    requires i + len <= n
    ensures v * Pow2(i) % Pow2(n) / Pow2(n - len) == v % Pow2(n - i) / Pow2(n - i - len)
  {
    hide Pow2;
    Pow2Add(n - i, i);
    Pow2Add(n - i - len, i);
    assert n - i - len + i == n - len;
    ScaledRemainder(v, Pow2(n - i), Pow2(i));
    ScaledQuotient(v % Pow2(n - i), Pow2(n - i - len), Pow2(i));
  }

  lemma ScaledRemainder(v: nat, q: nat, p: nat)
    requires p >= 1 && q >= 1
    ensures q * p >= 1 && v * p % (q * p) == v % q * p
  {
    var high, w := v / q, v % q;
    assert v == high * q + w;
    Distribute(high * q, w, p);
    Associate(high, q, p);
    MulStrict(w, q, p);
    QuotientOf(high, q * p, w * p);
  }

  lemma ScaledQuotient(w: nat, r: nat, p: nat)
    requires p >= 1 && r >= 1
    ensures r * p >= 1 && w * p / (r * p) == w / r
  {
    var a, b := w / r, w % r;
    assert w == a * r + b;
    Distribute(a * r, b, p);
    Associate(a, r, p);
    MulStrict(b, r, p);
    QuotientOf(a, r * p, b * p);
  }

  lemma MulStrict(a: nat, b: nat, p: nat)
    requires a < b && p >= 1
    ensures a * p < b * p
  {
    MulMonotone(a + 1, b, p);
    Distribute(a, 1, p);
  }
}
