/** Which bits the Huffman decoder accepts behind the last symbol, and which of them the RFC forbids. */
module HuffmanPadding {
  import opened Bytes
  import opened Bits
  import opened Huffman
  import opened HuffmanTable
  import opened HuffmanTheorems
  import opened HuffmanCode

  /** The bits covered by the finished lookups of a descent. */
  function Completed(d: HuffmanDecoder, bits: Bits): (n: nat)
    ensures n <= |bits|
    decreases d
  {
    if |bits| < d.lookup then 0
    else
      var v := ValueOf(bits[..d.lookup]);
      if v >= |d.table| then 0
      else
        match d.table[v]
        case Sym(_) => d.lookup
        case Partial(next) => d.lookup + Completed(next, bits[d.lookup..])
  }

  /** The width of the lookup within which a descent runs out of bits; None when it does not run out. */
  function RunsOut(d: HuffmanDecoder, bits: Bits): Option<nat>
    decreases d
  {
    if |bits| < d.lookup then Some(d.lookup)
    else
      var v := ValueOf(bits[..d.lookup]);
      if v >= |d.table| || d.table[v].Sym? then None else RunsOut(d.table[v].next, bits[d.lookup..])
  }

  /**
   * A descent ends the string exactly when it runs out of bits within a lookup and the bits outside its finished
   * lookups, fewer than that lookup wants, are all ones.
   */
  lemma {:induction false} EndExactly(d: HuffmanDecoder, t: Bits)
    requires WellFormed(d)
    ensures RunsOut(d, t).Some? ==> |t| - Completed(d, t) < RunsOut(d, t).value <= 8
    ensures Descend(d, t) == End <==> RunsOut(d, t).Some? && AllOnes(t[Completed(d, t)..])
    ensures RunsOut(d, t).Some? <==> Descend(d, t).End? || Descend(d, t).Missing?
    decreases d
  {
    if |t| < d.lookup {
      assert t[0..] == t;
    } else {
      var v := ValueOf(t[..d.lookup]);
      hide ValueOf;
      if v < |d.table| && d.table[v].Partial? {
        var next, rest := d.table[v].next, t[d.lookup..];
        EndExactly(next, rest);
        assert rest[Completed(next, rest)..] == t[Completed(d, t)..];
      }
    }
  }

  /** The bits neither start with a codeword nor go eight bits beyond EOS. */
  ghost predicate Unfinished(t: Bits) {
    && (forall s: byte :: !(CodeBits(s) <= t))
    && !(Ones(30) <= t && |t| >= 38)
  }

  lemma UnfinishedExactly(t: Bits)
    ensures Unfinished(t) <==> Descend(HPACK_STRING, t).End? || Descend(HPACK_STRING, t).Missing?
  {
    hide Code, CodeBits, Descend, Ones;
    var step := Descend(HPACK_STRING, t);
    if step.Symbol? {
      DecodedIsCodeword(t);
      assert CodeBits(step.symbol) == t[..step.used];
    } else if step.Dead? {
      DeadAfterEos(t);
    } else {
      forall s: byte ensures !(CodeBits(s) <= t) {
        TailHoldsNoCodeword(t, s);
      }
      if Ones(30) <= t && |t| >= 38 {
        assert Ones(30) == t[..30] && |Ones(30)| == 30;
        assert t == Ones(30) + t[30..];
        EosIsDead(t[30..]);
      }
    }
  }

  /** A tail that is accepted: no symbol is complete, and ones wherever no lookup was finished. */
  ghost predicate AcceptedTail(t: Bits) {
    Unfinished(t) && AllOnes(t[Completed(HPACK_STRING, t)..])
  }

  lemma AcceptedTailEnds(t: Bits)
    ensures AcceptedTail(t) <==> Descend(HPACK_STRING, t) == End
  {
    hide Unfinished, Descend, WellFormed, Completed, RunsOut;
    DecoderIsWellFormed();
    UnfinishedExactly(t);
    EndExactly(HPACK_STRING, t);
  }

  /** The decoder stops cleanly with s exactly on the codewords of s followed by an accepted tail. */
  lemma CleanExactly(bits: Bits, s: seq<byte>)
    ensures Decode(bits) == Decoded(s, Clean) <==> EncodeBits(s) <= bits && AcceptedTail(bits[|EncodeBits(s)|..])
  {
    hide Decode, Descend, EncodeBits, AcceptedTail;
    CleanSplits(bits, s);
    if EncodeBits(s) <= bits {
      AcceptedTailEnds(bits[|EncodeBits(s)|..]);
    }
  }

  /** Section 5.2 of RFC 7541: at most seven bits, the most significant ones of EOS. */
  predicate RfcPadding(t: Bits) {
    |t| <= 7 && AllOnes(t)
  }

  /** Everything the RFC allows is accepted. */
  lemma RfcPaddingIsAccepted(t: Bits)
    requires RfcPadding(t)
    ensures AcceptedTail(t)
  {
    hide Descend, AcceptedTail;
    OnesAreUnfinished(|t|);
    assert t == Ones(|t|);
    AcceptedTailEnds(t);
  }

  /**
   * The tails beyond the RFC: unfinished ones with ones behind the finished lookups that are longer than seven bits
   * or have a zero within those lookups.
   */
  ghost predicate ForbiddenTail(t: Bits) {
    && Unfinished(t)
    && AllOnes(t[Completed(HPACK_STRING, t)..])
    && (|t| >= 8 || !AllOnes(t[..Completed(HPACK_STRING, t)]))
  }

  lemma ForbiddenTailsExactly(t: Bits)
    ensures AcceptedTail(t) && !RfcPadding(t) <==> ForbiddenTail(t)
  {
    hide Unfinished, Completed;
    var n := Completed(HPACK_STRING, t);
    if AllOnes(t[..n]) && AllOnes(t[n..]) {
      forall i | 0 <= i < |t| ensures t[i] {
        assert i >= n ==> t[i] == t[n..][i - n];
        assert i < n ==> t[i] == t[..n][i];
      }
    }
    if AllOnes(t) {
      assert forall i :: 0 <= i < n ==> t[..n][i] == t[i];
    }
  }

  /** An input decodes cleanly to s without being the RFC's encoding of s exactly when its tail is a forbidden one. */
  lemma LenientExactly(input: seq<byte>, s: seq<byte>)
    ensures Decode(BitsOf(input)) == Decoded(s, Clean) && input != EncodeString(s) <==>
              EncodeBits(s) <= BitsOf(input) && ForbiddenTail(BitsOf(input)[|EncodeBits(s)|..])
  {
    hide Decode, EncodeBits, AcceptedTail, ForbiddenTail, BitsOf, RfcPadding;
    CleanExactly(BitsOf(input), s);
    if EncodeBits(s) <= BitsOf(input) {
      CanonicalExactly(input, s);
      ForbiddenTailsExactly(BitsOf(input)[|EncodeBits(s)|..]);
    }
  }

  // ------------------------------------------------------- tails of at most seven bits, without the tables

  /** What the first five bits lead to: a symbol, one or two bits of symbols, or the longer codewords. */
  predicate SecondNode(v: nat, e: DecodeValue) {
    if v < 10 then e.Sym?
    else if v < 23 then e.Partial? && e.next.lookup == 1 && |e.next.table| == 2 && AllSymbols(e.next.table)
    else if v < 31 then e.Partial? && e.next.lookup == 2 && |e.next.table| == 4 && AllSymbols(e.next.table)
    else e.Partial? && e.next.lookup == 2 && |e.next.table| == 4 && NoSymbols(e.next.table)
  }

  predicate AllSymbols(table: seq<DecodeValue>) {
    forall i :: 0 <= i < |table| ==> table[i].Sym?
  }

  predicate NoSymbols(table: seq<DecodeValue>) {
    forall i :: 0 <= i < |table| ==> table[i].Partial? && table[i].next.lookup >= 1
  }

  lemma SecondNodes0(v: nat)
    requires 0 <= v < 10
    ensures |HPACK_STRING.table| == 32 && SecondNode(v, HPACK_STRING.table[v])
  {
  }

  lemma SecondNodes10(v: nat)
    requires 10 <= v < 16
    ensures |HPACK_STRING.table| == 32 && SecondNode(v, HPACK_STRING.table[v])
  {
    assert HPACK_STRING.table[10] == Partial(END0_01010);
    assert HPACK_STRING.table[11] == Partial(END0_01011);
    assert HPACK_STRING.table[12] == Partial(END0_01100);
    assert HPACK_STRING.table[13] == Partial(END0_01101);
    assert HPACK_STRING.table[14] == Partial(END0_01110);
    assert HPACK_STRING.table[15] == Partial(END0_01111);
  }

  lemma SecondNodes16(v: nat)
    requires 16 <= v < 23
    ensures |HPACK_STRING.table| == 32 && SecondNode(v, HPACK_STRING.table[v])
  {
    assert HPACK_STRING.table[16] == Partial(END0_10000);
    assert HPACK_STRING.table[17] == Partial(END0_10001);
    assert HPACK_STRING.table[18] == Partial(END0_10010);
    assert HPACK_STRING.table[19] == Partial(END0_10011);
    assert HPACK_STRING.table[20] == Partial(END0_10100);
    assert HPACK_STRING.table[21] == Partial(END0_10101);
    assert HPACK_STRING.table[22] == Partial(END0_10110);
  }

  lemma SecondNodes23(v: nat)
    requires 23 <= v < 28
    ensures |HPACK_STRING.table| == 32 && SecondNode(v, HPACK_STRING.table[v])
  {
    assert HPACK_STRING.table[23] == Partial(END0_10111);
    assert HPACK_STRING.table[24] == Partial(END0_11000);
    assert HPACK_STRING.table[25] == Partial(END0_11001);
    assert HPACK_STRING.table[26] == Partial(END0_11010);
    assert HPACK_STRING.table[27] == Partial(END0_11011);
  }

  lemma SecondNodes28(v: nat)
    requires 28 <= v < 32
    ensures |HPACK_STRING.table| == 32 && SecondNode(v, HPACK_STRING.table[v])
  {
    assert HPACK_STRING.table[28] == Partial(END0_11100);
    assert HPACK_STRING.table[29] == Partial(END0_11101);
    assert HPACK_STRING.table[30] == Partial(END0_11110);
    assert HPACK_STRING.table[31] == Partial(END0_11111);
  }

  lemma SecondNodes(v: nat)
    requires v < 32
    ensures |HPACK_STRING.table| == 32 && HPACK_STRING.lookup == 5 && SecondNode(v, HPACK_STRING.table[v])
  {
    assert HPACK_STRING.lookup == 5;
    hide SecondNode;
    if v < 10 { SecondNodes0(v); }
    else if v < 16 { SecondNodes10(v); }
    else if v < 23 { SecondNodes16(v); }
    else if v < 28 { SecondNodes23(v); }
    else { SecondNodes28(v); }
  }

  /** Bits that do not fill a lookup. */
  lemma ShortRest(d: HuffmanDecoder, rest: Bits)
    requires |rest| < d.lookup
    ensures Descend(d, rest) == End <==> AllOnes(rest)
  {
    hide ValueOf;
  }

  lemma SymbolsOnly(d: HuffmanDecoder, rest: Bits)
    requires |d.table| == Pow2(d.lookup) && AllSymbols(d.table) && d.lookup <= |rest|
    ensures Descend(d, rest) != End
  {
    assert ValueOf(rest[..d.lookup]) < Pow2(|rest[..d.lookup]|);
    hide ValueOf, Pow2;
  }

  lemma LongerOnly(d: HuffmanDecoder, rest: Bits)
    requires |d.table| == Pow2(d.lookup) && NoSymbols(d.table) && d.lookup == |rest|
    ensures Descend(d, rest) == End
  {
    var v := ValueOf(rest[..d.lookup]);
    assert v < Pow2(|rest[..d.lookup]|);
    hide ValueOf, Pow2;
    assert rest[d.lookup..] == [];
    assert AllOnes([]);
  }

  /** Where at most two bits at a node end the string. */
  lemma EndsAtSecondNode(v: nat, e: DecodeValue, rest: Bits)
    requires SecondNode(v, e) && 10 <= v < 32 && |rest| <= 2
    ensures e.Partial?
    ensures Descend(e.next, rest) == End <==>
              |rest| == 0 || (|rest| == 1 && v >= 23 && rest[0]) || (|rest| == 2 && v == 31)
  {
    assert Pow2(1) == 2 && Pow2(2) == 4;
    hide Pow2, ValueOf, Descend, AllSymbols, NoSymbols;
    if |rest| < e.next.lookup {
      ShortRest(e.next, rest);
    } else if v < 31 {
      SymbolsOnly(e.next, rest);
    } else {
      LongerOnly(e.next, rest);
    }
  }

  /** The first lookup of a string. */
  lemma FirstLookup(t: Bits, v: nat, e: DecodeValue)
    requires |t| >= 5 && v == ValueOf(t[..5]) < |HPACK_STRING.table| && HPACK_STRING.lookup == 5
    requires e == HPACK_STRING.table[v]
    ensures Descend(HPACK_STRING, t) == if e.Sym? then Symbol(e.symbol, 5) else Descend(e.next, t[5..]).After(5)
  {
    hide ValueOf;
  }

  lemma FiveBits(t: Bits)
    requires |t| == 5
    ensures ValueOf(t) < 32
  {
    SmallPowers();
    hide Pow2;
  }

  lemma RootIsFive()
    ensures HPACK_STRING.lookup == 5
  {
  }

  /** Five to seven bits. */
  lemma SecondLookup(t: Bits)
    requires 5 <= |t| <= 7
    ensures var v := ValueOf(t[..5]);
            Descend(HPACK_STRING, t) == End <==>
              v >= 10 && (|t| == 5 || (|t| == 6 && v >= 23 && t[5]) || (|t| == 7 && v == 31))
  {
    hide ValueOf, Descend, SecondNode;
    var v := ValueOf(t[..5]);
    FiveBits(t[..5]);
    SecondNodes(v);
    var e := HPACK_STRING.table[v];
    FirstLookup(t, v, e);
    if v >= 10 {
      EndsAtSecondNode(v, e, t[5..]);
    } else {
      FirstTen(v, e);
    }
  }

  lemma FirstTen(v: nat, e: DecodeValue)
    requires SecondNode(v, e) && v < 10
    ensures e.Sym?
  {
  }

  /**
   * Tails of at most seven bits, by their bits alone: fewer than five are ones; five have a value of at least 10; six
   * start with a value of at least 23 and end in a one; seven start with 11111.
   */
  lemma ShortTailsExactly(t: Bits)
    requires |t| <= 7
    ensures AcceptedTail(t) <==>
              if |t| < 5 then AllOnes(t)
              else if |t| == 5 then ValueOf(t) >= 10
              else if |t| == 6 then ValueOf(t[..5]) >= 23 && t[5]
              else ValueOf(t[..5]) == 31
  {
    hide *;
    AcceptedTailEnds(t);
    RootIsFive();
    if |t| < 5 {
      ShortRest(HPACK_STRING, t);
    } else {
      SecondLookup(t);
      assert |t| == 5 ==> t[..5] == t;
    }
  }

  /** Of the inputs that start with the codewords of s, the RFC's encoding is the one with padding it allows. */
  lemma CanonicalExactly(input: seq<byte>, s: seq<byte>)
    requires EncodeBits(s) <= BitsOf(input)
    ensures input == EncodeString(s) <==> RfcPadding(BitsOf(input)[|EncodeBits(s)|..])
  {
    hide EncodeBits, BitsOf, Pack;
    var code := EncodeBits(s);
    var t := BitsOf(input)[|code|..];
    PackBits(code + Ones(PadLength(|code|)));
    assert BitsOf(EncodeString(s)) == code + Ones(PadLength(|code|));
    assert BitsOf(input) == code + t;
    hide EncodeString;
    if input == EncodeString(s) {
      SamePrefix(code, t, Ones(PadLength(|code|)));
    }
    if RfcPadding(t) {
      PadIsUnique(|code|, t);
      BitsInjective(input, EncodeString(s));
    }
  }

  lemma SamePrefix(a: Bits, b: Bits, c: Bits)
    requires a + b == a + c
    ensures b == c
  {
    assert b == (a + b)[|a|..];
    assert c == (a + c)[|a|..];
  }

  lemma PadIsUnique(n: nat, t: Bits)
    requires RfcPadding(t) && (n + |t|) % 8 == 0
    ensures t == Ones(PadLength(n))
  {
    assert |t| == PadLength(n);
  }

  lemma {:induction false} BitsInjective(a: seq<byte>, b: seq<byte>)
    requires BitsOf(a) == BitsOf(b)
    ensures a == b
  {
    assert |BitsOf(a)| == 8 * |a|;
    if a != [] {
      FirstByte(a);
      FirstByte(b);
      ValueSpell(a[0], 8);
      ValueSpell(b[0], 8);
      BitsOfDrop(a, 1);
      BitsOfDrop(b, 1);
      hide BitsOf, ValueOf, Spell;
      BitsInjective(a[1..], b[1..]);
      assert a == [a[0]] + a[1..] && b == [b[0]] + b[1..];
    }
  }

  /** A two-byte input with forbidden padding: the codeword of '|', eleven bits, and then 01010. */
  lemma LenientPadding()
    ensures var input: seq<byte> := [0xFF, 0x8A];
            && BitsOf(input) == CodeBits(124) + [false, true, false, true, false]
            && Decode(BitsOf(input)) == Decoded([124], Clean)
            && input != EncodeString([124])
  {
    var input: seq<byte> := [0xFF, 0x8A];
    var t := [false, true, false, true, false];
    BarAndTail(input, t);
    TailIsAccepted(t);
    hide Decode, CodeBits, AcceptedTail, ForbiddenTail, BitsOf;
    OneSymbol(124);
    assert BitsOf(input)[|CodeBits(124)|..] == t;
    assert !AllOnes(t) by {
      assert !t[0];
    }
    assert |t| == 5 && !RfcPadding(t);
    ForbiddenTailsExactly(t);
    LenientExactly(input, [124]);
  }

  lemma OneSymbol(s: byte)
    ensures EncodeBits([s]) == CodeBits(s)
  {
    hide CodeBits;
    assert [s][1..] == [] && CodeBits(s) + EncodeBits([]) == CodeBits(s);
  }

  lemma BarAndTail(input: seq<byte>, t: Bits)
    requires input == [0xFF, 0x8A] && t == [false, true, false, true, false]
    ensures BitsOf(input) == CodeBits(124) + t
  {
    hide *;
    InputValue(input);
    BarValue(t);
    ValueInjective(BitsOf(input), CodeBits(124) + t);
  }

  lemma InputValue(input: seq<byte>)
    requires input == [0xFF, 0x8A]
    ensures |BitsOf(input)| == 16 && ValueOf(BitsOf(input)) == 0xFF8A
  {
    SmallPowers();
    FirstTwoBytes(input);
    hide ValueOf, Spell, Pow2, BitsOf;
    ValueSpell(0xFF, 8);
    ValueSpell(0x8A, 8);
    ValueConcat(Spell(0xFF, 8), Spell(0x8A, 8));
    assert BitsOf(input)[..16] == BitsOf(input);
  }

  lemma BarValue(t: Bits)
    requires t == [false, true, false, true, false]
    ensures |CodeBits(124) + t| == 16 && ValueOf(CodeBits(124) + t) == 0xFF8A
  {
    BarCode();
    TenInFiveBits(t);
    SmallPowers();
    assert |CodeBits(124)| == 11 && ValueOf(CodeBits(124)) == 0x7fc;
    hide *;
    ValueConcat(CodeBits(124), t);
  }

  /** The codeword of '|' is eleven bits: 11111111100. */
  lemma BarCode()
    ensures Code(124) == Codeword(0x7fc, 11)
  {
  }

  lemma TailIsAccepted(t: Bits)
    requires t == [false, true, false, true, false]
    ensures AcceptedTail(t)
  {
    SmallPowers();
    TenInFiveBits(t);
    assert t[..5] == t && t[5..] == [];
    assert HPACK_STRING.table[10] == Partial(END0_01010);
    assert Descend(HPACK_STRING, t) == End;
    hide Descend;
    AcceptedTailEnds(t);
  }

  lemma TenInFiveBits(t: Bits)
    requires t == [false, true, false, true, false]
    ensures ValueOf(t) == 10
  {
    SmallPowers();
    assert t[1..] == [true, false, true, false];
    assert t[1..][1..] == [false, true, false];
    assert t[1..][1..][1..] == [true, false];
    assert t[1..][1..][1..][1..] == [false];
    assert t[1..][1..][1..][1..][1..] == [];
    assert ValueOf(t[1..][1..][1..][1..]) == 0;
    assert ValueOf(t[1..][1..][1..]) == 2;
    assert ValueOf(t[1..][1..]) == 2;
    assert ValueOf(t[1..]) == 10;
  }
}
