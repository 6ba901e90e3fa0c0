/** What the Huffman decoder decodes, in terms of the codewords of Appendix B of RFC 7541. */
module HuffmanTheorems {
  import opened Bytes
  import opened Bits
  import opened Huffman
  import opened HuffmanTable
  import opened HuffmanCode
  import HuffmanTableProof

  /** The decoder of this repository. */
  function Decode(bits: Bits): Decoded {
    Run(HPACK_STRING, bits)
  }

  // ------------------------------------------------------- one descent

  lemma {:induction false} ImplementsIsWellFormed(d: HuffmanDecoder, v: nat, l: nat)
    requires Implements(d, v, l)
    ensures WellFormed(d)
    decreases d
  {
    forall i | 0 <= i < |d.table| && d.table[i].Partial?
      ensures WellFormed(d.table[i].next)
    {
      ImplementsIsWellFormed(d.table[i].next, v * Pow2(d.lookup) + i, l + d.lookup);
    }
  }

  lemma DecoderIsWellFormed()
    ensures WellFormed(HPACK_STRING)
  {
    hide Implements, WellFormed, Reaches;
    HuffmanTableProof.TableImplementsCode();
    ImplementsIsWellFormed(HPACK_STRING, 0, 0);
  }

  /** A value read as a prefix and a suffix. */
  lemma PathValue(v: nat, a: Bits, b: Bits)
    ensures (v * Pow2(|a|) + ValueOf(a)) * Pow2(|b|) + ValueOf(b) == v * Pow2(|a + b|) + ValueOf(a + b)
  {
    hide Pow2, ValueOf;
    ValueConcat(a, b);
    Pow2Add(|a|, |b|);
    Distribute(v * Pow2(|a|), ValueOf(a), Pow2(|b|));
    Associate(v, Pow2(|a|), Pow2(|b|));
  }

  lemma EntryImplements(d: HuffmanDecoder, v: nat, l: nat, i: nat)
    requires Implements(d, v, l) && i < |d.table|
    ensures match d.table[i]
            case Sym(s) => Code(s) == Codeword(v * Pow2(d.lookup) + i, l + d.lookup)
            case Partial(next) => Implements(next, v * Pow2(d.lookup) + i, l + d.lookup)
    ensures d.lookup >= 1
  {
    hide Code;
    assert EntryOk(d.table[i], v * Pow2(d.lookup) + i, l + d.lookup);
  }

  lemma EmptyNodeIsEos(d: HuffmanDecoder, v: nat, l: nat)
    requires Implements(d, v, l) && d.table == []
    ensures d.lookup == 8 && l == 30 && v * Pow2(0) + ValueOf([]) == EOS
  {
  }

  lemma FullNode(d: HuffmanDecoder, v: nat, l: nat)
    requires Implements(d, v, l) && d.table != []
    ensures |d.table| == Pow2(d.lookup)
  {
  }

  /** A symbol is reached exactly along its codeword. */
  lemma {:induction false} SymbolAtCodeword(d: HuffmanDecoder, v: nat, l: nat, bits: Bits)
    requires Implements(d, v, l)
    requires Descend(d, bits).Symbol?
    ensures var r := Descend(d, bits);
            Code(r.symbol) == Codeword(v * Pow2(r.used) + ValueOf(bits[..r.used]), l + r.used)
    decreases d
  {
    hide Code, Pow2, ValueOf, Implements;
    var head, rest := bits[..d.lookup], bits[d.lookup..];
    var i := ValueOf(head);
    EntryImplements(d, v, l, i);
    match d.table[i]
    case Sym(s) =>
    case Partial(next) =>
      SymbolAtCodeword(next, v * Pow2(d.lookup) + i, l + d.lookup, rest);
      var used := Descend(next, rest).used;
      PathValue(v, head, rest[..used]);
      assert head + rest[..used] == bits[..d.lookup + used];
  }

  /** The only lookups outside the tables come eight bits after EOS. */
  lemma {:induction false} DeadEndIsEos(d: HuffmanDecoder, v: nat, l: nat, bits: Bits)
    requires Implements(d, v, l)
    requires Descend(d, bits).Dead?
    ensures var at := Descend(d, bits).at;
            at + 8 <= |bits| && l + at == 30 && v * Pow2(at) + ValueOf(bits[..at]) == EOS
    decreases d
  {
    hide Code, Pow2, ValueOf, Implements;
    if d.table == [] {
      EmptyNodeIsEos(d, v, l);
      assert bits[..0] == [];
    } else {
      var head, rest := bits[..d.lookup], bits[d.lookup..];
      var i := ValueOf(head);
      FullNode(d, v, l);
      EntryImplements(d, v, l, i);
      var next := d.table[i].next;
      DeadEndIsEos(next, v * Pow2(d.lookup) + i, l + d.lookup, rest);
      var at := Descend(next, rest).at;
      PathValue(v, head, rest[..at]);
      assert head + rest[..at] == bits[..d.lookup + at];
    }
  }

  /** Only the bits of the codeword matter for the symbol. */
  lemma {:induction false} SymbolStable(d: HuffmanDecoder, bits: Bits, more: Bits)
    requires Descend(d, bits).Symbol?
    ensures Descend(d, bits[..Descend(d, bits).used] + more) == Descend(d, bits)
    decreases d
  {
    hide ValueOf;
    var r := Descend(d, bits);
    var b := bits[..r.used] + more;
    assert b[..d.lookup] == bits[..d.lookup];
    var i := ValueOf(bits[..d.lookup]);
    if d.table[i].Partial? {
      var next, rest := d.table[i].next, bits[d.lookup..];
      SymbolStable(next, rest, more);
      assert b[d.lookup..] == rest[..Descend(next, rest).used] + more;
    }
  }

  /** Following table entries spells a path. */
  lemma {:induction false} ReachedByPath(d: HuffmanDecoder, v: nat, l: nat, s: byte) returns (path: Bits)
    requires Implements(d, v, l) && Reaches(d, s)
    ensures Descend(d, path) == Symbol(s, |path|)
    decreases d
  {
    hide Code, Implements, Pow2, ValueOf;
    var i :| 0 <= i < |d.table|
      && match d.table[i] { case Sym(x) => x == s case Partial(next) => Reaches(next, s) };
    FullNode(d, v, l);
    EntryImplements(d, v, l, i);
    var head := Spell(i, d.lookup);
    ValueSpell(i, d.lookup);
    match d.table[i]
    case Sym(_) =>
      path := head;
      assert path[..d.lookup] == head;
    case Partial(next) =>
      var rest := ReachedByPath(next, v * Pow2(d.lookup) + i, l + d.lookup, s);
      path := head + rest;
      assert path[..d.lookup] == head && path[d.lookup..] == rest;
  }

  // ------------------------------------------------------- the code as bit strings

  lemma CodeIsPath(s: byte)
    ensures Code(s).value < Pow2(Code(s).length) && Code(s).length >= 1
    ensures var c := Spell(Code(s).value, Code(s).length); Descend(HPACK_STRING, c) == Symbol(s, |c|)
  {
    HuffmanTableProof.TableImplementsCode();
    hide Code, Implements, Reaches, ValueOf, Pow2, Descend;
    var path := ReachedByPath(HPACK_STRING, 0, 0, s);
    SymbolAtCodeword(HPACK_STRING, 0, 0, path);
    assert path[..|path|] == path;
    SpellValue(path);
    assert HPACK_STRING.lookup >= 1;
  }

  /** The codeword of a symbol. */
  ghost function CodeBits(s: byte): (c: Bits)
    ensures |c| == Code(s).length && |c| >= 1 && ValueOf(c) == Code(s).value
  {
    CodeIsPath(s);
    ValueSpell(Code(s).value, Code(s).length);
    Spell(Code(s).value, Code(s).length)
  }

  /** The codewords of a string, one after the other. */
  ghost function EncodeBits(s: seq<byte>): Bits {
    if s == [] then [] else CodeBits(s[0]) + EncodeBits(s[1..])
  }

  lemma CodewordDecodes(s: byte, more: Bits)
    ensures Descend(HPACK_STRING, CodeBits(s) + more) == Symbol(s, |CodeBits(s)|)
  {
    hide Code, Spell, Descend;
    CodeIsPath(s);
    SymbolStable(HPACK_STRING, CodeBits(s), more);
    assert CodeBits(s)[..|CodeBits(s)|] == CodeBits(s);
  }

  lemma DecodedIsCodeword(bits: Bits)
    requires Descend(HPACK_STRING, bits).Symbol?
    ensures var r := Descend(HPACK_STRING, bits); bits[..r.used] == CodeBits(r.symbol)
  {
    HuffmanTableProof.TableImplementsCode();
    hide Code, Implements, Reaches, ValueOf, Pow2, Descend, CodeBits;
    var r := Descend(HPACK_STRING, bits);
    SymbolAtCodeword(HPACK_STRING, 0, 0, bits);
    ValueInjective(bits[..r.used], CodeBits(r.symbol));
  }

  /** The code is prefix free. */
  lemma CodePrefixFree(a: byte, b: byte)
    requires CodeBits(a) <= CodeBits(b)
    ensures a == b
  {
    hide Code, CodeBits, Descend;
    var more := CodeBits(b)[|CodeBits(a)|..];
    assert CodeBits(a) + more == CodeBits(b);
    CodewordDecodes(a, more);
    CodewordDecodes(b, []);
    assert CodeBits(b) + [] == CodeBits(b);
  }

  // ------------------------------------------------------- whole strings

  /** Decoding an encoded prefix and then the rest. */
  lemma {:induction false} DecodePrefix(s: seq<byte>, t: Bits)
    ensures Decode(EncodeBits(s) + t) == Decoded(s + Decode(t).out, Decode(t).stop)
  {
    hide Code, CodeBits, Descend;
    var all := EncodeBits(s) + t;
    if s == [] {
      assert all == t;
      assert s + Decode(t).out == Decode(t).out;
    } else {
      var c, rest := CodeBits(s[0]), EncodeBits(s[1..]) + t;
      assert all == c + rest;
      CodewordDecodes(s[0], rest);
      assert all[|c|..] == rest;
      DecodePrefix(s[1..], t);
      assert [s[0]] + (s[1..] + Decode(t).out) == s + Decode(t).out;
    }
  }

  lemma DecodeSymbol(bits: Bits)
    requires Descend(HPACK_STRING, bits).Symbol?
    ensures var r := Descend(HPACK_STRING, bits);
            r.used >= 1 && Decode(bits) == Decoded([r.symbol] + Decode(bits[r.used..]).out, Decode(bits[r.used..]).stop)
  {
    hide Descend;
    assert HPACK_STRING.lookup >= 1;
  }

  /** Whatever the input, the output's codewords open it, and what remains holds no further symbol. */
  lemma {:induction false} DecodeSplits(bits: Bits) returns (t: Bits)
    ensures bits == EncodeBits(Decode(bits).out) + t
    ensures !Descend(HPACK_STRING, t).Symbol?
    ensures Decode(bits).stop == StopOn(Descend(HPACK_STRING, t))
    decreases |bits|
  {
    hide Code, CodeBits, Descend, Decode;
    var r := Descend(HPACK_STRING, bits);
    if r.Symbol? {
      DecodedIsCodeword(bits);
      DecodeSymbol(bits);
      t := DecodeSplits(bits[r.used..]);
      var out := Decode(bits[r.used..]).out;
      assert ([r.symbol] + out)[1..] == out;
      assert bits == bits[..r.used] + bits[r.used..];
    } else {
      t := bits;
      DecodeTail(bits);
    }
  }

  /** A tail without a symbol decides alone how decoding stops. */
  lemma DecodeTail(t: Bits)
    requires !Descend(HPACK_STRING, t).Symbol?
    ensures Decode(t) == Decoded([], StopOn(Descend(HPACK_STRING, t)))
  {
  }

  /** Soundness and completeness: a clean stop with output s means codewords of s and an unfinished tail. */
  lemma CleanSplits(bits: Bits, s: seq<byte>)
    ensures Decode(bits) == Decoded(s, Clean)
       <==> EncodeBits(s) <= bits && Descend(HPACK_STRING, bits[|EncodeBits(s)|..]) == End
  {
    hide Code, CodeBits, Descend, Decode;
    if Decode(bits) == Decoded(s, Clean) {
      var t := DecodeSplits(bits);
      assert bits[|EncodeBits(s)|..] == t;
    }
    if EncodeBits(s) <= bits && Descend(HPACK_STRING, bits[|EncodeBits(s)|..]) == End {
      var t := bits[|EncodeBits(s)|..];
      assert bits == EncodeBits(s) + t;
      DecodePrefix(s, t);
      DecodeTail(t);
      assert s + [] == s;
    }
  }

  /** `Unhandled` means the thirty ones of EOS and at least eight bits after them. */
  lemma UnhandledExactly(bits: Bits, s: seq<byte>)
    ensures Decode(bits) == Decoded(s, NoSymbol)
       <==> exists t :: bits == EncodeBits(s) + (Ones(30) + t) && |t| >= 8
  {
    hide Code, CodeBits, Descend, Decode;
    if Decode(bits) == Decoded(s, NoSymbol) {
      var t := DecodeSplits(bits);
      DeadAfterEos(t);
      assert t == Ones(30) + t[30..];
    }
    if t :| bits == EncodeBits(s) + (Ones(30) + t) && |t| >= 8 {
      EosIsDead(t);
      DecodePrefix(s, Ones(30) + t);
      DecodeTail(Ones(30) + t);
      assert s + [] == s;
    }
  }

  lemma DeadAfterEos(t: Bits)
    requires Descend(HPACK_STRING, t).Dead?
    ensures |t| >= 38 && t[..30] == Ones(30)
  {
    HuffmanTableProof.TableImplementsCode();
    hide Code, Implements, Reaches, Descend;
    DeadEndIsEos(HPACK_STRING, 0, 0, t);
    OnesValue(30);
    EosValue();
    ValueInjective(t[..30], Ones(30));
  }

  lemma EosValue()
    ensures Pow2(30) == EOS + 1
  {
    SmallPowers();
    Pow2Add(16, 8);
    Pow2Add(24, 6);
  }

  lemma OnesValue(n: nat)
    ensures ValueOf(Ones(n)) == Pow2(n) - 1
  {
    AllOnesValue(Ones(n));
  }

  /** Bits from which no symbol comes do not start with any codeword. */
  lemma TailHoldsNoCodeword(t: Bits, s: byte)
    requires !Descend(HPACK_STRING, t).Symbol?
    ensures !(CodeBits(s) <= t)
  {
    hide Code, CodeBits, Descend;
    if CodeBits(s) <= t {
      var more := t[|CodeBits(s)|..];
      assert CodeBits(s) + more == t;
      CodewordDecodes(s, more);
    }
  }

  // ------------------------------------------------------- padding with ones

  lemma OnesStep(d: HuffmanDecoder, next: HuffmanDecoder, k: nat, more: Bits)
    requires d.lookup <= k && |d.table| == Pow2(d.lookup)
    requires d.table[|d.table| - 1] == Partial(next)
    ensures Descend(d, Ones(k) + more) == Descend(next, Ones(k - d.lookup) + more).After(d.lookup)
  {
    var b := Ones(k) + more;
    assert b[..d.lookup] == Ones(d.lookup);
    assert b[d.lookup..] == Ones(k - d.lookup) + more;
    OnesValue(d.lookup);
  }

  lemma OnesShort(d: HuffmanDecoder, k: nat, t: Bits)
    requires k < d.lookup
    ensures t == [] ==> Descend(d, Ones(k) + t) == End
  {
    assert Ones(k) + [] == Ones(k);
  }

  /** Thirty ones lead to the node behind EOS, whose empty table is a dead end. */
  lemma EosIsDead(t: Bits)
    requires |t| >= 8
    ensures Descend(HPACK_STRING, Ones(30) + t).Dead?
  {
    hide Descend, Pow2, ValueOf;
    OnesDescent(30, t);
    DeadNode(EOF, Ones(0) + t);
  }

  lemma DeadNode(d: HuffmanDecoder, t: Bits)
    requires d.table == [] && d.lookup <= |t|
    ensures Descend(d, t).Dead?
  {
  }

  /** Ones alone are an unfinished codeword as long as they end before the lookup behind EOS. */
  lemma OnesDescent(k: nat, t: Bits)
    requires k <= 30
    ensures k < 30 && t == [] ==> Descend(HPACK_STRING, Ones(k) + t) == End
    ensures k == 30 ==> Descend(HPACK_STRING, Ones(k) + t) == Descend(EOF, Ones(0) + t).After(30)
  {
    SmallPowers();
    hide Pow2, ValueOf, Descend;
    if k < 5 { OnesShort(HPACK_STRING, k, t); return; }
    OnesStep(HPACK_STRING, END0_11111, k, t);
    OnesDescent7(k - 5, t);
  }

  lemma OnesDescent7(k: nat, t: Bits)
    requires k <= 25
    ensures k < 25 && t == [] ==> Descend(END0_11111, Ones(k) + t) == End
    ensures k == 25 ==> Descend(END0_11111, Ones(k) + t) == Descend(EOF, Ones(0) + t).After(25)
  {
    SmallPowers();
    hide Pow2, ValueOf, Descend;
    if k < 2 { OnesShort(END0_11111, k, t); return; }
    OnesStep(END0_11111, END5_11, k, t);
    if k < 3 { OnesShort(END5_11, k - 2, t); return; }
    OnesStep(END5_11, END7_1, k - 2, t);
    if k < 4 { OnesShort(END7_1, k - 3, t); return; }
    OnesStep(END7_1, END8_1, k - 3, t);
    if k < 6 { OnesShort(END8_1, k - 4, t); return; }
    OnesStep(END8_1, END9B_11, k - 4, t);
    OnesDescent15(k - 6, t);
  }

  lemma OnesDescent15(k: nat, t: Bits)
    requires k <= 19
    ensures k < 19 && t == [] ==> Descend(END9B_11, Ones(k) + t) == End
    ensures k == 19 ==> Descend(END9B_11, Ones(k) + t) == Descend(EOF, Ones(0) + t).After(19)
  {
    SmallPowers();
    hide Pow2, ValueOf, Descend;
    if k < 2 { OnesShort(END9B_11, k, t); return; }
    OnesStep(END9B_11, END13_11, k, t);
    if k < 3 { OnesShort(END13_11, k - 2, t); return; }
    OnesStep(END13_11, END14_1, k - 2, t);
    if k < 4 { OnesShort(END14_1, k - 3, t); return; }
    OnesStep(END14_1, END15_1, k - 3, t);
    if k < 8 { OnesShort(END15_1, k - 4, t); return; }
    OnesStep(END15_1, END19_1111, k - 4, t);
    OnesDescent23(k - 8, t);
  }

  lemma OnesDescent23(k: nat, t: Bits)
    requires k <= 11
    ensures k < 11 && t == [] ==> Descend(END19_1111, Ones(k) + t) == End
    ensures k == 11 ==> Descend(END19_1111, Ones(k) + t) == Descend(EOF, Ones(0) + t).After(11)
  {
    SmallPowers();
    hide Pow2, ValueOf, Descend;
    if k < 4 { OnesShort(END19_1111, k, t); return; }
    OnesStep(END19_1111, END23B_1111, k, t);
    if k < 8 { OnesShort(END23B_1111, k - 4, t); return; }
    OnesStep(END23B_1111, END27B_1111, k - 4, t);
    if k < 9 { OnesShort(END27B_1111, k - 8, t); return; }
    OnesStep(END27B_1111, END31_1, k - 8, t);
    if k < 11 { OnesShort(END31_1, k - 9, t); return; }
    OnesStep(END31_1, EOF, k - 9, t);
  }

  /** Padding with ones is accepted up to 37 bits, although section 5.2 of RFC 7541 allows at most 7. */
  lemma OnesPadding(s: seq<byte>, k: nat)
    ensures Decode(EncodeBits(s) + Ones(k)) == Decoded(s, Clean) <==> k < 38
  {
    hide Code, CodeBits, Descend, Decode;
    DecodePrefix(s, Ones(k));
    assert s + [] == s;
    if k < 38 {
      OnesAreUnfinished(k);
      DecodeTail(Ones(k));
    } else {
      EosIsDead(Ones(k - 30));
      assert Ones(k) == Ones(30) + Ones(k - 30);
      DecodeTail(Ones(k));
    }
  }

  lemma OnesAreUnfinished(k: nat)
    requires k < 38
    ensures Descend(HPACK_STRING, Ones(k)) == End
  {
    hide ValueOf;
    if k < 30 {
      OnesDescent(k, []);
      assert Ones(k) + [] == Ones(k);
    } else {
      OnesDescent(30, Ones(k - 30));
      assert Ones(30) + Ones(k - 30) == Ones(k);
      assert Ones(0) + Ones(k - 30) == Ones(k - 30);
    }
  }

  // ------------------------------------------------------- whole bytes

  function Pack(b: Bits): (s: seq<byte>)
    requires |b| % 8 == 0
    ensures |s| == |b| / 8
  {
    if b == [] then []
    else
      SmallPowers();
      [ValueOf(b[..8])] + Pack(b[8..])
  }

  lemma {:induction false} PackBits(b: Bits)
    requires |b| % 8 == 0
    ensures BitsOf(Pack(b)) == b
  {
    if b != [] {
      var s := Pack(b);
      PackBits(b[8..]);
      assert s[1..] == Pack(b[8..]);
      BitsOfDrop(s, 1);
      FirstByte(s);
      SpellValue(b[..8]);
      assert BitsOf(s) == BitsOf(s)[..8] + BitsOf(s)[8..];
      assert b == b[..8] + b[8..];
    }
  }

  /** The encoder of section 5.2 of RFC 7541: codewords, then ones up to the byte boundary. */
  ghost function EncodeString(s: seq<byte>): seq<byte> {
    Pack(EncodeBits(s) + Ones(PadLength(|EncodeBits(s)|)))
  }

  /** The number of padding bits, at most seven. */
  function PadLength(n: nat): (p: nat)
    ensures p < 8 && (n + p) % 8 == 0
  {
    if n % 8 == 0 then 0 else 8 - n % 8
  }

  /** Every byte string survives Huffman coding. */
  lemma HuffmanRoundTrip(s: seq<byte>)
    ensures Decode(BitsOf(EncodeString(s))) == Decoded(s, Clean)
  {
    hide Code, CodeBits, Descend, Decode, Pack;
    var pad := PadLength(|EncodeBits(s)|);
    PackBits(EncodeBits(s) + Ones(pad));
    OnesPadding(s, pad);
  }
}
