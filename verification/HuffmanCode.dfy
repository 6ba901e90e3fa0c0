/** The Huffman code of Appendix B of RFC 7541, and the proof that the decoding table implements it. */
module HuffmanCode {
  import opened Bytes
  import opened Bits
  import opened Huffman

  datatype Codeword = Codeword(value: nat, length: nat)

  function Pick(k: int, a: Codeword, b: Codeword, c: Codeword, d: Codeword): Codeword {
    if k == 0 then a else if k == 1 then b else if k == 2 then c else d
  }

  /** The codeword of a symbol: its value and its length in bits. */
  function Code(s: byte): Codeword {
    if s < 0x80 then
      if s < 0x40 then
        if s < 0x20 then if s < 0x10 then Row0(s) else Row1(s)
        else if s < 0x30 then Row2(s) else Row3(s)
      else if s < 0x60 then if s < 0x50 then Row4(s) else Row5(s)
      else if s < 0x70 then Row6(s) else Row7(s)
    else if s < 0xc0 then
      if s < 0xa0 then if s < 0x90 then Row8(s) else Row9(s)
      else if s < 0xb0 then RowA(s) else RowB(s)
    else if s < 0xe0 then if s < 0xd0 then RowC(s) else RowD(s)
    else if s < 0xf0 then RowE(s) else RowF(s)
  }

  function Row0(s: byte): Codeword {
    if s < 0x04 then
      Pick(s - 0x00, Codeword(0x1ff8, 13), Codeword(0x7fffd8, 23),
           Codeword(0xfffffe2, 28), Codeword(0xfffffe3, 28))
    else if s < 0x08 then
      Pick(s - 0x04, Codeword(0xfffffe4, 28), Codeword(0xfffffe5, 28),
           Codeword(0xfffffe6, 28), Codeword(0xfffffe7, 28))
    else if s < 0x0c then
      Pick(s - 0x08, Codeword(0xfffffe8, 28), Codeword(0xffffea, 24),
           Codeword(0x3ffffffc, 30), Codeword(0xfffffe9, 28))
    else
      Pick(s - 0x0c, Codeword(0xfffffea, 28), Codeword(0x3ffffffd, 30),
           Codeword(0xfffffeb, 28), Codeword(0xfffffec, 28))
  }

  function Row1(s: byte): Codeword {
    if s < 0x14 then
      Pick(s - 0x10, Codeword(0xfffffed, 28), Codeword(0xfffffee, 28),
           Codeword(0xfffffef, 28), Codeword(0xffffff0, 28))
    else if s < 0x18 then
      Pick(s - 0x14, Codeword(0xffffff1, 28), Codeword(0xffffff2, 28),
           Codeword(0x3ffffffe, 30), Codeword(0xffffff3, 28))
    else if s < 0x1c then
      Pick(s - 0x18, Codeword(0xffffff4, 28), Codeword(0xffffff5, 28),
           Codeword(0xffffff6, 28), Codeword(0xffffff7, 28))
    else
      Pick(s - 0x1c, Codeword(0xffffff8, 28), Codeword(0xffffff9, 28),
           Codeword(0xffffffa, 28), Codeword(0xffffffb, 28))
  }

  function Row2(s: byte): Codeword {
    if s < 0x24 then
      Pick(s - 0x20, Codeword(0x14, 6), Codeword(0x3f8, 10),
           Codeword(0x3f9, 10), Codeword(0xffa, 12))
    else if s < 0x28 then
      Pick(s - 0x24, Codeword(0x1ff9, 13), Codeword(0x15, 6),
           Codeword(0xf8, 8), Codeword(0x7fa, 11))
    else if s < 0x2c then
      Pick(s - 0x28, Codeword(0x3fa, 10), Codeword(0x3fb, 10),
           Codeword(0xf9, 8), Codeword(0x7fb, 11))
    else
      Pick(s - 0x2c, Codeword(0xfa, 8), Codeword(0x16, 6),
           Codeword(0x17, 6), Codeword(0x18, 6))
  }

  function Row3(s: byte): Codeword {
    if s < 0x34 then
      Pick(s - 0x30, Codeword(0x0, 5), Codeword(0x1, 5),
           Codeword(0x2, 5), Codeword(0x19, 6))
    else if s < 0x38 then
      Pick(s - 0x34, Codeword(0x1a, 6), Codeword(0x1b, 6),
           Codeword(0x1c, 6), Codeword(0x1d, 6))
    else if s < 0x3c then
      Pick(s - 0x38, Codeword(0x1e, 6), Codeword(0x1f, 6),
           Codeword(0x5c, 7), Codeword(0xfb, 8))
    else
      Pick(s - 0x3c, Codeword(0x7ffc, 15), Codeword(0x20, 6),
           Codeword(0xffb, 12), Codeword(0x3fc, 10))
  }

  function Row4(s: byte): Codeword {
    if s < 0x44 then
      Pick(s - 0x40, Codeword(0x1ffa, 13), Codeword(0x21, 6),
           Codeword(0x5d, 7), Codeword(0x5e, 7))
    else if s < 0x48 then
      Pick(s - 0x44, Codeword(0x5f, 7), Codeword(0x60, 7),
           Codeword(0x61, 7), Codeword(0x62, 7))
    else if s < 0x4c then
      Pick(s - 0x48, Codeword(0x63, 7), Codeword(0x64, 7),
           Codeword(0x65, 7), Codeword(0x66, 7))
    else
      Pick(s - 0x4c, Codeword(0x67, 7), Codeword(0x68, 7),
           Codeword(0x69, 7), Codeword(0x6a, 7))
  }

  function Row5(s: byte): Codeword {
    if s < 0x54 then
      Pick(s - 0x50, Codeword(0x6b, 7), Codeword(0x6c, 7),
           Codeword(0x6d, 7), Codeword(0x6e, 7))
    else if s < 0x58 then
      Pick(s - 0x54, Codeword(0x6f, 7), Codeword(0x70, 7),
           Codeword(0x71, 7), Codeword(0x72, 7))
    else if s < 0x5c then
      Pick(s - 0x58, Codeword(0xfc, 8), Codeword(0x73, 7),
           Codeword(0xfd, 8), Codeword(0x1ffb, 13))
    else
      Pick(s - 0x5c, Codeword(0x7fff0, 19), Codeword(0x1ffc, 13),
           Codeword(0x3ffc, 14), Codeword(0x22, 6))
  }

  function Row6(s: byte): Codeword {
    if s < 0x64 then
      Pick(s - 0x60, Codeword(0x7ffd, 15), Codeword(0x3, 5),
           Codeword(0x23, 6), Codeword(0x4, 5))
    else if s < 0x68 then
      Pick(s - 0x64, Codeword(0x24, 6), Codeword(0x5, 5),
           Codeword(0x25, 6), Codeword(0x26, 6))
    else if s < 0x6c then
      Pick(s - 0x68, Codeword(0x27, 6), Codeword(0x6, 5),
           Codeword(0x74, 7), Codeword(0x75, 7))
    else
      Pick(s - 0x6c, Codeword(0x28, 6), Codeword(0x29, 6),
           Codeword(0x2a, 6), Codeword(0x7, 5))
  }

  function Row7(s: byte): Codeword {
    if s < 0x74 then
      Pick(s - 0x70, Codeword(0x2b, 6), Codeword(0x76, 7),
           Codeword(0x2c, 6), Codeword(0x8, 5))
    else if s < 0x78 then
      Pick(s - 0x74, Codeword(0x9, 5), Codeword(0x2d, 6),
           Codeword(0x77, 7), Codeword(0x78, 7))
    else if s < 0x7c then
      Pick(s - 0x78, Codeword(0x79, 7), Codeword(0x7a, 7),
           Codeword(0x7b, 7), Codeword(0x7ffe, 15))
    else
      Pick(s - 0x7c, Codeword(0x7fc, 11), Codeword(0x3ffd, 14),
           Codeword(0x1ffd, 13), Codeword(0xffffffc, 28))
  }

  function Row8(s: byte): Codeword {
    if s < 0x84 then
      Pick(s - 0x80, Codeword(0xfffe6, 20), Codeword(0x3fffd2, 22),
           Codeword(0xfffe7, 20), Codeword(0xfffe8, 20))
    else if s < 0x88 then
      Pick(s - 0x84, Codeword(0x3fffd3, 22), Codeword(0x3fffd4, 22),
           Codeword(0x3fffd5, 22), Codeword(0x7fffd9, 23))
    else if s < 0x8c then
      Pick(s - 0x88, Codeword(0x3fffd6, 22), Codeword(0x7fffda, 23),
           Codeword(0x7fffdb, 23), Codeword(0x7fffdc, 23))
    else
      Pick(s - 0x8c, Codeword(0x7fffdd, 23), Codeword(0x7fffde, 23),
           Codeword(0xffffeb, 24), Codeword(0x7fffdf, 23))
  }

  function Row9(s: byte): Codeword {
    if s < 0x94 then
      Pick(s - 0x90, Codeword(0xffffec, 24), Codeword(0xffffed, 24),
           Codeword(0x3fffd7, 22), Codeword(0x7fffe0, 23))
    else if s < 0x98 then
      Pick(s - 0x94, Codeword(0xffffee, 24), Codeword(0x7fffe1, 23),
           Codeword(0x7fffe2, 23), Codeword(0x7fffe3, 23))
    else if s < 0x9c then
      Pick(s - 0x98, Codeword(0x7fffe4, 23), Codeword(0x1fffdc, 21),
           Codeword(0x3fffd8, 22), Codeword(0x7fffe5, 23))
    else
      Pick(s - 0x9c, Codeword(0x3fffd9, 22), Codeword(0x7fffe6, 23),
           Codeword(0x7fffe7, 23), Codeword(0xffffef, 24))
  }

  function RowA(s: byte): Codeword {
    if s < 0xa4 then
      Pick(s - 0xa0, Codeword(0x3fffda, 22), Codeword(0x1fffdd, 21),
           Codeword(0xfffe9, 20), Codeword(0x3fffdb, 22))
    else if s < 0xa8 then
      Pick(s - 0xa4, Codeword(0x3fffdc, 22), Codeword(0x7fffe8, 23),
           Codeword(0x7fffe9, 23), Codeword(0x1fffde, 21))
    else if s < 0xac then
      Pick(s - 0xa8, Codeword(0x7fffea, 23), Codeword(0x3fffdd, 22),
           Codeword(0x3fffde, 22), Codeword(0xfffff0, 24))
    else
      Pick(s - 0xac, Codeword(0x1fffdf, 21), Codeword(0x3fffdf, 22),
           Codeword(0x7fffeb, 23), Codeword(0x7fffec, 23))
  }

  function RowB(s: byte): Codeword {
    if s < 0xb4 then
      Pick(s - 0xb0, Codeword(0x1fffe0, 21), Codeword(0x1fffe1, 21),
           Codeword(0x3fffe0, 22), Codeword(0x1fffe2, 21))
    else if s < 0xb8 then
      Pick(s - 0xb4, Codeword(0x7fffed, 23), Codeword(0x3fffe1, 22),
           Codeword(0x7fffee, 23), Codeword(0x7fffef, 23))
    else if s < 0xbc then
      Pick(s - 0xb8, Codeword(0xfffea, 20), Codeword(0x3fffe2, 22),
           Codeword(0x3fffe3, 22), Codeword(0x3fffe4, 22))
    else
      Pick(s - 0xbc, Codeword(0x7ffff0, 23), Codeword(0x3fffe5, 22),
           Codeword(0x3fffe6, 22), Codeword(0x7ffff1, 23))
  }

  function RowC(s: byte): Codeword {
    if s < 0xc4 then
      Pick(s - 0xc0, Codeword(0x3ffffe0, 26), Codeword(0x3ffffe1, 26),
           Codeword(0xfffeb, 20), Codeword(0x7fff1, 19))
    else if s < 0xc8 then
      Pick(s - 0xc4, Codeword(0x3fffe7, 22), Codeword(0x7ffff2, 23),
           Codeword(0x3fffe8, 22), Codeword(0x1ffffec, 25))
    else if s < 0xcc then
      Pick(s - 0xc8, Codeword(0x3ffffe2, 26), Codeword(0x3ffffe3, 26),
           Codeword(0x3ffffe4, 26), Codeword(0x7ffffde, 27))
    else
      Pick(s - 0xcc, Codeword(0x7ffffdf, 27), Codeword(0x3ffffe5, 26),
           Codeword(0xfffff1, 24), Codeword(0x1ffffed, 25))
  }

  function RowD(s: byte): Codeword {
    if s < 0xd4 then
      Pick(s - 0xd0, Codeword(0x7fff2, 19), Codeword(0x1fffe3, 21),
           Codeword(0x3ffffe6, 26), Codeword(0x7ffffe0, 27))
    else if s < 0xd8 then
      Pick(s - 0xd4, Codeword(0x7ffffe1, 27), Codeword(0x3ffffe7, 26),
           Codeword(0x7ffffe2, 27), Codeword(0xfffff2, 24))
    else if s < 0xdc then
      Pick(s - 0xd8, Codeword(0x1fffe4, 21), Codeword(0x1fffe5, 21),
           Codeword(0x3ffffe8, 26), Codeword(0x3ffffe9, 26))
    else
      Pick(s - 0xdc, Codeword(0xffffffd, 28), Codeword(0x7ffffe3, 27),
           Codeword(0x7ffffe4, 27), Codeword(0x7ffffe5, 27))
  }

  function RowE(s: byte): Codeword {
    if s < 0xe4 then
      Pick(s - 0xe0, Codeword(0xfffec, 20), Codeword(0xfffff3, 24),
           Codeword(0xfffed, 20), Codeword(0x1fffe6, 21))
    else if s < 0xe8 then
      Pick(s - 0xe4, Codeword(0x3fffe9, 22), Codeword(0x1fffe7, 21),
           Codeword(0x1fffe8, 21), Codeword(0x7ffff3, 23))
    else if s < 0xec then
      Pick(s - 0xe8, Codeword(0x3fffea, 22), Codeword(0x3fffeb, 22),
           Codeword(0x1ffffee, 25), Codeword(0x1ffffef, 25))
    else
      Pick(s - 0xec, Codeword(0xfffff4, 24), Codeword(0xfffff5, 24),
           Codeword(0x3ffffea, 26), Codeword(0x7ffff4, 23))
  }

  function RowF(s: byte): Codeword {
    if s < 0xf4 then
      Pick(s - 0xf0, Codeword(0x3ffffeb, 26), Codeword(0x7ffffe6, 27),
           Codeword(0x3ffffec, 26), Codeword(0x3ffffed, 26))
    else if s < 0xf8 then
      Pick(s - 0xf4, Codeword(0x7ffffe7, 27), Codeword(0x7ffffe8, 27),
           Codeword(0x7ffffe9, 27), Codeword(0x7ffffea, 27))
    else if s < 0xfc then
      Pick(s - 0xf8, Codeword(0x7ffffeb, 27), Codeword(0xffffffe, 28),
           Codeword(0x7ffffec, 27), Codeword(0x7ffffed, 27))
    else
      Pick(s - 0xfc, Codeword(0x7ffffee, 27), Codeword(0x7ffffef, 27),
           Codeword(0x7fffff0, 27), Codeword(0x3ffffee, 26))
  }

  /** The bits of EOS, the thirty-bit codeword that no string may contain. */
  const EOS: nat := 0x3fffffff

  ghost predicate EntryOk(e: DecodeValue, v: nat, l: nat) {
    match e
    case Sym(s) => Code(s) == Codeword(v, l)
    case Partial(d) => Implements(d, v, l)
  }

  /** Below the path that spells v in l bits, every leaf sits at its symbol's codeword; only EOS is a dead end. */
  ghost predicate Implements(d: HuffmanDecoder, v: nat, l: nat) {
    && 1 <= d.lookup <= 8
    && (if d.table == [] then v == EOS && l == 30 && d.lookup == 8 else |d.table| == Pow2(d.lookup))
    && forall i :: 0 <= i < |d.table| ==> EntryOk(d.table[i], v * Pow2(d.lookup) + i, l + d.lookup)
  }

  ghost predicate Reaches(d: HuffmanDecoder, s: byte) {
    exists i :: 0 <= i < |d.table|
      && match d.table[i] { case Sym(x) => x == s case Partial(next) => Reaches(next, s) }
  }

  // ------------------------------------------------------- rules, one for each form of table entry

  /** The first n entries of d sit at base, base + 1, ... spelled in l bits. */
  ghost predicate Upto(d: HuffmanDecoder, n: nat, base: nat, l: nat) {
    n <= |d.table| && forall i :: 0 <= i < n ==> EntryOk(d.table[i], base + i, l)
  }

  lemma Leaf(d: HuffmanDecoder, i: nat, s: byte, base: nat, l: nat)
    requires Upto(d, i, base, l)
    requires i < |d.table| && d.table[i] == Sym(s) && Code(s) == Codeword(base + i, l)
    ensures Upto(d, i + 1, base, l) && Reaches(d, s)
  {
    hide Code;
  }

  lemma Inner(d: HuffmanDecoder, i: nat, next: HuffmanDecoder, base: nat, l: nat)
    requires Upto(d, i, base, l)
    requires i < |d.table| && d.table[i] == Partial(next) && Implements(next, base + i, l)
    ensures Upto(d, i + 1, base, l)
    ensures forall s :: Reaches(next, s) ==> Reaches(d, s)
  {
    hide Implements, Code;
  }

  lemma Pair(d: HuffmanDecoder, i: nat, next: HuffmanDecoder, a: byte, b: byte, base: nat, l: nat)
    requires Upto(d, i, base, l)
    requires i < |d.table| && d.table[i] == Partial(next) && next == HuffmanDecoder(1, [Sym(a), Sym(b)])
    requires Code(a) == Codeword(2 * (base + i), l + 1) && Code(b) == Codeword(2 * (base + i) + 1, l + 1)
    ensures Upto(d, i + 1, base, l) && Reaches(d, a) && Reaches(d, b)
  {
    hide *;
    PairNode(next, a, b, base + i, l);
    Inner(d, i, next, base, l);
  }

  lemma PairNode(d: HuffmanDecoder, a: byte, b: byte, v: nat, l: nat)
    requires d == HuffmanDecoder(1, [Sym(a), Sym(b)])
    requires Code(a) == Codeword(2 * v, l + 1) && Code(b) == Codeword(2 * v + 1, l + 1)
    ensures Implements(d, v, l) && Reaches(d, a) && Reaches(d, b)
  {
    SmallPowers();
    hide *;
    Start(d, 2 * v, l + 1);
    Leaf(d, 0, a, 2 * v, l + 1);
    Leaf(d, 1, b, 2 * v, l + 1);
    Node(d, 2, v, l);
  }

  lemma Quad(d: HuffmanDecoder, i: nat, next: HuffmanDecoder, a: byte, b: byte, c: byte, e: byte, base: nat, l: nat)
    requires Upto(d, i, base, l)
    requires i < |d.table| && d.table[i] == Partial(next)
    requires next == HuffmanDecoder(2, [Sym(a), Sym(b), Sym(c), Sym(e)])
    requires Code(a) == Codeword(4 * (base + i), l + 2) && Code(b) == Codeword(4 * (base + i) + 1, l + 2)
    requires Code(c) == Codeword(4 * (base + i) + 2, l + 2) && Code(e) == Codeword(4 * (base + i) + 3, l + 2)
    ensures Upto(d, i + 1, base, l) && Reaches(d, a) && Reaches(d, b) && Reaches(d, c) && Reaches(d, e)
  {
    hide *;
    QuadNode(next, a, b, c, e, base + i, l);
    Inner(d, i, next, base, l);
  }

  lemma QuadNode(d: HuffmanDecoder, a: byte, b: byte, c: byte, e: byte, v: nat, l: nat)
    requires d == HuffmanDecoder(2, [Sym(a), Sym(b), Sym(c), Sym(e)])
    requires Code(a) == Codeword(4 * v, l + 2) && Code(b) == Codeword(4 * v + 1, l + 2)
    requires Code(c) == Codeword(4 * v + 2, l + 2) && Code(e) == Codeword(4 * v + 3, l + 2)
    ensures Implements(d, v, l) && Reaches(d, a) && Reaches(d, b) && Reaches(d, c) && Reaches(d, e)
  {
    SmallPowers();
    hide *;
    Start(d, 4 * v, l + 2);
    Leaf(d, 0, a, 4 * v, l + 2);
    Leaf(d, 1, b, 4 * v, l + 2);
    Leaf(d, 2, c, 4 * v, l + 2);
    Leaf(d, 3, e, 4 * v, l + 2);
    Node(d, 4, v, l);
  }

  lemma Node(d: HuffmanDecoder, width: nat, v: nat, l: nat)
    requires 1 <= d.lookup <= 8 && width == Pow2(d.lookup) && |d.table| == width
    requires Upto(d, width, v * width, l + d.lookup)
    ensures Implements(d, v, l)
  {
  }

  lemma Start(d: HuffmanDecoder, base: nat, l: nat)
    ensures Upto(d, 0, base, l)
  {
  }

  lemma DeadEnd(d: HuffmanDecoder)
    requires d == HuffmanDecoder(8, [])
    ensures Implements(d, EOS, 30)
  {
  }
}
