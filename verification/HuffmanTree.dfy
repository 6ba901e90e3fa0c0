/** The lookup tables flattened into one binary tree, and the decoder as a walk of that tree bit by bit. */
module HuffmanTree {
  import opened Bytes
  import opened Bits
  import opened Huffman
  import opened HuffmanTable
  import HuffmanTheorems

  /** A fork says whether a lookup starts there: only the bits since then matter at the end of input. */
  datatype Tree = Leaf(symbol: byte) | Barren | Fork(start: bool, zero: Tree, one: Tree)

  /** What is left of a node when `left` bits of its lookup are to come and the others spelled v. */
  function Grow(d: HuffmanDecoder, left: nat, v: nat): Tree
    decreases d, left
  {
    if left > 0 then Fork(left == d.lookup, Grow(d, left - 1, 2 * v), Grow(d, left - 1, 2 * v + 1))
    else if v >= |d.table| then Barren
    else
      match d.table[v]
      case Sym(s) => Leaf(s)
      case Partial(next) => Grow(next, next.lookup, 0)
  }

  function Flatten(d: HuffmanDecoder): Tree {
    Grow(d, d.lookup, 0)
  }

  /** Reading one bit at a time; `since` holds the bits since the last lookup started. */
  function Walk(root: Tree, t: Tree, since: Bits, bits: Bits): Decoded
    requires root.Fork? && t.Fork?
    decreases |bits|
  {
    var read := if t.start then [] else since;
    if bits == [] then Decoded([], if AllOnes(read) then Clean else OutOfBits)
    else
      var next := if bits[0] then t.one else t.zero;
      match next
      case Leaf(s) => var rest := Walk(root, root, [], bits[1..]); Decoded([s] + rest.out, rest.stop)
      case Barren => Decoded([], NoSymbol)
      case Fork(_, _, _) => Walk(root, next, read + [bits[0]], bits[1..])
  }

  /** Finishing a descent from d, then decoding from the root. */
  function Resume(root: HuffmanDecoder, d: HuffmanDecoder, bits: Bits): Decoded
    requires root.lookup >= 1
  {
    var step := Descend(d, bits);
    if step.Symbol? then
      var rest := Run(root, bits[step.used..]);
      Decoded([step.symbol] + rest.out, rest.stop)
    else Decoded([], StopOn(step))
  }

  lemma ResumeAtEnd(root: HuffmanDecoder, d: HuffmanDecoder, acc: Bits)
    requires root.lookup >= 1 && |acc| < d.lookup
    ensures Resume(root, d, acc) == Decoded([], if AllOnes(acc) then Clean else OutOfBits)
  {
  }

  /** One lookup of a resumed descent. */
  lemma ResumeLookup(root: HuffmanDecoder, d: HuffmanDecoder, all: Bits)
    requires root.lookup >= 1 && d.lookup <= |all|
    ensures var v, rest := ValueOf(all[..d.lookup]), all[d.lookup..];
            Resume(root, d, all) ==
              if v >= |d.table| then Decoded([], NoSymbol)
              else if d.table[v].Sym? then
                Decoded([d.table[v].symbol] + Resume(root, root, rest).out, Resume(root, root, rest).stop)
              else Resume(root, d.table[v].next, rest)
  {
    hide ValueOf;
    var v, rest := ValueOf(all[..d.lookup]), all[d.lookup..];
    if v < |d.table| && d.table[v].Partial? {
      var r := Descend(d.table[v].next, rest);
      if r.Symbol? {
        assert rest[r.used..] == all[d.lookup + r.used..];
      }
    }
  }

  lemma AppendBit(acc: Bits, bit: bool)
    ensures ValueOf(acc + [bit]) == 2 * ValueOf(acc) + if bit then 1 else 0
  {
    ValueConcat(acc, [bit]);
    assert Pow2(1) == 2 && Pow2(0) == 1;
    assert [bit][1..] == [];
  }

  /** One step of the walk within a lookup that is not yet full. */
  lemma WalkInLookup(root: Tree, d: HuffmanDecoder, left: nat, acc: Bits, bits: Bits)
    requires root.Fork? && 1 <= left <= d.lookup && |acc| == d.lookup - left && bits != []
    ensures Grow(d, left, ValueOf(acc)).Fork?
    ensures var next := Grow(d, left - 1, ValueOf(acc + [bits[0]]));
            Walk(root, Grow(d, left, ValueOf(acc)), acc, bits) ==
              if next.Leaf? then
                Decoded([next.symbol] + Walk(root, root, [], bits[1..]).out, Walk(root, root, [], bits[1..]).stop)
              else if next.Barren? then Decoded([], NoSymbol)
              else Walk(root, next, acc + [bits[0]], bits[1..])
  {
    AppendBit(acc, bits[0]);
    assert left == d.lookup ==> acc == [];
    hide ValueOf;
  }

  lemma GrowIsFork(d: HuffmanDecoder, left: nat, v: nat)
    requires left >= 1
    ensures Grow(d, left, v).Fork? && Grow(d, left, v).start == (left == d.lookup)
  {
  }

  /** A full lookup lands on the table entry that its bits spell. */
  lemma GrowEntry(d: HuffmanDecoder, v: nat)
    ensures Grow(d, 0, v) == if v >= |d.table| then Barren
                             else if d.table[v].Sym? then Leaf(d.table[v].symbol)
                             else Flatten(d.table[v].next)
  {
  }

  /** The lookup decoder is the walk of the flattened tree, on every input and for every table. */
  lemma {:induction false} LookupsRefineWalk(root: HuffmanDecoder, d: HuffmanDecoder, left: nat, acc: Bits, bits: Bits)
    requires WellFormed(root) && WellFormed(d) && 1 <= left <= d.lookup && |acc| == d.lookup - left
    ensures Flatten(root).Fork? && Grow(d, left, ValueOf(acc)).Fork?
    ensures Walk(Flatten(root), Grow(d, left, ValueOf(acc)), acc, bits) == Resume(root, d, acc + bits)
    decreases |bits|
  {
    var all := acc + bits;
    GrowIsFork(root, root.lookup, 0);
    GrowIsFork(d, left, ValueOf(acc));
    hide ValueOf, Run, Resume, Descend, Grow;
    if bits == [] {
      assert all == acc;
      ResumeAtEnd(root, d, acc);
    } else {
      var read, rest := acc + [bits[0]], bits[1..];
      assert all == read + rest;
      WalkInLookup(Flatten(root), d, left, acc, bits);
      hide Walk;
      if left > 1 {
        GrowIsFork(d, left - 1, ValueOf(read));
        LookupsRefineWalk(root, d, left - 1, read, rest);
      } else {
        FullLookup(root, d, read, rest);
        var v := ValueOf(read);
        EmptyValue();
        if v < |d.table| {
          match d.table[v] {
            case Sym(_) => LookupsRefineWalk(root, root, root.lookup, [], rest);
            case Partial(next) =>
              GrowIsFork(next, next.lookup, 0);
              LookupsRefineWalk(root, next, next.lookup, [], rest);
              WalkAfresh(Flatten(root), Flatten(next), read, rest);
          }
        }
      }
    }
  }

  lemma EmptyValue()
    ensures ValueOf([]) == 0
  {
  }

  /** Where a lookup starts the earlier bits do not matter. */
  lemma WalkAfresh(root: Tree, t: Tree, since: Bits, bits: Bits)
    requires root.Fork? && t.Fork? && t.start
    ensures Walk(root, t, since, bits) == Walk(root, t, [], bits)
  {
  }

  lemma FullLookup(root: HuffmanDecoder, d: HuffmanDecoder, read: Bits, rest: Bits)
    requires root.lookup >= 1 && |read| == d.lookup
    ensures var v := ValueOf(read);
            && Grow(d, 0, v) == (if v >= |d.table| then Barren
                                 else if d.table[v].Sym? then Leaf(d.table[v].symbol)
                                 else Flatten(d.table[v].next))
            && Resume(root, d, read + rest) ==
                 (if v >= |d.table| then Decoded([], NoSymbol)
                  else if d.table[v].Sym? then
                    Decoded([d.table[v].symbol] + Resume(root, root, rest).out, Resume(root, root, rest).stop)
                  else Resume(root, d.table[v].next, rest))
    ensures [] + rest == rest
  {
    GrowEntry(d, ValueOf(read));
    hide ValueOf, Resume, Grow;
    assert (read + rest)[..d.lookup] == read && (read + rest)[d.lookup..] == rest;
    ResumeLookup(root, d, read + rest);
  }

  /** The decoder of this repository is the walk from the root of its tree. */
  lemma DecodeIsWalk(bits: Bits)
    ensures Flatten(HPACK_STRING).Fork?
    ensures HuffmanTheorems.Decode(bits) == Walk(Flatten(HPACK_STRING), Flatten(HPACK_STRING), [], bits)
  {
    HuffmanTheorems.DecoderIsWellFormed();
    assert HPACK_STRING.lookup == 5;
    EmptyValue();
    hide Walk, Grow, Descend, WellFormed;
    LookupsRefineWalk(HPACK_STRING, HPACK_STRING, 5, [], bits);
    assert [] + bits == bits;
  }
}
