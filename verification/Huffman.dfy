/** The Huffman string decoder: multi-bit lookup tables driven by a moving bit window. */
module Huffman {
  import opened Bytes
  import opened Bits
  import opened Collections

  datatype DecodeValue = Partial(next: HuffmanDecoder) | Sym(symbol: byte)

  datatype HuffmanDecoder = HuffmanDecoder(lookup: nat, table: seq<DecodeValue>)

  /** A snapshot of the bit window, as carried by the errors. */
  datatype Window = Window(byteOffset: u32, bit: u32, count: u32)

  datatype Error = MissingBits(window: Window) | Unhandled(window: Window, value: nat)

  /** Every lookup reads one to eight bits. */
  predicate WellFormed(d: HuffmanDecoder) {
    && 1 <= d.lookup <= 8
    && forall i :: 0 <= i < |d.table| && d.table[i].Partial? ==> WellFormed(d.table[i].next)
  }

  // ------------------------------------------------------- decoding as a function of the bits

  /** The outcome of one descent from `d`; `at` counts the bits of the completed lookups. */
  datatype Step =
    | Symbol(symbol: byte, used: nat)
    | End
    | Missing(at: nat, count: nat)
    | Dead(at: nat, count: nat, value: nat)
  {
    function After(n: nat): Step {
      match this
      case Symbol(s, used) => Symbol(s, n + used)
      case End => End
      case Missing(at, count) => Missing(n + at, count)
      case Dead(at, count, value) => Dead(n + at, count, value)
    }
  }

  /** One descent: whole lookups, with the end-of-input rule on the bits a lookup cannot fill. */
  function Descend(d: HuffmanDecoder, bits: Bits): (r: Step)
    ensures r.Symbol? ==> r.used <= |bits| && (d.lookup >= 1 ==> r.used >= 1)
    ensures r.Missing? || r.Dead? ==> r.at <= |bits|
    decreases d
  {
    if |bits| < d.lookup then
      if AllOnes(bits) then End else Missing(0, d.lookup)
    else
      var v := ValueOf(bits[..d.lookup]);
      if v >= |d.table| then Dead(0, d.lookup, v)
      else
        match d.table[v]
        case Sym(s) => Symbol(s, d.lookup)
        case Partial(next) => Descend(next, bits[d.lookup..]).After(d.lookup)
  }

  datatype Stop = Clean | OutOfBits | NoSymbol

  /** Everything an iterator yields: the symbols, and how the iteration stopped. */
  datatype Decoded = Decoded(out: seq<byte>, stop: Stop)

  function Run(d: HuffmanDecoder, bits: Bits): Decoded
    requires d.lookup >= 1
    decreases |bits|
  {
    match Descend(d, bits)
    case Symbol(s, used) =>
      var rest := Run(d, bits[used..]);
      Decoded([s] + rest.out, rest.stop)
    case End => Decoded([], Clean)
    case Missing(_, _) => Decoded([], OutOfBits)
    case Dead(_, _, _) => Decoded([], NoSymbol)
  }

  /** Why a string does not decode: the lookup that failed, where it starts, and the value it read. */
  datatype Fault = Fault(stop: Stop, position: nat, count: nat, value: nat)

  function Shift(f: Fault, n: nat): Fault {
    if f.stop == Clean then f else f.(position := n + f.position)
  }

  /** How a descent stops that finds no symbol. */
  function StopOn(step: Step): Stop
    requires !step.Symbol?
  {
    if step.End? then Clean else if step.Missing? then OutOfBits else NoSymbol
  }

  function FaultOn(step: Step): Fault
    requires !step.Symbol?
  {
    match step
    case End => Fault(Clean, 0, 0, 0)
    case Missing(at, count) => Fault(OutOfBits, at, count, 0)
    case Dead(at, count, value) => Fault(NoSymbol, at, count, value)
  }

  /** The fault that ends the iteration, if one does. */
  function FaultIn(d: HuffmanDecoder, bits: Bits): Fault
    requires d.lookup >= 1
    decreases |bits|
  {
    var step := Descend(d, bits);
    if step.Symbol? then Shift(FaultIn(d, bits[step.used..]), step.used) else FaultOn(step)
  }

  // ------------------------------------------------------- the code itself

  class BitWindow {
    var byteOffset: u32
    var bit: u32
    var count: u32

    constructor ()
      ensures Consumed() == 0 && bit == 0
    {
      byteOffset, bit, count := 0, 0, 0;
    }

    /** The position just after the window: everything before it has been consumed. */
    ghost function Consumed(): nat
      reads this
    {
      8 * byteOffset + bit + count
    }

    function Snapshot(): Window
      reads this
    {
      Window(byteOffset, bit, count)
    }

    method Forwards(step: u32)
      requires Consumed() < TWO_32
      modifies this
      ensures bit < 8 && count == step
      ensures 8 * byteOffset + bit == old(Consumed())
    {
      bit := bit + count;
      byteOffset := byteOffset + bit / 8;
      bit := bit % 8;
      count := step;
    }

    method OppositeBitWindow() returns (w: Window)
      ensures w == Window(byteOffset, bit, 8 - bit % 8)
    {
      w := Window(byteOffset, bit, 8 - bit % 8);
    }
  }

  /** `(x << shift) >> (8 - len)` on a byte. */
  method ShiftByte(s: seq<byte>, shift: u32, len: u32) returns (r: byte)
    requires |s| >= 1 && 1 <= len && shift + len <= 8
    ensures r == ValueOf(BitsOf(s)[shift..shift + len])
  {
    hide ValueOf, BitsOf, Pow2;
    OneByteWindow(s, shift, len);
    r := s[0] * Pow2(shift) % 0x100 / Pow2(8 - len);
  }

  /** The same on a big-endian two-byte word. */
  method ShiftWord(s: seq<byte>, shift: u32, len: u32) returns (r: byte)
    requires |s| >= 2 && 1 <= len <= 8 && shift < 8
    ensures r == ValueOf(BitsOf(s)[shift..shift + len])
  {
    hide ValueOf, BitsOf, Pow2;
    TwoByteWindow(s, shift, len);
    var word := (s[0] as int) * 0x100 + s[1];
    r := word * Pow2(shift) % 0x1_0000 / Pow2(16 - len);
  }

  /** Shifting within a byte or a two-byte word reads the bits at the requested position. */
  method ReadBits(src: seq<byte>, byteOffset: u32, bitOffset: u32, len: u32) returns (r: Option<byte>)
    requires 8 * |src| < TWO_32
    requires 8 * byteOffset + bitOffset + len < TWO_32
    ensures r.None? <==> len == 0 || len > 8 || 8 * |src| < 8 * byteOffset + bitOffset + len
    ensures r.Some? ==> var p := 8 * byteOffset + bitOffset; r.value == ValueOf(BitsOf(src)[p..p + len])
  {
    hide ValueOf, BitsOf;
    if len == 0 || len > 8 || |src| * 8 < byteOffset * 8 + bitOffset + len {
      return None;
    }
    var at := byteOffset + bitOffset / 8;
    var shift := bitOffset - bitOffset / 8 * 8;
    ghost var p := 8 * byteOffset + bitOffset;
    assert p == 8 * at + shift && shift < 8;
    assert BitsOf(src)[p..p + len] == BitsOf(src[at..])[shift..shift + len] by {
      BitsOfDrop(src, at);
      SliceOfDrop(BitsOf(src), 8 * at, shift, len);
    }
    var value: byte;
    if shift + len <= 8 {
      value := ShiftByte(src[at..], shift, len);
    } else {
      value := ShiftWord(src[at..], shift, len);
    }
    r := Some(value);
  }

  lemma SliceOfDrop(b: Bits, p: nat, i: nat, n: nat)
    requires p + i + n <= |b|
    ensures b[p + i..p + i + n] == b[p..][i..i + n]
  {
  }

  lemma OneByteWindow(s: seq<byte>, shift: nat, len: nat)
    requires |s| >= 1 && 1 <= len && shift + len <= 8
    ensures s[0] * Pow2(shift) % 0x100 / Pow2(8 - len) == ValueOf(BitsOf(s)[shift..shift + len])
    ensures ValueOf(BitsOf(s)[shift..shift + len]) < 0x100
  {
    hide ValueOf, BitsOf, Pow2;
    FirstByte(s);
    WordWindow(BitsOf(s)[..8], s[0], shift, len) by {
      ValueSpell(s[0], 8);
    }
    assert BitsOf(s)[..8][shift..shift + len] == BitsOf(s)[shift..shift + len];
  }

  lemma TwoByteWindow(s: seq<byte>, shift: nat, len: nat)
    requires |s| >= 2 && 1 <= len <= 8 && shift < 8
    ensures ((s[0] as int) * 0x100 + s[1]) * Pow2(shift) % 0x1_0000 / Pow2(16 - len)
         == ValueOf(BitsOf(s)[shift..shift + len])
    ensures ValueOf(BitsOf(s)[shift..shift + len]) < 0x100
  {
    hide ValueOf, BitsOf, Pow2;
    FirstTwoBytes(s);
    WordWindow(BitsOf(s)[..16], (s[0] as int) * 0x100 + s[1], shift, len) by {
      ValueSpell(s[0], 8);
      ValueSpell(s[1], 8);
      ValueConcat(Spell(s[0], 8), Spell(s[1], 8));
    }
    SmallPowers();
    assert BitsOf(s)[..16][shift..shift + len] == BitsOf(s)[shift..shift + len];
  }

  lemma WordWindow(b: Bits, v: nat, shift: nat, len: nat)
    requires shift + len <= |b| && len <= 8 && ValueOf(b) == v
    ensures v * Pow2(shift) % Pow2(|b|) / Pow2(|b| - len) == ValueOf(b[shift..shift + len])
    ensures ValueOf(b[shift..shift + len]) < 0x100
  {
    hide ValueOf, Pow2;
    ShiftWindow(v, |b|, shift, len);
    ValueSlice(b, shift, shift + len);
    Pow2Monotone(len, 8);
    SmallPowers();
  }

  /** `rest & eof_filler == eof_filler` for a rest that has no bits above the filler's. */
  lemma EofFiller(rest: Bits)
    requires 1 <= |rest| <= 8
    ensures 0 <= (2 * Pow2(|rest| - 1) - 1) % 0x100 < 0x100
    ensures AllOnes(rest) <==> ValueOf(rest) == (2 * Pow2(|rest| - 1) - 1) % 0x100
  {
    var p := Pow2(|rest| - 1);
    assert Pow2(|rest|) == 2 * p;
    Pow2Monotone(|rest| - 1, 7);
    SmallPowers();
    SmallRemainder(2 * p - 1, 0x100);
    AllOnesValue(rest);
  }

  lemma LastBits(b: Bits, p: nat, n: nat)
    requires p + n == |b|
    ensures b[p..p + n] == b[p..] && |b[p..]| == n
  {
  }

  /** The bits of the final byte that no completed lookup has covered are all ones. */
  method RestIsFiller(side: Window, input: seq<byte>) returns (r: Option<bool>)
    requires 8 * |input| < TWO_32
    requires side.bit < 8 && side.byteOffset + 1 == |input| && side.count == 8 - side.bit
    ensures r == Some(AllOnes(BitsOf(input)[8 * side.byteOffset + side.bit..]))
  {
    hide ValueOf, BitsOf;
    var rest := ReadBits(input, side.byteOffset, side.bit, side.count);
    if rest.None? {
      return None;
    }
    ghost var filler := BitsOf(input)[8 * side.byteOffset + side.bit..];
    LastBits(BitsOf(input), 8 * side.byteOffset + side.bit, side.count);
    EofFiller(filler);
    assert rest.value == ValueOf(filler) && |filler| == side.count;
    // `rest & eof_filler == eof_filler`, as the rest has no bits above the filler's
    var eofFiller := (2 * Pow2(side.count - 1) - 1) % 0x100;
    r := Some(rest.value == eofFiller);
  }

  /** The bits of the input from position p on; none beyond its end. */
  function Rest(input: seq<byte>, p: nat): Bits {
    if p <= 8 * |input| then BitsOf(input)[p..] else []
  }

  lemma RestWithin(input: seq<byte>, p: nat)
    requires p <= 8 * |input|
    ensures Rest(input, p) == BitsOf(input)[p..]
  {
  }

  lemma RestParts(input: seq<byte>, p: nat, n: nat)
    requires n >= 1
    ensures |Rest(input, p)| < n <==> p + n > 8 * |input|
    ensures p + n <= 8 * |input| ==>
              && Rest(input, p)[..n] == BitsOf(input)[p..p + n]
              && Rest(input, p)[n..] == Rest(input, p + n)
  {
    hide BitsOf;
  }

  /** Deciding the end of input when a lookup of bits [p, p + count) does not fit. */
  method CheckEof(pos: BitWindow, input: seq<byte>) returns (r: Result<Option<u32>, Error>)
    requires 8 * |input| + 8 < TWO_32
    requires pos.bit < 8 && 1 <= pos.count <= 8
    requires 8 * |input| < pos.Consumed() < TWO_32
    ensures r == if AllOnes(Rest(input, 8 * pos.byteOffset + pos.bit)) then Ok(None)
                 else Err(MissingBits(pos.Snapshot()))
  {
    if pos.byteOffset + 1 > |input| {
      return Ok(None);
    } else if pos.byteOffset + 1 == |input| {
      var side := pos.OppositeBitWindow();
      var filled := RestIsFiller(side, input);
      if filled.None? {
        return Err(MissingBits(side));
      }
      if filled.value {
        return Ok(None);
      }
    } else {
      // Not the final byte: a window of at most eight bits would have fitted.
      assert false;
    }
    r := Err(MissingBits(pos.Snapshot()));
  }

  method FetchValue(pos: BitWindow, input: seq<byte>) returns (r: Result<Option<u32>, Error>)
    requires 8 * |input| + 8 < TWO_32
    requires pos.bit < 8 && 1 <= pos.count <= 8
    requires pos.Consumed() < TWO_32
    ensures var p := 8 * pos.byteOffset + pos.bit;
            r == if pos.Consumed() <= 8 * |input| then Ok(Some(ValueOf(BitsOf(input)[p..pos.Consumed()])))
                 else if AllOnes(Rest(input, p)) then Ok(None)
                 else Err(MissingBits(pos.Snapshot()))
  {
    hide ValueOf, BitsOf;
    var value := ReadBits(input, pos.byteOffset, pos.bit, pos.count);
    match value {
      case Some(v) => r := Ok(Some(v));
      case None => r := CheckEof(pos, input);
    }
  }

  /** The window w covers `count` bits starting at bit `position` of the input. */
  predicate Covers(w: Window, position: nat, count: nat) {
    8 * w.byteOffset + w.bit == position && w.bit < 8 && w.count == count
  }

  /** What a descent reports, as a function of the step it took from bit `start`. */
  ghost predicate Reports(step: Step, start: nat, r: Result<Option<byte>, Error>, end: nat) {
    match step
    case Symbol(s, used) => r == Ok(Some(s)) && end == start + used
    case End => r == Ok(None)
    case Missing(at, count) => r.Err? && r.error.MissingBits? && Covers(r.error.window, start + at, count)
    case Dead(at, count, value) =>
      r.Err? && r.error.Unhandled? && Covers(r.error.window, start + at, count) && r.error.value == value
  }

  method DecodeNext(d: HuffmanDecoder, pos: BitWindow, input: seq<byte>)
    returns (r: Result<Option<byte>, Error>)
    requires WellFormed(d)
    requires 8 * |input| + 8 < TWO_32
    requires pos.Consumed() + 8 < TWO_32
    modifies pos
    ensures Reports(Descend(d, Rest(input, old(pos.Consumed()))), old(pos.Consumed()), r, pos.Consumed())
    ensures r == Ok(None) || (r.Err? && r.error.MissingBits?) <==> pos.Consumed() > 8 * |input|
    ensures pos.Consumed() <= Max(old(pos.Consumed()), 8 * |input|) + 8
    decreases d
  {
    hide ValueOf, BitsOf, Rest, AllOnes;
    ghost var start := pos.Consumed();
    ghost var bits := Rest(input, start);
    RestParts(input, start, d.lookup);
    pos.Forwards(d.lookup);
    var fetched := FetchValue(pos, input);
    if fetched.Err? {
      return Err(fetched.error);
    }
    if fetched.value.None? {
      return Ok(None);
    }
    var value := fetched.value.value;
    if value >= |d.table| {
      return Err(Unhandled(pos.Snapshot(), value));
    }
    match d.table[value] {
      case Sym(x) => r := Ok(Some(x));
      case Partial(next) => r := DecodeNext(next, pos, input);
    }
  }

  /** The iterator over the decoded bytes of one string. */
  class DecodeIter {
    const root: HuffmanDecoder
    const bitPos: BitWindow
    const content: seq<byte>

    constructor (root: HuffmanDecoder, content: seq<byte>)
      requires WellFormed(root)
      requires 8 * |content| + 8 < TWO_32
      ensures this.root == root && this.content == content
      ensures Valid() && bitPos.Consumed() == 0 && fresh(bitPos)
    {
      this.root := root;
      this.content := content;
      bitPos := new BitWindow();
    }

    ghost predicate Valid()
      reads bitPos
    {
      WellFormed(root) && 8 * |content| + 8 < TWO_32 && bitPos.Consumed() + 8 < TWO_32
    }

    /** Once the end has been met, the iterator keeps reporting the end. */
    method Next() returns (item: Option<Result<byte, Error>>)
      requires Valid()
      modifies bitPos
      ensures var start := old(bitPos.Consumed());
              Reports(Descend(root, Rest(content, start)), start, Found(item), bitPos.Consumed())
      ensures item == None || (item.value.Err? && item.value.error.MissingBits?) <==>
              bitPos.Consumed() > 8 * |content|
      ensures old(bitPos.Consumed()) > 8 * |content| ==> item == None
      ensures bitPos.Consumed() <= Max(old(bitPos.Consumed()), 8 * |content|) + 8
    {
      var r := DecodeNext(root, bitPos, content);
      match r {
        case Ok(Some(x)) => item := Some(Ok(x));
        case Ok(None) => item := None;
        case Err(e) => item := Some(Err(e));
      }
    }
  }

  /** An item of the iterator as the outcome of a descent. */
  function Found(item: Option<Result<byte, Error>>): Result<Option<byte>, Error> {
    match item
    case None => Ok(None)
    case Some(Ok(x)) => Ok(Some(x))
    case Some(Err(e)) => Err(e)
  }

  function FaultOf(e: Error): Fault {
    match e
    case MissingBits(w) => Fault(OutOfBits, 8 * w.byteOffset + w.bit, w.count, 0)
    case Unhandled(w, value) => Fault(NoSymbol, 8 * w.byteOffset + w.bit, w.count, value)
  }

  /** After `at` bits the drained bytes and what is still to come make up the whole run, and its fault. */
  ghost predicate Drained(root: HuffmanDecoder, bits: Bits, decoded: seq<byte>, at: nat)
    requires root.lookup >= 1
  {
    && at <= |bits|
    && Run(root, bits) == Decoded(decoded + Run(root, bits[at..]).out, Run(root, bits[at..]).stop)
    && FaultIn(root, bits) == Shift(FaultIn(root, bits[at..]), at)
  }

  lemma DrainStart(root: HuffmanDecoder, bits: Bits)
    requires root.lookup >= 1
    ensures Drained(root, bits, [], 0)
  {
    hide Run, FaultIn;
    assert bits[0..] == bits && [] + Run(root, bits).out == Run(root, bits).out;
  }

  lemma DrainSymbol(root: HuffmanDecoder, bits: Bits, decoded: seq<byte>, at: nat)
    requires root.lookup >= 1 && Drained(root, bits, decoded, at) && Descend(root, bits[at..]).Symbol?
    ensures var step := Descend(root, bits[at..]);
            at < at + step.used <= |bits| && Drained(root, bits, decoded + [step.symbol], at + step.used)
  {
    hide Descend, Run, FaultIn, Shift;
    RunStep(root, bits[at..]);
    var step := Descend(root, bits[at..]);
    DropTwice(bits, at, step.used);
    var next := bits[at + step.used..];
    Reassociate(decoded, [step.symbol], Run(root, next).out);
    ShiftTwice(FaultIn(root, next), step.used, at);
  }

  lemma DropTwice(bits: Bits, i: nat, j: nat)
    requires i + j <= |bits|
    ensures bits[i..][j..] == bits[i + j..]
  {
  }

  lemma ShiftTwice(f: Fault, m: nat, n: nat)
    ensures Shift(Shift(f, m), n) == Shift(f, n + m)
  {
  }

  lemma DrainStop(root: HuffmanDecoder, bits: Bits, decoded: seq<byte>, at: nat)
    requires root.lookup >= 1 && Drained(root, bits, decoded, at) && !Descend(root, bits[at..]).Symbol?
    ensures var step := Descend(root, bits[at..]);
            && Run(root, bits) == Decoded(decoded, StopOn(step))
            && FaultIn(root, bits) == Shift(FaultOn(step), at)
  {
    RunStep(root, bits[at..]);
    hide Descend, Run, FaultIn;
    assert decoded + [] == decoded;
  }

  /** Draining the iterator into a vector, as string decoding does; the first error ends it. */
  method DecodeAll(root: HuffmanDecoder, payload: seq<byte>) returns (r: Result<seq<byte>, Error>)
    requires WellFormed(root)
    requires 8 * |payload| + 8 < TWO_32
    ensures var all := Run(root, BitsOf(payload));
            if all.stop == Clean then r == Ok(all.out)
            else r.Err? && FaultOf(r.error) == FaultIn(root, BitsOf(payload)) && FaultOf(r.error).stop == all.stop
  {
    hide Descend, BitsOf, Run, FaultIn, Rest, Drained;
    var decoded: seq<byte> := [];
    var iter := new DecodeIter(root, payload);
    ghost var bits := BitsOf(payload);
    DrainStart(root, bits);
    FaultTellsStop(root, bits);
    while true
      invariant iter.Valid() && fresh(iter.bitPos) && iter.bitPos.Consumed() <= |bits|
      invariant iter.root == root && iter.content == payload
      invariant Drained(root, bits, decoded, iter.bitPos.Consumed())
      decreases |bits| - iter.bitPos.Consumed()
    {
      ghost var at := iter.bitPos.Consumed();
      RestWithin(payload, at);
      if Descend(root, bits[at..]).Symbol? {
        DrainSymbol(root, bits, decoded, at);
      } else {
        DrainStop(root, bits, decoded, at);
      }
      var item := iter.Next();
      if item.None? {
        return Ok(decoded);
      }
      if item.value.Err? {
        return Err(item.value.error);
      }
      decoded := decoded + [item.value.value];
    }
  }

  /** The first step of a run and of its fault. */
  lemma RunStep(d: HuffmanDecoder, bits: Bits)
    requires d.lookup >= 1
    ensures var step := Descend(d, bits);
            if step.Symbol? then
              && 1 <= step.used <= |bits|
              && Run(d, bits) == Decoded([step.symbol] + Run(d, bits[step.used..]).out, Run(d, bits[step.used..]).stop)
              && FaultIn(d, bits) == Shift(FaultIn(d, bits[step.used..]), step.used)
            else
              Run(d, bits) == Decoded([], StopOn(step)) && FaultIn(d, bits) == FaultOn(step)
  {
    hide Descend;
  }

  /** A run and its fault agree on how it stopped. */
  lemma {:induction false} FaultTellsStop(d: HuffmanDecoder, bits: Bits)
    requires d.lookup >= 1
    ensures FaultIn(d, bits).stop == Run(d, bits).stop
    decreases |bits|
  {
    RunStep(d, bits);
    hide Descend, Run, FaultIn;
    if Descend(d, bits).Symbol? {
      FaultTellsStop(d, bits[Descend(d, bits).used..]);
    }
  }

  // ------------------------------------------------------- small facts

  lemma {:induction false} AllOnesValue(b: Bits)
    ensures AllOnes(b) <==> ValueOf(b) == Pow2(|b|) - 1
  {
    if b != [] {
      AllOnesValue(b[1..]);
      assert AllOnes(b) <==> b[0] && AllOnes(b[1..]);
    }
  }
}
