/** QPACK field sections without a dynamic table (section 4.5 of RFC 9204). */
module Qpack {
  import opened Bytes
  import opened StaticTable
  import opened Fields
  import PrefixInts
  import Bits
  import Huffman
  import HuffmanTable
  import HuffmanTheorems
  import Utf8

  datatype DecodeError =
    | UnexpectedEnd
    | BoundsExceeded
    | DynamicEntry
    | UnknownEntry
    | InvalidField(field: FieldError)
    | PseudoHeaderAfterRegularField
    | DuplicatePseudoHeader(name: Text)
    | HuffmanError(fault: Huffman.Fault)
    | Utf8Error

  type Field = (Text, Text)

  // ------------------------------------------------------- reading one field line

  function Prefix(b: seq<byte>, size: nat): (r: Result<PrefixInts.PrefixInt, DecodeError>)
    requires 1 <= size <= 8
    ensures r.Ok? ==> 1 <= r.value.len <= |b|
  {
    match PrefixInts.ParsePrefix(b, size)
    case Ok(p) => Ok(p)
    case Err(UnexpectedEnd) => Err(UnexpectedEnd)
    case Err(BoundsExceeded) => Err(BoundsExceeded)
  }

  /** A string and the number of bytes it took. */
  datatype Str = Str(bytes: seq<byte>, len: nat)

  /** What the bytes of a string literal stand for. */
  function Unpack(payload: seq<byte>, huffman: bool): Result<seq<byte>, DecodeError> {
    if !huffman then Ok(payload)
    else
      var bits := Bits.BitsOf(payload);
      var all := HuffmanTheorems.Decode(bits);
      if all.stop == Huffman.Clean then Ok(all.out)
      else Err(HuffmanError(Huffman.FaultIn(HuffmanTable.HPACK_STRING, bits)))
  }

  function ParseString(b: seq<byte>, size: nat): (r: Result<Str, DecodeError>)
    requires 2 <= size <= 8
    ensures r.Ok? ==> 1 <= r.value.len <= |b|
  {
    if b == [] then Err(UnexpectedEnd)
    else
      var p :- Prefix(b, size - 1);
      if |b| - p.len < p.value then Err(UnexpectedEnd)
      else
        var s :- Unpack(b[p.len..p.len + p.value], p.flags % 2 == 1);
        Ok(Str(s, p.len + p.value))
  }

  /** A string that must be UTF-8. */
  function ParseText(b: seq<byte>, size: nat): (r: Result<Str, DecodeError>)
    requires 2 <= size <= 8
    ensures r.Ok? ==> 1 <= r.value.len <= |b| && Utf8.Valid(r.value.bytes)
  {
    var s :- ParseString(b, size);
    if Utf8.Valid(s.bytes) then Ok(s) else Err(Utf8Error)
  }

  datatype Line = Line(field: Field, len: nat)

  predicate IsText(f: Field) {
    Utf8.Valid(f.0) && Utf8.Valid(f.1)
  }

  lemma EntryIsText(index: nat)
    requires index < SIZE
    ensures IsText(Entry(index))
  {
    Utf8.AsciiIsValid(Entry(index).0);
    Utf8.AsciiIsValid(Entry(index).1);
  }

  function ParseIndexed(b: seq<byte>): (r: Result<Line, DecodeError>)
    ensures r.Ok? ==> 1 <= r.value.len <= |b| && IsText(r.value.field)
  {
    var p :- Prefix(b, 6);
    if p.value >= SIZE then Err(UnknownEntry)
    else
      EntryIsText(p.value);
      Ok(Line(Entry(p.value), p.len))
  }

  function ParseNameReference(b: seq<byte>): (r: Result<Line, DecodeError>)
    ensures r.Ok? ==> 1 <= r.value.len <= |b| && IsText(r.value.field)
  {
    var p :- Prefix(b, 4);
    if p.value >= SIZE then Err(UnknownEntry)
    else
      EntryIsText(p.value);
      var s :- ParseText(b[p.len..], 8);
      Ok(Line((Entry(p.value).0, s.bytes), p.len + s.len))
  }

  function ParseLiteral(b: seq<byte>): (r: Result<Line, DecodeError>)
    ensures r.Ok? ==> 1 <= r.value.len <= |b| && IsText(r.value.field)
  {
    var n :- ParseText(b, 4);
    var s :- ParseText(b[n.len..], 8);
    Ok(Line((n.bytes, s.bytes), n.len + s.len))
  }

  datatype Representation = Indexed | NameReference | Literal | Dynamic | Unknown

  /** The high bits of the first byte tell how a field line is represented. */
  function RepresentationOf(peek: byte): Representation {
    if peek / 64 == 3 then Indexed                                   // 11......
    else if peek / 64 == 2 then Dynamic                              // 10......
    else if peek / 64 == 1 && peek / 16 % 2 == 1 then NameReference  // 01.1....
    else if peek / 64 == 1 then Dynamic                              // 01.0....
    else if peek / 32 == 1 then Literal                              // 001.....
    else if peek / 16 == 1 then Dynamic                              // 0001....
    else if peek / 16 == 0 then Dynamic                              // 0000....
    else Unknown
  }

  function ParseLine(b: seq<byte>): (r: Result<Line, DecodeError>)
    requires b != []
    ensures r.Ok? ==> 1 <= r.value.len <= |b| && IsText(r.value.field)
  {
    match RepresentationOf(b[0])
    case Indexed => ParseIndexed(b)
    case NameReference => ParseNameReference(b)
    case Literal => ParseLiteral(b)
    case Dynamic => Err(DynamicEntry)
    case Unknown => Err(UnknownEntry)
  }

  // ------------------------------------------------------- a whole section

  /** The fields so far, the pseudo-header names seen, and whether a regular field was seen. */
  datatype Progress = Progress(fields: map<Text, Text>, pseudo: set<Text>, regular: bool)

  function Add(p: Progress, f: Field): Result<Progress, DecodeError>
    requires IsText(f)
  {
    var (name, value) := f;
    if Validate(name, value).Some? then Err(InvalidField(Validate(name, value).value))
    else if !IsPseudo(name) then Ok(Progress(p.fields[name := value], p.pseudo, true))
    else if p.regular then Err(PseudoHeaderAfterRegularField)
    else if name in p.pseudo then Err(DuplicatePseudoHeader(name))
    else Ok(Progress(p.fields[name := value], p.pseudo + {name}, p.regular))
  }

  function ParseLines(b: seq<byte>, p: Progress): Result<Progress, DecodeError>
    decreases |b|
  {
    if b == [] then Ok(p)
    else
      var l :- ParseLine(b);
      var q :- Add(p, l.field);
      ParseLines(b[l.len..], q)
  }

  const START := Progress(map[], {}, false)

  /** A field section: the two integers that refer to the dynamic table, then the lines. */
  function ParseHeaders(b: seq<byte>): Result<map<Text, Text>, DecodeError> {
    var insertCount :- Prefix(b, 8);
    var base :- Prefix(b[insertCount.len..], 7);
    if insertCount.value != 0 || base.flags != 0 || base.value != 0 then Err(DynamicEntry)
    else
      var p :- ParseLines(b[insertCount.len..][base.len..], START);
      Ok(p.fields)
  }

  // ------------------------------------------------------- Huffman strings short enough for 32-bit positions

  /** A Huffman string at the front of b is below half a gigabyte. */
  predicate StringAddressable(b: seq<byte>, size: nat)
    requires 2 <= size <= 8
  {
    match Prefix(b, size - 1)
    case Ok(p) => p.flags % 2 == 1 && p.value <= |b| - p.len ==> 8 * p.value + 8 < TWO_32
    case Err(_) => true
  }

  predicate LineAddressable(b: seq<byte>)
    requires b != []
  {
    match RepresentationOf(b[0])
    case NameReference =>
      (match Prefix(b, 4)
       case Ok(p) => p.value < SIZE ==> StringAddressable(b[p.len..], 8)
       case Err(_) => true)
    case Literal =>
      StringAddressable(b, 4) && (match ParseText(b, 4)
                                  case Ok(n) => StringAddressable(b[n.len..], 8)
                                  case Err(_) => true)
    case _ => true
  }

  /** So are all Huffman strings that decoding gets to. */
  predicate LinesAddressable(b: seq<byte>, p: Progress)
    decreases |b|
  {
    b == []
    || (LineAddressable(b) && (match ParseLine(b)
                               case Ok(l) => (match Add(p, l.field)
                                              case Ok(q) => LinesAddressable(b[l.len..], q)
                                              case Err(_) => true)
                               case Err(_) => true))
  }

  predicate SectionAddressable(b: seq<byte>) {
    match Prefix(b, 8)
    case Err(_) => true
    case Ok(insertCount) =>
      match Prefix(b[insertCount.len..], 7)
      case Err(_) => true
      case Ok(base) =>
        insertCount.value == 0 && base.flags == 0 && base.value == 0 ==>
          LinesAddressable(b[insertCount.len..][base.len..], START)
  }

  // ------------------------------------------------------- writing

  /** Rust strings are shorter than 2^64 bytes. */
  predicate Fits(f: Field) {
    |f.0| < TWO_64 && |f.1| < TWO_64
  }

  function EncodeValue(s: Text): (b: seq<byte>)
    requires |s| < TWO_64
    ensures b != []
  {
    PrefixInts.EncodePrefix(7, 0, |s|) + s
  }

  function EncodeLine(f: Field): (b: seq<byte>)
    requires Fits(f)
    ensures b != []
  {
    var (name, value) := f;
    var exact, named := FirstExact(name, value, 0), FirstName(name, 0);
    if exact.Some? && exact.value < SIZE then PrefixInts.EncodePrefix(6, 3, exact.value)
    else if named.Some? && named.value < SIZE then PrefixInts.EncodePrefix(4, 5, named.value) + EncodeValue(value)
    else PrefixInts.EncodePrefix(3, 4, |name|) + name + EncodeValue(value)
  }

  predicate AllFit(fs: seq<Field>) {
    forall i :: 0 <= i < |fs| ==> Fits(fs[i])
  }

  function EncodeLines(fs: seq<Field>): seq<byte>
    requires AllFit(fs)
  {
    if fs == [] then [] else EncodeLine(fs[0]) + EncodeLines(fs[1..])
  }

  function SectionPrefix(): seq<byte> {
    PrefixInts.EncodePrefix(8, 0, 0) + PrefixInts.EncodePrefix(7, 0, 0)
  }

  function Select(names: seq<Text>, pseudo: bool): seq<Text> {
    if names == [] then []
    else (if IsPseudo(names[0]) == pseudo then [names[0]] else []) + Select(names[1..], pseudo)
  }

  /** The stable sort that moves pseudo-header fields to the front. */
  function PseudoFirst(names: seq<Text>): seq<Text> {
    Select(names, true) + Select(names, false)
  }

  function FieldsOf(m: map<Text, Text>, names: seq<Text>): (fs: seq<Field>)
    requires forall i :: 0 <= i < |names| ==> names[i] in m
    ensures |fs| == |names|
    ensures forall i :: 0 <= i < |fs| ==> fs[i] == (names[i], m[names[i]])
  {
    seq(|names|, i requires 0 <= i < |names| => (names[i], m[names[i]]))
  }
}
