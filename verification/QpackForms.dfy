/**
 * Every way of writing a field line without the dynamic table (section 4.5 of RFC 9204), whoever wrote it: strings
 * plain or Huffman-coded, with or without the bit that forbids indexing. The decoder reads the same field back.
 */
module QpackForms {
  import opened Bytes
  import opened Bits
  import opened StaticTable
  import opened Qpack
  import PrefixInts
  import Huffman
  import HuffmanTheorems
  import Utf8

  datatype Form =
    | ByIndex(index: nat)
    | ByName(index: nat, never: bool, packed: bool)
    | SpelledOut(never: bool, packedName: bool, packedValue: bool)

  /** The bytes of a string literal. */
  ghost function Payload(s: Text, packed: bool): seq<byte> {
    if packed then HuffmanTheorems.EncodeString(s) else s
  }

  predicate Short(payload: seq<byte>) {
    |payload| < TWO_64
  }

  ghost predicate FormFits(f: Field, form: Form) {
    match form
    case ByIndex(index) => index < SIZE && Entry(index) == f
    case ByName(index, _, packed) => index < SIZE && Entry(index).0 == f.0 && Short(Payload(f.1, packed))
    case SpelledOut(_, packedName, packedValue) =>
      Short(Payload(f.0, packedName)) && Short(Payload(f.1, packedValue))
  }

  ghost function WireString(size: nat, flags: byte, s: Text, packed: bool): (b: seq<byte>)
    requires 1 <= size <= 8 && Short(Payload(s, packed))
    ensures b != []
  {
    PrefixInts.EncodePrefix(size, flags, |Payload(s, packed)|) + Payload(s, packed)
  }

  function Flag(bit: bool): byte {
    if bit then 1 else 0
  }

  /** The field in the given form. */
  ghost function WireLine(f: Field, form: Form): (b: seq<byte>)
    requires FormFits(f, form)
    ensures b != []
  {
    match form
    case ByIndex(index) => PrefixInts.EncodePrefix(6, 3, index)
    case ByName(index, never, packed) =>
      PrefixInts.EncodePrefix(4, 5 + 2 * Flag(never), index) + WireString(7, Flag(packed), f.1, packed)
    case SpelledOut(never, packedName, packedValue) =>
      WireString(3, 4 + 2 * Flag(never) + Flag(packedName), f.0, packedName)
      + WireString(7, Flag(packedValue), f.1, packedValue)
  }

  // ------------------------------------------------------- reading a line back

  lemma PrefixRoundTrip(size: nat, flags: byte, value: u64, more: seq<byte>)
    requires 1 <= size <= 8
    ensures var e := PrefixInts.EncodePrefix(size, flags, value);
            && 0 <= flags % Pow2(8 - size) < 256
            && Prefix(e + more, size) == Ok(PrefixInts.PrefixInt(flags % Pow2(8 - size), value, |e|))
            && (e + more)[0] / Pow2(size) == flags % Pow2(8 - size)
  {
    hide Pow2, PrefixInts.Continue, PrefixInts.EncodePrefix;
    PrefixInts.RoundTrip(size, flags, value, more);
  }

  lemma PayloadUnpacks(s: Text, packed: bool)
    ensures Unpack(Payload(s, packed), packed) == Ok(s)
  {
    hide HuffmanTheorems.Decode, HuffmanTheorems.EncodeString, BitsOf, Huffman.FaultIn;
    if packed {
      HuffmanTheorems.HuffmanRoundTrip(s);
    }
  }

  /** A string literal is read back whether it is Huffman-coded or not. */
  lemma StringRoundTrip(size: nat, flags: byte, s: Text, packed: bool, more: seq<byte>)
    requires 2 <= size <= 8 && Utf8.Valid(s) && Short(Payload(s, packed))
    requires flags % Pow2(9 - size) % 2 == Flag(packed)
    ensures var e := WireString(size - 1, flags, s, packed);
            ParseText(e + more, size) == Ok(Str(s, |e|))
  {
    hide Pow2, PrefixInts.EncodePrefix, Utf8.Valid, Prefix, Payload, Unpack;
    var payload := Payload(s, packed);
    var head := PrefixInts.EncodePrefix(size - 1, flags, |payload|);
    var b := head + payload + more;
    assert b == head + (payload + more);
    PrefixRoundTrip(size - 1, flags, |payload|, payload + more);
    PayloadUnpacks(s, packed);
    assert b[|head|..|head| + |payload|] == payload;
  }

  lemma ValueReads(s: Text, packed: bool, more: seq<byte>)
    requires Utf8.Valid(s) && Short(Payload(s, packed))
    ensures var e := WireString(7, Flag(packed), s, packed);
            ParseText(e + more, 8) == Ok(Str(s, |e|))
  {
    SmallPowers();
    hide Pow2, WireString, Utf8.Valid, ParseText, Payload;
    StringRoundTrip(8, Flag(packed), s, packed, more);
  }

  lemma IndexReads(index: nat, more: seq<byte>)
    requires index < SIZE
    ensures var e := PrefixInts.EncodePrefix(6, 3, index);
            ParseLine(e + more) == Ok(Line(Entry(index), |e|))
  {
    SmallPowers();
    hide Pow2, PrefixInts.EncodePrefix, Utf8.Valid, Prefix, Entry;
    PrefixRoundTrip(6, 3, index, more);
    assert Pow2(2) == 4 && Pow2(6) == 64;
  }

  /** The index of a name, in front of a value. */
  lemma NameIndexReads(index: nat, never: bool, rest: seq<byte>)
    requires index < SIZE
    ensures var head := PrefixInts.EncodePrefix(4, 5 + 2 * Flag(never), index);
            && head != []
            && RepresentationOf((head + rest)[0]) == NameReference
            && Prefix(head + rest, 4).Ok?
            && Prefix(head + rest, 4).value.value == index && Prefix(head + rest, 4).value.len == |head|
  {
    SmallPowers();
    hide Pow2, PrefixInts.EncodePrefix, Prefix;
    var flags := 5 + 2 * Flag(never);
    PrefixRoundTrip(4, flags, index, rest);
    assert Pow2(4) == 16 && (PrefixInts.EncodePrefix(4, flags, index) + rest)[0] / 16 == flags;
  }

  lemma ByNameReads(index: nat, never: bool, value: Text, packed: bool, more: seq<byte>)
    requires index < SIZE && Utf8.Valid(value) && Short(Payload(value, packed))
    ensures var e := PrefixInts.EncodePrefix(4, 5 + 2 * Flag(never), index)
                     + WireString(7, Flag(packed), value, packed);
            ParseLine(e + more) == Ok(Line((Entry(index).0, value), |e|))
  {
    hide PrefixInts.EncodePrefix, WireString, Utf8.Valid, Prefix, Entry, ParseText, RepresentationOf, Payload;
    var head := PrefixInts.EncodePrefix(4, 5 + 2 * Flag(never), index);
    var rest := WireString(7, Flag(packed), value, packed) + more;
    var b := head + WireString(7, Flag(packed), value, packed) + more;
    assert b == head + rest;
    NameIndexReads(index, never, rest);
    assert b[|head|..] == rest;
    ValueReads(value, packed, more);
  }

  /** A name that is spelled out, in front of a value. */
  lemma NameReads(name: Text, never: bool, packed: bool, rest: seq<byte>)
    requires Utf8.Valid(name) && Short(Payload(name, packed))
    ensures var head := WireString(3, 4 + 2 * Flag(never) + Flag(packed), name, packed);
            && RepresentationOf((head + rest)[0]) == Literal
            && ParseText(head + rest, 4) == Ok(Str(name, |head|))
  {
    SmallPowers();
    hide Pow2, PrefixInts.EncodePrefix, Utf8.Valid, Prefix, ParseText, Payload;
    var flags := 4 + 2 * Flag(never) + Flag(packed);
    var payload := Payload(name, packed);
    var head := PrefixInts.EncodePrefix(3, flags, |payload|);
    assert head + payload + rest == head + (payload + rest);
    PrefixRoundTrip(3, flags, |payload|, payload + rest);
    assert Pow2(5) == 32 && Pow2(3) == 8 && (head + payload + rest)[0] / 8 == flags;
    StringRoundTrip(4, flags, name, packed, rest);
  }

  lemma LiteralParts(b: seq<byte>, name: Str, value: Str)
    requires b != [] && RepresentationOf(b[0]) == Literal
    requires ParseText(b, 4) == Ok(name) && name.len <= |b| && ParseText(b[name.len..], 8) == Ok(value)
    ensures ParseLine(b) == Ok(Line((name.bytes, value.bytes), name.len + value.len))
  {
    hide ParseText, RepresentationOf, Utf8.Valid;
  }

  lemma SpelledOutReads(name: Text, value: Text, never: bool, packedName: bool, packedValue: bool, more: seq<byte>)
    requires Utf8.Valid(name) && Utf8.Valid(value)
    requires Short(Payload(name, packedName)) && Short(Payload(value, packedValue))
    ensures var e := WireString(3, 4 + 2 * Flag(never) + Flag(packedName), name, packedName)
                     + WireString(7, Flag(packedValue), value, packedValue);
            ParseLine(e + more) == Ok(Line((name, value), |e|))
  {
    hide WireString, Utf8.Valid, ParseText, ParseLine, RepresentationOf, Payload;
    var head := WireString(3, 4 + 2 * Flag(never) + Flag(packedName), name, packedName);
    var rest := WireString(7, Flag(packedValue), value, packedValue) + more;
    var b := head + WireString(7, Flag(packedValue), value, packedValue) + more;
    assert b == head + rest;
    NameReads(name, never, packedName, rest);
    assert b[|head|..] == rest;
    ValueReads(value, packedValue, more);
    LiteralParts(b, Str(name, |head|), Str(value, |WireString(7, Flag(packedValue), value, packedValue)|));
  }

  /** In whatever form a field is written, that field is read back and nothing more is consumed. */
  lemma LineReads(f: Field, form: Form, more: seq<byte>)
    requires IsText(f) && FormFits(f, form)
    ensures ParseLine(WireLine(f, form) + more) == Ok(Line(f, |WireLine(f, form)|))
  {
    hide PrefixInts.EncodePrefix, WireString, Utf8.Valid, Entry, ParseLine, Payload;
    match form
    case ByIndex(index) => IndexReads(index, more);
    case ByName(index, never, packed) => ByNameReads(index, never, f.1, packed, more);
    case SpelledOut(never, packedName, packedValue) =>
      SpelledOutReads(f.0, f.1, never, packedName, packedValue, more);
  }
}
