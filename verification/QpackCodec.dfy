/** The QPACK encoder and decoder as they work on buffers. */
module QpackCodec {
  import opened Bytes
  import opened Collections
  import opened StaticTable
  import opened Fields
  import opened Qpack
  import opened QpackTheorems
  import PrefixInts
  import Bits
  import Huffman
  import HuffmanTable
  import HuffmanTheorems
  import Utf8

  method DecodePrefix(buf: Buf, size: nat) returns (r: Result<(byte, u64), DecodeError>)
    requires 1 <= size <= 8
    modifies buf
    ensures match Prefix(old(buf.rest), size)
            case Ok(p) => r == Ok((p.flags, p.value)) && buf.rest == old(buf.rest)[p.len..]
            case Err(e) => r == Err(e)
  {
    hide PrefixInts.ParsePrefix;
    var p := PrefixInts.DecodePrefix(buf, size);
    match p {
      case Ok(v) => r := Ok(v);
      case Err(UnexpectedEnd) => r := Err(UnexpectedEnd);
      case Err(BoundsExceeded) => r := Err(BoundsExceeded);
    }
  }

  method DecodeString(buf: Buf, size: nat) returns (r: Result<seq<byte>, DecodeError>)
    requires 2 <= size <= 8 && StringAddressable(buf.rest, size)
    modifies buf
    ensures match ParseString(old(buf.rest), size)
            case Ok(s) => r == Ok(s.bytes) && buf.rest == old(buf.rest)[s.len..]
            case Err(e) => r == Err(e)
  {
    hide Prefix, Huffman.Run, Huffman.FaultIn, Bits.BitsOf;
    if buf.rest == [] {
      return Err(UnexpectedEnd);
    }
    ghost var b := buf.rest;
    var prefix :- DecodePrefix(buf, size - 1);
    var (flags, len) := prefix;
    if |buf.rest| < len {
      return Err(UnexpectedEnd);
    }
    ghost var at := Prefix(b, size - 1).value.len;
    var payload := buf.Take(len);
    assert b[at..at + len] == payload && b[at + len..] == buf.rest;
    if flags % 2 == 0 {
      return Ok(payload);
    }
    HuffmanTheorems.DecoderIsWellFormed();
    var decoded := Huffman.DecodeAll(HuffmanTable.HPACK_STRING, payload);
    match decoded {
      case Ok(s) => r := Ok(s);
      case Err(e) => r := Err(HuffmanError(Huffman.FaultOf(e)));
    }
  }

  /** `decode_string` and the UTF-8 check that always follows it. */
  method DecodeText(buf: Buf, size: nat) returns (r: Result<Text, DecodeError>)
    requires 2 <= size <= 8 && StringAddressable(buf.rest, size)
    modifies buf
    ensures match ParseText(old(buf.rest), size)
            case Ok(s) => r == Ok(s.bytes) && buf.rest == old(buf.rest)[s.len..]
            case Err(e) => r == Err(e)
  {
    hide ParseString, Utf8.Valid;
    var s :- DecodeString(buf, size);
    r := if Utf8.Valid(s) then Ok(s) else Err(Utf8Error);
  }

  method DecodeIndex(buf: Buf) returns (r: Result<Field, DecodeError>)
    modifies buf
    ensures match ParseIndexed(old(buf.rest))
            case Ok(l) => r == Ok(l.field) && buf.rest == old(buf.rest)[l.len..]
            case Err(e) => r == Err(e)
  {
    hide Prefix, Entry;
    var index :- DecodePrefix(buf, 6);
    var entry := StaticTable.Get(index.1);
    r := if entry.Some? then Ok(entry.value) else Err(UnknownEntry);
  }

  method DecodeLiteralValue(buf: Buf) returns (r: Result<Field, DecodeError>)
    requires buf.rest != [] && RepresentationOf(buf.rest[0]) == NameReference && LineAddressable(buf.rest)
    modifies buf
    ensures match ParseNameReference(old(buf.rest))
            case Ok(l) => r == Ok(l.field) && buf.rest == old(buf.rest)[l.len..]
            case Err(e) => r == Err(e)
  {
    hide Prefix, Entry, ParseText;
    ghost var b := buf.rest;
    var index :- DecodePrefix(buf, 4);
    var entry := StaticTable.Get(index.1);
    if entry.None? {
      return Err(UnknownEntry);
    }
    var value :- DecodeText(buf, 8);
    r := Ok((entry.value.0, value));
  }

  method DecodeLiteral(buf: Buf) returns (r: Result<Field, DecodeError>)
    requires buf.rest != [] && RepresentationOf(buf.rest[0]) == Literal && LineAddressable(buf.rest)
    modifies buf
    ensures match ParseLiteral(old(buf.rest))
            case Ok(l) => r == Ok(l.field) && buf.rest == old(buf.rest)[l.len..]
            case Err(e) => r == Err(e)
  {
    hide ParseText;
    var name :- DecodeText(buf, 4);
    var value :- DecodeText(buf, 8);
    r := Ok((name, value));
  }

  /** The dispatch on the first byte, which is read and put back. */
  method DecodeLine(buf: Buf) returns (r: Result<Field, DecodeError>)
    requires buf.rest != [] && LineAddressable(buf.rest)
    modifies buf
    ensures match ParseLine(old(buf.rest))
            case Ok(l) => r == Ok(l.field) && buf.rest == old(buf.rest)[l.len..]
            case Err(e) => r == Err(e)
  {
    hide ParseIndexed, ParseNameReference, ParseLiteral, RepresentationOf;
    var peek := buf.rest[0];
    match RepresentationOf(peek) {
      case Indexed => r := DecodeIndex(buf);
      case NameReference => r := DecodeLiteralValue(buf);
      case Literal => r := DecodeLiteral(buf);
      case Dynamic => r := Err(DynamicEntry);
      case Unknown => r := Err(UnknownEntry);
    }
  }

  class Headers {
    var fields: map<Text, Text>

    constructor ()
      ensures fields == map[]
    {
      fields := map[];
    }

    function Get(name: Text): Option<Text>
      reads this
    {
      if name in fields then Some(fields[name]) else None
    }

    method Set(name: Text, value: Text)
      modifies this
      ensures fields == old(fields)[name := value]
    {
      fields := fields[name := value];
    }

    static method Decode(buf: Buf) returns (r: Result<Headers, DecodeError>)
      requires SectionAddressable(buf.rest)
      modifies buf
      ensures match ParseHeaders(old(buf.rest))
              case Ok(m) => r.Ok? && fresh(r.value) && r.value.fields == m && buf.rest == []
              case Err(e) => r == Err(e)
    {
      hide Prefix, ParseLine, ParseLines, Validate, Utf8.Valid;
      var insertCount :- DecodePrefix(buf, 8);
      var base :- DecodePrefix(buf, 7);
      if insertCount.1 != 0 || base.0 != 0 || base.1 != 0 {
        return Err(DynamicEntry);
      }
      var headers := new Headers();
      var pseudoHeaders: set<Text> := {};
      var sawRegularField := false;
      ghost var section := buf.rest;
      ghost var all := ParseLines(section, START);
      while buf.rest != []
        invariant fresh(headers)
        invariant LinesAddressable(buf.rest, Progress(headers.fields, pseudoHeaders, sawRegularField))
        invariant ParseLines(buf.rest, Progress(headers.fields, pseudoHeaders, sawRegularField)) == all
        decreases |buf.rest|
      {
        ghost var p := Progress(headers.fields, pseudoHeaders, sawRegularField);
        ParseLinesStep(buf.rest, p);
        var field :- DecodeLine(buf);
        var (name, value) := field;
        var problem := Validate(name, value);
        if problem.Some? {
          return Err(InvalidField(problem.value));
        }
        if IsPseudo(name) {
          if sawRegularField {
            return Err(PseudoHeaderAfterRegularField);
          }
          if name in pseudoHeaders {
            return Err(DuplicatePseudoHeader(name));
          }
          pseudoHeaders := pseudoHeaders + {name};
        } else {
          sawRegularField := true;
        }
        headers.Set(name, value);
      }
      assert ParseLines([], Progress(headers.fields, pseudoHeaders, sawRegularField)).Ok? by {
        ParseNoLines(Progress(headers.fields, pseudoHeaders, sawRegularField));
      }
      ParseNoLines(Progress(headers.fields, pseudoHeaders, sawRegularField));
      r := Ok(headers);
    }

    /** The map is visited in the order `names`. */
    method Encode(buf: BufMut, names: seq<Text>)
      requires AllFieldsText(fields) && IterationOrder(names, fields)
      modifies buf
      ensures buf.bytes == old(buf.bytes) + EncodeHeaders(fields, names)
    {
      hide PrefixInts.EncodePrefix, PseudoFirst, EncodeLine, EncodeLines, Utf8.Valid;
      PrefixInts.PutPrefix(buf, 8, 0, 0);
      PrefixInts.PutPrefix(buf, 7, 0, 0);
      PseudoFirstIsStableSort(names, fields);
      var headers := PseudoFirst(names);
      ghost var fs := FieldsOf(fields, headers);
      ghost var whole := old(buf.bytes) + EncodeHeaders(fields, names);
      assert fs[0..] == fs && buf.bytes + EncodeLines(fs) == whole;
      assert AllFit(fs);
      hide EncodeHeaders, IterationOrder;
      var i := 0;
      while i < |headers|
        invariant i <= |headers| && AllFit(fs[i..])
        invariant buf.bytes + EncodeLines(fs[i..]) == whole
      {
        EncodeLinesStep(fs, i);
        PutLine(buf, headers[i], fields[headers[i]]);
        i := i + 1;
      }
      NoLines(fs);
    }
  }

  lemma EncodeLinesStep(fs: seq<Field>, i: nat)
    requires i < |fs| && AllFit(fs)
    ensures AllFit(fs[i..]) && AllFit(fs[i + 1..])
    ensures EncodeLines(fs[i..]) == EncodeLine(fs[i]) + EncodeLines(fs[i + 1..])
  {
    hide EncodeLine;
    assert fs[i..][1..] == fs[i + 1..];
  }

  lemma NoLines(fs: seq<Field>)
    ensures fs[|fs|..] == [] && EncodeLines([]) == []
  {
  }

  lemma ParseNoLines(p: Progress)
    ensures ParseLines([], p) == Ok(p)
  {
  }

  /** One field: by index, by the index of its name, or spelled out. */
  method PutLine(buf: BufMut, name: Text, value: Text)
    requires Fits((name, value))
    modifies buf
    ensures buf.bytes == old(buf.bytes) + EncodeLine((name, value))
  {
    hide PrefixInts.EncodePrefix, Entry, FirstExact, FirstName;
    FirstExactIsFirst(name, value, 0);
    FirstNameIsFirst(name, 0);
    var entry := Lookup(name, value);
    if entry.exact.Some? {
      PrefixInts.PutPrefix(buf, 6, 3, entry.exact.value);
    } else if entry.name.Some? {
      PrefixInts.PutPrefix(buf, 4, 5, entry.name.value);
      PrefixInts.PutPrefix(buf, 7, 0, |value|);
      buf.PutSlice(value);
    } else {
      PrefixInts.PutPrefix(buf, 3, 4, |name|);
      buf.PutSlice(name);
      PrefixInts.PutPrefix(buf, 7, 0, |value|);
      buf.PutSlice(value);
    }
  }
}
