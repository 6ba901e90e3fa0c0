/** Field sections survive encoding in every order, and every accepted section has a normal form. */
module QpackTheorems {
  import opened Bytes
  import opened Bits
  import opened Collections
  import opened StaticTable
  import opened Fields
  import opened Qpack
  import opened QpackForms
  import PrefixInts
  import Huffman
  import HuffmanTheorems
  import HuffmanTable
  import Utf8

  // ------------------------------------------------------- one line

  /** The form that the encoder chooses. */
  function FormOf(f: Field): Form {
    var exact, named := FirstExact(f.0, f.1, 0), FirstName(f.0, 0);
    if exact.Some? && exact.value < SIZE then ByIndex(exact.value)
    else if named.Some? && named.value < SIZE then ByName(named.value, false, false)
    else SpelledOut(false, false, false)
  }

  lemma EncodeLineIsForm(f: Field)
    requires Fits(f)
    ensures FormFits(f, FormOf(f)) && EncodeLine(f) == WireLine(f, FormOf(f))
  {
    hide PrefixInts.EncodePrefix, Entry, FirstName, FirstExact;
    FirstExactIsFirst(f.0, f.1, 0);
    FirstNameIsFirst(f.0, 0);
  }

  /** What the encoder writes for a field is read back, and nothing more is consumed. */
  lemma LineRoundTrip(f: Field, more: seq<byte>)
    requires IsText(f) && Fits(f)
    ensures ParseLine(EncodeLine(f) + more) == Ok(Line(f, |EncodeLine(f)|))
  {
    hide FormFits, FormOf, WireLine, EncodeLine, ParseLine;
    EncodeLineIsForm(f);
    LineReads(f, FormOf(f), more);
  }

  /** The form that the encoder uses: the first static entry equal to the field, by its index. */
  lemma EncoderUsesEntry(f: Field, index: nat)
    requires Fits(f) && index < 99 && Entry(index) == f && forall j :: 0 <= j < index ==> Entry(j) != f
    ensures EncodeLine(f) == WireLine(f, ByIndex(index))
  {
    EncodeLineIsForm(f);
    ExactIndex(f.0, f.1, 0, index);
    hide Entry, EncodeLine, WireLine, FirstExact, FirstName;
  }

  /** Without such an entry, the first of the same name. */
  lemma EncoderUsesName(f: Field, index: nat)
    requires Fits(f) && index < 99 && forall j :: 0 <= j < 99 ==> Entry(j) != f
    requires Entry(index).0 == f.0 && forall j :: 0 <= j < index ==> Entry(j).0 != f.0
    ensures var form := ByName(index, false, false); FormFits(f, form) && EncodeLine(f) == WireLine(f, form)
  {
    EncodeLineIsForm(f);
    NoExactIndex(f.0, f.1, 0);
    NameIndex(f.0, 0, index);
    hide Entry, EncodeLine, WireLine, FormFits, FirstExact, FirstName;
  }

  /** Only names that no static entry has are spelled out. */
  lemma EncoderSpellsOut(f: Field)
    requires Fits(f) && forall j :: 0 <= j < 99 ==> Entry(j).0 != f.0
    ensures var form := SpelledOut(false, false, false); FormFits(f, form) && EncodeLine(f) == WireLine(f, form)
  {
    EncodeLineIsForm(f);
    NoNameIndex(f.0, f.1, 0);
    hide Entry, EncodeLine, WireLine, FormFits, FirstExact, FirstName;
  }

  /** Every first byte selects a representation that the decoder knows. */
  lemma EveryRepresentationIsKnown(peek: byte)
    ensures RepresentationOf(peek) != Unknown
  {
  }

  /** References to the dynamic table are refused by their first byte, and static entries that do not exist. */
  lemma RefusedLines(b: seq<byte>)
    requires b != []
    ensures ParseLine(b) == Err(DynamicEntry) <==>
              b[0] < 0x20 || 0x40 <= b[0] < 0x50 || 0x60 <= b[0] < 0x70 || 0x80 <= b[0] < 0xC0
    ensures ParseLine(b) == Err(UnknownEntry) <==>
              || (b[0] >= 0xC0 && Prefix(b, 6).Ok? && Prefix(b, 6).value.value >= 99)
              || ((0x50 <= b[0] < 0x60 || 0x70 <= b[0] < 0x80) && Prefix(b, 4).Ok? && Prefix(b, 4).value.value >= 99)
  {
    Representations(b[0]);
    IndexedErrors(b);
    NameReferenceErrors(b);
    LiteralErrors(b);
    hide Prefix, ParseIndexed, ParseNameReference, ParseLiteral, RepresentationOf;
  }

  lemma Representations(peek: byte)
    ensures RepresentationOf(peek) == if peek < 0x20 then Dynamic
                                      else if peek < 0x40 then Literal
                                      else if peek < 0x50 then Dynamic
                                      else if peek < 0x60 then NameReference
                                      else if peek < 0x70 then Dynamic
                                      else if peek < 0x80 then NameReference
                                      else if peek < 0xC0 then Dynamic
                                      else Indexed
  {
  }

  lemma IndexedErrors(b: seq<byte>)
    ensures ParseIndexed(b) != Err(DynamicEntry)
    ensures ParseIndexed(b) == Err(UnknownEntry) <==> Prefix(b, 6).Ok? && Prefix(b, 6).value.value >= 99
  {
    PrefixErrors(b, 6);
    hide Prefix, Utf8.Valid, Entry;
  }

  lemma NameReferenceErrors(b: seq<byte>)
    ensures ParseNameReference(b) != Err(DynamicEntry)
    ensures ParseNameReference(b) == Err(UnknownEntry) <==> Prefix(b, 4).Ok? && Prefix(b, 4).value.value >= 99
  {
    PrefixErrors(b, 4);
    if Prefix(b, 4).Ok? {
      TextErrors(b[Prefix(b, 4).value.len..], 8);
    }
    hide Prefix, ParseText, Utf8.Valid, Entry;
  }

  lemma LiteralErrors(b: seq<byte>)
    ensures ParseLiteral(b) != Err(DynamicEntry) && ParseLiteral(b) != Err(UnknownEntry)
  {
    TextErrors(b, 4);
    if ParseText(b, 4).Ok? {
      TextErrors(b[ParseText(b, 4).value.len..], 8);
    }
    hide ParseText, Utf8.Valid;
  }

  lemma PrefixErrors(b: seq<byte>, size: nat)
    requires 1 <= size <= 8
    ensures Prefix(b, size).Err? ==> Prefix(b, size).error in {UnexpectedEnd, BoundsExceeded}
  {
    hide PrefixInts.ParsePrefix;
  }

  lemma TextErrors(b: seq<byte>, size: nat)
    requires 2 <= size <= 8
    ensures ParseText(b, size).Err? ==> ParseText(b, size).error !in {DynamicEntry, UnknownEntry}
  {
    PrefixErrors(b, size - 1);
    hide Prefix, Utf8.Valid, HuffmanTheorems.Decode, BitsOf, Huffman.FaultIn;
  }

  /** A section that refers to the dynamic table in either of its two leading integers is refused. */
  lemma DynamicSections(insertCount: u64, sign: byte, base: u64, more: seq<byte>)
    requires insertCount != 0 || sign % 2 == 1 || base != 0
    ensures ParseHeaders(PrefixInts.EncodePrefix(8, 0, insertCount) + PrefixInts.EncodePrefix(7, sign, base) + more)
            == Err(DynamicEntry)
  {
    SmallPowers();
    var one, two := PrefixInts.EncodePrefix(8, 0, insertCount), PrefixInts.EncodePrefix(7, sign, base);
    hide Pow2, PrefixInts.EncodePrefix, Prefix, ParseLines;
    PrefixRoundTrip(8, 0, insertCount, two + more);
    PrefixRoundTrip(7, sign, base, more);
    assert one + two + more == one + (two + more);
    assert (one + (two + more))[|one|..] == two + more;
    assert Pow2(1) == 2;
  }

  // ------------------------------------------------------- a list of lines

  predicate AllText(fs: seq<Field>) {
    forall i :: 0 <= i < |fs| ==> IsText(fs[i])
  }

  lemma ParseLinesStep(b: seq<byte>, p: Progress)
    requires b != []
    ensures var l := ParseLine(b);
            ParseLines(b, p) ==
              if l.Err? then Err(l.error)
              else match Add(p, l.value.field)
                   case Err(e) => Err(e)
                   case Ok(q) => ParseLines(b[l.value.len..], q)
  {
    hide Add, ParseLine;
  }

  /** The fields before i are pseudo-header fields of other names. */
  predicate AmongPseudo(fs: seq<Field>, i: nat)
    requires i < |fs|
  {
    forall j :: 0 <= j < i ==> IsPseudo(fs[j].0) && fs[j].0 != fs[i].0
  }

  /**
   * Field i is permitted; and if it is a pseudo-header field, it comes before all regular fields and only once
   * (section 4.3 of RFC 9114), also after what was seen in p.
   */
  ghost predicate InPlace(fs: seq<Field>, i: nat, p: Progress)
    requires i < |fs|
  {
    && Permitted(fs[i].0, fs[i].1)
    && (IsPseudo(fs[i].0) ==>
          !p.regular && fs[i].0 !in p.pseudo && AmongPseudo(fs, i))
  }

  ghost predicate Accepted(fs: seq<Field>, p: Progress) {
    forall i :: 0 <= i < |fs| ==> InPlace(fs, i, p)
  }

  /** Later fields replace earlier ones of the same name. */
  function LastWins(fields: map<Text, Text>, fs: seq<Field>): map<Text, Text>
    decreases |fs|
  {
    if fs == [] then fields else LastWins(fields[fs[0].0 := fs[0].1], fs[1..])
  }

  /** When one more field is accepted, and what is then known of those seen. */
  lemma AddExactly(p: Progress, f: Field)
    requires IsText(f)
    ensures Add(p, f).Ok? <==> Permitted(f.0, f.1) && (IsPseudo(f.0) ==> !p.regular && f.0 !in p.pseudo)
    ensures Add(p, f).Ok? ==>
              var q := Add(p, f).value;
              && q.fields == p.fields[f.0 := f.1]
              && q.regular == (p.regular || !IsPseudo(f.0))
              && q.pseudo == (if IsPseudo(f.0) then p.pseudo + {f.0} else p.pseudo)
  {
    ValidateExactly(f.0, f.1);
    hide Validate, Permitted, Utf8.Valid, IsPseudo;
  }

  lemma AcceptedStep(fs: seq<Field>, p: Progress)
    requires fs != [] && AllText(fs)
    ensures IsText(fs[0]) && AllText(fs[1..])
    ensures Accepted(fs, p) <==> Add(p, fs[0]).Ok? && Accepted(fs[1..], Add(p, fs[0]).value)
  {
    hide IsText, InPlace, Add;
    FirstInPlace(fs, p);
    if Add(p, fs[0]).Ok? {
      var rest, q := fs[1..], Add(p, fs[0]).value;
      forall i | 0 <= i < |rest| ensures InPlace(rest, i, q) <==> InPlace(fs, i + 1, p) {
        LaterInPlace(fs, p, i);
      }
      if Accepted(rest, q) {
        forall i | 0 <= i < |fs| ensures InPlace(fs, i, p) {
          assert i > 0 ==> InPlace(rest, i - 1, q);
        }
      }
    }
  }

  lemma FirstInPlace(fs: seq<Field>, p: Progress)
    requires fs != [] && IsText(fs[0])
    ensures Add(p, fs[0]).Ok? <==> InPlace(fs, 0, p)
  {
    AddExactly(p, fs[0]);
    hide IsText, Add, IsPseudo, Permitted;
  }

  lemma LaterInPlace(fs: seq<Field>, p: Progress, i: nat)
    requires i + 1 < |fs| && IsText(fs[0]) && Add(p, fs[0]).Ok?
    ensures InPlace(fs[1..], i, Add(p, fs[0]).value) <==> InPlace(fs, i + 1, p)
  {
    AddExactly(p, fs[0]);
    AmongPseudoStep(fs, i);
    hide IsText, Add, IsPseudo, Permitted, AmongPseudo;
  }

  lemma AmongPseudoStep(fs: seq<Field>, i: nat)
    requires i + 1 < |fs|
    ensures fs[1..][i] == fs[i + 1]
    ensures AmongPseudo(fs, i + 1) <==> AmongPseudo(fs[1..], i) && IsPseudo(fs[0].0) && fs[0].0 != fs[i + 1].0
  {
    hide IsPseudo;
    var rest := fs[1..];
    if AmongPseudo(rest, i) && IsPseudo(fs[0].0) && fs[0].0 != fs[i + 1].0 {
      forall j | 0 <= j < i + 1 ensures IsPseudo(fs[j].0) && fs[j].0 != fs[i + 1].0 {
        assert j > 0 ==> rest[j - 1] == fs[j];
      }
    }
    if AmongPseudo(fs, i + 1) {
      assert IsPseudo(fs[0].0) && fs[0].0 != fs[i + 1].0;
      forall j | 0 <= j < i ensures IsPseudo(rest[j].0) && rest[j].0 != rest[i].0 {
        assert rest[j] == fs[j + 1];
      }
    }
  }

  /** The fields of the lines of b, in order; None when some line does not parse. */
  function LinesOf(b: seq<byte>): (r: Option<seq<Field>>)
    ensures r.Some? ==> AllText(r.value)
    decreases |b|
  {
    if b == [] then Some([])
    else
      match ParseLine(b)
      case Err(_) => None
      case Ok(l) =>
        match LinesOf(b[l.len..])
        case None => None
        case Some(fs) => Some([l.field] + fs)
  }

  lemma LinesOfStep(b: seq<byte>)
    requires b != []
    ensures LinesOf(b).Some? <==> ParseLine(b).Ok? && LinesOf(b[ParseLine(b).value.len..]).Some?
    ensures LinesOf(b).Some? ==>
              LinesOf(b).value == [ParseLine(b).value.field] + LinesOf(b[ParseLine(b).value.len..]).value
  {
    hide ParseLine;
  }

  /**
   * On every byte string: decoding lines succeeds exactly when each parses, all are valid, and they are well
   * ordered; then the last value of a name wins.
   */
  lemma {:induction false} LinesExactly(b: seq<byte>, p: Progress)
    ensures ParseLines(b, p).Ok? <==> LinesOf(b).Some? && Accepted(LinesOf(b).value, p)
    ensures ParseLines(b, p).Ok? ==> ParseLines(b, p).value.fields == LastWins(p.fields, LinesOf(b).value)
    decreases |b|
  {
    if b == [] {
      NoLinesAccepted(p);
    } else {
      ParseLinesStep(b, p);
      LinesOfStep(b);
      hide Accepted, Add, IsText, ParseLine, ParseLines, LinesOf;
      if ParseLine(b).Ok? {
        var l := ParseLine(b).value;
        var rest := b[l.len..];
        if Add(p, l.field).Ok? {
          AddExactly(p, l.field);
          LinesExactly(rest, Add(p, l.field).value);
        }
        if LinesOf(rest).Some? {
          var fs := LinesOf(b).value;
          assert fs[0] == l.field && fs[1..] == LinesOf(rest).value;
          AcceptedStep(fs, p);
        }
      }
    }
  }

  /** What is reported about the first field that is not in place. */
  ghost function Problem(fs: seq<Field>, i: nat, p: Progress): DecodeError
    requires i < |fs|
  {
    var (name, value) := fs[i];
    if !IsFieldName(name) then InvalidField(InvalidFieldName)
    else if !IsFieldValue(value) then InvalidField(InvalidFieldValue)
    else if !Permitted(name, value) then InvalidField(ConnectionSpecificField)
    else if p.regular || exists j :: 0 <= j < i && !IsPseudo(fs[j].0) then PseudoHeaderAfterRegularField
    else DuplicatePseudoHeader(name)
  }

  ghost predicate FirstProblem(fs: seq<Field>, i: nat, p: Progress)
    requires i < |fs|
  {
    !InPlace(fs, i, p) && forall j :: 0 <= j < i ==> InPlace(fs, j, p)
  }

  lemma FirstFieldReports(p: Progress, fs: seq<Field>)
    requires fs != [] && IsText(fs[0]) && Add(p, fs[0]).Err?
    ensures Add(p, fs[0]).error == Problem(fs, 0, p)
  {
    ValidateExactly(fs[0].0, fs[0].1);
    hide Validate, Permitted, IsFieldName, IsFieldValue, Utf8.Valid, IsPseudo;
  }

  lemma ProblemStep(fs: seq<Field>, i: nat, p: Progress)
    requires i + 1 < |fs| && IsText(fs[0]) && Add(p, fs[0]).Ok? && FirstProblem(fs, i + 1, p)
    ensures FirstProblem(fs[1..], i, Add(p, fs[0]).value)
    ensures Problem(fs[1..], i, Add(p, fs[0]).value) == Problem(fs, i + 1, p)
  {
    AddExactly(p, fs[0]);
    hide IsText, Add, IsPseudo, Permitted, InPlace, IsFieldName, IsFieldValue;
    var rest := fs[1..];
    forall j | 0 <= j <= i
      ensures rest[j] == fs[j + 1] && (InPlace(rest, j, Add(p, fs[0]).value) <==> InPlace(fs, j + 1, p))
    {
      LaterInPlace(fs, p, j);
    }
    RegularStep(fs, i);
  }

  lemma RegularStep(fs: seq<Field>, i: nat)
    requires i + 1 < |fs|
    ensures (exists j :: 0 <= j < i + 1 && !IsPseudo(fs[j].0)) <==>
              !IsPseudo(fs[0].0) || exists j :: 0 <= j < i && !IsPseudo(fs[1..][j].0)
  {
    hide IsPseudo;
    var rest := fs[1..];
    if j :| 0 <= j < i && !IsPseudo(rest[j].0) {
      assert !IsPseudo(fs[j + 1].0);
    }
    if j :| 0 < j < i + 1 && !IsPseudo(fs[j].0) {
      assert !IsPseudo(rest[j - 1].0);
    }
  }

  /** When all lines parse, the first field that is not in place decides what is reported. */
  lemma {:induction false} FirstProblemIsReported(b: seq<byte>, p: Progress, i: nat)
    requires LinesOf(b).Some? && i < |LinesOf(b).value| && FirstProblem(LinesOf(b).value, i, p)
    ensures ParseLines(b, p) == Err(Problem(LinesOf(b).value, i, p))
    decreases |b|
  {
    hide *;
    var fs := LinesOf(b).value;
    var rest := LinesStep(b, p);
    FirstInPlace(fs, p);
    FirstProblemStarts(fs, i, p);
    if i == 0 {
      FirstFieldReports(p, fs);
    } else {
      ProblemStep(fs, i - 1, p);
      FirstProblemIsReported(rest, Add(p, fs[0]).value, i - 1);
    }
  }

  lemma FirstProblemStarts(fs: seq<Field>, i: nat, p: Progress)
    requires i < |fs| && FirstProblem(fs, i, p)
    ensures InPlace(fs, 0, p) <==> i > 0
  {
    hide InPlace;
  }

  lemma LinesStep(b: seq<byte>, p: Progress) returns (rest: seq<byte>)
    requires LinesOf(b).Some? && LinesOf(b).value != []
    ensures |rest| < |b|
    ensures var fs := LinesOf(b).value;
            && IsText(fs[0])
            && LinesOf(rest) == Some(fs[1..])
            && ParseLines(b, p) ==
                 if Add(p, fs[0]).Ok? then ParseLines(rest, Add(p, fs[0]).value) else Err(Add(p, fs[0]).error)
  {
    assert b != [];
    ParseLinesStep(b, p);
    LinesOfStep(b);
    hide Add, IsText, ParseLine, ParseLines, LinesOf;
    rest := b[ParseLine(b).value.len..];
    assert LinesOf(b).value[1..] == LinesOf(rest).value;
  }

  lemma NoLinesAccepted(p: Progress)
    ensures LinesOf([]) == Some([]) && Accepted([], p) && ParseLines([], p) == Ok(p)
  {
  }

  /** Fields written one after the other, each in a form of its own. */
  ghost function WireLines(fs: seq<Field>, forms: seq<Form>): seq<byte>
    requires |fs| == |forms| && forall i :: 0 <= i < |fs| ==> FormFits(fs[i], forms[i])
  {
    if fs == [] then [] else WireLine(fs[0], forms[0]) + WireLines(fs[1..], forms[1..])
  }

  /** Whatever forms they are written in, the lines are those fields. */
  lemma {:induction false} WireLinesRead(fs: seq<Field>, forms: seq<Form>)
    requires |fs| == |forms| && forall i :: 0 <= i < |fs| ==> FormFits(fs[i], forms[i])
    requires AllText(fs)
    ensures LinesOf(WireLines(fs, forms)) == Some(fs)
    decreases |fs|
  {
    hide FormFits, WireLine, IsText, ParseLine;
    if fs != [] {
      var line, rest := WireLine(fs[0], forms[0]), WireLines(fs[1..], forms[1..]);
      LineReads(fs[0], forms[0], rest);
      LinesOfStep(line + rest);
      hide LinesOf;
      assert (line + rest)[|line|..] == rest;
      WireLinesRead(fs[1..], forms[1..]);
      assert fs == [fs[0]] + fs[1..];
    }
  }

  lemma {:induction false} EncodeLinesRead(fs: seq<Field>)
    requires AllText(fs) && AllFit(fs)
    ensures LinesOf(EncodeLines(fs)) == Some(fs)
    decreases |fs|
  {
    hide EncodeLine, IsText, Fits, ParseLine;
    if fs != [] {
      var line, rest := EncodeLine(fs[0]), EncodeLines(fs[1..]);
      LineRoundTrip(fs[0], rest);
      LinesOfStep(line + rest);
      hide LinesOf;
      assert (line + rest)[|line|..] == rest;
      EncodeLinesRead(fs[1..]);
      assert fs == [fs[0]] + fs[1..];
    }
  }

  // ------------------------------------------------------- a whole section

  lemma {:induction false} SelectFilters(names: seq<Text>, pseudo: bool)
    ensures forall i :: 0 <= i < |Select(names, pseudo)| ==>
                          Select(names, pseudo)[i] in names && IsPseudo(Select(names, pseudo)[i]) == pseudo
    ensures forall k :: k in names && IsPseudo(k) == pseudo ==> k in Select(names, pseudo)
  {
    hide IsPseudo;
    if names != [] {
      SelectFilters(names[1..], pseudo);
      assert names == [names[0]] + names[1..];
    }
  }

  lemma {:induction false} SelectDistinct(names: seq<Text>, pseudo: bool)
    requires Distinct(names)
    ensures Distinct(Select(names, pseudo))
  {
    hide IsPseudo;
    if names != [] {
      SelectFilters(names[1..], pseudo);
      SelectDistinct(names[1..], pseudo);
    }
  }

  /** The sorted order visits the same entries, pseudo-header fields first, and keeps each group's order. */
  lemma PseudoFirstIsStableSort(names: seq<Text>, m: map<Text, Text>)
    requires IterationOrder(names, m)
    ensures IterationOrder(PseudoFirst(names), m)
    ensures var s := PseudoFirst(names);
            forall i, j :: 0 <= i < j < |s| && IsPseudo(s[j]) ==> IsPseudo(s[i])
    ensures forall pseudo :: Select(PseudoFirst(names), pseudo) == Select(names, pseudo)
  {
    hide IsPseudo, Select;
    SelectFilters(names, true);
    SelectFilters(names, false);
    SelectDistinct(names, true);
    SelectDistinct(names, false);
    SortedCovers(names, Select(names, true), Select(names, false), m);
    SortedDistinct(Select(names, true), Select(names, false));
    forall pseudo ensures Select(PseudoFirst(names), pseudo) == Select(names, pseudo) {
      SelectConcat(Select(names, true), Select(names, false), pseudo);
      SelectSame(Select(names, true), true, pseudo);
      SelectSame(Select(names, false), false, pseudo);
    }
  }

  lemma SortedCovers(names: seq<Text>, a: seq<Text>, b: seq<Text>, m: map<Text, Text>)
    requires IterationOrder(names, m)
    requires forall i :: 0 <= i < |a| ==> a[i] in names
    requires forall i :: 0 <= i < |b| ==> b[i] in names
    requires forall k :: k in names && IsPseudo(k) ==> k in a
    requires forall k :: k in names && !IsPseudo(k) ==> k in b
    ensures forall i :: 0 <= i < |a + b| ==> (a + b)[i] in m
    ensures forall k :: k in m ==> k in a + b
  {
    hide IsPseudo;
    forall k | k in m ensures k in a + b {
      assert k in names;
    }
  }

  lemma SortedDistinct(a: seq<Text>, b: seq<Text>)
    requires Distinct(a) && Distinct(b)
    requires forall i :: 0 <= i < |a| ==> IsPseudo(a[i])
    requires forall i :: 0 <= i < |b| ==> !IsPseudo(b[i])
    ensures forall i, j :: 0 <= i < j < |a + b| ==> (a + b)[i] != (a + b)[j]
    ensures forall i, j :: 0 <= i < j < |a + b| && IsPseudo((a + b)[j]) ==> IsPseudo((a + b)[i])
  {
    hide IsPseudo;
    var s := a + b;
    assert forall i :: 0 <= i < |s| ==> s[i] == if i < |a| then a[i] else b[i - |a|];
  }

  lemma {:induction false} SelectConcat(a: seq<Text>, b: seq<Text>, pseudo: bool)
    ensures Select(a + b, pseudo) == Select(a, pseudo) + Select(b, pseudo)
  {
    hide IsPseudo;
    if a == [] {
      assert a + b == b;
    } else {
      SelectStep(a[0], a[1..] + b, pseudo);
      SelectStep(a[0], a[1..], pseudo);
      hide Select;
      SplitFirst(a, b);
      SelectConcat(a[1..], b, pseudo);
      Reassociate(if IsPseudo(a[0]) == pseudo then [a[0]] else [], Select(a[1..], pseudo), Select(b, pseudo));
    }
  }

  lemma SplitFirst(a: seq<Text>, b: seq<Text>)
    requires a != []
    ensures a + b == [a[0]] + (a[1..] + b)
    ensures a == [a[0]] + a[1..]
  {
  }

  lemma SelectStep(name: Text, names: seq<Text>, pseudo: bool)
    ensures Select([name] + names, pseudo) ==
              (if IsPseudo(name) == pseudo then [name] else []) + Select(names, pseudo)
  {
    hide IsPseudo;
    assert ([name] + names)[1..] == names;
  }

  lemma {:induction false} SelectSame(names: seq<Text>, all: bool, pseudo: bool)
    requires forall i :: 0 <= i < |names| ==> IsPseudo(names[i]) == all
    ensures Select(names, pseudo) == if all == pseudo then names else []
  {
    hide IsPseudo;
    if names != [] {
      SelectSame(names[1..], all, pseudo);
      assert names == [names[0]] + names[1..];
    }
  }

  lemma {:induction false} LastWinsOfMap(fields: map<Text, Text>, m: map<Text, Text>, names: seq<Text>)
    requires forall i :: 0 <= i < |names| ==> names[i] in m
    ensures var r := LastWins(fields, FieldsOf(m, names));
            && r.Keys == fields.Keys + (set k | k in names)
            && forall k :: k in r ==> r[k] == if k in names then m[k] else fields[k]
    decreases |names|
  {
    if names != [] {
      var more := fields[names[0] := m[names[0]]];
      FieldsOfStep(fields, m, names);
      hide LastWins, FieldsOf;
      LastWinsOfMap(more, m, names[1..]);
      assert names == [names[0]] + names[1..];
    }
  }

  lemma FieldsOfStep(fields: map<Text, Text>, m: map<Text, Text>, names: seq<Text>)
    requires names != [] && forall i :: 0 <= i < |names| ==> names[i] in m
    ensures LastWins(fields, FieldsOf(m, names)) ==
              LastWins(fields[names[0] := m[names[0]]], FieldsOf(m, names[1..]))
  {
    assert FieldsOf(m, names)[0] == (names[0], m[names[0]]);
    assert FieldsOf(m, names)[1..] == FieldsOf(m, names[1..]);
  }

  predicate IsNamed(fs: seq<Field>, name: Text) {
    exists i :: 0 <= i < |fs| && fs[i].0 == name
  }

  lemma {:induction false} LastWinsNames(fields: map<Text, Text>, fs: seq<Field>, name: Text)
    ensures name in LastWins(fields, fs) <==> name in fields || IsNamed(fs, name)
    ensures !IsNamed(fs, name) && name in fields ==> LastWins(fields, fs)[name] == fields[name]
    decreases |fs|
  {
    if fs != [] {
      NamedStep(fs, name);
      hide IsNamed;
      LastWinsNames(fields[fs[0].0 := fs[0].1], fs[1..], name);
    }
  }

  lemma NamedStep(fs: seq<Field>, name: Text)
    requires fs != []
    ensures IsNamed(fs, name) <==> fs[0].0 == name || IsNamed(fs[1..], name)
  {
    var rest := fs[1..];
    if i :| 0 < i < |fs| && fs[i].0 == name {
      assert rest[i - 1].0 == name;
    }
    if i :| 0 <= i < |rest| && rest[i].0 == name {
      assert fs[i + 1].0 == name;
    }
  }

  /** A name has the value of the last field that bears it. */
  lemma {:induction false} LastWinsValue(fields: map<Text, Text>, fs: seq<Field>, i: nat)
    requires i < |fs| && forall j :: i < j < |fs| ==> fs[j].0 != fs[i].0
    ensures fs[i].0 in LastWins(fields, fs) && LastWins(fields, fs)[fs[i].0] == fs[i].1
    decreases |fs|
  {
    var rest := fs[1..];
    assert forall j :: 0 <= j < |rest| ==> rest[j] == fs[j + 1];
    if i > 0 {
      LastWinsValue(fields[fs[0].0 := fs[0].1], rest, i - 1);
    } else {
      assert !IsNamed(rest, fs[0].0);
      LastWinsNames(fields[fs[0].0 := fs[0].1], rest, fs[0].0);
    }
  }

  predicate AllFieldsText(m: map<Text, Text>) {
    forall k :: k in m ==> IsText((k, m[k])) && Fits((k, m[k]))
  }

  ghost predicate AllFieldsValid(m: map<Text, Text>) {
    forall k :: k in m ==> Permitted(k, m[k])
  }

  /** What `Headers::encode` writes when the map is visited in the order `names`. */
  function EncodeHeaders(m: map<Text, Text>, names: seq<Text>): seq<byte>
    requires AllFieldsText(m) && IterationOrder(names, m)
  {
    PseudoFirstIsStableSort(names, m);
    SectionPrefix() + EncodeLines(FieldsOf(m, PseudoFirst(names)))
  }

  /** The lines of a section that does not refer to the dynamic table. */
  function SectionLines(b: seq<byte>): Option<seq<byte>> {
    match Prefix(b, 8)
    case Err(_) => None
    case Ok(insertCount) =>
      match Prefix(b[insertCount.len..], 7)
      case Err(_) => None
      case Ok(base) =>
        if insertCount.value != 0 || base.flags != 0 || base.value != 0 then None
        else Some(b[insertCount.len..][base.len..])
  }

  /** Every section: it decodes exactly when its lines parse, are valid and well ordered, and then to those fields. */
  lemma HeadersExactly(b: seq<byte>)
    ensures ParseHeaders(b).Ok? <==>
              SectionLines(b).Some? && LinesOf(SectionLines(b).value).Some?
              && Accepted(LinesOf(SectionLines(b).value).value, START)
    ensures ParseHeaders(b).Ok? ==>
              ParseHeaders(b).value == LastWins(map[], LinesOf(SectionLines(b).value).value)
  {
    hide Prefix, ParseLines, LinesOf, Accepted, LastWins;
    if SectionLines(b).Some? {
      LinesExactly(SectionLines(b).value, START);
    }
  }

  /** A section from any encoder, in any mixture of forms, is understood exactly when its fields are acceptable. */
  lemma AnyEncoderIsUnderstood(fs: seq<Field>, forms: seq<Form>)
    requires |fs| == |forms| && forall i :: 0 <= i < |fs| ==> FormFits(fs[i], forms[i])
    requires AllText(fs)
    ensures var r := ParseHeaders(SectionPrefix() + WireLines(fs, forms));
            && (r.Ok? <==> Accepted(fs, START))
            && (r.Ok? ==> r.value == LastWins(map[], fs))
            && forall i :: 0 <= i < |fs| && FirstProblem(fs, i, START) ==> r == Err(Problem(fs, i, START))
  {
    hide Problem, FirstProblem;
    hide FormFits, WireLines, ParseHeaders, ParseLines, LinesOf, Accepted, LastWins, SectionPrefix, IsText;
    SectionPrefixIsSkipped(WireLines(fs, forms));
    LinesExactly(WireLines(fs, forms), START);
    WireLinesRead(fs, forms);
    forall i | 0 <= i < |fs| && FirstProblem(fs, i, START)
      ensures ParseLines(WireLines(fs, forms), START) == Err(Problem(fs, i, START))
    {
      FirstProblemIsReported(WireLines(fs, forms), START, i);
    }
  }

  lemma SectionPrefixIsSkipped(b: seq<byte>)
    ensures ParseHeaders(SectionPrefix() + b) ==
              match ParseLines(b, START)
              case Ok(p) => Ok(p.fields)
              case Err(e) => Err(e)
  {
    SmallPowers();
    var one, two := PrefixInts.EncodePrefix(8, 0, 0), PrefixInts.EncodePrefix(7, 0, 0);
    hide Pow2, PrefixInts.EncodePrefix, Prefix, ParseLines;
    PrefixRoundTrip(8, 0, 0, two + b);
    PrefixRoundTrip(7, 0, 0, b);
    assert SectionPrefix() + b == one + (two + b);
    assert (one + (two + b))[|one|..] == two + b;
    assert (two + b)[|two|..] == b;
  }

  /**
   * For every map and every order of visiting it: what is written is accepted exactly when every field is
   * valid, and then it decodes to the map itself.
   */
  lemma HeadersRoundTrip(m: map<Text, Text>, names: seq<Text>)
    requires AllFieldsText(m) && IterationOrder(names, m)
    ensures ParseHeaders(EncodeHeaders(m, names)).Ok? <==> AllFieldsValid(m)
    ensures AllFieldsValid(m) ==> ParseHeaders(EncodeHeaders(m, names)) == Ok(m)
  {
    hide IsPseudo, Permitted, Utf8.Valid, ParseHeaders, ParseLines, LinesOf, EncodeLines, Select, PseudoFirst, LastWins;
    PseudoFirstIsStableSort(names, m);
    var sorted := PseudoFirst(names);
    var fs := FieldsOf(m, sorted);
    SectionPrefixIsSkipped(EncodeLines(fs));
    EncodeLinesRead(fs);
    LinesExactly(EncodeLines(fs), START);
    AcceptedFromStart(m, sorted);
    LastWinsOfMap(map[], m, sorted);
    if AllFieldsValid(m) {
      assert LastWins(map[], fs) == m;
    }
  }

  lemma AcceptedFromStart(m: map<Text, Text>, names: seq<Text>)
    requires AllFieldsText(m) && IterationOrder(names, m)
    requires forall i, j :: 0 <= i < j < |names| && IsPseudo(names[j]) ==> IsPseudo(names[i])
    ensures AllText(FieldsOf(m, names))
    ensures Accepted(FieldsOf(m, names), START) <==> AllFieldsValid(m)
  {
    hide IsPseudo, Permitted, Utf8.Valid;
    var fs := FieldsOf(m, names);
    if Accepted(fs, START) {
      forall k | k in m ensures Permitted(k, m[k]) {
        var i :| 0 <= i < |names| && names[i] == k;
        assert fs[i] == (k, m[k]) && InPlace(fs, i, START);
      }
    }
  }

  // ------------------------------------------------------- every accepted section has a normal form

  /** Each decoded byte used up at least one bit. */
  lemma {:induction false} HuffmanOutputIsShort(d: Huffman.HuffmanDecoder, bits: Bits)
    requires d.lookup >= 1
    ensures |Huffman.Run(d, bits).out| <= |bits|
    decreases |bits|
  {
    hide Huffman.Descend;
    var step := Huffman.Descend(d, bits);
    if step.Symbol? {
      HuffmanOutputIsShort(d, bits[step.used..]);
    }
  }

  /** Inputs below 2^61 bytes, whose decoded strings have 64-bit lengths. */
  predicate InMemory(b: seq<byte>) {
    8 * |b| < TWO_64
  }

  lemma StringFits(b: seq<byte>, size: nat)
    requires 2 <= size <= 8 && InMemory(b)
    ensures ParseText(b, size).Ok? ==> |ParseText(b, size).value.bytes| < TWO_64
  {
    hide Huffman.Run, BitsOf, Utf8.Valid, Prefix;
    if ParseText(b, size).Ok? {
      var p := Prefix(b, size - 1).value;
      var payload := b[p.len..p.len + p.value];
      HuffmanOutputIsShort(HuffmanTable.HPACK_STRING, BitsOf(payload));
    }
  }

  lemma LineFits(b: seq<byte>)
    requires b != [] && InMemory(b)
    ensures ParseLine(b).Ok? ==> Fits(ParseLine(b).value.field)
  {
    hide ParseText, Prefix, Utf8.Valid, Entry;
    EntriesFit();
    StringFits(b, 4);
    if ParseText(b, 4).Ok? {
      StringFits(b[ParseText(b, 4).value.len..], 8);
    }
    if Prefix(b, 4).Ok? {
      StringFits(b[Prefix(b, 4).value.len..], 8);
    }
  }

  lemma EntriesFit()
    ensures forall i :: 0 <= i < SIZE ==> Fits(Entry(i))
  {
    hide Row;
  }

  ghost predicate Normal(m: map<Text, Text>) {
    AllFieldsText(m) && AllFieldsValid(m)
  }

  lemma NormalGrows(m: map<Text, Text>, f: Field)
    requires IsText(f) && Fits(f) && Permitted(f.0, f.1) && Normal(m)
    ensures Normal(m[f.0 := f.1])
  {
    hide IsText, Fits, Permitted;
  }

  lemma AddKeepsNormal(p: Progress, f: Field)
    requires IsText(f) && Fits(f) && Normal(p.fields)
    ensures Add(p, f).Ok? ==> Normal(Add(p, f).value.fields)
  {
    AddExactly(p, f);
    hide *;
    if Add(p, f).Ok? {
      NormalGrows(p.fields, f);
    }
  }

  lemma {:induction false} ParsedIsNormal(b: seq<byte>, p: Progress)
    requires InMemory(b) && Normal(p.fields)
    ensures ParseLines(b, p).Ok? ==> Normal(ParseLines(b, p).value.fields)
    decreases |b|
  {
    hide ParseLine, Add, Normal, IsText, Fits;
    if b != [] && ParseLine(b).Ok? {
      var l := ParseLine(b).value;
      LineFits(b);
      AddKeepsNormal(p, l.field);
      if Add(p, l.field).Ok? {
        ParsedIsNormal(b[l.len..], Add(p, l.field).value);
      }
    }
  }

  /**
   * For every byte string that decodes, whatever representations it uses: its fields are valid, and encoding
   * them in any order gives a section that decodes to the same fields.
   */
  lemma Normalisation(b: seq<byte>, names: seq<Text>)
    requires InMemory(b)
    ensures ParseHeaders(b).Ok? ==>
              var m := ParseHeaders(b).value;
              Normal(m) && (IterationOrder(names, m) ==> ParseHeaders(EncodeHeaders(m, names)) == Ok(m))
  {
    if ParseHeaders(b).Ok? {
      ParsedSectionIsNormal(b);
      hide ParseHeaders, EncodeHeaders, IterationOrder, AllFieldsText, AllFieldsValid;
      if IterationOrder(names, ParseHeaders(b).value) {
        HeadersRoundTrip(ParseHeaders(b).value, names);
      }
    }
  }

  lemma ParsedSectionIsNormal(b: seq<byte>)
    requires InMemory(b)
    ensures ParseHeaders(b).Ok? ==> Normal(ParseHeaders(b).value)
  {
    hide Prefix, ParseLines, AllFieldsText, AllFieldsValid;
    if ParseHeaders(b).Err? {
      return;
    }
    var insertCount := Prefix(b, 8).value;
    var rest := b[insertCount.len..];
    var base := Prefix(rest, 7).value;
    EmptyIsNormal();
    ParsedIsNormal(rest[base.len..], START);
  }

  lemma EmptyIsNormal()
    ensures Normal(START.fields)
  {
  }

  /**
   * No field of a decoded section can break out of its line, however its bytes were represented: names are
   * lower-case tokens, values have no line break or NUL, and connection-specific names do not occur.
   */
  lemma DecodedFieldsStayOnTheirLine(b: seq<byte>, name: Text, i: nat)
    requires InMemory(b)
    ensures ParseHeaders(b).Ok? && name in ParseHeaders(b).value ==>
              && (i < |name| && !(i == 0 && name[i] == COLON) ==>
                    0x21 <= name[i] < 0x7F && Lower(name[i]) == name[i] && name[i] != COLON)
              && (i < |ParseHeaders(b).value[name]| ==> ParseHeaders(b).value[name][i] !in {0x00, 0x0A, 0x0D})
              && !IsConnectionSpecific(name)
  {
    hide ParseHeaders, Validate, Permitted, Utf8.Valid, IsConnectionSpecific;
    ParsedSectionIsNormal(b);
    if ParseHeaders(b).Ok? && name in ParseHeaders(b).value {
      ValidateExactly(name, ParseHeaders(b).value[name]);
      AcceptedFieldIsOneLine(name, ParseHeaders(b).value[name], i);
    }
  }

  // ------------------------------------------------------- sections of ordinary size

  lemma {:induction false} ShortLinesAreAddressable(b: seq<byte>, p: Progress)
    requires 8 * |b| + 8 < TWO_32
    ensures LinesAddressable(b, p)
    decreases |b|
  {
    if b != [] {
      ShortLineIsAddressable(b);
      hide ParseLine, Add, LineAddressable;
      if ParseLine(b).Ok? && Add(p, ParseLine(b).value.field).Ok? {
        ShortLinesAreAddressable(b[ParseLine(b).value.len..], Add(p, ParseLine(b).value.field).value);
      }
    }
  }

  lemma ShortLineIsAddressable(b: seq<byte>)
    requires b != [] && 8 * |b| + 8 < TWO_32
    ensures LineAddressable(b)
  {
    hide Prefix, ParseText, RepresentationOf;
  }

  /** Below half a gigabyte no section has a Huffman string too long for 32-bit positions. */
  lemma ShortSectionsAreAddressable(b: seq<byte>)
    requires 8 * |b| + 8 < TWO_32
    ensures SectionAddressable(b)
  {
    hide Prefix, LinesAddressable;
    if Prefix(b, 8).Ok? {
      var rest := b[Prefix(b, 8).value.len..];
      if Prefix(rest, 7).Ok? {
        ShortLinesAreAddressable(rest[Prefix(rest, 7).value.len..], START);
      }
    }
  }
}
