/** Which header fields a message may carry (sections 4.2 and 4.3 of RFC 9114). */
module Fields {
  import opened Bytes
  import opened StaticTable
  import Utf8

  datatype FieldError = InvalidFieldName | InvalidFieldValue | ConnectionSpecificField

  const COLON: byte := 0x3A

  /** Pseudo-header fields start with a colon. */
  predicate IsPseudo(name: Text) {
    name != [] && name[0] == COLON
  }

  /** A lower-case letter, a digit or one of the other characters of a token. */
  predicate IsFieldNameByte(b: byte) {
    || 0x61 <= b <= 0x7A
    || 0x30 <= b <= 0x39
    || b in {0x21, 0x23, 0x24, 0x25, 0x26, 0x27, 0x2A, 0x2B, 0x2D, 0x2E, 0x5E, 0x5F, 0x60, 0x7C, 0x7E}
  }

  predicate IsToken(s: Text) {
    s != [] && forall i :: 0 <= i < |s| ==> IsFieldNameByte(s[i])
  }

  predicate HasForbiddenByte(v: Text) {
    exists i :: 0 <= i < |v| && IsForbiddenValueByte(v[i])
  }

  predicate IsForbiddenValueByte(b: byte) {
    b == 0x7F || b == 0x0D || b == 0x0A || (b < 0x20 && b != 0x09)
  }

  predicate IsConnectionSpecific(name: Text) {
    || name == Ascii("connection")
    || name == Ascii("proxy-connection")
    || name == Ascii("keep-alive")
    || name == Ascii("transfer-encoding")
    || name == Ascii("upgrade")
  }

  /** The characters with the Unicode property White_Space. */
  predicate IsWhite(c: Text) {
    match |c|
    case 1 => 0x09 <= c[0] <= 0x0D || c[0] == 0x20
    case 2 => c == [0xC2, 0x85] || c == [0xC2, 0xA0]
    case 3 =>
      || c == [0xE1, 0x9A, 0x80]
      || (c[0] == 0xE2 && c[1] == 0x80 && (0x80 <= c[2] <= 0x8A || c[2] == 0xA8 || c[2] == 0xA9 || c[2] == 0xAF))
      || c == [0xE2, 0x81, 0x9F]
      || c == [0xE3, 0x80, 0x80]
    case _ => false
  }

  function TrimStart(v: Text): (t: Text)
    requires Utf8.Valid(v)
    ensures Utf8.Valid(t)
  {
    if v != [] && IsWhite(v[..Utf8.CharLen(v)]) then TrimStart(v[Utf8.CharLen(v)..]) else v
  }

  function TrimEnd(v: Text): Text
    requires Utf8.Valid(v)
    decreases |v|
  {
    if v != [] && IsWhite(v[Utf8.LastStart(v)..]) then
      Utf8.PopIsValid(v);
      TrimEnd(Utf8.Pop(v))
    else v
  }

  function Lower(b: byte): byte {
    if 0x41 <= b <= 0x5A then b + 0x20 else b
  }

  predicate EqIgnoreAsciiCase(a: Text, b: Text) {
    |a| == |b| && forall i :: 0 <= i < |a| ==> Lower(a[i]) == Lower(b[i])
  }

  /** What is wrong with a field, if anything. */
  function Validate(name: Text, value: Text): Option<FieldError>
    requires Utf8.Valid(value)
  {
    var regular := if IsPseudo(name) then name[1..] else name;
    if !IsToken(regular) then Some(InvalidFieldName)
    else if HasForbiddenByte(value) then Some(InvalidFieldValue)
    else if IsConnectionSpecific(name) then Some(ConnectionSpecificField)
    else if name == Ascii("te") && !EqIgnoreAsciiCase(TrimEnd(TrimStart(value)), Ascii("trailers")) then
      Some(ConnectionSpecificField)
    else None
  }

  // ------------------------------------------------------- properties

  lemma FieldNameBytesAreLowerCase(b: byte)
    requires IsFieldNameByte(b)
    ensures 0x21 <= b < 0x7F && Lower(b) == b && b != COLON
  {
  }

  /** An accepted field has a lower-case name without separators and a value that stays on one line. */
  lemma AcceptedFieldIsOneLine(name: Text, value: Text, i: nat)
    requires Utf8.Valid(value) && Validate(name, value).None?
    ensures name != [] && !IsConnectionSpecific(name)
    ensures i < |name| ==> (i == 0 && name[i] == COLON)
                           || (0x21 <= name[i] < 0x7F && Lower(name[i]) == name[i] && name[i] != COLON)
    ensures i < |value| ==> value[i] !in {0x00, 0x0A, 0x0D}
  {
    hide IsFieldNameByte, IsConnectionSpecific, TrimStart, TrimEnd, Utf8.Valid, Ascii, EqIgnoreAsciiCase;
    var regular := if IsPseudo(name) then name[1..] else name;
    if i < |name| && !(i == 0 && IsPseudo(name)) {
      FieldNameBytesAreLowerCase(regular[if IsPseudo(name) then i - 1 else i]);
    }
  }

  // ------------------------------------------------------- trimming

  predicate AllWhite(v: Text) {
    v == [] || (Utf8.CharLen(v) > 0 && IsWhite(v[..Utf8.CharLen(v)]) && AllWhite(v[Utf8.CharLen(v)..]))
  }

  /** One character and nothing else. */
  predicate IsChar(c: Text) {
    c != [] && Utf8.CharLen(c) == |c|
  }

  lemma {:induction false} LastIsChar(v: Text)
    requires Utf8.Valid(v) && v != []
    ensures IsChar(v[Utf8.LastStart(v)..])
  {
    var n := Utf8.CharLen(v);
    hide Utf8.CharLen;
    if n < |v| {
      LastIsChar(v[n..]);
      assert v[Utf8.LastStart(v)..] == v[n..][Utf8.LastStart(v[n..])..];
    } else {
      assert v[0..] == v;
    }
  }

  lemma {:induction false} LastOfAppended(x: Text, c: Text)
    requires Utf8.Valid(x) && IsChar(c)
    ensures Utf8.Valid(x + c) && Utf8.LastStart(x + c) == |x|
  {
    CharIsText(c);
    assert c != [];
    hide *;
    if x == [] {
      assert x + c == c;
    } else {
      Utf8.TextTail(x);
      var n := Utf8.CharLen(x);
      LastOfAppended(x[n..], c);
      AppendAfterFirst(x, c);
    }
  }

  lemma CharIsText(c: Text)
    requires IsChar(c)
    ensures Utf8.Valid(c) && Utf8.LastStart(c) == 0
  {
    hide Utf8.CharLen;
    assert c[|c|..] == [];
  }

  lemma AppendAfterFirst(x: Text, c: Text)
    requires Utf8.CharLen(x) > 0
    requires Utf8.Valid(x[Utf8.CharLen(x)..] + c) && c != []
    requires Utf8.LastStart(x[Utf8.CharLen(x)..] + c) == |x| - Utf8.CharLen(x)
    ensures Utf8.Valid(x + c) && Utf8.LastStart(x + c) == |x|
  {
    var n := Utf8.CharLen(x);
    Utf8.CharLenLocal(x, c);
    hide Utf8.CharLen;
    assert (x + c)[n..] == x[n..] + c;
  }

  lemma {:induction false} WhiteAppend(a: Text, b: Text)
    requires AllWhite(a) && AllWhite(b)
    ensures AllWhite(a + b)
  {
    if a == [] {
      assert a + b == b;
    } else {
      var n := Utf8.CharLen(a);
      Utf8.CharLenLocal(a, b);
      hide Utf8.CharLen, IsWhite;
      WhiteAppend(a[n..], b);
      assert (a + b)[n..] == a[n..] + b && (a + b)[..n] == a[..n];
    }
  }

  lemma {:induction false} WhiteIsValid(v: Text)
    requires AllWhite(v)
    ensures Utf8.Valid(v)
  {
    hide Utf8.CharLen, IsWhite;
    if v != [] {
      WhiteIsValid(v[Utf8.CharLen(v)..]);
    }
  }

  /** What was trimmed in front is white space. */
  lemma {:induction false} TrimStartSplits(v: Text) returns (a: Text)
    requires Utf8.Valid(v)
    ensures v == a + TrimStart(v) && AllWhite(a)
  {
    TrimStartStep(v);
    hide IsWhite, AllWhite, Utf8.CharLen, Utf8.Valid, TrimStart;
    var n := Utf8.CharLen(v);
    if v != [] && IsWhite(v[..n]) {
      var b := TrimStartSplits(v[n..]);
      a := v[..n] + b;
      WhiteCons(v, b);
      SplitThere(v, n, b, TrimStart(v));
    } else {
      a := [];
      NothingIsWhite();
    }
  }

  lemma TrimStartStep(v: Text)
    requires Utf8.Valid(v)
    ensures var n := Utf8.CharLen(v);
            if v != [] && IsWhite(v[..n]) then
              n > 0 && Utf8.Valid(v[n..]) && TrimStart(v) == TrimStart(v[n..])
            else TrimStart(v) == v
  {
    hide IsWhite, Utf8.CharLen;
  }

  lemma SplitThere(v: Text, n: nat, b: Text, rest: Text)
    requires n <= |v| && v[n..] == b + rest
    ensures v == (v[..n] + b) + rest
  {
    assert v == v[..n] + v[n..];
  }

  lemma NothingIsWhite()
    ensures AllWhite([])
  {
  }

  lemma WhiteCons(v: Text, b: Text)
    requires Utf8.CharLen(v) > 0 && IsWhite(v[..Utf8.CharLen(v)]) && AllWhite(b)
    ensures AllWhite(v[..Utf8.CharLen(v)] + b)
  {
    hide IsWhite;
    var n := Utf8.CharLen(v);
    Utf8.CharLenLocal(v, b);
    hide Utf8.CharLen;
    assert (v[..n] + b)[n..] == b && (v[..n] + b)[..n] == v[..n];
  }

  /** What was trimmed at the end is white space. */
  lemma {:induction false} TrimEndSplits(v: Text) returns (c: Text)
    requires Utf8.Valid(v)
    ensures v == TrimEnd(v) + c && AllWhite(c)
    decreases |v|
  {
    hide IsWhite, Utf8.CharLen, Utf8.Valid, Utf8.LastStart;
    if v != [] && IsWhite(v[Utf8.LastStart(v)..]) {
      Utf8.PopIsValid(v);
      LastIsChar(v);
      var last := v[Utf8.LastStart(v)..];
      var b := TrimEndSplits(Utf8.Pop(v));
      c := b + last;
      OneWhite(last);
      WhiteAppend(b, last);
    } else {
      c := [];
    }
  }

  lemma OneWhite(c: Text)
    requires IsChar(c) && IsWhite(c)
    ensures AllWhite(c)
  {
    hide IsWhite, Utf8.CharLen;
    assert c[..|c|] == c && c[|c|..] == [];
  }

  lemma {:induction false} TrimStartSkips(a: Text, x: Text)
    requires AllWhite(a) && Utf8.Valid(x)
    ensures Utf8.Valid(a + x) && TrimStart(a + x) == TrimStart(x)
  {
    if a == [] {
      assert a + x == x;
    } else {
      var n := Utf8.CharLen(a);
      Utf8.CharLenLocal(a, x);
      hide IsWhite, Utf8.CharLen;
      TrimStartSkips(a[n..], x);
      assert (a + x)[n..] == a[n..] + x && (a + x)[..n] == a[..n];
    }
  }

  lemma TrimEndSkipsOne(x: Text, c: Text)
    requires Utf8.Valid(x) && IsChar(c) && IsWhite(c)
    ensures Utf8.Valid(x + c) && TrimEnd(x + c) == TrimEnd(x)
  {
    hide IsWhite, Utf8.CharLen, Utf8.Valid;
    LastOfAppended(x, c);
    assert (x + c)[|x|..] == c && (x + c)[..|x|] == x;
  }

  lemma FirstChar(c: Text)
    requires c != [] && AllWhite(c)
    ensures var n := Utf8.CharLen(c);
            n > 0 && IsChar(c[..n]) && IsWhite(c[..n]) && AllWhite(c[n..])
  {
    hide IsWhite;
    Utf8.CharLenLocal(c, []);
    assert c[..Utf8.CharLen(c)] + [] == c[..Utf8.CharLen(c)];
  }

  lemma {:induction false} TrimEndSkips(x: Text, c: Text)
    requires Utf8.Valid(x) && AllWhite(c)
    ensures Utf8.Valid(x + c) && TrimEnd(x + c) == TrimEnd(x)
    decreases |c|
  {
    hide IsWhite, IsChar, Utf8.CharLen, Utf8.Valid, AllWhite, TrimEnd;
    if c == [] {
      assert x + c == x;
    } else {
      FirstChar(c);
      var n := Utf8.CharLen(c);
      TrimEndSkipsOne(x, c[..n]);
      TrimEndSkips(x + c[..n], c[n..]);
      assert (x + c[..n]) + c[n..] == x + c;
    }
  }

  /** A printable ASCII text neither starts nor ends with white space. */
  lemma TrimKeeps(t: Text, c: Text)
    requires t != [] && forall i :: 0 <= i < |t| ==> 0x21 <= t[i] < 0x7F
    requires Utf8.Valid(t + c)
    ensures TrimStart(t + c) == t + c
    ensures Utf8.Valid(t) && TrimEnd(t) == t
  {
    Utf8.AsciiIsValid(t);
    assert (t + c)[0] == t[0];
    LastIsChar(t);
    var last := t[Utf8.LastStart(t)..];
    assert last[0] == t[Utf8.LastStart(t)];
  }

  lemma LettersArePrintable(t: Text)
    requires EqIgnoreAsciiCase(t, Ascii("trailers"))
    ensures |t| == 8 && forall i :: 0 <= i < |t| ==> 0x21 <= t[i] < 0x7F
  {
    var w := Ascii("trailers");
    assert w == [0x74, 0x72, 0x61, 0x69, 0x6C, 0x65, 0x72, 0x73];
    forall i | 0 <= i < |t| ensures 0x21 <= t[i] < 0x7F {
      assert Lower(t[i]) == Lower(w[i]);
    }
  }

  lemma TrailersExactly(v: Text)
    requires Utf8.Valid(v)
    ensures EqIgnoreAsciiCase(TrimEnd(TrimStart(v)), Ascii("trailers")) <==> IsTrailers(v)
  {
    hide IsWhite, Utf8.CharLen, Utf8.Valid, Utf8.LastStart, Ascii, EqIgnoreAsciiCase, AllWhite, TrimStart, TrimEnd,
         SpellsTrailers;
    if EqIgnoreAsciiCase(TrimEnd(TrimStart(v)), Ascii("trailers")) {
      var a := TrimStartSplits(v);
      var c := TrimEndSplits(TrimStart(v));
      SpellsExactly(TrimEnd(TrimStart(v)));
      assert v == a + TrimEnd(TrimStart(v)) + c;
    }
    if IsTrailers(v) {
      var a, t, c :| v == a + t + c && AllWhite(a) && AllWhite(c) && SpellsTrailers(t);
      SpellsExactly(t);
      TrimIsolates(a, t, c);
    }
  }

  lemma SpellsExactly(t: Text)
    ensures EqIgnoreAsciiCase(t, Ascii("trailers")) <==> SpellsTrailers(t)
  {
    var small, large := Ascii("trailers"), Ascii("TRAILERS");
    assert small == [0x74, 0x72, 0x61, 0x69, 0x6C, 0x65, 0x72, 0x73];
    assert large == [0x54, 0x52, 0x41, 0x49, 0x4C, 0x45, 0x52, 0x53];
    forall i | 0 <= i < 8 && i < |t|
      ensures Lower(t[i]) == Lower(small[i]) <==> t[i] == small[i] || t[i] == large[i]
    {
    }
  }

  lemma TrimIsolates(a: Text, t: Text, c: Text)
    requires AllWhite(a) && AllWhite(c) && EqIgnoreAsciiCase(t, Ascii("trailers"))
    ensures Utf8.Valid(a + t + c) && TrimEnd(TrimStart(a + t + c)) == t
  {
    hide IsWhite, Utf8.CharLen, Utf8.Valid, Utf8.LastStart, Ascii, EqIgnoreAsciiCase, AllWhite, TrimStart, TrimEnd;
    LettersArePrintable(t);
    Utf8.AsciiIsValid(t);
    WhiteIsValid(c);
    Utf8.ValidAppend(t, c);
    TrimKeeps(t, c);
    TrimStartSkips(a, t + c);
    assert a + (t + c) == a + t + c;
    TrimEndSkips(t, c);
  }

  // ------------------------------------------------------- which fields are permitted

  /** The characters of a token (section 5.6.2 of RFC 9110) but for upper-case letters. */
  predicate IsLowerTokenChar(c: char) {
    'a' <= c <= 'z' || '0' <= c <= '9' || c in "!#$%&'*+-.^_`|~"
  }

  predicate IsLowerToken(s: Text) {
    s != [] && forall i :: 0 <= i < |s| ==> IsLowerTokenChar(s[i] as char)
  }

  /** A token, or a colon and a token. */
  predicate IsFieldName(name: Text) {
    IsLowerToken(name) || (name != [] && name[0] as char == ':' && IsLowerToken(name[1..]))
  }

  /** Any bytes but control characters; a tab may occur, and so may all of non-ASCII text. */
  predicate IsFieldValue(v: Text) {
    forall i :: 0 <= i < |v| ==> v[i] == 0x09 || 0x20 <= v[i] < 0x7F || 0x80 <= v[i]
  }

  /** The word "trailers" in any case. */
  predicate SpellsTrailers(t: Text) {
    |t| == 8 && forall i :: 0 <= i < 8 ==> t[i] == Ascii("trailers")[i] || t[i] == Ascii("TRAILERS")[i]
  }

  /** The word "trailers" between any amount of Unicode white space. */
  ghost predicate IsTrailers(v: Text) {
    exists a, t, c :: v == a + t + c && AllWhite(a) && AllWhite(c) && SpellsTrailers(t)
  }

  /** The fields that an HTTP/3 message may carry. */
  ghost predicate Permitted(name: Text, value: Text) {
    && IsFieldName(name)
    && IsFieldValue(value)
    && name != Ascii("connection")
    && name != Ascii("proxy-connection")
    && name != Ascii("keep-alive")
    && name != Ascii("transfer-encoding")
    && name != Ascii("upgrade")
    && (name == Ascii("te") ==> IsTrailers(value))
  }

  lemma NameCharExactly(b: byte)
    ensures IsFieldNameByte(b) <==> IsLowerTokenChar(b as char)
  {
    assert "!#$%&'*+-.^_`|~" == ['!', '#', '$', '%', '&', '\'', '*', '+', '-', '.', '^', '_', '`', '|', '~'];
  }

  lemma TokenExactly(s: Text)
    ensures IsToken(s) <==> IsLowerToken(s)
  {
    hide IsFieldNameByte, IsLowerTokenChar;
    forall i | 0 <= i < |s| ensures IsFieldNameByte(s[i]) <==> IsLowerTokenChar(s[i] as char) {
      NameCharExactly(s[i]);
    }
  }

  lemma NameExactly(name: Text)
    ensures IsToken(if IsPseudo(name) then name[1..] else name) <==> IsFieldName(name)
  {
    NameCharExactly(COLON);
    TokenExactly(name);
    if name != [] {
      TokenExactly(name[1..]);
    }
    hide IsToken;
    assert IsPseudo(name) ==> !IsLowerToken(name) by {
      hide IsLowerTokenChar;
      assert !IsLowerTokenChar(COLON as char);
    }
  }

  lemma ValueExactly(v: Text)
    ensures HasForbiddenByte(v) <==> !IsFieldValue(v)
  {
  }

  /**
   * For every field: it passes validation exactly when it is permitted, a bad name is reported before a bad value,
   * and either before a field that belongs to one connection.
   */
  lemma ValidateExactly(name: Text, value: Text)
    requires Utf8.Valid(value)
    ensures Validate(name, value).None? <==> Permitted(name, value)
    ensures Validate(name, value) == Some(InvalidFieldName) <==> !IsFieldName(name)
    ensures Validate(name, value) == Some(InvalidFieldValue) <==> IsFieldName(name) && !IsFieldValue(value)
  {
    NameExactly(name);
    ValueExactly(value);
    TrailersExactly(value);
    hide Ascii, IsToken, IsFieldName, HasForbiddenByte, IsFieldValue, IsPseudo, IsTrailers, EqIgnoreAsciiCase,
         TrimStart, TrimEnd, Utf8.Valid;
  }

  /** The property White_Space, by code point. */
  predicate IsWhiteSpace(p: nat) {
    || 0x0009 <= p <= 0x000D || p == 0x0020 || p == 0x0085 || p == 0x00A0
    || p == 0x1680 || 0x2000 <= p <= 0x200A || p == 0x2028 || p == 0x2029 || p == 0x202F || p == 0x205F || p == 0x3000
  }

  lemma WhiteByLength(c: Text, p: nat)
    requires IsChar(c) && p == Utf8.CodePoint(c)
    ensures |c| == 1 ==> p == c[0]
    ensures |c| == 2 ==> 0xC2 <= c[0] < 0xE0 && 0x80 <= c[1] < 0xC0
                         && p == (c[0] as int - 0xC0) * 64 + (c[1] as int - 0x80)
    ensures |c| == 3 ==> 0xE0 <= c[0] < 0xF0 && 0x80 <= c[1] < 0xC0 && 0x80 <= c[2] < 0xC0
                         && p == (c[0] as int - 0xE0) * 4096 + (c[1] as int - 0x80) * 64 + (c[2] as int - 0x80)
    ensures |c| == 3 && c[0] == 0xE0 ==> c[1] >= 0xA0
    ensures |c| == 4 ==> p >= 0x10000
    ensures 1 <= |c| <= 4
  {
  }

  /** Exactly the 25 characters with that property are trimmed. */
  lemma WhiteExactly(c: Text)
    requires IsChar(c)
    ensures IsWhite(c) <==> IsWhiteSpace(Utf8.CodePoint(c))
  {
    WhiteByLength(c, Utf8.CodePoint(c));
    hide Utf8.CodePoint, Utf8.CharLen;
    if |c| == 3 {
      WhiteOfThree(c, Utf8.CodePoint(c));
    }
  }

  lemma WhiteOfThree(c: Text, p: nat)
    requires |c| == 3 && 0xE0 <= c[0] < 0xF0 && 0x80 <= c[1] < 0xC0 && 0x80 <= c[2] < 0xC0
    requires c[0] == 0xE0 ==> c[1] >= 0xA0
    requires p == (c[0] as int - 0xE0) * 4096 + (c[1] as int - 0x80) * 64 + (c[2] as int - 0x80)
    ensures IsWhite(c) <==> IsWhiteSpace(p)
  {
    assert c == [c[0], c[1], c[2]];
  }
}
