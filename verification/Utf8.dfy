/** UTF-8 text as byte strings: validity, lossy decoding and dropping characters from the end. */
module Utf8 {
  import opened Bytes
  import opened Collections

  predicate Continuation(b: byte) { 0x80 <= b < 0xC0 }

  /** The second byte a three- or four-byte character may have after `first`. */
  predicate SecondOk(first: byte, second: byte) {
    if first == 0xE0 then 0xA0 <= second < 0xC0
    else if first == 0xED then 0x80 <= second < 0xA0
    else if first == 0xF0 then 0x90 <= second < 0xC0
    else if first == 0xF4 then 0x80 <= second < 0x90
    else Continuation(second)
  }

  /** The width announced by a first byte; zero when no character starts with it. */
  function Width(first: byte): nat {
    if first < 0x80 then 1
    else if first < 0xC2 then 0
    else if first < 0xE0 then 2
    else if first < 0xF0 then 3
    else if first < 0xF5 then 4
    else 0
  }

  /** The length of the well-formed character at the front of b, or zero. */
  function CharLen(b: seq<byte>): (n: nat)
    ensures n <= 4 && n <= |b|
  {
    if b == [] then 0
    else
      var n := Width(b[0]);
      if |b| < n then 0
      else if n == 2 && !Continuation(b[1]) then 0
      else if n >= 3 && !(SecondOk(b[0], b[1]) && Continuation(b[2])) then 0
      else if n == 4 && !Continuation(b[3]) then 0
      else n
  }

  /** The code point of one character. */
  function CodePoint(c: seq<byte>): nat
    requires c != [] && CharLen(c) == |c|
  {
    var at := i requires 0 <= i < |c| => c[i] as int;
    match |c|
    case 1 => at(0)
    case 2 => at(0) % 32 * 64 + at(1) % 64
    case 3 => at(0) % 16 * 4096 + at(1) % 64 * 64 + at(2) % 64
    case _ => at(0) % 8 * 262144 + at(1) % 64 * 4096 + at(2) % 64 * 64 + at(3) % 64
  }

  /** How many bytes one replacement character stands for when no character is at the front. */
  function InvalidLen(b: seq<byte>): (n: nat)
    requires b != []
    ensures 1 <= n <= 3 && n <= |b|
  {
    var n := Width(b[0]);
    if n < 3 || |b| < 2 || !SecondOk(b[0], b[1]) then 1
    else if n == 3 || |b| < 3 || !Continuation(b[2]) then 2
    else 3
  }

  predicate Valid(b: seq<byte>) {
    b == [] || (CharLen(b) > 0 && Valid(b[CharLen(b)..]))
  }

  const REPLACEMENT: seq<byte> := [0xEF, 0xBF, 0xBD]

  /** `String::from_utf8_lossy`. */
  function Lossy(b: seq<byte>): seq<byte>
    decreases |b|
  {
    if b == [] then []
    else if CharLen(b) > 0 then b[..CharLen(b)] + Lossy(b[CharLen(b)..])
    else REPLACEMENT + Lossy(b[InvalidLen(b)..])
  }

  /** Where the last character of a text starts. */
  function LastStart(b: seq<byte>): (i: nat)
    requires Valid(b) && b != []
    ensures i < |b|
  {
    var n := CharLen(b);
    if n == |b| then 0 else n + LastStart(b[n..])
  }

  /** `String::pop`: the text without its last character. */
  function Pop(b: seq<byte>): seq<byte>
    requires Valid(b) && b != []
  {
    b[..LastStart(b)]
  }

  lemma CharLenLocal(b: seq<byte>, more: seq<byte>)
    requires CharLen(b) > 0
    ensures CharLen(b + more) == CharLen(b)
    ensures CharLen(b[..CharLen(b)] + more) == CharLen(b)
  {
  }

  lemma {:induction false} ValidAppend(a: seq<byte>, b: seq<byte>)
    requires Valid(a) && Valid(b)
    ensures Valid(a + b)
  {
    if a == [] {
      assert a + b == b;
    } else {
      var n := CharLen(a);
      CharLenLocal(a, b);
      hide CharLen;
      ValidAppend(a[n..], b);
      assert (a + b)[n..] == a[n..] + b;
    }
  }

  lemma {:induction false} LossyIsValid(b: seq<byte>)
    ensures Valid(Lossy(b))
    decreases |b|
  {
    if b != [] {
      var n := CharLen(b);
      if n > 0 {
        LossyIsValid(b[n..]);
        CharLenLocal(b, Lossy(b[n..]));
        assert Lossy(b)[n..] == Lossy(b[n..]);
      } else {
        LossyIsValid(b[InvalidLen(b)..]);
        assert CharLen(Lossy(b)) == 3;
        assert Lossy(b)[3..] == Lossy(b[InvalidLen(b)..]);
      }
    }
  }

  lemma {:induction false} LossyOfValid(b: seq<byte>)
    requires Valid(b)
    ensures Lossy(b) == b
  {
    if b != [] {
      LossyOfValid(b[CharLen(b)..]);
    }
  }

  lemma {:induction false} PopIsValid(b: seq<byte>)
    requires Valid(b) && b != []
    ensures Valid(Pop(b))
  {
    var n := CharLen(b);
    if n < |b| {
      PopIsValid(b[n..]);
      CharLenLocal(b, Pop(b[n..]));
      assert Pop(b) == b[..n] + Pop(b[n..]);
      assert Pop(b)[n..] == Pop(b[n..]);
    }
  }

  /** A shorter text that b starts with lies within b without its last character. */
  lemma {:induction false} PopIsLongest(p: seq<byte>, b: seq<byte>)
    requires Valid(p) && Valid(b) && p <= b && p != b
    ensures |p| <= |Pop(b)|
    decreases |b|
  {
    if p != [] {
      var n := CharLen(p);
      CharLenLocal(p, b[|p|..]);
      assert b == p + b[|p|..];
      if n < |b| {
        PopIsLongest(p[n..], b[n..]);
      }
    }
  }

  /** All-ASCII byte strings are texts. */
  lemma {:induction false} AsciiIsValid(b: seq<byte>)
    requires forall i :: 0 <= i < |b| ==> b[i] < 0x80
    ensures Valid(b)
  {
    if b != [] {
      AsciiIsValid(b[1..]);
    }
  }

  // ------------------------------------------------------- cutting bytes

  /** The length of the character, or of the malformed sequence, at the front of b. */
  function UnitLen(b: seq<byte>): (n: nat)
    requires b != []
    ensures 1 <= n <= 4 && n <= |b|
  {
    if CharLen(b) > 0 then CharLen(b) else InvalidLen(b)
  }

  function UnitText(b: seq<byte>): seq<byte>
    requires b != []
  {
    if CharLen(b) > 0 then b[..CharLen(b)] else REPLACEMENT
  }

  /** The last position up to n at which a character or a malformed sequence ends. */
  function LastBoundary(b: seq<byte>, n: nat): (p: nat)
    requires n <= |b|
    ensures p <= n
    decreases |b|
  {
    if b == [] || UnitLen(b) > n then 0 else UnitLen(b) + LastBoundary(b[UnitLen(b)..], n - UnitLen(b))
  }

  lemma LossyUnit(b: seq<byte>)
    requires b != []
    ensures Lossy(b) == UnitText(b) + Lossy(b[UnitLen(b)..])
    ensures UnitLen(b) <= |UnitText(b)|
  {
    hide CharLen, InvalidLen;
  }

  lemma UnitLocal(b: seq<byte>, n: nat)
    requires b != [] && UnitLen(b) <= n <= |b|
    ensures UnitLen(b[..n]) == UnitLen(b) && UnitText(b[..n]) == UnitText(b)
  {
    if CharLen(b) > 0 {
      assert b[..n][..CharLen(b)] == b[..CharLen(b)];
    }
  }

  /** A cut within a unit leaves one malformed sequence. */
  lemma CutUnit(c: seq<byte>, k: nat)
    requires c != [] && 1 <= k < UnitLen(c)
    ensures Lossy(c[..k]) == REPLACEMENT
  {
    assert CharLen(c[..k]) == 0 && InvalidLen(c[..k]) == k;
    assert c[..k][k..] == [];
    hide CharLen, InvalidLen;
    assert Lossy([]) == [] && REPLACEMENT + [] == REPLACEMENT;
    LossyUnit(c[..k]);
  }

  lemma {:induction false} LossyGrows(b: seq<byte>)
    ensures |Lossy(b)| >= |b|
    decreases |b|
  {
    if b != [] {
      LossyUnit(b);
      hide CharLen, InvalidLen, Lossy, UnitText;
      LossyGrows(b[UnitLen(b)..]);
    }
  }

  /** Decoding splits at the last boundary, for the whole and for the part before the cut. */
  lemma {:induction false} LossySplit(b: seq<byte>, n: nat)
    requires n <= |b|
    ensures var p := LastBoundary(b, n);
            && Lossy(b) == Lossy(b[..p]) + Lossy(b[p..])
            && Lossy(b[..n]) == Lossy(b[..p]) + Lossy(b[p..n])
            && (p < n ==> UnitLen(b[p..]) > n - p)
    decreases |b|
  {
    hide CharLen, InvalidLen, UnitText, Lossy;
    if b == [] || UnitLen(b) > n {
      LossyNothing();
      assert b[..0] == [] && b[0..] == b && b[0..n] == b[..n];
      assert [] + Lossy(b) == Lossy(b) && [] + Lossy(b[..n]) == Lossy(b[..n]);
    } else {
      var u := UnitLen(b);
      var q := LastBoundary(b[u..], n - u);
      LossySplit(b[u..], n - u);
      LossyPart(b, b[..n], n);
      LossyPart(b, b[..u + q], u + q);
      LossyUnit(b);
      NestedSlices(b, u, q, n);
      hide UnitLen, LastBoundary;
      Reassociate(UnitText(b), Lossy(b[u..][..q]), Lossy(b[u + q..]));
      Reassociate(UnitText(b), Lossy(b[u..][..q]), Lossy(b[u + q..n]));
    }
  }

  lemma NestedSlices(b: seq<byte>, u: nat, q: nat, n: nat)
    requires u + q <= n <= |b|
    ensures b[..n][u..] == b[u..][..n - u] && b[..u + q][u..] == b[u..][..q]
    ensures b[u..][q..] == b[u + q..] && b[u..][q..n - u] == b[u + q..n]
  {
  }

  lemma LossyNothing()
    ensures Lossy([]) == []
  {
  }

  lemma LossyPart(b: seq<byte>, c: seq<byte>, n: nat)
    requires b != [] && UnitLen(b) <= n <= |b| && c == b[..n]
    ensures Lossy(c) == UnitText(b) + Lossy(c[UnitLen(b)..])
  {
    UnitLocal(b, n);
    hide CharLen, InvalidLen, UnitText, Lossy;
    LossyUnit(c);
  }

  /** Decoded text starts with the text of its first unit, which is one character. */
  lemma LossyFirstChar(b: seq<byte>)
    requires b != []
    ensures CharLen(Lossy(b)) == |UnitText(b)|
  {
    LossyUnit(b);
    if CharLen(b) > 0 {
      CharLenLocal(b, Lossy(b[CharLen(b)..]));
    }
  }

  /** A longer text than L that L + rest starts with holds the first character of the rest. */
  lemma {:induction false} LongerPrefix(p: seq<byte>, l: seq<byte>, rest: seq<byte>)
    requires Valid(p) && Valid(l) && p <= l + rest && |p| > |l|
    ensures |p| >= |l| + CharLen(rest)
    decreases |l|
  {
    assert p + (l + rest)[|p|..] == l + rest;
    CharLenLocal(p, (l + rest)[|p|..]);
    if l == [] {
      assert l + rest == rest;
    } else {
      var n := CharLen(l);
      CharLenLocal(l, rest);
      hide CharLen;
      assert (l + rest)[n..] == l[n..] + rest;
      assert p[n..] <= l[n..] + rest;
      LongerPrefix(p[n..], l[n..], rest);
    }
  }

  /** In a text the start of a four-byte character is a boundary, and the last one until the character ends. */
  lemma {:induction false} LeadIsBoundary(b: seq<byte>, i: nat, n: nat)
    requires Valid(b) && i < |b| && b[i] >= 0xF0 && i <= n < i + 4 && n <= |b|
    ensures LastBoundary(b, n) == i && CharLen(b[i..]) == 4 && Valid(b[..i])
    decreases |b|
  {
    hide *;
    LeadWithinText(b, i);
    if i == 0 {
      LeadInFront(b, n);
    } else {
      var u := CharLen(b);
      TextTail(b);
      BoundaryStep(b, n);
      LeadIsBoundary(b[u..], i - u, n - u);
      ValidCons(b, b[u..][..i - u]);
      SlicesAt(b, u, i);
    }
  }

  lemma LeadInFront(b: seq<byte>, n: nat)
    requires Valid(b) && b != [] && b[0] >= 0xF0 && n < 4 && n <= |b|
    ensures LastBoundary(b, n) == 0 && CharLen(b[0..]) == 4 && Valid(b[..0])
  {
    assert b[0..] == b && b[..0] == [];
    assert CharLen(b) == 4;
    hide CharLen, InvalidLen;
  }

  lemma TextTail(b: seq<byte>)
    requires Valid(b) && b != []
    ensures CharLen(b) > 0 && Valid(b[CharLen(b)..])
  {
    hide CharLen;
  }

  lemma BoundaryStep(b: seq<byte>, n: nat)
    requires b != [] && 0 < CharLen(b) <= n <= |b|
    ensures LastBoundary(b, n) == CharLen(b) + LastBoundary(b[CharLen(b)..], n - CharLen(b))
  {
    hide CharLen, InvalidLen;
  }

  lemma SlicesAt(b: seq<byte>, u: nat, i: nat)
    requires u <= i <= |b|
    ensures b[u..][i - u..] == b[i..] && b[..i] == b[..u] + b[u..][..i - u]
  {
  }

  lemma LeadWithinText(b: seq<byte>, i: nat)
    requires Valid(b) && i < |b| && b[i] >= 0xF0
    ensures b != [] && CharLen(b) > 0 && if i == 0 then b[0] >= 0xF0 else CharLen(b) <= i
  {
  }

  lemma ValidCons(b: seq<byte>, rest: seq<byte>)
    requires CharLen(b) > 0 && Valid(rest)
    ensures Valid(b[..CharLen(b)] + rest)
  {
    CharLenLocal(b, rest);
    hide CharLen;
    assert (b[..CharLen(b)] + rest)[CharLen(b)..] == rest;
  }
}
