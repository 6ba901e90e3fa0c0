/** HTTP/3 frame types and frame headers (section 7.1 of RFC 9114). */
module Frames {
  import opened Bytes
  import opened VarInts

  const DATA: VarInt := 0x00
  const HEADERS: VarInt := 0x01
  const SETTINGS: VarInt := 0x04
  const WEBTRANSPORT: VarInt := 0x41

  const GREASE_START: nat := 0x21
  const GREASE_STEP: nat := 0x1f

  predicate IsGrease(value: nat) {
    value >= GREASE_START && (value - GREASE_START) % GREASE_STEP == 0
  }

  /** The reserved values are those of the form 0x1f * n + 0x21 (section 7.2.8 of RFC 9114), from 0x21 itself on. */
  lemma GreaseExactly(value: nat)
    ensures IsGrease(value) <==> exists n: nat :: value == Reserved(n)
  {
    if IsGrease(value) {
      var n := (value - GREASE_START) / GREASE_STEP;
      assert value == Reserved(n);
    }
    if n: nat :| value == Reserved(n) {
      assert value - GREASE_START == GREASE_STEP * n;
    }
  }

  function Reserved(n: nat): nat {
    0x1f * n + 0x21
  }

  /** A frame header and the number of bytes it takes. */
  datatype Header = Header(typ: VarInt, length: VarInt, len: nat)

  /** The type and the payload length at the front of b. */
  function ParseHeader(b: seq<byte>): (r: Option<Header>)
    ensures r.Some? ==> 2 <= r.value.len <= 16 && r.value.len <= |b|
    ensures r.None? ==> |b| <= 15
  {
    match Parse(b)
    case None => None
    case Some(t) =>
      match Parse(b[t.len..])
      case None => None
      case Some(l) => Some(Header(t.value, l.value, t.len + l.len))
  }

  function EncodeHeader(typ: VarInt, length: VarInt): seq<byte> {
    Encode(typ) + Encode(length)
  }

  lemma HeaderStable(b: seq<byte>, more: seq<byte>)
    requires ParseHeader(b).Some?
    ensures ParseHeader(b + more) == ParseHeader(b)
  {
    hide Parse;
    ParseStable(b, more);
    var t := Parse(b).value.len;
    ParseStable(b[t..], more);
    assert (b + more)[t..] == b[t..] + more;
  }

  /** The header is decided by its own bytes. */
  lemma HeaderLocal(b: seq<byte>, n: nat)
    requires ParseHeader(b).Some? && ParseHeader(b).value.len <= n <= |b|
    ensures ParseHeader(b[..n]) == ParseHeader(b)
  {
    var h := ParseHeader(b).value;
    ParseLocal(b, n);
    var t := Parse(b).value.len;
    ParseLocal(b[t..], n - t);
    assert b[..n][t..] == b[t..][..n - t];
  }

  lemma ParseLocal(b: seq<byte>, n: nat)
    requires Parse(b).Some? && Parse(b).value.len <= n <= |b|
    ensures Parse(b[..n]) == Parse(b)
  {
    var w := WireLen(b[0]);
    assert b[..n][..w] == b[..w];
  }

  lemma HeaderRoundTrip(typ: VarInt, length: VarInt, more: seq<byte>)
    ensures ParseHeader(EncodeHeader(typ, length) + more) ==
              Some(Header(typ, length, |EncodeHeader(typ, length)|))
  {
    hide Parse, Encode;
    RoundTrip(typ, Encode(length) + more);
    RoundTrip(length, more);
    var b := EncodeHeader(typ, length) + more;
    assert b == Encode(typ) + (Encode(length) + more);
    assert b[Size(typ)..] == Encode(length) + more;
  }

  /** Re-encoding a header never makes it longer. */
  lemma HeaderShortest(b: seq<byte>)
    requires ParseHeader(b).Some?
    ensures var h := ParseHeader(b).value; |EncodeHeader(h.typ, h.length)| <= h.len
  {
    hide Parse, Encode;
    Shortest(b);
    Shortest(b[Parse(b).value.len..]);
  }

  // ------------------------------------------------------- reading a frame from a buffer

  /** A frame: its type, its payload, and how many bytes went by in front of and within it. */
  datatype Frame = Frame(typ: VarInt, payload: seq<byte>, len: nat)

  /** The first frame that is not GREASE. */
  function ReadFrame(b: seq<byte>): (r: Option<Frame>)
    ensures r.Some? ==> r.value.len <= |b| && !IsGrease(r.value.typ)
    decreases |b|
  {
    match ParseHeader(b)
    case None => None
    case Some(h) =>
      if |b| < h.len + h.length then None
      else if IsGrease(h.typ) then
        match ReadFrame(b[h.len + h.length..])
        case None => None
        case Some(f) => Some(f.(len := h.len + h.length + f.len))
      else Some(Frame(h.typ, b[h.len..h.len + h.length], h.len + h.length))
  }

  function Later(r: Option<Frame>, n: nat): Option<Frame> {
    if r.None? then None else Some(r.value.(len := n + r.value.len))
  }

  lemma ReadFrameStep(b: seq<byte>)
    ensures var header := ParseHeader(b);
            ReadFrame(b) ==
              if header.None? || |b| < header.value.len + header.value.length then None
              else
                var h, next := header.value, header.value.len + header.value.length;
                if IsGrease(h.typ) then Later(ReadFrame(b[next..]), next)
                else Some(Frame(h.typ, b[h.len..next], next))
  {
    hide ParseHeader, IsGrease;
  }

  /** Skipping GREASE frames in a loop; the payload is taken from the buffer. */
  method Read(buf: Buf) returns (r: Option<(VarInt, seq<byte>)>)
    modifies buf
    ensures match ReadFrame(old(buf.rest))
            case None => r == None
            case Some(f) => r == Some((f.typ, f.payload)) && buf.rest == old(buf.rest)[f.len..]
  {
    hide ParseHeader, ReadFrame, IsGrease;
    ghost var all := buf.rest;
    ghost var skipped: nat := 0;
    while true
      invariant skipped <= |all| && buf.rest == all[skipped..]
      invariant ReadFrame(all) == Later(ReadFrame(buf.rest), skipped)
      decreases |buf.rest|
    {
      ghost var b := buf.rest;
      ReadFrameStep(b);
      var header := ReadHeader(buf);
      if header.None? {
        return None;
      }
      var (typ, size) := header.value;
      if |buf.rest| < size {
        return None;
      }
      var payload := buf.Take(size);
      ghost var h := ParseHeader(b).value;
      assert buf.rest == b[h.len + size..] && payload == b[h.len..h.len + size];
      ghost var passed := skipped + h.len + size;
      assert buf.rest == all[passed..];
      if !IsGrease(typ) {
        return Some((typ, payload));
      }
      skipped := passed;
    }
  }

  /** Two varints in a row. */
  method ReadHeader(buf: Buf) returns (r: Option<(VarInt, VarInt)>)
    modifies buf
    ensures match ParseHeader(old(buf.rest))
            case None => r == None
            case Some(h) => r == Some((h.typ, h.length)) && buf.rest == old(buf.rest)[h.len..]
  {
    hide Parse;
    var typ := VarInts.Decode(buf);
    if typ.None? {
      return None;
    }
    var size := VarInts.Decode(buf);
    if size.None? {
      return None;
    }
    r := Some((typ.value, size.value));
  }
}
