/** CONNECT responses: a header section in a HEADERS frame, read from a buffer or from a stream. */
module Connect {
  import opened Bytes
  import opened Collections
  import opened VarInts
  import opened Frames
  import opened StreamFrames
  import StaticTable
  import Fields
  import Qpack
  import QpackForms
  import QpackTheorems
  import QpackCodec
  import PrefixInts
  import Bits
  import Utf8

  type Text = StaticTable.Text

  const MAX_CONNECT_FRAME_SIZE: nat := 64 * 1024

  datatype ConnectError =
    | UnexpectedEnd
    | QpackError(error: Qpack.DecodeError)
    | InvalidPseudoHeader
    | UnexpectedFrame(frame: VarInt)
    | InvalidStatus
    | WrongStatus
    | MessageTooLong
    | Io

  /** An HTTP status code: three digits, the first of them not zero. */
  type Status = n: nat | 100 <= n < 1000 witness 100

  datatype ConnectResponse = ConnectResponse(status: Status)

  /** ":status" */
  function StatusName(): Text {
    [0x3A, 0x73, 0x74, 0x61, 0x74, 0x75, 0x73]
  }

  /** "sec-webtransport-http3-draft" */
  function DraftName(): Text {
    [0x73, 0x65, 0x63, 0x2D, 0x77, 0x65, 0x62, 0x74, 0x72, 0x61, 0x6E, 0x73, 0x70, 0x6F, 0x72, 0x74] +
    [0x2D, 0x68, 0x74, 0x74, 0x70, 0x33, 0x2D, 0x64, 0x72, 0x61, 0x66, 0x74]
  }

  /** "draft02" */
  function DraftValue(): Text {
    [0x64, 0x72, 0x61, 0x66, 0x74, 0x30, 0x32]
  }

  function ParseStatus(t: Text): Option<Status> {
    if |t| == 3 && 0x31 <= t[0] <= 0x39 && 0x30 <= t[1] <= 0x39 && 0x30 <= t[2] <= 0x39 then
      Some(100 * (t[0] as int - 0x30) + 10 * (t[1] as int - 0x30) + (t[2] as int - 0x30))
    else None
  }

  function Digit(n: nat): (d: byte)
    requires n < 10
    ensures 0x30 <= d <= 0x39
  {
    0x30 + n
  }

  function StatusText(status: Status): Text {
    [Digit(status / 100), Digit(status / 10 % 10), Digit(status % 10)]
  }

  // ------------------------------------------------------- reading

  /** What the fields of a response say. */
  function OfFields(m: map<Text, Text>): Result<ConnectResponse, ConnectError> {
    if exists name :: name in m && Fields.IsPseudo(name) && name != StatusName() then Err(InvalidPseudoHeader)
    else if StatusName() !in m then Err(WrongStatus)
    else if ParseStatus(m[StatusName()]).None? then Err(InvalidStatus)
    else Ok(ConnectResponse(ParseStatus(m[StatusName()]).value))
  }

  function OfFrame(typ: VarInt, payload: seq<byte>): Result<ConnectResponse, ConnectError> {
    if typ != HEADERS then Err(UnexpectedFrame(typ))
    else
      match Qpack.ParseHeaders(payload)
      case Err(e) => Err(QpackError(e))
      case Ok(m) => OfFields(m)
  }

  function DecodeResponse(b: seq<byte>): Result<ConnectResponse, ConnectError> {
    match ReadFrame(b)
    case None => Err(UnexpectedEnd)
    case Some(f) => OfFrame(f.typ, f.payload)
  }

  /** `read_frame`: one frame of the stream, its header written again in shortest form. */
  function ReadFrameBytes(b: seq<byte>): Result<seq<byte>, ConnectError> {
    match ReadBounded(b, MAX_CONNECT_FRAME_SIZE)
    case Err(Exhausted) => Err(UnexpectedEnd)
    case Err(TooLong) => Err(MessageTooLong)
    case Err(Severed) => Err(Io)
    case Ok(f) => Ok(WriteFrame(f.typ, f.payload))
  }

  function ReadResponse(b: seq<byte>): Result<ConnectResponse, ConnectError> {
    var frame :- ReadFrameBytes(b);
    DecodeResponse(frame)
  }

  // ------------------------------------------------------- writing

  /** The length is cast to 32 bits. */
  function HeadersFrame(payload: seq<byte>): seq<byte> {
    EncodeHeader(HEADERS, |payload| % TWO_32) + payload
  }

  function ResponseFields(r: ConnectResponse): map<Text, Text> {
    map[StatusName() := StatusText(r.status), DraftName() := DraftValue()]
  }

  // ------------------------------------------------------- the code itself

  method ReadFrameFrom(stream: Buf) returns (r: Result<seq<byte>, ConnectError>)
    modifies stream
    ensures r == ReadFrameBytes(old(stream.rest))
    ensures r.Ok? ==>
              stream.rest == old(stream.rest)[ReadBounded(old(stream.rest), MAX_CONNECT_FRAME_SIZE).value.len..]
  {
    assert MAX_CONNECT_FRAME_SIZE <= MAX;
    hide ReadBounded, WriteFrame, IsGrease;
    var frame := ReadFrom(stream, MAX_CONNECT_FRAME_SIZE);
    match frame {
      case Err(Exhausted) => return Err(UnexpectedEnd);
      case Err(TooLong) => return Err(MessageTooLong);
      case Err(Severed) => return Err(Io);
      case Ok((typ, payload)) =>
        var bytes := new BufMut();
        PutFrame(bytes, typ, payload);
        assert [] + WriteFrame(typ, payload) == WriteFrame(typ, payload);
        r := Ok(bytes.bytes);
    }
  }

  method Decode(buf: Buf) returns (r: Result<ConnectResponse, ConnectError>)
    requires ReadFrame(buf.rest).Some? && ReadFrame(buf.rest).value.typ == HEADERS ==>
               Qpack.SectionAddressable(ReadFrame(buf.rest).value.payload)
    modifies buf
    ensures r == DecodeResponse(old(buf.rest))
  {
    hide ReadFrame, Qpack.ParseHeaders, Qpack.SectionAddressable, ParseStatus;
    var frame := Frames.Read(buf);
    if frame.None? {
      return Err(UnexpectedEnd);
    }
    var (typ, payload) := frame.value;
    if typ != HEADERS {
      return Err(UnexpectedFrame(typ));
    }
    var data := new Buf(payload);
    var headers := QpackCodec.Headers.Decode(data);
    if headers.Err? {
      return Err(QpackError(headers.error));
    }
    var m := headers.value.fields;
    if exists name :: name in m && Fields.IsPseudo(name) && name != StatusName() {
      return Err(InvalidPseudoHeader);
    }
    var text := headers.value.Get(StatusName());
    if text.None? {
      return Err(WrongStatus);
    }
    var status := ParseStatus(text.value);
    if status.None? {
      return Err(InvalidStatus);
    }
    r := Ok(ConnectResponse(status.value));
  }

  /** The fields are visited in the order `names`. */
  method EncodeHeadersFrame(buf: BufMut, headers: QpackCodec.Headers, names: seq<Text>)
    requires QpackTheorems.AllFieldsText(headers.fields) && IterationOrder(names, headers.fields)
    modifies buf
    ensures buf.bytes == old(buf.bytes) + HeadersFrame(QpackTheorems.EncodeHeaders(headers.fields, names))
  {
    hide Encode, QpackTheorems.EncodeHeaders, IterationOrder, QpackTheorems.AllFieldsText;
    var payload := new BufMut();
    headers.Encode(payload, names);
    VarInts.Put(HEADERS, buf);
    VarInts.Put(|payload.bytes| % TWO_32, buf);
    buf.PutSlice(payload.bytes);
    ghost var section := QpackTheorems.EncodeHeaders(headers.fields, names);
    assert [] + section == section;
  }

  // ------------------------------------------------------- streams against buffers

  /**
   * `read_frame` succeeds exactly when the buffer parser finds a frame and no frame up to it is longer than
   * 64 KiB; its bytes then parse to the same type and payload.
   */
  lemma ReadFrameRefines(b: seq<byte>)
    ensures ReadFrameBytes(b).Ok? <==> ReadFrame(b).Some? && FramesWithin(b, MAX_CONNECT_FRAME_SIZE)
    ensures ReadFrameBytes(b).Ok? ==>
              var w, f := ReadFrameBytes(b).value, ReadFrame(b).value;
              ReadFrame(w) == Some(Frame(f.typ, f.payload, |w|))
  {
    hide ReadFrame, ReadBounded, FramesWithin, WriteFrame, IsGrease;
    if ReadFrame(b).Some? {
      BoundedRefines(b, MAX_CONNECT_FRAME_SIZE, ReadFrame(b).value);
    }
    if ReadBounded(b, MAX_CONNECT_FRAME_SIZE).Ok? {
      var f := ReadBounded(b, MAX_CONNECT_FRAME_SIZE).value;
      BoundedRefines(b, MAX_CONNECT_FRAME_SIZE, f);
      FrameRoundTrip(f.typ, f.payload, [], 0);
      assert WriteFrame(f.typ, f.payload) + [] == WriteFrame(f.typ, f.payload);
    }
  }

  /**
   * Reading a response from a stream succeeds exactly when decoding it from a buffer does and no frame up to the
   * first that is not GREASE is longer than 64 KiB; the response is the same.
   */
  lemma ReadRefinesDecode(b: seq<byte>, r: ConnectResponse)
    ensures ReadResponse(b) == Ok(r) <==> DecodeResponse(b) == Ok(r) && FramesWithin(b, MAX_CONNECT_FRAME_SIZE)
  {
    hide ReadFrame, ReadBounded, FramesWithin, OfFrame, WriteFrame, IsGrease;
    if ReadFrame(b).Some? {
      BoundedRefines(b, MAX_CONNECT_FRAME_SIZE, ReadFrame(b).value);
    }
    if ReadBounded(b, MAX_CONNECT_FRAME_SIZE).Ok? {
      var f := ReadBounded(b, MAX_CONNECT_FRAME_SIZE).value;
      BoundedRefines(b, MAX_CONNECT_FRAME_SIZE, f);
      ReencodedDecodes(f.typ, f.payload);
    }
  }

  lemma ReencodedDecodes(typ: VarInt, payload: seq<byte>)
    requires !IsGrease(typ) && |payload| <= MAX
    ensures DecodeResponse(WriteFrame(typ, payload)) == OfFrame(typ, payload)
  {
    hide ReadFrame, OfFrame, WriteFrame, IsGrease;
    FrameRoundTrip(typ, payload, [], 0);
    assert WriteFrame(typ, payload) + [] == WriteFrame(typ, payload);
  }

  /**
   * GREASE frames from any sender and then another frame: it has to be of type HEADERS, and then its section
   * decides. The stream's reader refuses frames above 64 KiB.
   */
  lemma FirstFrameCounts(grease: seq<WireFrame>, f: WireFrame, more: seq<byte>)
    requires AllGrease(grease) && Announced(f) && !IsGrease(f.typ)
    ensures var b := Wire(grease) + (f.header + f.payload + more);
            var r := if f.typ != 1 then Err(UnexpectedFrame(f.typ)) else OfFrame(HEADERS, f.payload);
            && DecodeResponse(b) == r
            && ReadResponse(b) == if SomeOversized(grease, 65536) || |f.payload| > 65536 then Err(MessageTooLong) else r
  {
    hide ParseHeader, IsGrease, ReadFrame, ReadBounded, OfFrame, DecodeResponse, ReadResponse, Wire, SomeOversized;
    GreaseIsSkipped(grease, f.header + f.payload + more, MAX_CONNECT_FRAME_SIZE);
    FirstFrameIsRead(f, more, MAX_CONNECT_FRAME_SIZE);
    ReadResponseOf(Wire(grease) + (f.header + f.payload + more));
    assert MAX_CONNECT_FRAME_SIZE == 65536 && HEADERS == 1;
    assert OfFrame(f.typ, f.payload) == if f.typ != 1 then Err(UnexpectedFrame(f.typ)) else OfFrame(HEADERS, f.payload)
    by {
      OtherFrame(f.typ, f.payload);
    }
  }

  lemma OtherFrame(typ: VarInt, payload: seq<byte>)
    ensures typ != HEADERS ==> OfFrame(typ, payload) == Err(UnexpectedFrame(typ))
  {
    hide Qpack.ParseHeaders;
  }

  lemma ReadResponseOf(b: seq<byte>)
    ensures var f := ReadFrame(b);
            DecodeResponse(b) == if f.None? then Err(UnexpectedEnd) else OfFrame(f.value.typ, f.value.payload)
    ensures var f := ReadBounded(b, 65536);
            ReadResponse(b) == if f.Err? then Err(match f.error
                                                  case Exhausted => UnexpectedEnd
                                                  case TooLong => MessageTooLong
                                                  case Severed => Io)
                               else OfFrame(f.value.typ, f.value.payload)
  {
    hide ReadFrame, ReadBounded, OfFrame, WriteFrame;
    if ReadBounded(b, 65536).Ok? {
      var f := ReadBounded(b, 65536).value;
      ReencodedDecodes(f.typ, f.payload);
    }
  }

  /** A stream that ends within its frame, in the header or in the payload. */
  lemma CutResponse(grease: seq<WireFrame>, f: WireFrame, k: nat)
    requires AllGrease(grease) && Announced(f) && k < |f.header| + |f.payload|
    ensures var b := Wire(grease) + (f.header + f.payload)[..k];
            && DecodeResponse(b) == Err(UnexpectedEnd)
            && ReadResponse(b) == if SomeOversized(grease, 65536) then Err(MessageTooLong)
                                  else if k < |f.header| then Err(UnexpectedEnd)
                                  else if |f.payload| > 65536 then Err(MessageTooLong)
                                  else Err(Io)
  {
    hide ParseHeader, IsGrease, ReadFrame, ReadBounded, OfFrame, DecodeResponse, ReadResponse, Wire, SomeOversized;
    GreaseIsSkipped(grease, (f.header + f.payload)[..k], MAX_CONNECT_FRAME_SIZE);
    CutFrameFails(f, k, MAX_CONNECT_FRAME_SIZE);
    ReadResponseOf(Wire(grease) + (f.header + f.payload)[..k]);
    assert MAX_CONNECT_FRAME_SIZE == 65536;
  }

  // ------------------------------------------------------- round trip

  /** The cast of the length makes the frame wrong exactly from 4 GiB on: then the frame ends early. */
  lemma HeadersFrameExactly(payload: seq<byte>, more: seq<byte>)
    ensures ReadFrame(HeadersFrame(payload) + more) == Some(Frame(HEADERS, payload, |HeadersFrame(payload)|)) <==>
              |payload| < TWO_32
  {
    CastFrame(payload);
    CastLength(|payload|);
    hide *;
    var k := |payload| % TWO_32;
    var a, b := payload[..k], payload[k..];
    FirstPart(a, b, more);
    if k == |payload| {
      assert a == payload && b == [] && WriteFrame(HEADERS, a) + [] == WriteFrame(HEADERS, a);
    }
  }

  lemma CastLength(n: nat)
    ensures 0 <= n % TWO_32 <= n
    ensures n % TWO_32 == n <==> n < TWO_32
  {
  }

  /** Bytes behind the announced length are not part of the frame. */
  lemma FirstPart(a: seq<byte>, b: seq<byte>, more: seq<byte>)
    requires |a| <= MAX
    ensures ReadFrame(WriteFrame(HEADERS, a) + b + more) == Some(Frame(HEADERS, a, |WriteFrame(HEADERS, a)|))
  {
    assert !IsGrease(HEADERS);
    hide *;
    FrameRoundTrip(HEADERS, a, b + more, 0);
    assert WriteFrame(HEADERS, a) + b + more == WriteFrame(HEADERS, a) + (b + more);
  }

  lemma CastFrame(payload: seq<byte>)
    ensures var k := |payload| % TWO_32;
            k <= MAX && HeadersFrame(payload) == WriteFrame(HEADERS, payload[..k]) + payload[k..]
  {
    hide EncodeHeader;
    var k := |payload| % TWO_32;
    assert payload == payload[..k] + payload[k..];
  }

  /** Any valid fields in a HEADERS frame, in any order, are read back from the frame. */
  lemma HeadersFrameRoundTrip(m: map<Text, Text>, names: seq<Text>, more: seq<byte>)
    requires QpackTheorems.Normal(m) && IterationOrder(names, m)
    requires |QpackTheorems.EncodeHeaders(m, names)| < TWO_32
    ensures var payload := QpackTheorems.EncodeHeaders(m, names);
            && ReadFrame(HeadersFrame(payload) + more) == Some(Frame(HEADERS, payload, |HeadersFrame(payload)|))
            && Qpack.ParseHeaders(payload) == Ok(m)
  {
    NormalParts(m);
    hide *;
    var payload := QpackTheorems.EncodeHeaders(m, names);
    HeadersFrameExactly(payload, more);
    QpackTheorems.HeadersRoundTrip(m, names);
  }

  lemma NormalParts(m: map<Text, Text>)
    requires QpackTheorems.Normal(m)
    ensures QpackTheorems.AllFieldsText(m) && QpackTheorems.AllFieldsValid(m)
  {
  }

  /** A text is read as a status exactly when it is that status's three digits. */
  lemma StatusExactly(t: Text, status: Status)
    ensures ParseStatus(t) == Some(status) <==> t == StatusText(status)
  {
    if ParseStatus(t) == Some(status) {
      Digits(t[0] as int - 0x30, t[1] as int - 0x30, t[2] as int - 0x30);
    }
    if t == StatusText(status) {
      var a, b, c := status / 100, status / 10 % 10, status % 10;
      assert status == 100 * a + 10 * b + c;
    }
  }

  lemma Digits(a: nat, b: nat, c: nat)
    requires a < 10 && b < 10 && c < 10
    ensures var n := 100 * a + 10 * b + c; n / 100 == a && n / 10 % 10 == b && n % 10 == c
  {
    assert (100 * a + 10 * b + c) / 10 == 10 * a + b;
  }

  /** Printable ASCII. */
  predicate Plain(t: Text) {
    forall i :: 0 <= i < |t| ==> 0x20 <= t[i] < 0x7F
  }

  lemma PlainIsAllowed(t: Text)
    requires Plain(t)
    ensures Utf8.Valid(t) && !Fields.HasForbiddenByte(t)
  {
    Utf8.AsciiIsValid(t);
  }

  lemma StatusNameIsOrdinary()
    ensures Fields.IsPseudo(StatusName()) && Fields.IsToken(StatusName()[1..]) && Plain(StatusName())
    ensures |StatusName()| == 7 && StatusName()[0] == 0x3A
  {
  }

  lemma DraftNameIsOrdinary()
    ensures !Fields.IsPseudo(DraftName()) && Fields.IsToken(DraftName()) && Plain(DraftName())
    ensures |DraftName()| == 28
  {
    hide Fields.IsFieldNameByte;
    var head: Text := [0x73, 0x65, 0x63, 0x2D, 0x77, 0x65, 0x62, 0x74, 0x72, 0x61, 0x6E, 0x73, 0x70, 0x6F, 0x72, 0x74];
    var tail: Text := [0x2D, 0x68, 0x74, 0x74, 0x70, 0x33, 0x2D, 0x64, 0x72, 0x61, 0x66, 0x74];
    HeadIsToken(head);
    TailIsToken(tail);
    assert DraftName() == head + tail;
  }

  lemma HeadIsToken(head: Text)
    requires head == [0x73, 0x65, 0x63, 0x2D, 0x77, 0x65, 0x62, 0x74, 0x72, 0x61, 0x6E, 0x73, 0x70, 0x6F, 0x72, 0x74]
    ensures Fields.IsToken(head) && Plain(head)
  {
  }

  lemma TailIsToken(tail: Text)
    requires tail == [0x2D, 0x68, 0x74, 0x74, 0x70, 0x33, 0x2D, 0x64, 0x72, 0x61, 0x66, 0x74]
    ensures Fields.IsToken(tail) && Plain(tail)
  {
  }

  /** Names of other lengths, and pseudo-header names, are not among the connection-specific ones. */
  lemma NotConnectionSpecific(name: Text)
    requires |name| == 28 || (|name| == 7 && name[0] == 0x3A)
    ensures !Fields.IsConnectionSpecific(name) && name != StaticTable.Ascii("te")
  {
    assert StaticTable.Ascii("upgrade")[0] == 0x75;
  }

  lemma FieldIsValid(name: Text, value: Text)
    requires Plain(name) && Plain(value)
    requires Fields.IsToken(if Fields.IsPseudo(name) then name[1..] else name)
    requires !Fields.IsConnectionSpecific(name) && name != StaticTable.Ascii("te")
    ensures Qpack.IsText((name, value)) && Fields.Permitted(name, value)
  {
    PlainIsAllowed(name);
    PlainIsAllowed(value);
    Fields.ValidateExactly(name, value);
    hide Plain, Fields.Permitted, Utf8.Valid, Fields.IsToken, Fields.HasForbiddenByte, Fields.IsPseudo,
      Fields.IsConnectionSpecific,
      Fields.TrimStart, Fields.TrimEnd, Fields.EqIgnoreAsciiCase, StaticTable.Ascii;
  }

  lemma DraftValueIsPlain()
    ensures Plain(DraftValue()) && |DraftValue()| == 7
  {
  }

  lemma ResponseIsNormal(r: ConnectResponse)
    ensures QpackTheorems.Normal(ResponseFields(r))
    ensures OfFields(ResponseFields(r)) == Ok(r)
    ensures forall k :: k in ResponseFields(r) ==> k in {StatusName(), DraftName()} && Short((k, ResponseFields(r)[k]))
  {
    assert Plain(StatusText(r.status)) && |StatusText(r.status)| == 3;
    StatusExactly(StatusText(r.status), r.status);
    hide *;
    StatusNameIsOrdinary();
    DraftNameIsOrdinary();
    DraftValueIsPlain();
    NotConnectionSpecific(StatusName());
    NotConnectionSpecific(DraftName());
    FieldIsValid(StatusName(), StatusText(r.status));
    FieldIsValid(DraftName(), DraftValue());
    TwoFields(StatusText(r.status), r);
  }

  lemma TwoFields(status: Text, r: ConnectResponse)
    requires status == StatusText(r.status) && |status| == 3 && ParseStatus(status) == Some(r.status)
    requires |StatusName()| == 7 && |DraftName()| == 28 && |DraftValue()| == 7 && !Fields.IsPseudo(DraftName())
    requires Qpack.IsText((StatusName(), status)) && Fields.Permitted(StatusName(), status)
    requires Qpack.IsText((DraftName(), DraftValue())) && Fields.Permitted(DraftName(), DraftValue())
    ensures QpackTheorems.Normal(ResponseFields(r))
    ensures OfFields(ResponseFields(r)) == Ok(r)
    ensures forall k :: k in ResponseFields(r) ==> k in {StatusName(), DraftName()} && Short((k, ResponseFields(r)[k]))
  {
    hide Fields.Permitted, Utf8.Valid, Fields.IsPseudo, ParseStatus, StatusText, StatusName, DraftName, DraftValue;
  }

  // ------------------------------------------------------- which sections are responses

  /** Some pseudo-header field other than ":status". */
  predicate HasStranger(fs: seq<Qpack.Field>) {
    exists i :: 0 <= i < |fs| && Fields.IsPseudo(fs[i].0) && fs[i].0 != StatusName()
  }

  lemma StrangerExactly(fs: seq<Qpack.Field>, m: map<Text, Text>)
    requires m == QpackTheorems.LastWins(map[], fs)
    ensures HasStranger(fs) <==> exists name :: name in m && Fields.IsPseudo(name) && name != StatusName()
  {
    hide Fields.IsPseudo, StatusName, QpackTheorems.LastWins;
    if HasStranger(fs) {
      var i :| 0 <= i < |fs| && Fields.IsPseudo(fs[i].0) && fs[i].0 != StatusName();
      QpackTheorems.LastWinsNames(map[], fs, fs[i].0);
      assert fs[i].0 in m;
    }
    if name :| name in m && Fields.IsPseudo(name) && name != StatusName() {
      QpackTheorems.LastWinsNames(map[], fs, name);
    }
  }

  /** An accepted section has the value of its one ":status" field. */
  lemma StatusField(fs: seq<Qpack.Field>, i: nat)
    requires QpackTheorems.Accepted(fs, Qpack.START) && i < |fs| && fs[i].0 == StatusName()
    ensures var m := QpackTheorems.LastWins(map[], fs);
            StatusName() in m && m[StatusName()] == fs[i].1
  {
    StatusNameIsOrdinary();
    hide StatusName, Fields.Permitted, Fields.IsPseudo, QpackTheorems.LastWins;
    forall j | i < j < |fs| ensures fs[j].0 != fs[i].0 {
      assert QpackTheorems.InPlace(fs, j, Qpack.START);
    }
    QpackTheorems.LastWinsValue(map[], fs, i);
  }

  lemma SectionOf(m: map<Text, Text>, payload: seq<byte>)
    ensures Qpack.ParseHeaders(payload) == Ok(m) ==> OfFrame(HEADERS, payload) == OfFields(m)
    ensures Qpack.ParseHeaders(payload).Err? ==>
              OfFrame(HEADERS, payload) == Err(QpackError(Qpack.ParseHeaders(payload).error))
  {
    hide Qpack.ParseHeaders, OfFields;
  }

  /**
   * For a section from any encoder: it is a response exactly when its fields are acceptable, ":status" is its only
   * pseudo-header field, and the value is three digits that do not start with zero; each failure has its own error.
   */
  lemma ResponseExactly(fs: seq<Qpack.Field>, forms: seq<QpackForms.Form>)
    requires |fs| == |forms| && forall i :: 0 <= i < |fs| ==> QpackForms.FormFits(fs[i], forms[i])
    requires QpackTheorems.AllText(fs)
    ensures var r := OfFrame(HEADERS, Qpack.SectionPrefix() + QpackTheorems.WireLines(fs, forms));
            if !QpackTheorems.Accepted(fs, Qpack.START) then r.Err? && r.error.QpackError?
            else if HasStranger(fs) then r == Err(InvalidPseudoHeader)
            else if !QpackTheorems.IsNamed(fs, StatusName()) then r == Err(WrongStatus)
            else forall i :: 0 <= i < |fs| && fs[i].0 == StatusName() ==>
                   && (r == Err(InvalidStatus) || (r.Ok? && fs[i].1 == StatusText(r.value.status)))
                   && forall status: Status :: fs[i].1 == StatusText(status) ==> r == Ok(ConnectResponse(status))
  {
    hide *;
    var payload := Qpack.SectionPrefix() + QpackTheorems.WireLines(fs, forms);
    var m := QpackTheorems.LastWins(map[], fs);
    QpackTheorems.AnyEncoderIsUnderstood(fs, forms);
    SectionOf(m, payload);
    if QpackTheorems.Accepted(fs, Qpack.START) {
      StrangerExactly(fs, m);
      QpackTheorems.LastWinsNames(map[], fs, StatusName());
      FieldsExactly(fs, m);
    }
  }

  lemma FieldsExactly(fs: seq<Qpack.Field>, m: map<Text, Text>)
    requires QpackTheorems.Accepted(fs, Qpack.START) && m == QpackTheorems.LastWins(map[], fs)
    requires HasStranger(fs) <==> exists name :: name in m && Fields.IsPseudo(name) && name != StatusName()
    requires QpackTheorems.IsNamed(fs, StatusName()) <==> StatusName() in m
    ensures var r := OfFields(m);
            if HasStranger(fs) then r == Err(InvalidPseudoHeader)
            else if !QpackTheorems.IsNamed(fs, StatusName()) then r == Err(WrongStatus)
            else forall i :: 0 <= i < |fs| && fs[i].0 == StatusName() ==>
                   && (r == Err(InvalidStatus) || (r.Ok? && fs[i].1 == StatusText(r.value.status)))
                   && forall status: Status :: fs[i].1 == StatusText(status) ==> r == Ok(ConnectResponse(status))
  {
    hide QpackTheorems.Accepted, QpackTheorems.LastWins, Fields.IsPseudo, StatusName, ParseStatus, StatusText,
         HasStranger, QpackTheorems.IsNamed;
    forall i | 0 <= i < |fs| && fs[i].0 == StatusName() ensures StatusName() in m && m[StatusName()] == fs[i].1 {
      StatusField(fs, i);
    }
    if StatusName() in m {
      var t := m[StatusName()];
      if ParseStatus(t).Some? {
        StatusExactly(t, ParseStatus(t).value);
      }
      forall status: Status | t == StatusText(status) ensures ParseStatus(t) == Some(status) {
        StatusExactly(t, status);
      }
    }
  }

  // ------------------------------------------------------- a response is short

  predicate Short(f: Qpack.Field) {
    |f.0| < 64 && |f.1| < 64
  }

  lemma ShortPrefix(size: nat, flags: byte, value: nat)
    requires 1 <= size <= 8 && value < 128
    ensures |PrefixInts.EncodePrefix(size, flags, value)| <= 2
  {
    hide Bits.Pow2;
  }

  lemma ShortLine(f: Qpack.Field)
    requires Short(f) && Qpack.Fits(f)
    ensures |Qpack.EncodeLine(f)| <= 132
  {
    hide PrefixInts.EncodePrefix, StaticTable.Entry;
    var exact, named := StaticTable.FirstExact(f.0, f.1, 0), StaticTable.FirstName(f.0, 0);
    hide StaticTable.FirstExact, StaticTable.FirstName;
    if exact.Some? && exact.value < StaticTable.SIZE {
      ShortPrefix(6, 3, exact.value);
    }
    if named.Some? && named.value < StaticTable.SIZE {
      ShortPrefix(4, 5, named.value);
    }
    ShortPrefix(3, 4, |f.0|);
    ShortPrefix(7, 0, |f.1|);
  }

  lemma {:induction false} ShortLines(fs: seq<Qpack.Field>)
    requires Qpack.AllFit(fs) && forall i :: 0 <= i < |fs| ==> Short(fs[i])
    ensures |Qpack.EncodeLines(fs)| <= 132 * |fs|
    decreases |fs|
  {
    hide Qpack.EncodeLine;
    if fs != [] {
      ShortLine(fs[0]);
      ShortLines(fs[1..]);
    }
  }

  lemma ResponseIsShort(r: ConnectResponse, names: seq<Text>)
    requires QpackTheorems.AllFieldsText(ResponseFields(r))
    requires IterationOrder(names, ResponseFields(r))
    ensures |QpackTheorems.EncodeHeaders(ResponseFields(r), names)| < TWO_32
  {
    ResponseIsNormal(r);
    hide Qpack.PseudoFirst, Qpack.EncodeLines, Qpack.SectionPrefix, Qpack.Fits, Qpack.IsText, ResponseFields,
      StatusName, DraftName, Short;
    var m := ResponseFields(r);
    QpackTheorems.PseudoFirstIsStableSort(names, m);
    var sorted := Qpack.PseudoFirst(names);
    AtMostTwo(sorted, StatusName(), DraftName());
    ShortLines(Qpack.FieldsOf(m, sorted));
    ShortSectionPrefix();
  }

  lemma ShortSectionPrefix()
    ensures |Qpack.SectionPrefix()| <= 4
  {
    hide PrefixInts.EncodePrefix;
    ShortPrefix(8, 0, 0);
    ShortPrefix(7, 0, 0);
  }

  lemma AtMostTwo(names: seq<Text>, a: Text, b: Text)
    requires forall i :: 0 <= i < |names| ==> names[i] in {a, b}
    requires Distinct(names)
    ensures |names| <= 2
  {
    DistinctCount(names);
    var s := set k | k in names;
    assert {a, b} == s + ({a, b} - s);
  }

  /** Every response survives: whatever order its fields are visited in, and whatever follows it. */
  lemma ResponseRoundTrip(r: ConnectResponse, names: seq<Text>, more: seq<byte>)
    requires QpackTheorems.AllFieldsText(ResponseFields(r))
    requires IterationOrder(names, ResponseFields(r))
    ensures DecodeResponse(HeadersFrame(QpackTheorems.EncodeHeaders(ResponseFields(r), names)) + more) == Ok(r)
  {
    hide ReadFrame, Qpack.ParseHeaders, QpackTheorems.EncodeHeaders, IterationOrder, QpackTheorems.Normal,
      HeadersFrame, ResponseFields, OfFields;
    ResponseIsNormal(r);
    ResponseIsShort(r, names);
    HeadersFrameRoundTrip(ResponseFields(r), names, more);
  }
}
