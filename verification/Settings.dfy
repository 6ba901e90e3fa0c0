/** HTTP/3 SETTINGS (section 7.2.4 of RFC 9114) and the WebTransport negotiation in them. */
module Settings {
  import opened Bytes
  import opened Collections
  import opened VarInts
  import opened Frames
  import opened StreamFrames

  const CONTROL: VarInt := 0x00

  const ENABLE_CONNECT_PROTOCOL: VarInt := 0x8
  const ENABLE_DATAGRAM: VarInt := 0x33
  const ENABLE_DATAGRAM_DEPRECATED: VarInt := 0xFFD277
  const WEBTRANSPORT_ENABLE_DEPRECATED: VarInt := 0x2b603742
  const WEBTRANSPORT_MAX_SESSIONS_DEPRECATED: VarInt := 0x2b603743
  const WEBTRANSPORT_MAX_SESSIONS: VarInt := 0xc671706a
  const WT_ENABLED: VarInt := 0x2c7cf000

  const MAX_SETTINGS_FRAME_SIZE: nat := 16 * 1024

  type Map = map<VarInt, VarInt>

  datatype SettingsError =
    | UnexpectedEnd
    | UnexpectedStreamType(typ: VarInt)
    | UnexpectedFrame(frame: VarInt)
    | InvalidSize
    | DuplicateSetting(id: VarInt)
    | InvalidValue(id: VarInt, value: VarInt)
    | MessageTooLong
    | Io

  predicate IsBoolean(id: VarInt) {
    id in {ENABLE_CONNECT_PROTOCOL, ENABLE_DATAGRAM, ENABLE_DATAGRAM_DEPRECATED, WEBTRANSPORT_ENABLE_DEPRECATED,
           WT_ENABLED}
  }

  // ------------------------------------------------------- reading

  /** What one pair does to the settings so far. */
  function AddPair(m: Map, id: VarInt, value: VarInt): Result<Map, SettingsError> {
    if IsGrease(id) then Ok(m)
    else if id in m then Err(DuplicateSetting(id))
    else if IsBoolean(id) && value > 1 then Err(InvalidValue(id, value))
    else Ok(m[id := value])
  }

  function ParsePairs(b: seq<byte>, m: Map): Result<Map, SettingsError>
    decreases |b|
  {
    if b == [] then Ok(m)
    else
      match ParseHeader(b)
      case None => Err(InvalidSize)
      case Some(pair) =>
        var n :- AddPair(m, pair.typ, pair.length);
        ParsePairs(b[pair.len..], n)
  }

  function OfFrame(typ: VarInt, payload: seq<byte>): Result<Map, SettingsError> {
    if typ != SETTINGS then Err(UnexpectedFrame(typ)) else ParsePairs(payload, map[])
  }

  function DecodeSettings(b: seq<byte>): Result<Map, SettingsError> {
    match Parse(b)
    case None => Err(UnexpectedEnd)
    case Some(t) =>
      if t.value != CONTROL then Err(UnexpectedStreamType(t.value))
      else
        match ReadFrame(b[t.len..])
        case None => Err(UnexpectedEnd)
        case Some(f) => OfFrame(f.typ, f.payload)
  }

  /** The streaming reader's result. */
  function ReadSettings(b: seq<byte>): Result<Map, SettingsError> {
    match Parse(b)
    case None => Err(UnexpectedEnd)
    case Some(t) =>
      if t.value != CONTROL then Err(UnexpectedStreamType(t.value))
      else
        match ReadBounded(b[t.len..], MAX_SETTINGS_FRAME_SIZE)
        case Err(Exhausted) => Err(UnexpectedEnd)
        case Err(TooLong) => Err(MessageTooLong)
        case Err(Severed) => Err(Io)
        case Ok(f) => OfFrame(f.typ, f.payload)
  }

  /** How many bytes the streaming reader takes off its stream. */
  function Consumed(b: seq<byte>): (n: nat)
    requires ReadSettings(b).Ok?
    ensures n <= |b|
  {
    var t := Parse(b).value.len;
    t + ReadBounded(b[t..], MAX_SETTINGS_FRAME_SIZE).value.len
  }

  // ------------------------------------------------------- writing

  function EncodePairs(m: Map, ids: seq<VarInt>): seq<byte>
    requires forall i :: 0 <= i < |ids| ==> ids[i] in m
  {
    if ids == [] then [] else Encode(ids[0]) + Encode(m[ids[0]]) + EncodePairs(m, ids[1..])
  }

  function PayloadLen(m: Map, ids: seq<VarInt>): nat
    requires forall i :: 0 <= i < |ids| ==> ids[i] in m
  {
    if ids == [] then 0 else Size(ids[0]) + Size(m[ids[0]]) + PayloadLen(m, ids[1..])
  }

  function EncodeSettings(m: Map, ids: seq<VarInt>): seq<byte>
    requires IterationOrder(ids, m) && PayloadLen(m, ids) <= MAX
  {
    Encode(CONTROL) + EncodeHeader(SETTINGS, PayloadLen(m, ids)) + EncodePairs(m, ids)
  }

  function EncodedLen(m: Map, ids: seq<VarInt>): nat
    requires IterationOrder(ids, m) && PayloadLen(m, ids) <= MAX
  {
    Size(CONTROL) + Size(SETTINGS) + Size(PayloadLen(m, ids)) + PayloadLen(m, ids)
  }

  // ------------------------------------------------------- negotiation

  function Get(m: Map, id: VarInt): Option<VarInt> {
    if id in m then Some(m[id]) else None
  }

  function SupportsWebTransport(m: Map): nat {
    if Get(m, WT_ENABLED) == Some(1) && Get(m, ENABLE_DATAGRAM) == Some(1) then 1
    else
      var datagram := if ENABLE_DATAGRAM in m then Get(m, ENABLE_DATAGRAM) else Get(m, ENABLE_DATAGRAM_DEPRECATED);
      if datagram != Some(1) then 0
      else if WEBTRANSPORT_MAX_SESSIONS in m then m[WEBTRANSPORT_MAX_SESSIONS]
      else if Get(m, WEBTRANSPORT_ENABLE_DEPRECATED) != Some(1) then 0
      else if WEBTRANSPORT_MAX_SESSIONS_DEPRECATED in m then m[WEBTRANSPORT_MAX_SESSIONS_DEPRECATED]
      else 1
  }

  /** What a client requires of a server's settings. */
  predicate SupportsServer(m: Map) {
    || (&& Get(m, WT_ENABLED) == Some(1)
        && Get(m, ENABLE_CONNECT_PROTOCOL) == Some(1)
        && Get(m, ENABLE_DATAGRAM) == Some(1))
    || (SupportsWebTransport(m) > 0 && Get(m, WT_ENABLED).None?)
  }

  /** What a server requires of a client's settings. */
  predicate SupportsClient(m: Map) {
    || (Get(m, WT_ENABLED) == Some(1) && Get(m, ENABLE_DATAGRAM) == Some(1))
    || (SupportsWebTransport(m) > 0 && Get(m, WT_ENABLED).None?)
  }

  // ------------------------------------------------------- the code itself

  class SettingsMap {
    var entries: Map

    constructor ()
      ensures entries == map[]
    {
      entries := map[];
    }

    static method Decode(buf: Buf) returns (r: Result<SettingsMap, SettingsError>)
      modifies buf
      ensures match DecodeSettings(old(buf.rest))
              case Ok(m) => r.Ok? && fresh(r.value) && r.value.entries == m
              case Err(e) => r == Err(e)
    {
      hide Parse, ReadFrame, ParseHeader, AddPair, ParsePairs;
      var typ := VarInts.Decode(buf);
      if typ.None? {
        return Err(UnexpectedEnd);
      }
      if typ.value != CONTROL {
        return Err(UnexpectedStreamType(typ.value));
      }
      var frame := Frames.Read(buf);
      if frame.None? {
        return Err(UnexpectedEnd);
      }
      var (frameType, payload) := frame.value;
      if frameType != SETTINGS {
        return Err(UnexpectedFrame(frameType));
      }
      var data := new Buf(payload);
      ghost var all := ParsePairs(data.rest, map[]);
      var settings := new SettingsMap();
      while data.rest != []
        invariant fresh(settings) && fresh(data)
        invariant ParsePairs(data.rest, settings.entries) == all
        decreases |data.rest|
      {
        ParsePairsStep(data.rest, settings.entries);
        var pair := ReadHeader(data);
        if pair.None? {
          return Err(InvalidSize);
        }
        var (id, value) := pair.value;
        var added := AddPair(settings.entries, id, value);
        if added.Err? {
          return Err(added.error);
        }
        settings.entries := added.value;
      }
      NoPairs(settings.entries);
      r := Ok(settings);
    }

    /** The frame is read, its header written again in shortest form, and the result decoded. */
    static method Read(stream: Buf) returns (r: Result<SettingsMap, SettingsError>)
      modifies stream
      ensures match ReadSettings(old(stream.rest))
              case Ok(m) => r.Ok? && fresh(r.value) && r.value.entries == m
                            && stream.rest == old(stream.rest)[Consumed(old(stream.rest))..]
              case Err(e) => r == Err(e)
    {
      assert MAX_SETTINGS_FRAME_SIZE <= MAX;
      hide Parse, ReadBounded, OfFrame, IsGrease;
      var typ := VarInts.Read(stream);
      if typ.None? {
        return Err(UnexpectedEnd);
      }
      if typ.value != CONTROL {
        return Err(UnexpectedStreamType(typ.value));
      }
      var frame := ReadFrom(stream, MAX_SETTINGS_FRAME_SIZE);
      match frame {
        case Err(Exhausted) => return Err(UnexpectedEnd);
        case Err(TooLong) => return Err(MessageTooLong);
        case Err(Severed) => return Err(Io);
        case Ok((frameType, payload)) => r := DecodeAgain(frameType, payload);
      }
    }

    static method DecodeAgain(typ: VarInt, payload: seq<byte>) returns (r: Result<SettingsMap, SettingsError>)
      requires !IsGrease(typ) && |payload| <= MAX
      ensures match OfFrame(typ, payload)
              case Ok(m) => r.Ok? && fresh(r.value) && r.value.entries == m
              case Err(e) => r == Err(e)
    {
      hide Parse, Encode, OfFrame, DecodeSettings, IsGrease;
      var bytes := new BufMut();
      VarInts.Put(CONTROL, bytes);
      PutFrame(bytes, typ, payload);
      ReencodedDecodes(typ, payload);
      assert bytes.bytes == Encode(CONTROL) + EncodeHeader(typ, |payload|) + payload;
      var frame := new Buf(bytes.bytes);
      r := Decode(frame);
    }

    /** The entries are visited in the order `ids`. */
    method EncodeTo(buf: BufMut, ids: seq<VarInt>)
      requires IterationOrder(ids, entries) && PayloadLen(entries, ids) <= MAX
      modifies buf
      ensures buf.bytes == old(buf.bytes) + EncodeSettings(entries, ids)
    {
      hide Encode, EncodePairs;
      VarInts.Put(CONTROL, buf);
      VarInts.Put(SETTINGS, buf);
      VarInts.Put(PayloadLen(entries, ids), buf);
      ghost var whole := old(buf.bytes) + EncodeSettings(entries, ids);
      assert ids[0..] == ids && buf.bytes + EncodePairs(entries, ids) == whole;
      hide EncodeSettings;
      var i := 0;
      while i < |ids|
        invariant i <= |ids|
        invariant buf.bytes + EncodePairs(entries, ids[i..]) == whole
      {
        EncodePairsStep(entries, ids, i);
        VarInts.Put(ids[i], buf);
        VarInts.Put(entries[ids[i]], buf);
        i := i + 1;
      }
      EncodeNoPairs(entries, ids);
    }

    method EnableInternal(maxSessions: u32, includeDeprecated: bool)
      modifies this
      ensures forall id: VarInt :: Get(entries, id) == EnabledValue(old(entries), maxSessions, includeDeprecated, id)
    {
      entries := entries[ENABLE_CONNECT_PROTOCOL := 1];
      entries := entries[ENABLE_DATAGRAM := 1];
      entries := entries[ENABLE_DATAGRAM_DEPRECATED := 1];
      entries := entries[WT_ENABLED := 1];
      entries := entries[WEBTRANSPORT_MAX_SESSIONS := maxSessions];
      if includeDeprecated {
        entries := entries[WEBTRANSPORT_MAX_SESSIONS_DEPRECATED := maxSessions];
        entries := entries[WEBTRANSPORT_ENABLE_DEPRECATED := 1];
      } else {
        entries := entries - {WEBTRANSPORT_MAX_SESSIONS_DEPRECATED};
        entries := entries - {WEBTRANSPORT_ENABLE_DEPRECATED};
      }
    }
  }

  /** A setting after WebTransport was enabled, with or without the parameters of older drafts. */
  function EnabledValue(m: Map, maxSessions: u32, includeDeprecated: bool, id: VarInt): Option<VarInt> {
    if id in {ENABLE_CONNECT_PROTOCOL, ENABLE_DATAGRAM, ENABLE_DATAGRAM_DEPRECATED, WT_ENABLED} then Some(1)
    else if id == WEBTRANSPORT_MAX_SESSIONS then Some(maxSessions)
    else if id == WEBTRANSPORT_MAX_SESSIONS_DEPRECATED then if includeDeprecated then Some(maxSessions) else None
    else if id == WEBTRANSPORT_ENABLE_DEPRECATED then if includeDeprecated then Some(1) else None
    else Get(m, id)
  }

  lemma EncodePairsStep(m: Map, ids: seq<VarInt>, i: nat)
    requires i < |ids| && forall k :: 0 <= k < |ids| ==> ids[k] in m
    ensures EncodePairs(m, ids[i..]) == (Encode(ids[i]) + Encode(m[ids[i]])) + EncodePairs(m, ids[i + 1..])
    ensures EncodePairs(m, ids[i..]) == Encode(ids[i]) + (Encode(m[ids[i]]) + EncodePairs(m, ids[i + 1..]))
  {
    hide Encode;
    assert ids[i..][1..] == ids[i + 1..];
  }

  lemma EncodeNoPairs(m: Map, ids: seq<VarInt>)
    ensures ids[|ids|..] == [] && EncodePairs(m, []) == []
  {
  }

  lemma ParsePairsStep(b: seq<byte>, m: Map)
    requires b != []
    ensures var p := ParseHeader(b);
            ParsePairs(b, m) ==
              if p.None? then Err(InvalidSize)
              else
                var r := AddPair(m, p.value.typ, p.value.length);
                if r.Err? then r else ParsePairs(b[p.value.len..], r.value)
  {
    hide ParseHeader, AddPair;
  }

  lemma NoPairs(m: Map)
    ensures ParsePairs([], m) == Ok(m)
  {
  }

  // ------------------------------------------------------- streams against buffers

  /** Writing the header again, in shortest form, does not change what a frame decodes to. */
  lemma ReencodedDecodes(typ: VarInt, payload: seq<byte>)
    requires !IsGrease(typ) && |payload| <= MAX
    ensures DecodeSettings(Encode(CONTROL) + EncodeHeader(typ, |payload|) + payload) == OfFrame(typ, payload)
  {
    hide Parse, Encode, EncodeHeader, ReadFrame, OfFrame, IsGrease, DecodeSettings;
    var frame := WriteFrame(typ, payload);
    assert Encode(CONTROL) + EncodeHeader(typ, |payload|) + payload == Encode(CONTROL) + frame;
    FrameRoundTrip(typ, payload, [], 0);
    assert frame + [] == frame;
    ControlStream(frame, typ, payload);
  }

  /**
   * The streaming reader succeeds exactly when the buffer decoder does and no frame up to the first that is
   * not GREASE is longer than 16 KiB; it yields the same settings.
   */
  lemma ReadRefinesDecode(b: seq<byte>, m: Map)
    ensures ReadSettings(b) == Ok(m) <==>
              DecodeSettings(b) == Ok(m) && FramesWithin(b[Parse(b).value.len..], MAX_SETTINGS_FRAME_SIZE)
  {
    hide Parse, ReadFrame, ReadBounded, FramesWithin, OfFrame;
    if Parse(b).Some? {
      var rest := b[Parse(b).value.len..];
      if ReadFrame(rest).Some? {
        BoundedRefines(rest, MAX_SETTINGS_FRAME_SIZE, ReadFrame(rest).value);
      }
      if ReadBounded(rest, MAX_SETTINGS_FRAME_SIZE).Ok? {
        BoundedRefines(rest, MAX_SETTINGS_FRAME_SIZE, ReadBounded(rest, MAX_SETTINGS_FRAME_SIZE).value);
      }
    }
  }

  /** The reader looks at the bytes it consumes only, so decoding just those gives the same settings. */
  lemma ConsumedBytesDecode(b: seq<byte>)
    requires ReadSettings(b).Ok?
    ensures DecodeSettings(b[..Consumed(b)]) == ReadSettings(b)
  {
    hide Parse, ReadFrame, ReadBounded, FramesWithin, OfFrame;
    var t := Parse(b).value.len;
    var f := ReadBounded(b[t..], MAX_SETTINGS_FRAME_SIZE).value;
    BoundedRefines(b[t..], MAX_SETTINGS_FRAME_SIZE, f);
    ParseLocal(b, t + f.len);
    FrameLocal(b[t..], []);
    var consumed := b[..t + f.len];
    assert consumed[t..] == b[t..][..f.len] + [];
  }

  lemma TypedStream(typ: VarInt, frames: seq<byte>)
    ensures var b := Encode(typ) + frames;
            Parse(b) == Some(Parsed(typ, Size(typ))) && b[Size(typ)..] == frames
  {
    hide Parse, Encode;
    RoundTrip(typ, frames);
  }

  /**
   * A stream of any type, on which any sender writes GREASE frames and then another frame: it has to be a control
   * stream and the frame has to be of type SETTINGS, and then its pairs count. The stream's reader refuses frames
   * above 16 KiB.
   */
  lemma FirstFrameCounts(typ: VarInt, grease: seq<WireFrame>, f: WireFrame, more: seq<byte>)
    requires AllGrease(grease) && Announced(f) && !IsGrease(f.typ)
    ensures var b := Encode(typ) + (Wire(grease) + (f.header + f.payload + more));
            var r := if typ != 0 then Err(UnexpectedStreamType(typ))
                     else if f.typ != 4 then Err(UnexpectedFrame(f.typ))
                     else ParsePairs(f.payload, map[]);
            && DecodeSettings(b) == r
            && ReadSettings(b) == if typ == 0 && (SomeOversized(grease, 16384) || |f.payload| > 16384)
                                  then Err(MessageTooLong) else r
  {
    hide Parse, Encode, ParseHeader, IsGrease, ReadFrame, ReadBounded, ParsePairs, DecodeSettings, ReadSettings,
         Wire, SomeOversized;
    var frame := f.header + f.payload + more;
    TypedStream(typ, Wire(grease) + frame);
    GreaseIsSkipped(grease, frame, MAX_SETTINGS_FRAME_SIZE);
    FirstFrameIsRead(f, more, MAX_SETTINGS_FRAME_SIZE);
    SettingsOf(Encode(typ) + (Wire(grease) + frame), typ, Wire(grease) + frame);
    assert MAX_SETTINGS_FRAME_SIZE == 16384 && CONTROL == 0 && SETTINGS == 4;
  }

  /** What the stream type and the first frame make of a stream. */
  lemma SettingsOf(b: seq<byte>, typ: VarInt, frames: seq<byte>)
    requires Parse(b).Some? && Parse(b).value.value == typ && b[Parse(b).value.len..] == frames
    ensures var f := ReadFrame(frames);
            DecodeSettings(b) == if typ != 0 then Err(UnexpectedStreamType(typ))
                                 else if f.None? then Err(UnexpectedEnd)
                                 else if f.value.typ != 4 then Err(UnexpectedFrame(f.value.typ))
                                 else ParsePairs(f.value.payload, map[])
    ensures var f := ReadBounded(frames, 16384);
            ReadSettings(b) == if typ != 0 then Err(UnexpectedStreamType(typ))
                               else if f.Err? then Err(match f.error
                                                       case Exhausted => UnexpectedEnd
                                                       case TooLong => MessageTooLong
                                                       case Severed => Io)
                               else if f.value.typ != 4 then Err(UnexpectedFrame(f.value.typ))
                               else ParsePairs(f.value.payload, map[])
  {
    hide Parse, ReadFrame, ReadBounded, ParsePairs;
  }

  /** A control stream that ends within its frame, in the header or in the payload. */
  lemma CutControlStream(grease: seq<WireFrame>, f: WireFrame, k: nat)
    requires AllGrease(grease) && Announced(f) && k < |f.header| + |f.payload|
    ensures var b := Encode(0) + (Wire(grease) + (f.header + f.payload)[..k]);
            && DecodeSettings(b) == Err(UnexpectedEnd)
            && ReadSettings(b) == if SomeOversized(grease, 16384) then Err(MessageTooLong)
                                  else if k < |f.header| then Err(UnexpectedEnd)
                                  else if |f.payload| > 16384 then Err(MessageTooLong)
                                  else Err(Io)
  {
    hide Parse, Encode, ParseHeader, IsGrease, ReadFrame, ReadBounded, ParsePairs, DecodeSettings, ReadSettings,
         Wire, SomeOversized;
    var part := (f.header + f.payload)[..k];
    TypedStream(0, Wire(grease) + part);
    GreaseIsSkipped(grease, part, MAX_SETTINGS_FRAME_SIZE);
    CutFrameFails(f, k, MAX_SETTINGS_FRAME_SIZE);
    SettingsOf(Encode(0) + (Wire(grease) + part), 0, Wire(grease) + part);
    assert MAX_SETTINGS_FRAME_SIZE == 16384;
  }

  // ------------------------------------------------------- round trip

  /** No reserved identifiers, which the decoder drops. */
  predicate NoGrease(m: Map) {
    forall id :: id in m ==> !IsGrease(id)
  }

  predicate BooleansOk(m: Map) {
    forall id :: id in m && IsBoolean(id) ==> m[id] <= 1
  }

  /** The entries of m that `ids` lists and that are not reserved, added to `base`. */
  predicate Gains(base: Map, r: Map, m: Map, ids: seq<VarInt>) {
    forall id: VarInt :: Get(r, id) == if id in ids && !IsGrease(id) then Get(m, id) else Get(base, id)
  }

  lemma {:induction false} PairsDecode(m: Map, ids: seq<VarInt>, base: Map)
    requires forall i :: 0 <= i < |ids| ==> ids[i] in m && ids[i] !in base
    requires forall i, j :: 0 <= i < j < |ids| ==> ids[i] != ids[j]
    ensures var r := ParsePairs(EncodePairs(m, ids), base);
            && (r.Ok? <==> forall i :: 0 <= i < |ids| && IsBoolean(ids[i]) && !IsGrease(ids[i]) ==> m[ids[i]] <= 1)
            && (r.Ok? ==> Gains(base, r.value, m, ids))
    decreases |ids|
  {
    if ids != [] {
      hide Parse, Encode, ParseHeader, IsGrease, IsBoolean, ParsePairs, Gains;
      var id, rest := ids[0], EncodePairs(m, ids[1..]);
      var b := EncodePairs(m, ids);
      assert b == EncodeHeader(id, m[id]) + rest;
      HeaderRoundTrip(id, m[id], rest);
      ParsePairsStep(b, base);
      assert b[|EncodeHeader(id, m[id])|..] == rest;
      var added := AddPair(base, id, m[id]);
      if added.Ok? {
        PairsDecode(m, ids[1..], added.value);
        if ParsePairs(rest, added.value).Ok? {
          GainsStep(base, added.value, ParsePairs(rest, added.value).value, m, ids);
        }
      }
      assert forall i :: 1 <= i < |ids| ==> ids[i] == ids[1..][i - 1];
    } else {
      assert Gains(base, base, m, ids);
    }
  }

  lemma GainsStep(base: Map, added: Map, r: Map, m: Map, ids: seq<VarInt>)
    requires ids != [] && ids[0] in m && ids[0] !in base
    requires added == if IsGrease(ids[0]) then base else base[ids[0] := m[ids[0]]]
    requires Gains(added, r, m, ids[1..])
    ensures Gains(base, r, m, ids)
  {
    hide IsGrease;
    assert ids == [ids[0]] + ids[1..];
  }

  lemma BooleansAreNotGrease(id: VarInt)
    requires IsBoolean(id)
    ensures !IsGrease(id)
  {
  }

  lemma {:induction false} PairsLength(m: Map, ids: seq<VarInt>)
    requires forall i :: 0 <= i < |ids| ==> ids[i] in m
    ensures |EncodePairs(m, ids)| == PayloadLen(m, ids)
    decreases |ids|
  {
    hide Encode;
    if ids != [] {
      PairsLength(m, ids[1..]);
    }
  }

  /** What a decoder can see of a map. */
  function WithoutGrease(m: Map): Map {
    map id | id in m && !IsGrease(id) :: m[id]
  }

  /**
   * For every map and every order of visiting it: what is written has exactly the computed length, and decodes
   * exactly when the boolean settings are at most one, to the map without its reserved identifiers.
   */
  lemma SettingsRoundTrip(m: Map, ids: seq<VarInt>, more: seq<byte>)
    requires IterationOrder(ids, m) && PayloadLen(m, ids) <= MAX
    ensures |EncodeSettings(m, ids)| == EncodedLen(m, ids)
    ensures DecodeSettings(EncodeSettings(m, ids) + more).Ok? <==> BooleansOk(m)
    ensures BooleansOk(m) ==> DecodeSettings(EncodeSettings(m, ids) + more) == Ok(WithoutGrease(m))
    ensures WithoutGrease(m) == m <==> NoGrease(m)
  {
    hide Parse, Encode, ParseHeader, IsGrease, ParsePairs, Gains;
    PairsLength(m, ids);
    EncodedIsFramed(m, ids, more);
    PairsDecode(m, ids, map[]);
    forall id | id in m && IsBoolean(id) ensures !IsGrease(id) {
      BooleansAreNotGrease(id);
    }
    var r := ParsePairs(EncodePairs(m, ids), map[]);
    assert r.Ok? <==> BooleansOk(m) by {
      assert forall id :: id in m <==> id in ids;
    }
    if r.Ok? {
      GainsAll(m, ids, r.value);
    }
    VisibleMap(m);
  }

  lemma VisibleMap(m: Map)
    ensures WithoutGrease(m) == m <==> NoGrease(m)
  {
    hide IsGrease;
    if WithoutGrease(m) == m {
      forall id | id in m ensures !IsGrease(id) {
        assert id in WithoutGrease(m);
      }
    }
  }

  lemma GainsAll(m: Map, ids: seq<VarInt>, r: Map)
    requires IterationOrder(ids, m) && Gains(map[], r, m, ids)
    ensures r == WithoutGrease(m)
  {
    hide IsGrease;
    forall id: VarInt ensures Get(r, id) == Get(WithoutGrease(m), id) {
      assert Get(r, id) == if id in ids && !IsGrease(id) then Get(m, id) else Get(map[], id);
    }
    SameMap(r, WithoutGrease(m));
  }

  lemma SameMap(r: Map, m: Map)
    requires forall id: VarInt :: Get(r, id) == Get(m, id)
    ensures r == m
  {
    assert forall id: VarInt :: id in r <==> Get(r, id).Some?;
    assert forall id: VarInt :: id in m <==> Get(m, id).Some?;
    forall id | id in m ensures r[id] == m[id] {
      assert Get(r, id) == Get(m, id);
    }
  }

  lemma EncodedIsFramed(m: Map, ids: seq<VarInt>, more: seq<byte>)
    requires IterationOrder(ids, m) && PayloadLen(m, ids) <= MAX
    requires |EncodePairs(m, ids)| == PayloadLen(m, ids)
    ensures DecodeSettings(EncodeSettings(m, ids) + more) == OfFrame(SETTINGS, EncodePairs(m, ids))
    ensures PayloadLen(m, ids) <= MAX_SETTINGS_FRAME_SIZE ==>
              ReadSettings(EncodeSettings(m, ids) + more) == OfFrame(SETTINGS, EncodePairs(m, ids))
  {
    assert !IsGrease(SETTINGS);
    EncodedAsFrame(m, ids, more);
    hide *;
    var pairs := EncodePairs(m, ids);
    FrameRoundTrip(SETTINGS, pairs, more, MAX_SETTINGS_FRAME_SIZE);
    ControlStream(WriteFrame(SETTINGS, pairs) + more, SETTINGS, pairs);
  }

  lemma EncodedAsFrame(m: Map, ids: seq<VarInt>, more: seq<byte>)
    requires IterationOrder(ids, m) && PayloadLen(m, ids) <= MAX
    requires |EncodePairs(m, ids)| == PayloadLen(m, ids)
    ensures EncodeSettings(m, ids) + more == Encode(CONTROL) + (WriteFrame(SETTINGS, EncodePairs(m, ids)) + more)
  {
    hide Encode, EncodePairs, IterationOrder, PayloadLen, EncodeHeader;
  }

  /** The settings on a control stream are those of its first frame. */
  lemma ControlStream(frame: seq<byte>, typ: VarInt, payload: seq<byte>)
    ensures (exists n :: ReadFrame(frame) == Some(Frame(typ, payload, n))) ==>
              DecodeSettings(Encode(CONTROL) + frame) == OfFrame(typ, payload)
    ensures (exists n :: ReadBounded(frame, MAX_SETTINGS_FRAME_SIZE) == Ok(Frame(typ, payload, n))) ==>
              ReadSettings(Encode(CONTROL) + frame) == OfFrame(typ, payload)
  {
    hide Parse, Encode, ReadFrame, ReadBounded, OfFrame;
    RoundTrip(CONTROL, frame);
    assert (Encode(CONTROL) + frame)[Size(CONTROL)..] == frame;
  }

  // ------------------------------------------------------- which payloads are accepted

  type Pair = (VarInt, VarInt)

  /** The pairs of a payload, in order, and whether they take up all of it. */
  function PairsOf(b: seq<byte>): (seq<Pair>, bool)
    decreases |b|
  {
    if b == [] then ([], true)
    else if ParseHeader(b).None? then ([], false)
    else
      var pair := ParseHeader(b).value;
      var (more, whole) := PairsOf(b[pair.len..]);
      ([(pair.typ, pair.length)] + more, whole)
  }

  /** No other pair before this one, and none of the settings so far, has the identifier of pair i. */
  predicate IsNew(ps: seq<Pair>, i: nat, m: Map)
    requires i < |ps|
  {
    ps[i].0 !in m && forall j :: 0 <= j < i ==> ps[j].0 != ps[i].0
  }

  /** Flags that say whether something is supported: extended CONNECT, datagrams and WebTransport, old and new. */
  predicate IsFlag(id: VarInt) {
    id == 0x8 || id == 0x33 || id == 0xFFD277 || id == 0x2b603742 || id == 0x2c7cf000
  }

  /** A reserved identifier, or a new one whose value is allowed. */
  predicate PairOk(ps: seq<Pair>, i: nat, m: Map)
    requires i < |ps|
  {
    IsGrease(ps[i].0) || (IsNew(ps, i, m) && (IsFlag(ps[i].0) ==> ps[i].1 <= 1))
  }

  predicate FirstBad(ps: seq<Pair>, i: nat, m: Map) {
    i < |ps| && !PairOk(ps, i, m) && forall j :: 0 <= j < i ==> PairOk(ps, j, m)
  }

  /** Some pair makes this setting. */
  predicate Sets(ps: seq<Pair>, id: VarInt, value: VarInt) {
    (id, value) in ps && !IsGrease(id)
  }

  /** The settings after a first pair that is accepted. */
  function With(m: Map, p: Pair): Map {
    if IsGrease(p.0) then m else m[p.0 := p.1]
  }

  lemma NewStep(ps: seq<Pair>, i: nat, m: Map)
    requires i + 1 < |ps| && !IsGrease(ps[i + 1].0)
    ensures var n := With(m, ps[0]);
            ps[1..][i] == ps[i + 1] && (IsNew(ps[1..], i, n) <==> IsNew(ps, i + 1, m))
  {
    hide IsGrease;
    var rest := ps[1..];
    var n := With(m, ps[0]);
    if IsNew(rest, i, n) {
      forall j | 0 <= j < i + 1 ensures ps[j].0 != ps[i + 1].0 {
        assert j > 0 ==> rest[j - 1] == ps[j];
      }
    }
    if IsNew(ps, i + 1, m) {
      assert ps[0].0 != ps[i + 1].0;
      forall j | 0 <= j < i ensures rest[j].0 != rest[i].0 {
        assert rest[j] == ps[j + 1];
      }
    }
  }

  lemma PairOkStep(ps: seq<Pair>, i: nat, m: Map)
    requires i + 1 < |ps|
    ensures var n := With(m, ps[0]);
            PairOk(ps[1..], i, n) <==> PairOk(ps, i + 1, m)
  {
    if !IsGrease(ps[i + 1].0) {
      NewStep(ps, i, m);
    }
    hide IsGrease, IsNew, IsFlag;
  }

  lemma PairsStep(b: seq<byte>, m: Map)
    requires PairsOf(b).0 != []
    ensures var ps, pair := PairsOf(b).0, ParseHeader(b);
            && b != [] && pair.Some? && ps[0] == (pair.value.typ, pair.value.length)
            && PairsOf(b[pair.value.len..]) == (ps[1..], PairsOf(b).1)
            && ParsePairs(b, m) ==
                 var r := AddPair(m, ps[0].0, ps[0].1);
                 if r.Err? then r else ParsePairs(b[pair.value.len..], r.value)
  {
    ParsePairsStep(b, m);
    hide ParseHeader, AddPair, ParsePairs;
  }

  lemma NoMorePairs(b: seq<byte>, m: Map)
    requires PairsOf(b).0 == []
    ensures ParsePairs(b, m) == if PairsOf(b).1 then Ok(m) else Err(InvalidSize)
  {
    hide ParseHeader;
  }

  /** The settings in r are those in m and those that the pairs make. */
  predicate Gathers(r: Map, m: Map, ps: seq<Pair>) {
    forall id, value: VarInt :: Get(r, id) == Some(value) <==> Get(m, id) == Some(value) || Sets(ps, id, value)
  }

  lemma GathersStep(r: Map, m: Map, ps: seq<Pair>)
    requires ps != [] && PairOk(ps, 0, m) && Gathers(r, With(m, ps[0]), ps[1..])
    ensures Gathers(r, m, ps)
  {
    forall id, value: VarInt
      ensures Get(r, id) == Some(value) <==> Get(m, id) == Some(value) || Sets(ps, id, value)
    {
      SetsStep(ps, m, id, value);
    }
  }

  lemma SetsStep(ps: seq<Pair>, m: Map, id: VarInt, value: VarInt)
    requires ps != [] && PairOk(ps, 0, m)
    ensures Get(With(m, ps[0]), id) == Some(value) || Sets(ps[1..], id, value) <==>
            Get(m, id) == Some(value) || Sets(ps, id, value)
  {
    hide IsGrease, IsFlag;
    assert ps == [ps[0]] + ps[1..];
  }

  predicate AllOk(ps: seq<Pair>, m: Map) {
    forall i :: 0 <= i < |ps| ==> PairOk(ps, i, m)
  }

  lemma AllOkStep(ps: seq<Pair>, m: Map)
    requires ps != [] && AllOk(ps, m)
    ensures PairOk(ps, 0, m) && AllOk(ps[1..], With(m, ps[0]))
  {
    hide PairOk, With;
    forall i | 0 <= i < |ps[1..]| ensures PairOk(ps[1..], i, With(m, ps[0])) {
      PairOkStep(ps, i, m);
    }
  }

  /** Pairs that all are accepted are all there is. */
  lemma {:induction false} GoodPairs(b: seq<byte>, m: Map)
    requires AllOk(PairsOf(b).0, m)
    ensures var r := ParsePairs(b, m);
            && (if PairsOf(b).1 then r.Ok? else r == Err(InvalidSize))
            && (r.Ok? ==> Gathers(r.value, m, PairsOf(b).0))
    decreases |b|
  {
    hide PairsOf, ParsePairs, AllOk, ParseHeader, Gathers, With;
    var ps := PairsOf(b).0;
    if ps == [] {
      NoMorePairs(b, m);
      NothingGathers(m);
    } else {
      PairsStep(b, m);
      AllOkStep(ps, m);
      GoodFirst(ps, m);
      var n := With(m, ps[0]);
      hide AddPair, PairOk;
      GoodPairs(b[ParseHeader(b).value.len..], n);
      if PairsOf(b).1 {
        GathersStep(ParsePairs(b, m).value, m, ps);
      }
    }
  }

  lemma NothingGathers(m: Map)
    ensures Gathers(m, m, [])
  {
  }

  lemma GoodFirst(ps: seq<Pair>, m: Map)
    requires ps != [] && PairOk(ps, 0, m)
    ensures AddPair(m, ps[0].0, ps[0].1) == Ok(With(m, ps[0]))
  {
    hide IsGrease;
  }

  /** What is reported about pair i. */
  function Complaint(ps: seq<Pair>, i: nat, m: Map): (e: SettingsError)
    requires i < |ps|
    ensures e != InvalidSize
  {
    if IsNew(ps, i, m) then InvalidValue(ps[i].0, ps[i].1) else DuplicateSetting(ps[i].0)
  }

  lemma {:induction false} BadPair(b: seq<byte>, m: Map, i: nat)
    requires FirstBad(PairsOf(b).0, i, m)
    ensures ParsePairs(b, m) == Err(Complaint(PairsOf(b).0, i, m))
    decreases |b|
  {
    hide *;
    var ps := PairsOf(b).0;
    BadIsPair(ps, i, m);
    PairsStep(b, m);
    if i == 0 {
      BadFirst(ps, m);
    } else {
      BadStep(ps, i - 1, m);
      GoodFirst(ps, m);
      var rest := b[ParseHeader(b).value.len..];
      BadPair(rest, With(m, ps[0]), i - 1);
    }
  }

  lemma BadIsPair(ps: seq<Pair>, i: nat, m: Map)
    requires FirstBad(ps, i, m)
    ensures ps != [] && i < |ps|
  {
  }

  lemma BadFirst(ps: seq<Pair>, m: Map)
    requires FirstBad(ps, 0, m)
    ensures AddPair(m, ps[0].0, ps[0].1) == Err(Complaint(ps, 0, m))
  {
    hide IsGrease;
  }

  lemma BadStep(ps: seq<Pair>, i: nat, m: Map)
    requires FirstBad(ps, i + 1, m)
    ensures PairOk(ps, 0, m) && i < |ps[1..]|
    ensures FirstBad(ps[1..], i, With(m, ps[0]))
    ensures Complaint(ps[1..], i, With(m, ps[0])) == Complaint(ps, i + 1, m)
  {
    assert PairOk(ps, 0, m) && !PairOk(ps, i + 1, m);
    NotReserved(ps, i + 1, m);
    NewStep(ps, i, m);
    hide PairOk, With, IsNew, IsGrease;
    forall j | 0 <= j <= i ensures PairOk(ps[1..], j, With(m, ps[0])) <==> PairOk(ps, j + 1, m) {
      PairOkStep(ps, j, m);
    }
  }

  lemma NotReserved(ps: seq<Pair>, i: nat, m: Map)
    requires i < |ps| && !PairOk(ps, i, m)
    ensures !IsGrease(ps[i].0)
  {
    hide IsGrease;
  }

  /**
   * Every payload: it is accepted exactly when it consists of whole pairs, no identifier but a reserved one occurs
   * twice and no flag is above one; the settings are then just those pairs. The first pair that is not accepted is
   * reported, a repeated identifier as such, whatever follows.
   */
  lemma PayloadExactly(b: seq<byte>)
    ensures var (ps, whole) := PairsOf(b);
            var r := ParsePairs(b, map[]);
            && (r.Ok? <==> whole && AllOk(ps, map[]))
            && (r.Ok? ==> Gathers(r.value, map[], ps))
            && (r == Err(InvalidSize) <==> !whole && AllOk(ps, map[]))
            && forall i: nat :: FirstBad(ps, i, map[]) ==> r == Err(Complaint(ps, i, map[]))
  {
    var (ps, whole) := PairsOf(b);
    hide ParsePairs, PairsOf, PairOk, Gathers, Complaint;
    if AllOk(ps, map[]) {
      GoodPairs(b, map[]);
    } else {
      var k := FirstBadOf(ps, map[]);
      BadPair(b, map[], k);
    }
    forall i: nat | FirstBad(ps, i, map[])
      ensures ParsePairs(b, map[]) == Err(Complaint(ps, i, map[]))
    {
      BadPair(b, map[], i);
    }
  }

  lemma FirstBadOf(ps: seq<Pair>, m: Map) returns (k: nat)
    requires !AllOk(ps, m)
    ensures FirstBad(ps, k, m)
  {
    hide PairOk;
    k := 0;
    while PairOk(ps, k, m)
      invariant k < |ps| && forall j :: 0 <= j < k ==> PairOk(ps, j, m)
      decreases |ps| - k
    {
      k := k + 1;
    }
  }

  // ------------------------------------------------------- whatever is received

  /** A setting that was read is never replaced: a second occurrence is an error. */
  lemma {:induction false} SettingsAreNotReplaced(b: seq<byte>, m: Map)
    ensures ParsePairs(b, m).Ok? ==> forall id :: id in m ==> Get(ParsePairs(b, m).value, id) == Some(m[id])
    decreases |b|
  {
    hide ParseHeader, IsGrease;
    if b != [] {
      ParsePairsStep(b, m);
      hide ParsePairs;
      if ParseHeader(b).Some? {
        var pair := ParseHeader(b).value;
        var added := AddPair(m, pair.typ, pair.length);
        if added.Ok? {
          SettingsAreNotReplaced(b[pair.len..], added.value);
        }
      }
    }
  }

  lemma {:induction false} PairsAreClean(b: seq<byte>, m: Map)
    requires NoGrease(m) && BooleansOk(m)
    ensures ParsePairs(b, m).Ok? ==> NoGrease(ParsePairs(b, m).value) && BooleansOk(ParsePairs(b, m).value)
    decreases |b|
  {
    hide ParseHeader, IsGrease;
    if b != [] {
      ParsePairsStep(b, m);
      hide ParsePairs;
      if ParseHeader(b).Some? {
        var pair := ParseHeader(b).value;
        var added := AddPair(m, pair.typ, pair.length);
        if added.Ok? {
          PairsAreClean(b[pair.len..], added.value);
        }
      }
    }
  }

  /** Settings that were decoded from any bytes at all survive encoding in every order. */
  lemma DecodedSettingsAreStable(b: seq<byte>, ids: seq<VarInt>, more: seq<byte>)
    requires DecodeSettings(b).Ok?
    requires IterationOrder(ids, DecodeSettings(b).value) && PayloadLen(DecodeSettings(b).value, ids) <= MAX
    ensures DecodeSettings(EncodeSettings(DecodeSettings(b).value, ids) + more) == DecodeSettings(b)
  {
    hide Parse, ReadFrame, ParsePairs, IterationOrder, PayloadLen, EncodeSettings, IsGrease;
    var m := DecodeSettings(b).value;
    PairsAreClean(ReadFrame(b[Parse(b).value.len..]).value.payload, map[]);
    hide DecodeSettings;
    SettingsRoundTrip(m, ids, more);
  }

  // ------------------------------------------------------- negotiation

  /**
   * What a client accepts of a server is what a server accepts of a client, plus extended CONNECT in the current
   * draft.
   */
  lemma ServerImpliesClient(m: Map)
    ensures SupportsServer(m) <==>
              SupportsClient(m) && (Get(m, WT_ENABLED) == Some(1) ==> Get(m, ENABLE_CONNECT_PROTOCOL) == Some(1))
  {
  }

  /** Datagrams are on, by the current setting or, only without it, by the old one. */
  predicate Datagrams(m: Map) {
    if 0x33 in m then m[0x33] == 1 else 0xFFD277 in m && m[0xFFD277] == 1
  }

  /** How many sessions drafts before the current one announce: by one setting, or a flag and perhaps another. */
  function OldSessions(m: Map): nat {
    if 0xc671706a in m then m[0xc671706a]
    else if !(0x2b603742 in m && m[0x2b603742] == 1) then 0
    else if 0x2b603743 in m then m[0x2b603743]
    else 1
  }

  /**
   * For every map of settings: one that has the current draft's setting is judged by it alone; any other supports
   * WebTransport exactly when it has datagrams and announces at least one session.
   */
  lemma SupportsExactly(m: Map)
    ensures 0x2c7cf000 in m ==>
              && (SupportsClient(m) <==> m[0x2c7cf000] == 1 && Get(m, 0x33) == Some(1))
              && (SupportsServer(m) <==> m[0x2c7cf000] == 1 && Get(m, 0x33) == Some(1) && Get(m, 0x8) == Some(1))
    ensures 0x2c7cf000 !in m ==>
              && SupportsWebTransport(m) == (if Datagrams(m) then OldSessions(m) else 0)
              && (SupportsClient(m) <==> SupportsServer(m))
              && (SupportsClient(m) <==> Datagrams(m) && OldSessions(m) > 0)
  {
  }

  const CHROME: Map := map[1 := 65536, 6 := 16384, 7 := 100, 51 := 1, 16765559 := 1, 727725890 := 1]

  lemma ChromeAnswers()
    ensures SupportsClient(CHROME) && SupportsServer(CHROME) && SupportsWebTransport(CHROME) == 1
    ensures BooleansOk(CHROME) && NoGrease(CHROME) && 4445614305 !in CHROME && IsGrease(4445614305)
  {
    assert forall id :: id in CHROME ==> id in {1, 6, 7, 51, 16765559, 727725890};
  }

  /** What version 114 of Chrome sends, with any value under its reserved identifier, supports one session. */
  lemma ChromeIsSupported(grease: VarInt, ids: seq<VarInt>, more: seq<byte>)
    requires IterationOrder(ids, CHROME[4445614305 := grease]) && PayloadLen(CHROME[4445614305 := grease], ids) <= MAX
    ensures DecodeSettings(EncodeSettings(CHROME[4445614305 := grease], ids) + more) == Ok(CHROME)
    ensures SupportsClient(CHROME) && SupportsServer(CHROME) && SupportsWebTransport(CHROME) == 1
  {
    ChromeAnswers();
    ReservedIsDropped(CHROME, 4445614305, grease);
    hide *;
    SettingsRoundTrip(CHROME[4445614305 := grease], ids, more);
  }

  lemma ReservedIsDropped(m: Map, id: VarInt, value: VarInt)
    requires NoGrease(m) && BooleansOk(m) && IsGrease(id)
    ensures WithoutGrease(m[id := value]) == m && BooleansOk(m[id := value])
  {
    if IsBoolean(id) {
      BooleansAreNotGrease(id);
    }
    hide IsGrease, IsBoolean;
  }

  /**
   * Enabling WebTransport on any settings at all, for any number of sessions, with or without the old parameters,
   * and encoding in any order: the peer decodes the settings without their reserved identifiers; those pass both
   * checks and announce that number of sessions, in the old parameters too if they were asked for.
   */
  lemma EnabledIsAccepted(base: Map, maxSessions: u32, includeDeprecated: bool,
                          m: Map, ids: seq<VarInt>, more: seq<byte>)
    requires forall id: VarInt :: Get(m, id) == EnabledValue(base, maxSessions, includeDeprecated, id)
    requires IterationOrder(ids, m) && PayloadLen(m, ids) <= MAX
    ensures DecodeSettings(EncodeSettings(m, ids) + more) == Ok(WithoutGrease(m))
    ensures var r := WithoutGrease(m);
            && SupportsServer(r) && SupportsClient(r) && SupportsWebTransport(r) == 1
            && Get(r, 0xc671706a) == Some(maxSessions)
            && Get(r, 0x2b603743) == (if includeDeprecated then Some(maxSessions) else None)
            && Get(r, 0x2b603742) == (if includeDeprecated then Some(1) else None)
  {
    hide IterationOrder, PayloadLen, EncodeSettings, DecodeSettings, IsGrease;
    EnabledIdsAreNotGrease();
    assert Get(m, WEBTRANSPORT_MAX_SESSIONS) == Some(maxSessions);
    assert Get(m, WEBTRANSPORT_MAX_SESSIONS_DEPRECATED) == if includeDeprecated then Some(maxSessions) else None;
    assert Get(m, WEBTRANSPORT_ENABLE_DEPRECATED) == if includeDeprecated then Some(1) else None;
    forall id | id in m && IsBoolean(id) ensures m[id] <= 1 {
      assert Get(m, id) == EnabledValue(base, maxSessions, includeDeprecated, id);
    }
    SettingsRoundTrip(m, ids, more);
    assert Get(m, WT_ENABLED) == Some(1);
    assert Get(m, ENABLE_DATAGRAM) == Some(1);
    assert Get(m, ENABLE_CONNECT_PROTOCOL) == Some(1);
  }

  lemma EnabledIdsAreNotGrease()
    ensures !IsGrease(ENABLE_CONNECT_PROTOCOL) && !IsGrease(ENABLE_DATAGRAM) && !IsGrease(ENABLE_DATAGRAM_DEPRECATED)
    ensures !IsGrease(WT_ENABLED) && !IsGrease(WEBTRANSPORT_MAX_SESSIONS)
    ensures !IsGrease(WEBTRANSPORT_MAX_SESSIONS_DEPRECATED) && !IsGrease(WEBTRANSPORT_ENABLE_DEPRECATED)
  {
  }
}
