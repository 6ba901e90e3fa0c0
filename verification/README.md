# WebTransport over HTTP/3: the wire protocol and the session and stream machines

This project models what two WebTransport endpoints put on the wire and how a session keeps its state, and
proves that the two sides understand each other whatever the bytes, the framing or the interleaving.

- `Bytes`, `Bits`, `Utf8`, `Collections`: byte strings, buffers and streams, bit strings, UTF-8 text, orders of maps.
- `VarInts`, `Frames`, `StreamFrames`: integers and frames of QUIC and HTTP/3, from buffers and from streams.
- `Huffman`, `HuffmanTable`, `HuffmanCode`, `HuffmanTableProof`, `HuffmanTheorems`, `HuffmanTree`, `HuffmanPadding`: the
  Huffman string decoder with its lookup tables and its moving bit window. The code is Appendix B of RFC 7541, written
  out independently of the tables; the tables are proved to implement it.
- `PrefixInts`, `StaticTable`, `Fields`, `Qpack`, `QpackForms`, `QpackTheorems`, `QpackCodec`: QPACK field sections.
- `Capsules`, `ConnectStream`, `SessionClose`, `SessionEnds`, `CloseRequests`, `CloseNotify`: capsules reassembled from
  the CONNECT stream, the close exchange on it, and the waiters that are told about it.
- `SendStreams`, `RecvStreams`: the browser streams, which must not lose, repeat or reorder bytes when calls are
  cancelled.
- `Acceptors`: accepting and demultiplexing streams and datagrams.
- `Settings`, `Connect`, `ErrorCodes`: settings negotiation, CONNECT responses, the mapping of error codes.

Each operation is a function of bytes or states, and a method in the form of the code is proved against it: readers
consume a `Buf`, writers fill a `BufMut`, stream and session objects are classes whose methods update their fields.
A peer's stream is the bytes it sends before it ends. What the environment decides (the answer of a browser promise,
which stream becomes ready, which branch of a `select!` wins, the order in which a hash map is visited) is a
parameter or a nondeterministic choice, and the theorems hold for every value of it.

Where the code differs from its documentation or from the standard it implements, the model follows the code:

- The end-of-input rule of the Huffman decoder accepts padding that section 5.2 of RFC 7541 forbids: up to 37 ones,
  and other bits once a lookup has completed over them. `HuffmanPadding.LenientExactly` says exactly which inputs are
  accepted beyond the RFC, and `HuffmanPadding.LenientPadding` names one.
- A comment gives 1,044 bytes as the bound of a partial capsule; the bound is 1,043 (`ConnectStream.PartialIsShort`,
  `ConnectStream.PartialBoundIsTight`).
- The checked shift in the prefix integer decoder checks the distance only; `PrefixInts.ExactlyTheMeaning` says exactly
  when the result is right, and `PrefixInts.LostBits` gives an input for which it is not.
- Flushing or finishing a browser stream reports success although accepted bytes were lost when a write had failed
  before or a reset hit one (`SendStreams.DeliveredExactly`, `SendStreams.SuccessAfterFailure`).
- A close request cuts its reason at byte 1024 before the reason is cut at a character, so a four-byte character at
  byte 1021 is sent as a replacement character (`CloseRequests.LongestUnlessCutSplits`, `CloseRequests.SplitEmoji`).
- Without datagrams, or with too little room for the header, 0 is announced as the size of data that fits, although
  empty data does not fit either (`Acceptors.DatagramFitsExactly`).
- A close capsule too short for its code is an `UnexpectedEnd`, which counts as a graceful end of the stream instead of
  an error (`SessionEnds.ClosureExactly`).
- The length of a HEADERS frame is cast to 32 bits (`Connect.HeadersFrameExactly`).

The machine is a 64-bit one: `usize` values are below 2^64.

## Model

| member | source | states |
|---|---|---|
| `HuffmanTableProof.TableImplementsCode` | `webtrans-proto/src/huffman.rs:214-332` | the 89 nested lookup tables implement the code of Appendix B of RFC 7541 node for node: every entry holds the symbol or subtree its path spells, all 256 symbols are reachable, and the only node without entries lies behind EOS |
| `Huffman.ReadBits` | `webtrans-proto/src/huffman.rs:119-137` | a window of 1 to 8 bits that fits the input is read with the value those bits spell, across byte boundaries and for offsets of more than a byte; anything else is refused |
| `Huffman.CheckEof` | `webtrans-proto/src/huffman.rs:60-86` | a lookup that does not fit ends the string exactly when all bits not covered by a completed lookup are ones; the arm for an earlier byte is never reached |
| `Huffman.FetchValue` | `webtrans-proto/src/huffman.rs:88-93` | either the value of the window, or the end-of-input decision |
| `Huffman.DecodeNext` | `webtrans-proto/src/huffman.rs:95-113` | one descent through the subtrees consumes exactly the bits of its completed lookups and reports the symbol, the end, or the error with the right window |
| `Huffman.DecodeIter.Next` | `webtrans-proto/src/huffman.rs:339-349` | one item of the iterator is one descent from where the last one stopped, with the window of an error; once the end was met it keeps reporting the end |
| `Huffman.DecodeAll` | `webtrans-proto/src/qpack.rs:416-420` | draining the iterator yields the decoded string exactly on a clean stop, and otherwise the error with its position, width and value |
| `HuffmanTree.LookupsRefineWalk` | `webtrans-proto/src/huffman.rs:95-113` | on every input and for every table, multi-bit lookups give what a walk of the flattened binary tree, one bit at a time, gives |
| `HuffmanTree.DecodeIsWalk` | `webtrans-proto/src/huffman.rs:95-113` | the decoder of the repository is the walk of its flattened tree, on every input |
| `HuffmanTheorems.CodewordDecodes` | `webtrans-proto/src/huffman.rs:214-332` | a codeword followed by any bits decodes to its symbol and is consumed exactly |
| `HuffmanTheorems.DecodedIsCodeword` | `webtrans-proto/src/huffman.rs:95-113` | whenever a symbol is produced, the bits consumed are its codeword |
| `HuffmanTheorems.CodePrefixFree` | `webtrans-proto/src/huffman.rs:214-332` | no codeword is a prefix of another |
| `HuffmanPadding.EndExactly` | `webtrans-proto/src/huffman.rs:60-113` | for every table and all bits: a descent ends the string if and only if it runs out of bits within a lookup and the bits outside its finished lookups, fewer than that lookup wants, are all ones |
| `HuffmanPadding.CleanExactly` | `webtrans-proto/src/huffman.rs:60-113` | decoding stops cleanly with s if and only if the bits are the codewords of s followed by a tail that starts with no codeword, does not go eight bits beyond EOS, and has only ones outside finished lookups |
| `HuffmanTheorems.TailHoldsNoCodeword` | `webtrans-proto/src/huffman.rs:60-86` | bits from which no symbol comes start with no codeword |
| `HuffmanPadding.RfcPaddingIsAccepted` | `webtrans-proto/src/huffman.rs:60-86` | every padding that section 5.2 of RFC 7541 allows is accepted |
| `HuffmanPadding.ShortTailsExactly` | `webtrans-proto/src/huffman.rs:60-86` | tails of at most seven bits by their bits alone: fewer than five are accepted if they are ones, five if their value is at least 10, six if they start with at least 23 and end in a one, seven if they start with 11111 |
| `HuffmanPadding.LenientExactly` | `webtrans-proto/src/huffman.rs:60-113` | for every byte string: it decodes cleanly to s without being the RFC encoding of s if and only if its tail is unfinished, has ones behind the finished lookups, and is longer than seven bits or has a zero within those lookups |
| `HuffmanTheorems.UnhandledExactly` | `webtrans-proto/src/huffman.rs:104-107` | `Unhandled` arises if and only if thirty ones (EOS) and at least eight more bits follow the codewords of the output |
| `HuffmanTheorems.OnesPadding` | `webtrans-proto/src/huffman.rs:60-86` | padding with k ones is accepted if and only if k < 38, whichever subtree it ends in |
| `HuffmanPadding.LenientPadding` | `webtrans-proto/src/huffman.rs:60-86` | the two bytes FF 8A, the codeword of "|" and then 01010, decode cleanly although their padding is forbidden |
| `HuffmanTheorems.HuffmanRoundTrip` | `webtrans-proto/src/huffman.rs:339-349` | every byte string, packed into codewords and padded with at most seven ones, decodes to itself and stops cleanly |
| `VarInts.Decode` | `webtrans-proto/src/varint.rs:132-166` | decoding in place gives the integer below 2^62 that the front of the buffer spells and leaves the rest |
| `VarInts.Read` | `webtrans-proto/src/varint.rs:169-191` | reading from a stream gives the same integer and consumes the same bytes |
| `VarInts.Put` | `webtrans-proto/src/varint.rs:194-207` | appends the encoding |
| `VarInts.RoundTrip` | `webtrans-proto/src/varint.rs:132-207` | decoding an encoding followed by anything gives the value and leaves the suffix |
| `VarInts.Shortest` | `webtrans-proto/src/varint.rs:54-66` | the encoding is the shortest of all that decode to the value |
| `VarInts.PrefixFree` | `webtrans-proto/src/varint.rs:132-166` | no proper prefix of an encoding decodes |
| `VarInts.EncodeInjective` | `webtrans-proto/src/varint.rs:194-207` | encodings followed by anything determine the value and what follows |
| `Frames.Read` | `webtrans-proto/src/frame.rs:30-51` | GREASE frames are skipped in a loop; the first other frame is returned with exactly its payload |
| `Frames.HeaderRoundTrip` | `webtrans-proto/src/frame.rs:19-35` | a written frame header is read back whatever follows it |
| `Frames.GreaseExactly` | `webtrans-proto/src/grease.rs:7-9` | the reserved values are exactly 0x1f * n + 0x21 for n from 0 on |
| `StreamFrames.BoundedRefines` | `webtrans-proto/src/settings.rs:200-229` | a stream yields a frame if and only if a buffer yields it and no frame up to it announces more than the bound |
| `StreamFrames.FrameLocal` | `webtrans-proto/src/frame.rs:30-51` | the bytes a frame was read from, with anything behind them, give the same frame |
| `StreamFrames.GreaseIsSkipped` | `webtrans-proto/src/frame.rs:30-51` | any number of GREASE frames from any sender is skipped by both readers; the stream's refuses oversized ones too |
| `StreamFrames.FirstFrameIsRead` | `webtrans-proto/src/settings.rs:200-229` | the first other frame, with its header in any encoding and whatever follows, is read if it is within the bound and else refused |
| `StreamFrames.CutFrameFails` | `webtrans-proto/src/settings.rs:200-229` | a part of a frame is no frame; the stream's reader tells an end in the header, an end in the payload and too long a frame apart |
| `Capsules.Decode` | `webtrans-proto/src/capsule.rs:40-85` | decodes one capsule in place with the error cases in the order of the wire |
| `Capsules.EncodeTo` | `webtrans-proto/src/capsule.rs:114-157` | appends the encoding, or refuses an oversized capsule and writes nothing |
| `Capsules.Read` | `webtrans-proto/src/capsule.rs:88-111` | reads one capsule from a stream through the re-encoded header |
| `Capsules.ReadRefinesDecode` | `webtrans-proto/src/capsule.rs:88-111` | a stream yields a capsule exactly when the buffer decoder does, and the same one |
| `Capsules.RoundTripExactly` | `webtrans-proto/src/capsule.rs:40-157` | an encodable capsule survives decoding, in front of any bytes, if and only if it is canonical |
| `Capsules.DecodeEncodeDecode` | `webtrans-proto/src/capsule.rs:40-157` | whatever decodes can be encoded again in at most as many bytes, and decodes to the same capsule |
| `Capsules.DecodeLocal` | `webtrans-proto/src/capsule.rs:40-85` | a successful decode consumes exactly the header and the declared length, and does not depend on what follows |
| `Capsules.CapsuleExactly` | `webtrans-proto/src/capsule.rs:40-111` | any sender's capsule, from a buffer and from a stream alike: more than 1028 bytes are refused, a close needs a four-byte code and then UTF-8 text, every other type is kept as it is |
| `Capsules.CutCapsule` | `webtrans-proto/src/capsule.rs:40-111` | a capsule cut off within its header or its payload fails, with the error of a buffer or of a stream |
| `ConnectStream.DecodeBufferedCapsule` | `webtrans-quion/src/session.rs:292-314` | cuts one capsule off the buffer, or leaves the buffer alone |
| `ConnectStream.DecodeBufferedStable` | `webtrans-quion/src/session.rs:292-314` | an answer other than "more input" on a prefix is the same on every extension |
| `ConnectStream.ReadCapsuleFrame` | `webtrans-quion/src/session.rs:254-290` | one call of the frame reader; the buffer never holds more than 1043 + 2048 bytes |
| `ConnectStream.PartialIsShort` | `webtrans-quion/src/session.rs:284-287` | when more input is needed at most 1043 bytes are buffered, whatever lengths the peer declares |
| `ConnectStream.PartialBoundIsTight` | `webtrans-quion/src/session.rs:284-287` | 1043 bytes can be buffered and incomplete |
| `ConnectStream.ReassemblyIsParsing` | `webtrans-quion/src/session.rs:254-314` | on every byte stream, reading capsule by capsule gives what parsing the joined DATA payloads at once gives, then the stream's own defect |
| `ConnectStream.FragmentationInvariance` | `webtrans-quion/src/session.rs:254-314` | however capsule bytes are cut into DATA frames, with empty, GREASE or other frames in between, the capsules and the first error are those of the joined bytes |
| `SessionClose.FramedCapsulesArrive` | `webtrans-quion/src/session.rs:254-330` | capsules sent in any framing arrive complete, in order and with nothing added |
| `SessionClose.CapsuleReason` | `webtrans-quion/src/session.rs:332-338` | drops characters from the end of the lossily decoded reason until it fits |
| `SessionClose.ReasonIsLongestPrefix` | `webtrans-quion/src/session.rs:332-338` | the result is the longest whole-character prefix of at most 1024 bytes of the lossily decoded reason |
| `SessionClose.ReasonIsIdempotent` | `webtrans-quion/src/session.rs:332-338` | preparing a reason twice changes nothing, and a text that fits is kept |
| `SessionClose.WriteCapsuleFrame` | `webtrans-quion/src/session.rs:316-330` | writes one DATA frame with the encoded capsule, or nothing when encoding refuses it |
| `SessionClose.CloseTravelsIntact` | `webtrans-quion/src/session.rs:254-338` | for every code and reason bytes the close capsule can be encoded, and the peer's reader returns exactly that code and reason |
| `SessionClose.RunClosed` | `webtrans-quion/src/session.rs:212-252` | without a local close, the result is the closure of the stream (`SessionEnds.ClosureExactly` says which that is); with one, it is the local code and reason, and at most that capsule's frame was written |
| `SessionEnds.EveryStreamSplits` | `webtrans-quion/src/session.rs:254-314` | every byte string is a list of whole frames of the allowed size and a tail, and their data is a list of whole unknown capsules and a rest |
| `SessionEnds.ClosureExactly` | `webtrans-quion/src/session.rs:212-314` | for every byte string: an oversized capsule or frame fails the session with `MessageTooLong`, a close whose reason is not UTF-8 with `InvalidUtf8`, whichever comes first; a close with a whole code closes it with that code and reason; everything else, also a close without a whole code, just ends it |
| `SessionEnds.FailsExactly` | `webtrans-quion/src/session.rs:212-314` | the session fails if and only if an oversized frame, an oversized capsule or invalid UTF-8 comes first |
| `SessionEnds.EndedWhereverCut` | `webtrans-quion/src/session.rs:40-60` | capsules that are not closes, in any framing, cut off anywhere between or within frames: the session just ended |
| `SessionEnds.CloseArrivesOrEnds` | `webtrans-quion/src/session.rs:236-246` | a written close frame closes the peer's session with the code and reason whatever follows; any proper part of it just ends the session |
| `SessionClose.UnknownCapsulesAreIgnored` | `webtrans-quion/src/session.rs:225-227` | unknown capsules do not influence how the session closes |
| `CloseRequests.Session.Close` | `webtrans-quion/src/session.rs:512-535` | queues one request with the prepared reason, keeps an earlier one, and closes the connection itself when nobody listens or the session is raw |
| `CloseRequests.RequestTravels` | `webtrans-quion/src/session.rs:520-526` | the peer reads exactly the code and the queued reason |
| `CloseRequests.LongestUnlessCutSplits` | `webtrans-quion/src/session.rs:520` | for all reason bytes: the queued reason is the longest whole-character prefix of at most 1024 bytes of the decoded reason, unless the cut falls into a four-byte character at byte 1021 with nothing grown in front of it; then a replacement character is sent in its place |
| `CloseRequests.TextCutSplits` | `webtrans-quion/src/session.rs:520` | for UTF-8 text that is the case if and only if it is longer than 1024 bytes and byte 1021 starts a four-byte character |
| `CloseRequests.SplitEmoji` | `webtrans-quion/src/session.rs:520` | 1021 letters and an emoji: the emoji arrives as a replacement character |
| `CloseNotify.InvariantAlways` | `webtrans-quion/src/session.rs:153-206` | in every run a stored error and a closed connection stay as they are, and what parked waiters saw is older than the notification |
| `CloseNotify.ErrorIsNeverOverwritten` | `webtrans-quion/src/session.rs:197-202` | no later event replaces a stored error |
| `CloseNotify.NoLostWakeup` | `webtrans-quion/src/session.rs:538-557` | whoever waits when the background task is done returns within three steps of its own, under every interleaving, and with the stored error unless it had returned before |
| `CloseNotify.TaskFinishes` | `webtrans-quion/src/session.rs:153-206` | after the CONNECT stream has ended the background task needs at most five steps, under every interleaving |
| `CloseNotify.StoredErrorFollowsResult` | `webtrans-quion/src/session.rs:157-203` | in every run in which the CONNECT stream ends while the background task listens, the error stored at its end is that of the close capsule if there was one, and otherwise the reason of the connection |
| `CloseNotify.ClosedWithCode` | `webtrans-quion/src/session.rs:157-193` | in every run in which the CONNECT stream ends while the connection is open and nothing else closes it, the connection is closed with the capsule's code, with 1 after a capsule error and with 0 after a plain end |
| `CloseNotify.ClosedConnectionKeepsCause` | `webtrans-quion/src/session.rs:164-193` | a connection that was closed before keeps its cause |
| `CloseNotify.ReturnedErrorIsReal` | `webtrans-quion/src/session.rs:551-557` | every error a waiter returns is the stored one or the connection's own reason |
| `PrefixInts.DecodePrefix` | `webtrans-proto/src/qpack.rs:330-375` | decodes a prefix integer in place, with every error case |
| `PrefixInts.PutPrefix` | `webtrans-proto/src/qpack.rs:377-400` | appends the encoding |
| `PrefixInts.RoundTrip` | `webtrans-proto/src/qpack.rs:330-400` | for every prefix size, flags, 64-bit value and suffix: the flags that fit, the value, and the suffix left alone |
| `PrefixInts.ExactlyTheMeaning` | `webtrans-proto/src/qpack.rs:349-374` | the decoder gives the mathematical value of section 5.1 of RFC 7541 if and only if that fits 64 bits and takes at most ten continuation bytes; an accepted value is right if and only if the tenth continuation byte, if there is one, carries at most one |
| `PrefixInts.LostBits` | `webtrans-proto/src/qpack.rs:360-362` | the shift at distance 63 does lose bits: 255 + 2^64 is read as 255 |
| `PrefixInts.AtMostElevenContinuationBytes` | `webtrans-proto/src/qpack.rs:351-372` | no input makes the loop look at more than eleven continuation bytes |
| `StaticTable.Lookup` | `webtrans-proto/src/qpack.rs:443-466` | one pass finds the first entry with the name and the first with name and value |
| `StaticTable.FirstExactIsFirst` | `webtrans-proto/src/qpack.rs:443-466` | an exact index refers to an entry equal to the field, and none is missed or later than necessary |
| `StaticTable.FirstNameIsFirst` | `webtrans-proto/src/qpack.rs:443-466` | a name index refers to an entry with that name, the first one, and none is missed |
| `Fields.TrailersExactly` | `webtrans-proto/src/qpack.rs:294-296` | the comparison after trimming holds if and only if the value is the word "trailers" in any case between Unicode white space |
| `Fields.WhiteExactly` | `webtrans-proto/src/qpack.rs:294` | what is trimmed are exactly the 25 characters with the property White_Space, by code point |
| `Fields.ValidateExactly` | `webtrans-proto/src/qpack.rs:276-320` | every field passes if and only if its name is a lower-case token or a colon and one, its value has no control characters but tabs (non-ASCII text may occur), the name is none of the five that belong to one connection, and "te" has the value "trailers" in any case between white space; a bad name is reported before a bad value and both before a connection-specific field |
| `QpackCodec.DecodeString` | `webtrans-proto/src/qpack.rs:402-423` | decodes a plain or Huffman string literal in place |
| `QpackCodec.DecodeLine` | `webtrans-proto/src/qpack.rs:76-114` | dispatches on the first byte and decodes one field line |
| `QpackCodec.Headers.Decode` | `webtrans-proto/src/qpack.rs:64-134` | decodes a whole section, with pseudo-header order and uniqueness enforced |
| `QpackCodec.PutLine` | `webtrans-proto/src/qpack.rs:213-273` | writes one field by index, by name index or spelled out |
| `QpackCodec.Headers.Encode` | `webtrans-proto/src/qpack.rs:204-223` | writes the section for any order in which the hash map is visited |
| `QpackTheorems.EveryRepresentationIsKnown` | `webtrans-proto/src/qpack.rs:86-114` | the arm for an unknown representation is never reached |
| `QpackForms.StringRoundTrip` | `webtrans-proto/src/qpack.rs:402-423` | a string literal is read back whether it is plain or Huffman-coded |
| `QpackForms.LineReads` | `webtrans-proto/src/qpack.rs:147-202` | a field in any form (by index, by name, spelled out, each string plain or Huffman-coded, with or without the never-index bit) is read back and nothing more is consumed |
| `QpackTheorems.LineRoundTrip` | `webtrans-proto/src/qpack.rs:147-273` | what the encoder writes for a field is read back and nothing more is consumed |
| `QpackTheorems.EncoderUsesEntry` | `webtrans-proto/src/qpack.rs:213-223` | the encoder writes a field that is in the static table by the index of its first entry |
| `QpackTheorems.EncoderUsesName` | `webtrans-proto/src/qpack.rs:213-223` | otherwise by the index of the first entry with its name and its value in plain |
| `QpackTheorems.EncoderSpellsOut` | `webtrans-proto/src/qpack.rs:213-223` | and spells out only names that the table does not have |
| `QpackTheorems.PseudoFirstIsStableSort` | `webtrans-proto/src/qpack.rs:210-211` | sorting moves pseudo-header fields to the front, keeps all entries and each group's order |
| `QpackTheorems.LinesExactly` | `webtrans-proto/src/qpack.rs:73-133` | on every byte string lines decode if and only if each parses, every field is permitted (in the sense of `Fields.ValidateExactly`), pseudo-header fields come first and none repeats; the last value of a repeated name wins |
| `QpackTheorems.HeadersExactly` | `webtrans-proto/src/qpack.rs:64-134` | the same for every whole section, which must not refer to the dynamic table |
| `QpackTheorems.AnyEncoderIsUnderstood` | `webtrans-proto/src/qpack.rs:64-134` | a section from any encoder, in any mixture of forms, decodes if and only if its fields are permitted and in place, and then to them; otherwise the first field that is not decides the error |
| `QpackTheorems.FirstProblemIsReported` | `webtrans-proto/src/qpack.rs:116-130` | when all lines parse, the first field that is not permitted, comes too late or repeats a pseudo-header name decides the error, and which of these it is |
| `QpackTheorems.RefusedLines` | `webtrans-proto/src/qpack.rs:84-114` | a line refers to the dynamic table exactly by its first byte, and a static index is unknown exactly from 99 on |
| `QpackTheorems.DynamicSections` | `webtrans-proto/src/qpack.rs:67-71` | a section whose leading integers refer to the dynamic table is refused as such |
| `QpackTheorems.HeadersRoundTrip` | `webtrans-proto/src/qpack.rs:64-223` | for every map and every visiting order the encoding decodes if and only if all fields are valid, and then to the map itself |
| `QpackTheorems.Normalisation` | `webtrans-proto/src/qpack.rs:64-134` | every section that decodes, whatever representations it uses, has valid fields, and encoding them in any order decodes to the same fields |
| `QpackTheorems.DecodedFieldsStayOnTheirLine` | `webtrans-proto/src/qpack.rs:64-134` | in every section that decodes, names are lower-case tokens, values have no CR, LF or NUL, and connection-specific names do not occur |
| `QpackTheorems.ShortSectionsAreAddressable` | `webtrans-proto/src/qpack.rs:402-423` | no section below half a gigabyte has a Huffman string too long for the decoder positions |
| `SendStreams.SendStream.PollInflightWrite` | `webtrans-wasm/src/send.rs:136-148` | the poll of the write in flight moves bytes from its chunk to the sink and gives the writer back when it ends |
| `SendStreams.SendStream.PollWrite` | `webtrans-wasm/src/send.rs:160-207` | its whole effect and result, for every state, buffer and answer of the browser |
| `SendStreams.SendStream.PollFlush` | `webtrans-wasm/src/send.rs:209-218` | its whole effect and result |
| `SendStreams.SendStream.PollClose` | `webtrans-wasm/src/send.rs:220-239` | its whole effect and result |
| `SendStreams.SendStream.Finish` | `webtrans-wasm/src/send.rs:79-88` | refuses and changes nothing while a write is in flight |
| `SendStreams.SendStream.Reset` | `webtrans-wasm/src/send.rs:62-73` | drops the write in flight and aborts the sink |
| `SendStreams.SendStream.Drop` | `webtrans-wasm/src/send.rs:122-133` | aborts with a write in flight, else closes |
| `SendStreams.ExactlyOnceInOrder` | `webtrans-wasm/src/send.rs:136-240` | over every run: sink ++ rest of the chunk in flight == everything accepted, until a write fails or a reset hits one; a prefix of it afterwards |
| `SendStreams.DeliveredExactly` | `webtrans-wasm/src/send.rs:79-88` | a successful flush, close or finish means that everything accepted was delivered if and only if no write failed and no reset hit a write in flight; otherwise a run with the same calls and results lost accepted bytes |
| `SendStreams.SuccessAfterFailure` | `webtrans-wasm/src/send.rs:79-88` | the write of one byte fails; then flush and finish both succeed although it was lost |
| `SendStreams.NeverUnavailable` | `webtrans-wasm/src/send.rs:184-206` | the "writer is unavailable" poll branches and the unreachable branch are never taken |
| `SendStreams.AcceptedIsOwnPrefix` | `webtrans-wasm/src/send.rs:190-203` | a write accepts the front of its own buffer, at most 64 KiB and never nothing of a non-empty one, also after a cancelled call |
| `SendStreams.FinishedMeansDelivered` | `webtrans-wasm/src/send.rs:79-88` | in every run a stream the browser finished holds everything accepted, and finish refuses and changes nothing while a write is in flight |
| `SendStreams.EndExactly` | `webtrans-wasm/src/send.rs:62-240` | over every run: the browser's stream is errored if and only if a write failed, otherwise aborted if and only if it was reset, otherwise finished if and only if a close or finish succeeded, and otherwise open |
| `SendStreams.ReportsExactly` | `webtrans-wasm/src/send.rs:79-239` | the result of every call on a reachable stream, by how the stream ended and what the write in flight does |
| `SendStreams.DropNeverTruncatesSilently` | `webtrans-wasm/src/send.rs:122-133` | in every run a dropped stream never stays open: it is aborted with a write in flight, and otherwise finished unless it had ended; finished only if everything accepted was delivered |
| `RecvStreams.RecvStream.PollInflightRead` | `webtrans-wasm/src/recv.rs:118-130` | the poll of the read in flight, with its whole effect |
| `RecvStreams.RecvStream.PollChunk` | `webtrans-wasm/src/recv.rs:142-184` | the bounded loop, with its whole effect for every sequence of answers |
| `RecvStreams.RecvStream.PollRead` | `webtrans-wasm/src/recv.rs:188-202` | copies what one poll returns into the front of the caller's array and leaves the rest |
| `RecvStreams.RecvStream.Stop` | `webtrans-wasm/src/recv.rs:74-86` | drops the buffer and the read in flight and aborts the source |
| `RecvStreams.LossFree` | `webtrans-wasm/src/recv.rs:118-203` | over every run: returned ++ buffer == what the source handed over, until a stop; a prefix of it afterwards; the source was aborted if and only if a stop came |
| `RecvStreams.BufferIsNeverOverwritten` | `webtrans-wasm/src/recv.rs:147-180` | a read is in flight only while the buffer is empty; an idle stream without a reader is at its end |
| `RecvStreams.EndIsPermanent` | `webtrans-wasm/src/recv.rs:152-178` | after the end, an error or a stop, every later poll reports the end and returns no bytes |
| `RecvStreams.PolledFits` | `webtrans-wasm/src/recv.rs:143-151` | a data result has 1 to max bytes, and none exactly when max is 0 |
| `RecvStreams.NeverUnavailable` | `webtrans-wasm/src/recv.rs:155-159` | the "reader is unavailable" poll branch is never taken |
| `RecvStreams.SelfWake` | `webtrans-wasm/src/recv.rs:142-184` | in every run a poll wakes its own task if and only if it asked for data, found an empty buffer and an open stream, and met fifteen empty chunks and a sixteenth of any size |
| `RecvStreams.ReportsExactly` | `webtrans-wasm/src/recv.rs:142-184` | what every poll of a reachable stream reports: buffered bytes first, then the end once closed; otherwise the first answer among sixteen that is not an empty chunk decides: the error if and only if the read failed, the end if and only if the source ended, pending if and only if it is, a chunk as its front if another round is left |
| `Acceptors.DecodeUni` | `webtrans-quion/src/session.rs:741-763` | reads the type and, for WebTransport streams, checks the session ID |
| `Acceptors.DecodeBi` | `webtrans-quion/src/session.rs:804-826` | reads the frame type and, for WebTransport streams, checks the session ID |
| `Acceptors.SessionAccept.PollAcceptUni` | `webtrans-quion/src/session.rs:694-738` | its whole effect on pending streams and QPACK slots for every sequence of events |
| `Acceptors.SessionAccept.PollAcceptBi` | `webtrans-quion/src/session.rs:766-801` | its whole effect on pending streams for every sequence of events |
| `Acceptors.ExactlyOnePlace` | `webtrans-quion/src/session.rs:691-827` | in every reachable state the number of places a stream is in (pending, delivered, kept, replaced, ignored, failed) is the number of times it arrived, and each place is the one its preface asks for |
| `Acceptors.DeliveredExactly` | `webtrans-quion/src/session.rs:741-826` | a stream is delivered if and only if its first two integers are the stream type and this session's ID, and then from right behind them |
| `Acceptors.PollExactly` | `webtrans-quion/src/session.rs:694-801` | for every poll: it returns exactly the first pending stream whose preface is the stream type and this session's ID, positioned right behind it, and the error exactly when the connection is lost first; a stream is delivered if and only if it is returned |
| `Acceptors.DeliveredAreReturned` | `webtrans-quion/src/session.rs:694-801` | over every run the delivered streams are those that the polls returned, in that order |
| `Acceptors.OtherTypes` | `webtrans-quion/src/session.rs:721-736` | streams of other types, however the type is encoded: the encoder and decoder streams are kept in their own slots, all others ignored |
| `Acceptors.Demultiplexed` | `webtrans-quion/src/session.rs:116-126` | a stream opened with the cached preface of session i goes to the acceptor of session j if and only if i == j, positioned after the preface |
| `Acceptors.NoCrossDelivery` | `webtrans-quion/src/session.rs:691-827` | over every run a stream of another session is never returned to the application, and one of this session is pending or was returned as often as it arrived |
| `Acceptors.ReadDatagram` | `webtrans-quion/src/session.rs:454-476` | checks and strips the session ID |
| `Acceptors.DatagramRoundTrip` | `webtrans-quion/src/session.rs:454-497` | a datagram sent on session i is received on session j if and only if i == j, with its data intact |
| `Acceptors.DatagramFitsExactly` | `webtrans-quion/src/session.rs:501-504` | data fits a datagram of the connection exactly up to the announced size if and only if the connection takes datagrams with room for the header; otherwise 0 is announced and not even empty data fits |
| `Settings.SettingsMap.Decode` | `webtrans-proto/src/settings.rs:151-188` | decodes the control stream prefix and the pairs, with every error case |
| `Settings.SettingsMap.Read` | `webtrans-proto/src/settings.rs:191-230` | reads from a stream through the re-encoded frame and takes exactly the stream type and the frames up to SETTINGS |
| `Settings.SettingsMap.EncodeTo` | `webtrans-proto/src/settings.rs:233-246` | writes the settings for any order in which the hash map is visited |
| `Settings.SettingsMap.EnableInternal` | `webtrans-proto/src/settings.rs:266-283` | the value of every setting afterwards |
| `Settings.ReadRefinesDecode` | `webtrans-proto/src/settings.rs:151-230` | the stream reader succeeds if and only if the buffer decoder does and no frame up to the first that is not GREASE exceeds 16 KiB, with the same map |
| `Settings.ConsumedBytesDecode` | `webtrans-proto/src/settings.rs:191-230` | decoding just the bytes that `Settings::read` takes off the stream gives the same map |
| `Settings.SettingsRoundTrip` | `webtrans-proto/src/settings.rs:151-246` | for every map and order the encoding has the computed length, and decodes if and only if the boolean settings are at most one, to the map without its GREASE keys; that is the map itself if and only if it has none |
| `Settings.SettingsAreNotReplaced` | `webtrans-proto/src/settings.rs:169-171` | a repeated setting never replaces the first |
| `Settings.PayloadExactly` | `webtrans-proto/src/settings.rs:161-185` | every payload: it is accepted if and only if it consists of whole pairs, no identifier but a reserved one occurs twice and no flag is above one, and then the settings are just those pairs; otherwise the first bad pair is reported, a repeated identifier as `DuplicateSetting` |
| `Settings.FirstFrameCounts` | `webtrans-proto/src/settings.rs:151-230` | after GREASE frames from any sender, the stream type and the type of the first other frame are checked and its pairs count; the stream reader refuses frames above 16 KiB |
| `Settings.CutControlStream` | `webtrans-proto/src/settings.rs:151-230` | a control stream that ends within a frame, with the error of a buffer and of a stream |
| `Settings.DecodedSettingsAreStable` | `webtrans-proto/src/settings.rs:151-246` | settings decoded from any bytes survive encoding in every order |
| `Settings.EnabledIsAccepted` | `webtrans-proto/src/settings.rs:266-355` | whatever the settings were before, for every session limit, with or without old parameters and in any order, the peer decodes the settings without GREASE keys, they pass both the check of a client and of a server, and they announce that limit, in the old parameters too if and only if these were asked for |
| `Settings.ServerImpliesClient` | `webtrans-proto/src/settings.rs:339-355` | a server's settings pass if and only if they would pass as a client's and, in the current draft, offer extended CONNECT |
| `Settings.SupportsExactly` | `webtrans-proto/src/settings.rs:287-355` | for all settings: those with the current draft's flag are judged by it alone; others pass if and only if datagrams are on and an older draft's settings announce at least one session, and that number is returned |
| `Settings.ChromeIsSupported` | `webtrans-proto/src/settings.rs:297-304` | the settings of Chrome 114, encoded in any order and with any value under the reserved identifier, are decoded and support one session |
| `Connect.ReadFrameFrom` | `webtrans-proto/src/connect.rs:252-281` | reads one frame of at most 64 KiB, takes exactly the frames up to it off the stream, and writes its header again in shortest form |
| `Connect.Decode` | `webtrans-proto/src/connect.rs:200-219` | decodes a response, with every error case |
| `Connect.EncodeHeadersFrame` | `webtrans-proto/src/connect.rs:242-250` | writes the fields in a HEADERS frame whose length is cast to 32 bits |
| `Connect.ReadFrameRefines` | `webtrans-proto/src/connect.rs:252-281` | `read_frame` succeeds if and only if the buffer parser finds a frame and no frame up to it exceeds 64 KiB; the bytes it returns parse to the same type and payload |
| `Connect.ReadRefinesDecode` | `webtrans-proto/src/connect.rs:222-281` | the stream reader succeeds if and only if the buffer decoder does and no frame up to the first that is not GREASE exceeds 64 KiB, with the same response |
| `Connect.HeadersFrameExactly` | `webtrans-proto/src/connect.rs:242-250` | the frame carries its payload if and only if that is shorter than 4 GiB |
| `Connect.HeadersFrameRoundTrip` | `webtrans-proto/src/connect.rs:242-250` | any valid fields whose section is below 4 GiB, in any order, are read back from their HEADERS frame |
| `Connect.StatusExactly` | `webtrans-proto/src/connect.rs:209-215` | a text is read as a status if and only if it is that status's three digits |
| `Connect.ResponseExactly` | `webtrans-proto/src/connect.rs:200-219` | a section from any encoder is a response if and only if its fields are acceptable, ":status" is its only pseudo-header field and the value is a status; each failure has its own error |
| `Connect.FirstFrameCounts` | `webtrans-proto/src/connect.rs:200-281` | after GREASE frames from any sender, the first other frame has to be of type HEADERS and its section decides; the stream reader refuses frames above 64 KiB |
| `Connect.CutResponse` | `webtrans-proto/src/connect.rs:200-281` | a stream that ends within a frame, with the error of a buffer and of a stream |
| `Connect.ResponseRoundTrip` | `webtrans-proto/src/connect.rs:200-232` | every three-digit status survives, in any order of the two fields and whatever follows |
| `ErrorCodes.MapsIntoWindow` | `webtrans-proto/src/error.rs:20-22` | every 32-bit code maps into the window and past the reserved codes, the ends of the range to the ends of the window |
| `ErrorCodes.StrictlyIncreasing` | `webtrans-proto/src/error.rs:20-22` | the map keeps the order |
| `ErrorCodes.RoundTrip` | `webtrans-proto/src/error.rs:8-22` | mapping back undoes the map |
| `ErrorCodes.AnswersExactlyInWindow` | `webtrans-proto/src/error.rs:9-11` | mapping back answers if and only if the code lies in the window |
| `ErrorCodes.ImageIsUnreservedWindow` | `webtrans-proto/src/error.rs:4-22` | the images of the 32-bit codes are exactly the codes of the window that are not reserved |
| `ErrorCodes.NeverTruncates` | `webtrans-proto/src/error.rs:13-16` | the cast to 32 bits loses nothing |
| `ErrorCodes.ReservedReadsAsNext` | `webtrans-proto/src/error.rs:8-17` | on the whole window mapping back never decreases, and two codes are read alike if and only if the first is reserved and the second is the next |

## Left out

- Huffman.DecodeAll: positions in the bit window are 32-bit numbers, so the payload is required to satisfy 8 * length + 8 < 2^32; how the additions behave beyond that is not modelled. The QPACK decoding methods ask the same of the Huffman strings they get to, and of nothing else.
- QpackTheorems.Normalisation: inputs are below 2^61 bytes, so that decoded strings have 64-bit lengths.
- PrefixInts.DecodePrefix: a prefix of size 0 is excluded, because the source shifts a byte by 8 for it; no caller uses it.
- Settings.SettingsMap.EncodeTo: a payload of 2^62 bytes or more is excluded, because the source panics on it.
- SessionClose.RunClosed: a local close may be cut off by its five-second deadline at any point of the write; the wait for the peer's acknowledgement has no effect in the model.
- CloseNotify.NoLostWakeup: a closed connection is assumed to report a reason, and the runtime to run each task again after it was woken. The monitor of raw QUIC sessions, which stores one error and notifies, is not modelled.
- SendStreams.ExactlyOnceInOrder: the browser's own queue behind a write is not modelled; a reset stops the sink at the bytes it had taken, and a stream that fails with no write in flight is noticed at the next write.
- Acceptors.ExactlyOnePlace: only safety; when several tasks poll one acceptor only one of them is woken, so nothing is said about progress.
- Connect.Decode: only responses; building and parsing request URLs rests on a URL library. Which of several invalid pseudo-headers an error names depends on the hash map and is not modelled.
- Capsules.Read and the other stream readers: I/O errors are one value; which of them count as a graceful close by their message text is not modelled.
- Which of two racing local closes sets the final QUIC close code: the source does not fix it.
- The Quinn session: it repeats the capsule, accept and preface code modelled here.
- QUIC, TLS, certificates, DNS, sockets, timeouts, tracing and task scheduling: a stream is a byte sequence, a connection an open or closed flag.
- JavaScript promises and DOM code: the browser is a FIFO source or sink whose operations stay pending, succeed or fail.
- The partial-write loops of the trait crate, the handshake admission counter, builders, display text and `Debug` output: they have no state or encoding of their own.
