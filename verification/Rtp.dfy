/** RTP headers and packets as bytes (section 5.1 of RFC 3550). */
module Rtp {
  import opened Arith
  import opened Bytes

  const VERSION := 2
  const MIN_HEADER := 12

  datatype Header = Header(version: Byte, padding: bool, extension: bool, csrcCount: Byte, marker: bool,
                           payloadType: Byte, sequenceNumber: Word16, timestamp: Word32, ssrc: Word32,
                           csrc: seq<Word32>, profile: Word16, extData: seq<Byte>)

  datatype Packet = Packet(header: Header, payload: seq<Byte>)

  datatype Error = BufferTooSmall | InvalidVersion | CsrcTooShort

  datatype Result<T> = Ok(value: T) | Err(error: Error) | Panic

  /** Headers whose fields fit the places the format gives them. */
  ghost predicate WellFormed(h: Header) {
    && h.version == VERSION && h.csrcCount == |h.csrc| <= 15 && h.payloadType < 128
    && (if h.extension then |h.extData| % 4 == 0 && |h.extData| / 4 < 0x1_0000 else h.profile == 0 && h.extData == [])
  }

  function Size(h: Header): nat {
    MIN_HEADER + h.csrcCount * 4 + if h.extension then 4 + |h.extData| else 0
  }

  // ----- the layout -----

  function Bit(b: bool): int {
    if b then 1 else 0
  }

  function FirstByte(h: Header): Byte {
    h.version % 4 * 64 + Bit(h.padding) * 32 + Bit(h.extension) * 16 + h.csrcCount % 16
  }

  function SecondByte(h: Header): Byte {
    Bit(h.marker) * 128 + h.payloadType % 128
  }

  function Fixed(h: Header): (b: seq<Byte>)
    ensures |b| == MIN_HEADER
  {
    [FirstByte(h), SecondByte(h)] + Be16(h.sequenceNumber) + Be32(h.timestamp) + Be32(h.ssrc)
  }

  function Words(ws: seq<Word32>): (b: seq<Byte>)
    ensures |b| == 4 * |ws|
  {
    if ws == [] then [] else Words(ws[..|ws| - 1]) + Be32(ws[|ws| - 1])
  }

  function ExtBytes(h: Header): (b: seq<Byte>)
    ensures |b| == if h.extension then 4 + |h.extData| else 0
  {
    if h.extension then Be16(h.profile) + Be16(|h.extData| / 4) + h.extData else []
  }

  function HeaderBytes(h: Header): (b: seq<Byte>)
    requires |h.csrc| == h.csrcCount
    ensures |b| == Size(h)
  {
    Fixed(h) + Words(h.csrc) + ExtBytes(h)
  }

  function PacketBytes(p: Packet): seq<Byte>
    requires |p.header.csrc| == p.header.csrcCount
  {
    HeaderBytes(p.header) + p.payload
  }

  /** How far the encoder writes at least, whatever the count field says. */
  function Reach(h: Header): nat {
    MIN_HEADER + 4 * |h.csrc| + if h.extension then 4 else 0
  }

  function ExtHead(h: Header): (b: seq<Byte>)
    ensures |b| == 4
  {
    Be16(h.profile) + Be16(|h.extData| / 4)
  }

  /** What the encoder writes: every listed source, then the extension, its data cut to the room there is. */
  function Front(h: Header, room: nat): (b: seq<Byte>)
    requires Reach(h) <= room
    ensures |b| <= room
  {
    Fixed(h) + Words(h.csrc)
    + if h.extension then ExtHead(h) + h.extData[..Min(|h.extData|, room - Reach(h))] else []
  }

  /** A buffer after the encoder has written to it. */
  function Overlay(h: Header, was: seq<Byte>): (b: seq<Byte>)
    requires Reach(h) <= |was|
    ensures |b| == |was|
  {
    Front(h, |was|) + was[|Front(h, |was|)|..]
  }

  lemma OverlayOfCounted(h: Header, was: seq<Byte>)
    requires |h.csrc| == h.csrcCount && Size(h) <= |was|
    ensures Reach(h) <= |was| && Overlay(h, was) == HeaderBytes(h) + was[Size(h)..]
  {
    if h.extension {
      assert h.extData[..|h.extData|] == h.extData;
    }
    assert Front(h, |was|) == HeaderBytes(h);
  }

  /** A packet as the encoder renders it: the count field decides where the payload starts. */
  function EncodedPacket(p: Packet): Result<seq<Byte>> {
    var room := Size(p.header) + |p.payload|;
    if room < Reach(p.header) then Panic
    else Ok(Overlay(p.header, Zeros(room))[..Size(p.header)] + p.payload)
  }

  lemma EncodedOfCounted(p: Packet)
    requires |p.header.csrc| == p.header.csrcCount
    ensures EncodedPacket(p) == Ok(PacketBytes(p))
  {
    hide HeaderBytes, Overlay;
    OverlayOfCounted(p.header, Zeros(Size(p.header) + |p.payload|));
  }

  // ----- reading -----

  function ReadWords(b: seq<Byte>, offset: nat, n: nat): (ws: seq<Word32>)
    requires offset + 4 * n <= |b|
    ensures |ws| == n
  {
    seq(n, i requires 0 <= i < n => U32(b, offset + 4 * i))
  }

  function FixedFields(b: seq<Byte>): Header
    requires |b| >= MIN_HEADER
  {
    Header(b[0] / 64 % 4, b[0] / 32 % 2 != 0, b[0] / 16 % 2 != 0, b[0] % 16, b[1] / 128 % 2 != 0, b[1] % 128,
           U16(b, 2), U32(b, 4), U32(b, 8), [], 0, [])
  }

  /** The extension is read as far as the buffer holds it: profile and length first, data if complete. */
  function WithExtension(h: Header, b: seq<Byte>, offset: nat): Header {
    if h.extension && offset + 4 <= |b| then
      var words: int := U16(b, offset + 2);
      var withProfile := h.(profile := U16(b, offset));
      if offset + 4 + words * 4 <= |b| then withProfile.(extData := b[offset + 4..offset + 4 + words * 4])
      else withProfile
    else h
  }

  function ParseHeader(b: seq<Byte>): Result<Header> {
    if |b| < MIN_HEADER then Err(BufferTooSmall)
    else
      var h := FixedFields(b);
      if h.version != VERSION then Err(InvalidVersion)
      else if |b| < MIN_HEADER + h.csrcCount * 4 then Err(CsrcTooShort)
      else
        var offset := MIN_HEADER + h.csrcCount * 4;
        Ok(WithExtension(h.(csrc := ReadWords(b, MIN_HEADER, h.csrcCount)), b, offset))
  }

  function ParsePacket(b: seq<Byte>): Result<Packet> {
    match ParseHeader(b)
    case Err(e) => Err(e)
    case Panic => Panic
    case Ok(h) => if Size(h) <= |b| then Ok(Packet(h, b[Size(h)..])) else Panic
  }

  // ----- the programs -----

  method EncodeFixed(h: Header, buf: array<Byte>)
    requires buf.Length >= MIN_HEADER
    modifies buf
    ensures buf[..] == Fixed(h) + old(buf[MIN_HEADER..])
  {
    buf[0] := h.version % 4 * 64 + Bit(h.padding) * 32 + Bit(h.extension) * 16 + h.csrcCount % 16;
    buf[1] := Bit(h.marker) * 128 + h.payloadType % 128;
    PutUint16(buf, 2, h.sequenceNumber);
    PutUint32(buf, 4, h.timestamp);
    PutUint32(buf, 8, h.ssrc);
  }

  lemma NoWords(ws: seq<Word32>)
    requires ws == []
    ensures Words(ws) == []
  {
  }

  lemma WordsStep(ws: seq<Word32>, i: nat)
    requires i < |ws|
    ensures Words(ws[..i + 1]) == Words(ws[..i]) + Be32(ws[i])
  {
    hide Be32;
    assert ws[..i + 1][..i] == ws[..i];
  }

  method EncodeCsrc(h: Header, buf: array<Byte>) returns (offset: nat, panicked: bool)
    requires MIN_HEADER <= buf.Length
    modifies buf
    ensures panicked <==> MIN_HEADER + 4 * |h.csrc| > buf.Length
    ensures !panicked ==> offset == MIN_HEADER + 4 * |h.csrc|
                          && buf[..] == old(buf[..MIN_HEADER]) + Words(h.csrc) + old(buf[offset..])
  {
    hide Be32, Words;
    offset := 12;
    ghost var was := buf[..];
    NoWords(h.csrc[..0]);
    for i := 0 to |h.csrc|
      invariant offset == MIN_HEADER + 4 * i <= buf.Length
      invariant buf[..] == was[..MIN_HEADER] + Words(h.csrc[..i]) + was[offset..]
    {
      if offset + 4 > buf.Length {
        return offset, true;
      }
      WordsStep(h.csrc, i);
      TwoWrites(was, MIN_HEADER, Words(h.csrc[..i]), Be32(h.csrc[i]));
      PutUint32(buf, offset, h.csrc[i]);
      offset := offset + 4;
    }
    assert h.csrc[..|h.csrc|] == h.csrc;
    panicked := false;
  }

  method EncodeExtension(h: Header, buf: array<Byte>, offset: nat) returns (panicked: bool)
    requires h.extension && offset <= buf.Length
    modifies buf
    ensures panicked <==> offset + 4 > buf.Length
    ensures !panicked ==>
              var n := Min(|h.extData|, buf.Length - offset - 4);
              buf[..] == old(buf[..offset]) + (ExtHead(h) + h.extData[..n]) + old(buf[offset + 4 + n..])
  {
    hide Be16;
    if offset + 4 > buf.Length {
      return true;
    }
    ghost var was := buf[..];
    var words := |h.extData| / 4;
    PutUint16(buf, offset, h.profile);
    TwoWrites(was, offset, Be16(h.profile), Be16(words));
    PutUint16(buf, offset + 2, words);
    var data := h.extData[..Min(|h.extData|, buf.Length - offset - 4)];
    TwoWrites(was, offset, ExtHead(h), data);
    Copy(buf, offset + 4, data);
    panicked := false;
  }

  /** The two parts of the header, written one after the other. */
  lemma OverlayInParts(h: Header, was: seq<Byte>, before: seq<Byte>, after: seq<Byte>)
    requires Reach(h) <= |was|
    requires var at := MIN_HEADER + 4 * |h.csrc|; before == Fixed(h) + Words(h.csrc) + was[at..]
    requires var at, n := MIN_HEADER + 4 * |h.csrc|, Min(|h.extData|, |was| - Reach(h));
             var ext := ExtHead(h) + h.extData[..n];
             after == if h.extension then before[..at] + ext + before[at + 4 + n..] else before
    ensures after == Overlay(h, was)
  {
    hide Fixed, Words, ExtHead;
    var at, n := MIN_HEADER + 4 * |h.csrc|, Min(|h.extData|, |was| - Reach(h));
    if h.extension {
      assert before[..at] == Fixed(h) + Words(h.csrc);
      assert before[at + 4 + n..] == was[at + 4 + n..];
    }
  }

  lemma LeadInParts(h: Header, was: seq<Byte>, mid: seq<Byte>, before: seq<Byte>)
    requires MIN_HEADER + 4 * |h.csrc| <= |was| == |mid| && mid == Fixed(h) + was[MIN_HEADER..]
    requires var at := MIN_HEADER + 4 * |h.csrc|; before == mid[..MIN_HEADER] + Words(h.csrc) + mid[at..]
    ensures var at := MIN_HEADER + 4 * |h.csrc|; before == Fixed(h) + Words(h.csrc) + was[at..]
  {
    hide Fixed, Words;
    var at := MIN_HEADER + 4 * |h.csrc|;
    assert mid[..MIN_HEADER] == Fixed(h) && mid[at..] == was[at..];
  }

  /** On a panic the buffer is left half written. */
  method EncodeHeader(h: Header, buf: array<Byte>) returns (r: Result<nat>)
    modifies buf
    ensures buf.Length < Size(h) ==> r == Err(BufferTooSmall)
    ensures buf.Length >= Size(h) ==> r == if buf.Length < Reach(h) then Panic else Ok(Size(h))
    ensures r.Err? ==> buf[..] == old(buf[..])
    ensures r.Ok? ==> buf[..] == Overlay(h, old(buf[..]))
    ensures |h.csrc| == h.csrcCount && r.Ok? ==> buf[..] == HeaderBytes(h) + old(buf[Size(h)..])
    ensures |h.csrc| == h.csrcCount ==> !r.Panic?
  {
    hide Be32, Overlay, ExtHead;
    if buf.Length < Size(h) {
      return Err(BufferTooSmall);
    }
    hide Fixed, Words, HeaderBytes;
    ghost var was := buf[..];
    EncodeFixed(h, buf);
    ghost var mid := buf[..];
    var offset, panicked := EncodeCsrc(h, buf);
    if panicked {
      return Panic;
    }
    ghost var before := buf[..];
    LeadInParts(h, was, mid, before);
    if h.extension {
      panicked := EncodeExtension(h, buf, offset);
      if panicked {
        return Panic;
      }
    }
    OverlayInParts(h, was, before, buf[..]);
    if |h.csrc| == h.csrcCount {
      OverlayOfCounted(h, was);
    }
    r := Ok(Size(h));
  }

  method DecodeHeader(buf: seq<Byte>) returns (r: Result<Header>)
    ensures r == ParseHeader(buf)
  {
    if |buf| < MIN_HEADER {
      return Err(BufferTooSmall);
    }
    var version := buf[0] / 64 % 4;
    if version != VERSION {
      return Err(InvalidVersion);
    }
    var h := Header(version, buf[0] / 32 % 2 != 0, buf[0] / 16 % 2 != 0, buf[0] % 16,
                    buf[1] / 128 % 2 != 0, buf[1] % 128, U16(buf, 2), U32(buf, 4), U32(buf, 8), [], 0, []);
    var headerSize := MIN_HEADER + h.csrcCount * 4;
    if |buf| < headerSize {
      return Err(CsrcTooShort);
    }
    var offset := 12;
    var csrc: seq<Word32> := [];
    for i := 0 to h.csrcCount
      invariant offset == MIN_HEADER + 4 * i
      invariant csrc == ReadWords(buf, MIN_HEADER, h.csrcCount)[..i]
    {
      csrc := csrc + [U32(buf, offset)];
      offset := offset + 4;
    }
    assert csrc == ReadWords(buf, MIN_HEADER, h.csrcCount);
    h := h.(csrc := csrc);
    if h.extension && |buf| >= offset + 4 {
      h := h.(profile := U16(buf, offset));
      var extBytes := U16(buf, offset + 2) as int * 4;
      offset := offset + 4;
      if |buf| >= offset + extBytes {
        h := h.(extData := buf[offset..offset + extBytes]);
      }
    }
    r := Ok(h);
  }

  method EncodePacket(p: Packet) returns (buf: array<Byte>, panicked: bool)
    ensures fresh(buf)
    ensures EncodedPacket(p) == if panicked then Panic else Ok(buf[..])
    ensures |p.header.csrc| == p.header.csrcCount ==> !panicked && buf[..] == PacketBytes(p)
  {
    hide Overlay, HeaderBytes;
    var size := Size(p.header);
    buf := new Byte[size + |p.payload|](i => 0);
    assert buf[..] == Zeros(size + |p.payload|);
    var headerSize := EncodeHeader(p.header, buf);
    if headerSize.Panic? {
      return buf, true;
    }
    ghost var header := buf[..];
    Copy(buf, size, p.payload);
    assert buf[..] == header[..size] + p.payload;
    if |p.header.csrc| == p.header.csrcCount {
      EncodedOfCounted(p);
    }
    panicked := false;
  }

  method DecodePacket(buf: seq<Byte>) returns (r: Result<Packet>)
    ensures r == ParsePacket(buf)
  {
    var header := DecodeHeader(buf);
    match header {
      case Err(e) => r := Err(e);
      case Panic => r := Panic;
      case Ok(h) =>
        if Size(h) > |buf| {
          r := Panic;
        } else {
          r := Ok(Packet(h, buf[Size(h)..]));
        }
    }
  }

  // ----- what is read is what was written -----

  lemma FirstByteFields(h: Header)
    requires h.version < 4 && h.csrcCount < 16
    ensures FirstByte(h) / 64 % 4 == h.version && (FirstByte(h) / 32 % 2 != 0) == h.padding
    ensures (FirstByte(h) / 16 % 2 != 0) == h.extension && FirstByte(h) % 16 == h.csrcCount
  {
    var b: int := FirstByte(h);
    var v, p, e, c := h.version as int, Bit(h.padding), Bit(h.extension), h.csrcCount as int;
    DivModUnique(b, 64, v, p * 32 + e * 16 + c);
    DivModUnique(b, 32, v * 2 + p, e * 16 + c);
    DivModUnique(b, 16, v * 4 + p * 2 + e, c);
  }

  lemma FixedIsRead(h: Header, b: seq<Byte>)
    requires h.version < 4 && h.csrcCount < 16 && h.payloadType < 128
    requires |b| >= MIN_HEADER && b[..MIN_HEADER] == Fixed(h)
    ensures FixedFields(b) == h.(csrc := [], profile := 0, extData := [])
  {
    var f := Fixed(h);
    FirstByteFields(h);
    assert b[0] == b[..MIN_HEADER][0] == f[0] && b[1] == b[..MIN_HEADER][1] == f[1];
    assert b[2..4] == f[2..4] == Be16(h.sequenceNumber);
    assert b[4..8] == f[4..8] == Be32(h.timestamp);
    assert b[8..12] == f[8..12] == Be32(h.ssrc);
    Read16(b, 2, h.sequenceNumber);
    Read32(b, 4, h.timestamp);
    Read32(b, 8, h.ssrc);
    DivModUnique(SecondByte(h), 128, Bit(h.marker), h.payloadType);
  }

  lemma {:induction false} WordsAreRead(ws: seq<Word32>, b: seq<Byte>, offset: nat, i: nat)
    requires offset + 4 * |ws| <= |b| && b[offset..offset + 4 * |ws|] == Words(ws) && i < |ws|
    ensures U32(b, offset + 4 * i) == ws[i]
    decreases |ws|
  {
    hide Words, Be32, U32;
    var n := |ws| - 1;
    SliceOfSlice(b, offset, offset + 4 * |ws|, 0, 4 * n);
    SliceOfSlice(b, offset, offset + 4 * |ws|, 4 * n, 4 * n + 4);
    WordsLast(ws, ws[..n]);
    if i < n {
      WordsAreRead(ws[..n], b, offset, i);
    } else {
      Read32(b, offset + 4 * n, ws[n]);
    }
  }

  lemma WordsLast(ws: seq<Word32>, init: seq<Word32>)
    requires ws != [] && init == ws[..|ws| - 1]
    ensures Words(ws)[0..4 * |init|] == Words(init)
    ensures Words(ws)[4 * |init|..4 * |init| + 4] == Be32(ws[|ws| - 1])
  {
    hide Be32;
    Rejoined(Words(init), Be32(ws[|ws| - 1]));
  }

  lemma ExtensionIsRead(h: Header, g: Header, b: seq<Byte>, offset: nat)
    requires WellFormed(h) && g == h.(profile := 0, extData := [])
    requires offset + |ExtBytes(h)| <= |b| && b[offset..offset + |ExtBytes(h)|] == ExtBytes(h)
    ensures WithExtension(g, b, offset) == h
  {
    if h.extension {
      var n := |ExtBytes(h)|;
      var e := ExtBytes(h);
      SliceOfSlice(b, offset, offset + n, 0, 2);
      SliceOfSlice(b, offset, offset + n, 2, 4);
      SliceOfSlice(b, offset, offset + n, 4, n);
      assert e[0..2] == Be16(h.profile) && e[2..4] == Be16(|h.extData| / 4) && e[4..n] == h.extData;
      Read16(b, offset, h.profile);
      Read16(b, offset + 2, |h.extData| / 4);
    }
  }

  /** A well-formed header comes back from its bytes, whatever follows them. */
  lemma HeaderRoundTrip(h: Header, rest: seq<Byte>)
    requires WellFormed(h)
    ensures ParseHeader(HeaderBytes(h) + rest) == Ok(h)
  {
    hide Fixed, Words, ExtBytes, FixedFields, WithExtension;
    var b := HeaderBytes(h) + rest;
    var offset := MIN_HEADER + 4 * |h.csrc|;
    assert b[..MIN_HEADER] == Fixed(h);
    FixedIsRead(h, b);
    assert b[MIN_HEADER..MIN_HEADER + 4 * |h.csrc|] == Words(h.csrc);
    forall i | 0 <= i < |h.csrc|
      ensures U32(b, MIN_HEADER + 4 * i) == h.csrc[i]
    {
      WordsAreRead(h.csrc, b, MIN_HEADER, i);
    }
    assert ReadWords(b, MIN_HEADER, h.csrcCount) == h.csrc;
    assert b[offset..offset + |ExtBytes(h)|] == ExtBytes(h);
    ExtensionIsRead(h, h.(profile := 0, extData := []), b, offset);
  }

  lemma PacketRoundTrip(p: Packet)
    requires WellFormed(p.header)
    ensures ParsePacket(PacketBytes(p)) == Ok(p)
  {
    HeaderRoundTrip(p.header, p.payload);
  }

  /** The parser makes well-formed headers of any bytes. */
  lemma ParsedIsWellFormed(b: seq<Byte>)
    requires ParseHeader(b).Ok?
    ensures WellFormed(ParseHeader(b).value)
  {
    var words: int := if MIN_HEADER + b[0] % 16 * 4 + 4 <= |b| then U16(b, MIN_HEADER + b[0] % 16 * 4 + 2) else 0;
    DivModUnique(words * 4, 4, words, 0);
  }

  /** A packet comes back from its encoding if and only if its header is well formed. */
  lemma ReturnsExactlyWhenWellFormed(p: Packet)
    ensures EncodedPacket(p).Ok? && ParsePacket(EncodedPacket(p).value) == Ok(p) <==> WellFormed(p.header)
  {
    hide ParseHeader, Overlay, HeaderBytes;
    if WellFormed(p.header) {
      EncodedOfCounted(p);
      PacketRoundTrip(p);
    } else if EncodedPacket(p).Ok? && ParsePacket(EncodedPacket(p).value) == Ok(p) {
      ParsedIsWellFormed(EncodedPacket(p).value);
    }
  }

  /** The decoder's slice goes out of range exactly for packets cut off inside the extension's own header. */
  lemma PanicsExactlyWhenCut(b: seq<Byte>)
    ensures ParsePacket(b) == Panic
       <==> (|b| >= MIN_HEADER && b[0] / 64 % 4 == VERSION && b[0] / 16 % 2 != 0
             && MIN_HEADER + b[0] % 16 * 4 <= |b| < MIN_HEADER + b[0] % 16 * 4 + 4)
  {
    if |b| >= MIN_HEADER {
      var h := FixedFields(b);
      assert h.csrcCount == b[0] % 16;
    }
  }

  // ----- the sender's counters -----

  class RtpSession {
    const ssrc: Word32
    const payloadType: Byte
    var sequenceNumber: Word16
    var timestamp: Word32

    constructor (ssrc: Word32, payloadType: Byte, sequenceNumber: Word16, timestamp: Word32)
      ensures this.ssrc == ssrc && this.payloadType == payloadType
      ensures this.sequenceNumber == sequenceNumber && this.timestamp == timestamp
    {
      this.ssrc, this.payloadType, this.sequenceNumber, this.timestamp := ssrc, payloadType, sequenceNumber, timestamp;
    }

    /** Numbers packets one after another modulo 2^16, and stamps them with the samples sent before. */
    method CreatePacketWithDuration(payload: seq<Byte>, durationSamples: int, marker: bool) returns (p: Packet)
      modifies this
      ensures p.payload == payload
      ensures p.header == Header(VERSION, false, false, 0, marker, payloadType,
                                 old(sequenceNumber), old(timestamp), ssrc, [], 0, [])
      ensures payloadType < 128 ==> WellFormed(p.header)
      ensures sequenceNumber == (old(sequenceNumber) as int + 1) % 0x1_0000
      ensures timestamp == (old(timestamp) as int + durationSamples) % 0x1_0000_0000
    {
      var header := Header(VERSION, false, false, 0, false, payloadType, sequenceNumber, timestamp, ssrc, [], 0, []);
      header := header.(marker := marker);
      sequenceNumber := (sequenceNumber as int + 1) % 0x1_0000;
      timestamp := (timestamp as int + durationSamples) % 0x1_0000_0000;
      p := Packet(header, payload);
    }
  }
}
