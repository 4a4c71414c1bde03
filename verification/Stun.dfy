/** STUN messages: attributes, integrity and fingerprint, and the parser that reads them back. */
module Stun {
  import opened Arith
  import opened Bytes
  import opened Wrappers

  const MAGIC_COOKIE: Word32 := 0x2112a442
  const FINGERPRINT_XOR: Word32 := 0x5354554e
  const MESSAGE_INTEGRITY: Word16 := 0x0008
  const FINGERPRINT: Word16 := 0x8028
  const ERROR_CODE: Word16 := 0x0009
  const STABLE_ROUTING_CONN_ID: Word16 := 0x4033
  const WA_PING := 0x0801
  const WA_PONG := 0x0802
  const HEADER_LEN := 20

  datatype Attr = Attr(kind: Word16, data: seq<Byte>)

  type Key = seq<Byte>

  /** The two checksums, which stay uninterpreted; the first is an HMAC-SHA1, 20 bytes long. */
  datatype Sums = Sums(hmac: (Key, seq<Byte>) -> seq<Byte>, crc: seq<Byte> -> Word32)

  ghost predicate SumsOk(sums: Sums) {
    forall k, m :: |sums.hmac(k, m)| == 20
  }

  // ----- what goes on the wire -----

  function PadLen(n: nat): (p: nat)
    ensures (n + p) % 4 == 0 && p < 4
  {
    (4 - n % 4) % 4
  }

  function AttrBytes(a: Attr): (b: seq<Byte>)
    ensures |b| == 4 + |a.data| + PadLen(|a.data|)
  {
    Be16(a.kind) + Be16(|a.data|) + a.data + Zeros(PadLen(|a.data|))
  }

  function AllBytes(attrs: seq<Attr>): seq<Byte> {
    if attrs == [] then [] else AttrBytes(attrs[0]) + AllBytes(attrs[1..])
  }

  function Front(msgType: int, length: int): (b: seq<Byte>)
    ensures |b| == 8
  {
    Be16(msgType) + Be16(length) + Be32(MAGIC_COOKIE)
  }

  function Header(msgType: int, length: int, txid: seq<Byte>): (h: seq<Byte>)
    requires |txid| == 12
    ensures |h| == HEADER_LEN
  {
    Front(msgType, length) + txid
  }

  function IntegrityAttr(sums: Sums, key: Key, msgType: int, txid: seq<Byte>, attrs: seq<Attr>): Attr
    requires |txid| == 12
  {
    var body := AllBytes(attrs);
    Attr(MESSAGE_INTEGRITY, sums.hmac(key, Header(msgType, |body| + 24, txid) + body))
  }

  function FingerprintAttr(sums: Sums, msgType: int, txid: seq<Byte>, attrs: seq<Attr>): Attr
    requires |txid| == 12
  {
    var body := AllBytes(attrs);
    Attr(FINGERPRINT, Be32(Xor32(sums.crc(Header(msgType, |body| + 8, txid) + body), FINGERPRINT_XOR)))
  }

  /** The caller's attributes, then the integrity attribute, then the fingerprint, when asked for. */
  function FullAttrs(sums: Sums, msgType: int, attrs: seq<Attr>, txid: seq<Byte>, key: Option<Key>, fingerprint: bool)
    : seq<Attr>
    requires |txid| == 12
  {
    var withKey := if key.Some? then attrs + [IntegrityAttr(sums, key.value, msgType, txid, attrs)] else attrs;
    if fingerprint then withKey + [FingerprintAttr(sums, msgType, txid, withKey)] else withKey
  }

  function Message(msgType: int, attrs: seq<Attr>, txid: seq<Byte>): seq<Byte>
    requires |txid| == 12
  {
    Header(msgType, |AllBytes(attrs)|, txid) + AllBytes(attrs)
  }

  /** The twelve bytes of a transaction id in the header: what is missing stays zero, what is too much is dropped. */
  function Fit(txid: seq<Byte>): (b: seq<Byte>)
    ensures |b| == 12
    ensures |txid| == 12 ==> b == txid
  {
    if |txid| >= 12 then txid[..12] else txid + Zeros(12 - |txid|)
  }

  function WithIntegrity(sums: Sums, msgType: int, body: seq<Byte>, txid: seq<Byte>, key: Option<Key>): seq<Byte>
    requires |txid| == 12
  {
    if key.None? then body
    else body + AttrBytes(Attr(MESSAGE_INTEGRITY, sums.hmac(key.value, Header(msgType, |body| + 24, txid) + body)))
  }

  function WithFingerprint(sums: Sums, msgType: int, body: seq<Byte>, txid: seq<Byte>, fingerprint: bool): seq<Byte>
    requires |txid| == 12
  {
    if !fingerprint then body
    else
      var crc := sums.crc(Header(msgType, |body| + 8, txid) + body);
      body + AttrBytes(Attr(FINGERPRINT, Be32(Xor32(crc, FINGERPRINT_XOR))))
  }

  /** The message around any bytes, attributes or not. */
  function Built(sums: Sums, msgType: int, attrs: seq<Byte>, txid: seq<Byte>, key: Option<Key>, fingerprint: bool)
    : seq<Byte>
  {
    var id := Fit(txid);
    var body := WithFingerprint(sums, msgType, WithIntegrity(sums, msgType, attrs, id, key), id, fingerprint);
    Header(msgType, |body|, id) + body
  }

  // ----- building -----

  method EncodeAttribute(kind: Word16, data: seq<Byte>) returns (out: seq<Byte>)
    ensures out == AttrBytes(Attr(kind, data))
  {
    var header := new Byte[4];
    PutUint16(header, 0, kind);
    PutUint16(header, 2, |data|);
    var padding := (4 - |data| % 4) % 4;
    out := header[..] + data;
    if padding > 0 {
      out := out + Zeros(padding);
    }
  }

  lemma FitInZeros(txid: seq<Byte>, zeros: seq<Byte>)
    requires |zeros| == HEADER_LEN && forall i :: 0 <= i < HEADER_LEN ==> zeros[i] == 0
    ensures var id := txid[..Min(12, |txid|)]; id + zeros[8 + |id|..] == Fit(txid)
  {
    var id := txid[..Min(12, |txid|)];
    assert zeros[8 + |id|..] == Zeros(12 - |id|);
  }

  method WriteFront(buf: array<Byte>, msgType: int, length: int)
    requires buf.Length == HEADER_LEN
    modifies buf
    ensures buf[..] == Front(msgType, length) + old(buf[8..])
  {
    hide Be16, Be32;
    ghost var was := buf[..];
    PutUint16(buf, 0, msgType);
    TwoWrites(was, 0, Be16(msgType), Be16(length));
    PutUint16(buf, 2, length);
    TwoWrites(was, 0, Be16(msgType) + Be16(length), Be32(MAGIC_COOKIE));
    PutUint32(buf, 4, MAGIC_COOKIE);
  }

  method WriteHeader(msgType: int, length: int, txid: seq<Byte>) returns (header: seq<Byte>)
    ensures header == Header(msgType, length, Fit(txid))
  {
    hide Front, Fit;
    var buf := new Byte[20](i => 0);
    ghost var zeros := buf[..];
    WriteFront(buf, msgType, length);
    var id := txid[..Min(12, |txid|)];
    TwoWrites(zeros, 0, Front(msgType, length), id);
    Copy(buf, 8, id);
    FitInZeros(txid, zeros);
    header := buf[..];
  }

  lemma {:induction false} AllBytesAppend(attrs: seq<Attr>, a: Attr)
    ensures AllBytes(attrs + [a]) == AllBytes(attrs) + AttrBytes(a)
  {
    hide AttrBytes;
    if attrs == [] {
      assert [a][1..] == [] && attrs + [a] == [a];
      assert AllBytes([a]) == AttrBytes(a) + [];
    } else {
      AllBytesAppend(attrs[1..], a);
      assert (attrs + [a])[1..] == attrs[1..] + [a];
      assert AttrBytes(attrs[0]) + (AllBytes(attrs[1..]) + AttrBytes(a))
          == AttrBytes(attrs[0]) + AllBytes(attrs[1..]) + AttrBytes(a);
    }
  }

  method BuildStunMessage(sums: Sums, msgType: int, attrs: seq<Byte>, txid: seq<Byte>, key: Option<Key>,
                          fingerprint: bool)
    returns (message: seq<Byte>)
    ensures message == Built(sums, msgType, attrs, txid, key, fingerprint)
  {
    hide Header, AttrBytes, Fit;
    var attrsData := attrs;
    if key.Some? {
      var hmacHeader := WriteHeader(msgType, |attrsData| + 24, txid);
      var mac := sums.hmac(key.value, hmacHeader + attrsData);
      var miAttr := EncodeAttribute(MESSAGE_INTEGRITY, mac);
      attrsData := attrsData + miAttr;
    }
    if fingerprint {
      var crcHeader := WriteHeader(msgType, |attrsData| + 8, txid);
      var value := Xor32(sums.crc(crcHeader + attrsData), FINGERPRINT_XOR);
      var fpAttr := EncodeAttribute(FINGERPRINT, Be32(value));
      attrsData := attrsData + fpAttr;
    }
    var header := WriteHeader(msgType, |attrsData|, txid);
    message := header + attrsData;
  }

  lemma IntegrityOfAttrs(sums: Sums, msgType: int, attrs: seq<Attr>, txid: seq<Byte>, key: Key)
    requires |txid| == 12
    ensures WithIntegrity(sums, msgType, AllBytes(attrs), txid, Some(key))
         == AllBytes(attrs + [IntegrityAttr(sums, key, msgType, txid, attrs)])
  {
    hide Header, AttrBytes, AllBytes;
    AllBytesAppend(attrs, IntegrityAttr(sums, key, msgType, txid, attrs));
  }

  lemma FingerprintOfAttrs(sums: Sums, msgType: int, attrs: seq<Attr>, txid: seq<Byte>)
    requires |txid| == 12
    ensures WithFingerprint(sums, msgType, AllBytes(attrs), txid, true)
         == AllBytes(attrs + [FingerprintAttr(sums, msgType, txid, attrs)])
  {
    hide Header, AttrBytes, AllBytes;
    AllBytesAppend(attrs, FingerprintAttr(sums, msgType, txid, attrs));
  }

  /** Around a list of attributes the message is the list with integrity and fingerprint as its last members. */
  lemma BuiltOfAttrs(sums: Sums, msgType: int, attrs: seq<Attr>, txid: seq<Byte>, key: Option<Key>, fingerprint: bool)
    requires |txid| == 12
    ensures Built(sums, msgType, AllBytes(attrs), txid, key, fingerprint)
         == Message(msgType, FullAttrs(sums, msgType, attrs, txid, key, fingerprint), txid)
  {
    hide Header, AttrBytes, AllBytes, IntegrityAttr, FingerprintAttr;
    var withKey := if key.Some? then attrs + [IntegrityAttr(sums, key.value, msgType, txid, attrs)] else attrs;
    if key.Some? {
      IntegrityOfAttrs(sums, msgType, attrs, txid, key.value);
    }
    FingerprintOfAttrs(sums, msgType, withKey, txid);
  }

  /** The length each checksum covers is the length of the message through the attribute that carries it. */
  lemma HashedLengths(sums: Sums, key: Key, msgType: int, txid: seq<Byte>, body: seq<Byte>)
    requires SumsOk(sums) && |txid| == 12
    ensures |body| + 24 == |WithIntegrity(sums, msgType, body, txid, Some(key))|
    ensures |body| + 8 == |WithFingerprint(sums, msgType, body, txid, true)|
  {
    assert |sums.hmac(key, Header(msgType, |body| + 24, txid) + body)| == 20;
  }

  // ----- parsing -----

  datatype Class = Request | Indication | Success | Failure

  datatype Info = Info(rawType: int, stunMethod: string, stunClass: Class, txid: string, length: nat,
                       fields: Fields, attributes: seq<Attr>, names: seq<string>)

  function HexDigit(d: nat): char
    requires d < 16
  {
    if d < 10 then ('0' as int + d) as char else ('a' as int + (d - 10)) as char
  }

  function Hex(b: seq<Byte>): (s: string)
    ensures |s| == 2 * |b|
  {
    if b == [] then [] else Hex(b[..|b| - 1]) + [HexDigit(b[|b| - 1] / 16), HexDigit(b[|b| - 1] % 16)]
  }

  lemma HexLast(b: seq<Byte>)
    requires b != []
    ensures var n := |b| - 1;
            && Hex(b)[..2 * n] == Hex(b[..n])
            && Hex(b)[2 * n] == HexDigit(b[n] / 16) && Hex(b)[2 * n + 1] == HexDigit(b[n] % 16)
  {
  }

  /** The rendering tells transaction ids apart. */
  lemma {:induction false} HexDetermines(a: seq<Byte>, b: seq<Byte>)
    requires Hex(a) == Hex(b)
    ensures a == b
  {
    hide Hex;
    if a != [] {
      var n := |a| - 1;
      assert |Hex(a)| == |Hex(b)|;
      HexLast(a);
      HexLast(b);
      HexDetermines(a[..n], b[..n]);
      assert a[n] == b[n];
      assert a == a[..n] + [a[n]] && b == b[..n] + [b[n]];
    }
  }

  function AttrName(kind: Word16): string {
    match kind as int
    case 0x0001 => "MAPPED-ADDRESS"
    case 0x0006 => "USERNAME"
    case 0x0008 => "MESSAGE-INTEGRITY"
    case 0x0009 => "ERROR-CODE"
    case 0x000a => "UNKNOWN-ATTRIBUTES"
    case 0x0014 => "REALM"
    case 0x0015 => "NONCE"
    case 0x0019 => "REQUESTED-TRANSPORT"
    case 0x0020 => "XOR-MAPPED-ADDRESS"
    case 0x0024 => "PRIORITY"
    case 0x0025 => "USE-CANDIDATE"
    case 0x4000 => "SENDER-SUBSCRIPTIONS"
    case 0x4001 => "RECEIVER-SUBSCRIPTION"
    case 0x4002 => "SUBSCRIPTION-ACK"
    case 0x8022 => "SOFTWARE"
    case 0x8028 => "FINGERPRINT"
    case 0x8029 => "ICE-CONTROLLED"
    case 0x802a => "ICE-CONTROLLING"
    case 0x4033 => "STABLE-ROUTING-CONN-ID"
    case _ => "0x" + Hex(Be16(kind))
  }

  function NamesOf(attrs: seq<Attr>): (names: seq<string>)
    ensures |names| == |attrs|
  {
    seq(|attrs|, i requires 0 <= i < |attrs| => AttrName(attrs[i].kind))
  }

  /** The attributes from an offset on: the loop stops at the declared end, or where the data runs out. */
  function ParseAttrs(data: seq<Byte>, offset: nat, limit: nat): seq<Attr>
    decreases |data| + 4 - offset
  {
    if offset + 4 > limit || offset + 4 > |data| then []
    else
      var length := U16(data, offset + 2);
      var attrEnd := offset + 4 + length;
      if attrEnd > |data| then []
      else [Attr(U16(data, offset), data[offset + 4..attrEnd])] + ParseAttrs(data, attrEnd + PadLen(length), limit)
  }

  function ClassOf(rawType: int): Class {
    var n := rawType / 256 % 2 * 2 + rawType / 16 % 2;
    if n == 0 then Request else if n == 1 then Indication else if n == 2 then Success else Failure
  }

  /** The twelve method bits, which the two class bits interrupt. */
  function MethodBits(rawType: int): int {
    rawType / 512 % 32 * 128 + rawType / 32 % 8 * 16 + rawType % 16
  }

  function MethodName(rawType: int): string {
    if rawType == WA_PING then "wa-ping"
    else if rawType == WA_PONG then "wa-pong"
    else
      match MethodBits(rawType)
      case 0x001 => "binding"
      case 0x003 => "allocate"
      case 0x004 => "refresh"
      case 0x006 => "send"
      case 0x007 => "data"
      case 0x008 => "create-permission"
      case 0x009 => "channel-bind"
      case _ => "unknown"
  }

  function U64(b: seq<Byte>): nat
    requires |b| == 8
  {
    U32(b, 0) as int * 0x1_0000_0000 + U32(b, 4) as int
  }

  /** What single attributes say about the whole response; a later one overrides an earlier one. */
  datatype Fields = Fields(errorCode: int, errorReason: seq<Byte>, routingId: nat)

  function Absorb(success: bool, f: Fields, a: Attr): Fields {
    if a.kind == ERROR_CODE && |a.data| >= 4 then
      f.(errorCode := a.data[2] % 8 * 100 + a.data[3] as int,
         errorReason := if |a.data| > 4 then a.data[4..] else f.errorReason)
    else if a.kind == STABLE_ROUTING_CONN_ID && success && |a.data| == 8 then f.(routingId := U64(a.data))
    else f
  }

  function FieldsOf(success: bool, attrs: seq<Attr>): Fields {
    if attrs == [] then Fields(0, [], 0)
    else Absorb(success, FieldsOf(success, attrs[..|attrs| - 1]), attrs[|attrs| - 1])
  }

  ghost predicate Describes(info: Info, data: seq<Byte>)
    requires |data| >= HEADER_LEN
  {
    var attrs := ParseAttrs(data, HEADER_LEN, HEADER_LEN + U16(data, 2));
    && info.rawType == U16(data, 0) && info.txid == Hex(data[8..20]) && info.length == |data|
    && info.stunMethod == MethodName(info.rawType) && info.stunClass == ClassOf(info.rawType)
    && info.attributes == attrs && info.names == NamesOf(attrs)
    && info.fields == FieldsOf(info.stunClass == Success, attrs)
  }

  method AbsorbAttribute(success: bool, f: Fields, kind: Word16, attrLength: nat, attrData: seq<Byte>)
    returns (g: Fields)
    requires |attrData| == attrLength
    ensures g == Absorb(success, f, Attr(kind, attrData))
  {
    g := f;
    if kind == ERROR_CODE && attrLength >= 4 {
      var errorClass := attrData[2] % 8;
      var errorNumber := attrData[3] as int;
      g := g.(errorCode := errorClass * 100 + errorNumber);
      if attrLength > 4 {
        g := g.(errorReason := attrData[4..]);
      }
    }
    if kind == STABLE_ROUTING_CONN_ID && success && attrLength == 8 {
      g := g.(routingId := U64(attrData));
    }
  }

  lemma FieldsStep(success: bool, attrs: seq<Attr>, a: Attr)
    ensures FieldsOf(success, []) == Fields(0, [], 0)
    ensures FieldsOf(success, attrs + [a]) == Absorb(success, FieldsOf(success, attrs), a)
  {
    assert (attrs + [a])[..|attrs|] == attrs;
  }

  lemma ParseStep(data: seq<Byte>, offset: nat, limit: nat, before: seq<Attr>, end: nat)
    requires offset + 4 <= limit && offset + 4 <= |data|
    requires end == offset + 4 + U16(data, offset + 2) as int && end <= |data|
    ensures var a, next := Attr(U16(data, offset), data[offset + 4..end]), end + PadLen(U16(data, offset + 2));
            before + ParseAttrs(data, offset, limit) == before + [a] + ParseAttrs(data, next, limit)
  {
  }

  lemma ParseEnds(data: seq<Byte>, offset: nat, limit: nat, before: seq<Attr>)
    requires offset + 4 > limit || offset + 4 > |data| || offset + 4 + U16(data, offset + 2) > |data|
    ensures before + ParseAttrs(data, offset, limit) == before
  {
    assert ParseAttrs(data, offset, limit) == [];
  }

  /** The attribute loop: every index is in bounds, and the offset always advances. */
  method ParseAttributes(data: seq<Byte>, msgLength: nat, success: bool)
    returns (attributes: seq<Attr>, names: seq<string>, fields: Fields)
    requires |data| >= HEADER_LEN
    ensures attributes == ParseAttrs(data, HEADER_LEN, HEADER_LEN + msgLength)
    ensures names == NamesOf(attributes) && fields == FieldsOf(success, attributes)
  {
    hide Absorb, FieldsOf, ParseAttrs, U16, AttrName;
    attributes, names, fields := [], [], Fields(0, [], 0);
    FieldsStep(success, [], Attr(0, []));
    var offset := 20;
    ghost var all := ParseAttrs(data, 20, 20 + msgLength);
    assert attributes + all == all;
    while offset + 4 <= 20 + msgLength && offset + 4 <= |data|
      invariant offset >= 20
      invariant attributes + ParseAttrs(data, offset, 20 + msgLength) == all
      invariant names == NamesOf(attributes) && fields == FieldsOf(success, attributes)
      decreases |data| - offset
    {
      var attrType := U16(data, offset);
      var attrLength: int := U16(data, offset + 2);
      var attrEnd := offset + 4 + attrLength;
      if attrEnd > |data| {
        break;
      }
      var attrData := data[offset + 4..attrEnd];
      ParseStep(data, offset, 20 + msgLength, attributes, attrEnd);
      FieldsStep(success, attributes, Attr(attrType, attrData));
      attributes := attributes + [Attr(attrType, attrData)];
      names := names + [AttrName(attrType)];
      fields := AbsorbAttribute(success, fields, attrType, attrLength, attrData);
      offset := attrEnd + (4 - attrLength % 4) % 4;
    }
    ParseEnds(data, offset, 20 + msgLength, attributes);
  }

  /** What a ping or pong without the cookie says. */
  function BarePing(data: seq<Byte>): Info
    requires |data| >= HEADER_LEN
  {
    var rawType: int := U16(data, 0);
    Info(rawType, MethodName(rawType), Indication, Hex(data[8..20]), |data|, Fields(0, [], 0), [], [])
  }

  /** On any bytes the result is what the bytes say. */
  method ParseStunResponse(data: seq<Byte>) returns (r: Option<Info>)
    ensures |data| < HEADER_LEN ==> r == None
    ensures |data| >= HEADER_LEN && U32(data, 4) == MAGIC_COOKIE ==> r.Some? && Describes(r.value, data)
    ensures |data| >= HEADER_LEN && U32(data, 4) != MAGIC_COOKIE ==>
              r == if U16(data, 0) == WA_PING || U16(data, 0) == WA_PONG then Some(BarePing(data)) else None
  {
    hide Hex, U16, U32, MethodBits;
    if |data| < 20 {
      return None;
    }
    var cookie := U32(data, 4);
    var rawType: int := U16(data, 0);
    if cookie != MAGIC_COOKIE {
      if rawType == WA_PING || rawType == WA_PONG {
        var stunMethod := "wa-ping";
        if rawType == WA_PONG {
          stunMethod := "wa-pong";
        }
        return Some(Info(rawType, stunMethod, Indication, Hex(data[8..20]), |data|, Fields(0, [], 0), [], []));
      }
      return None;
    }
    var stunClass := ClassOf(rawType);
    var attributes, names, fields := ParseAttributes(data, U16(data, 2), stunClass == Success);
    r := Some(Info(rawType, MethodName(rawType), stunClass, Hex(data[8..20]), |data|, fields, attributes, names));
  }

  // ----- parsing undoes building -----

  lemma {:induction false} ParseOfBytes(attrs: seq<Attr>, data: seq<Byte>, offset: nat)
    requires offset + |AllBytes(attrs)| == |data| && data[offset..] == AllBytes(attrs) && |AllBytes(attrs)| < 0x1_0000
    ensures ParseAttrs(data, offset, |data|) == attrs
    decreases |attrs|
  {
    hide AttrBytes, ParseAttrs, U16;
    if attrs == [] {
      ParseEnds(data, offset, |data|, []);
    } else {
      var a := attrs[0];
      var first, rest := AttrBytes(a), AllBytes(attrs[1..]);
      var next := offset + |first|;
      TwoParts(data, offset, first, rest);
      OneAttr(a, data, offset);
      AttrLen(a);
      ParseStep(data, offset, |data|, [], offset + 4 + |a.data|);
      ParseOfBytes(attrs[1..], data, next);
      assert attrs == [] + [a] + attrs[1..];
    }
  }

  lemma AttrLen(a: Attr)
    ensures |AttrBytes(a)| == 4 + |a.data| + PadLen(|a.data|)
  {
  }

  lemma TwoParts(data: seq<Byte>, offset: nat, first: seq<Byte>, rest: seq<Byte>)
    requires offset + |first| + |rest| == |data| && data[offset..] == first + rest
    ensures data[offset..offset + |first|] == first && data[offset + |first|..] == rest
  {
    assert data[offset..][..|first|] == data[offset..offset + |first|];
    assert data[offset..][|first|..] == data[offset + |first|..];
  }

  lemma OneAttr(a: Attr, data: seq<Byte>, offset: nat)
    requires offset + |AttrBytes(a)| <= |data| && data[offset..offset + |AttrBytes(a)|] == AttrBytes(a)
    requires |a.data| < 0x1_0000
    ensures U16(data, offset) == a.kind && U16(data, offset + 2) == |a.data|
    ensures data[offset + 4..offset + 4 + |a.data|] == a.data
  {
    var n := |AttrBytes(a)|;
    var w := data[offset..offset + n];
    AttrParts(a);
    SliceOfSlice(data, offset, offset + n, 0, 2);
    SliceOfSlice(data, offset, offset + n, 2, 4);
    SliceOfSlice(data, offset, offset + n, 4, 4 + |a.data|);
    assert w[0..2] == w[..2];
    Read16(data, offset, a.kind);
    Read16(data, offset + 2, |a.data|);
  }

  lemma AttrParts(a: Attr)
    ensures AttrBytes(a)[..2] == Be16(a.kind) && AttrBytes(a)[2..4] == Be16(|a.data|)
    ensures AttrBytes(a)[4..4 + |a.data|] == a.data
  {
    hide Be16;
  }

  lemma HeaderFields(msgType: Word16, length: Word16, txid: seq<Byte>, data: seq<Byte>)
    requires |txid| == 12 && |data| >= HEADER_LEN && data[..HEADER_LEN] == Header(msgType, length, txid)
    ensures U16(data, 0) == msgType && U16(data, 2) == length && U32(data, 4) == MAGIC_COOKIE && data[8..20] == txid
  {
    var h := data[..HEADER_LEN];
    assert data[0..2] == h[0..2] == Be16(msgType);
    assert data[2..4] == h[2..4] == Be16(length);
    assert data[4..8] == h[4..8] == Be32(MAGIC_COOKIE);
    assert data[8..20] == h[8..20] == txid;
    Read16(data, 0, msgType);
    Read16(data, 2, length);
    Read32(data, 4, MAGIC_COOKIE);
  }

  /** Every list of attributes whose padded size fits the length field comes back, in order. */
  lemma ParseOfMessage(msgType: Word16, attrs: seq<Attr>, txid: seq<Byte>)
    requires |txid| == 12 && |AllBytes(attrs)| < 0x1_0000
    ensures var m := Message(msgType, attrs, txid);
            && U32(m, 4) == MAGIC_COOKIE && U16(m, 0) == msgType && m[8..20] == txid
            && ParseAttrs(m, HEADER_LEN, HEADER_LEN + U16(m, 2)) == attrs
  {
    var m, body := Message(msgType, attrs, txid), AllBytes(attrs);
    assert m[..HEADER_LEN] == Header(msgType, |body|, txid) && m[HEADER_LEN..] == body;
    HeaderFields(msgType, |body|, txid, m);
    ParseOfBytes(attrs, m, HEADER_LEN);
  }

  /** A message that is built and then parsed, with or without integrity and fingerprint. */
  method RoundTrip(sums: Sums, msgType: Word16, attrs: seq<Attr>, txid: seq<Byte>, key: Option<Key>, fingerprint: bool)
    returns (info: Option<Info>)
    requires SumsOk(sums) && |txid| == 12
    requires |AllBytes(attrs)| + (if key.Some? then 24 else 0) + (if fingerprint then 8 else 0) < 0x1_0000
    ensures info.Some? && info.value.txid == Hex(txid) && info.value.rawType == msgType
    ensures info.value.attributes == FullAttrs(sums, msgType, attrs, txid, key, fingerprint)
  {
    var bytes := [];
    for i := 0 to |attrs|
      invariant bytes == AllBytes(attrs[..i])
    {
      var b := EncodeAttribute(attrs[i].kind, attrs[i].data);
      AllBytesAppend(attrs[..i], attrs[i]);
      assert attrs[..i + 1] == attrs[..i] + [attrs[i]];
      bytes := bytes + b;
    }
    assert attrs[..|attrs|] == attrs;
    FullSize(sums, msgType, attrs, txid, key, fingerprint);
    BuiltOfAttrs(sums, msgType, attrs, txid, key, fingerprint);
    var message := BuildStunMessage(sums, msgType, bytes, txid, key, fingerprint);
    ParseOfMessage(msgType, FullAttrs(sums, msgType, attrs, txid, key, fingerprint), txid);
    info := ParseStunResponse(message);
  }

  lemma FullSize(sums: Sums, msgType: int, attrs: seq<Attr>, txid: seq<Byte>, key: Option<Key>, fingerprint: bool)
    requires SumsOk(sums) && |txid| == 12
    ensures |AllBytes(FullAttrs(sums, msgType, attrs, txid, key, fingerprint))|
         == |AllBytes(attrs)| + (if key.Some? then 24 else 0) + (if fingerprint then 8 else 0)
  {
    hide Header, AttrBytes;
    BuiltOfAttrs(sums, msgType, attrs, txid, key, fingerprint);
    var body := AllBytes(attrs);
    if key.Some? {
      HashedLengths(sums, key.value, msgType, txid, body);
    }
    HashedLengths(sums, [], msgType, txid, WithIntegrity(sums, msgType, body, txid, key));
  }

  /** The type word of a method and a class, with the class bits between the method bits. */
  function TypeWord(bits: int, c: Class): int {
    var n := match c case Request => 0 case Indication => 1 case Success => 2 case Failure => 3;
    bits / 128 * 512 + n / 2 * 256 + bits / 16 % 8 * 32 + n % 2 * 16 + bits % 16
  }

  lemma TypeBits(hi: int, mid: int, lo: int, b1: int, b0: int)
    requires 0 <= hi < 32 && 0 <= mid < 8 && 0 <= lo < 16 && 0 <= b1 <= 1 && 0 <= b0 <= 1
    ensures var w := hi * 512 + b1 * 256 + mid * 32 + b0 * 16 + lo;
            && w / 512 % 32 == hi && w / 256 % 2 == b1 && w / 32 % 8 == mid && w / 16 % 2 == b0 && w % 16 == lo
  {
    var w := hi * 512 + b1 * 256 + mid * 32 + b0 * 16 + lo;
    DivModUnique(w, 512, hi, b1 * 256 + mid * 32 + b0 * 16 + lo);
    DivModUnique(w, 256, hi * 2 + b1, mid * 32 + b0 * 16 + lo);
    DivModUnique(w, 32, hi * 16 + b1 * 8 + mid, b0 * 16 + lo);
    DivModUnique(w, 16, hi * 32 + b1 * 16 + mid * 2 + b0, lo);
  }

  lemma TypeWordRoundTrip(bits: int, c: Class)
    requires 0 <= bits < 4096
    ensures MethodBits(TypeWord(bits, c)) == bits && ClassOf(TypeWord(bits, c)) == c
  {
    var n := match c case Request => 0 case Indication => 1 case Success => 2 case Failure => 3;
    DivModUnique(bits / 16, 8, bits / 128, bits / 16 % 8);
    TypeBits(bits / 128, bits / 16 % 8, bits % 16, n / 2, n % 2);
  }
}
