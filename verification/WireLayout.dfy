/** Where things stand on the wire: the words of RTP headers and STUN messages, by position. */
module WireLayout {
  import opened Arith
  import opened Bytes
  import opened Wrappers
  import Rtp
  import Stun

  lemma BigEndian(x: Word32)
    ensures Be32(x) == [x / 0x100_0000, x / 0x1_0000 % 256, x / 256 % 256, x % 256]
  {
    var hi, lo := x / 65536, x % 65536;
    DivModUnique(x, 0x100_0000, hi / 256, hi % 256 * 65536 + lo);
    DivModUnique(x, 256, hi * 256 + lo / 256, lo % 256);
    DivModUnique(hi * 256 + lo / 256, 256, hi, lo / 256);
    assert hi / 256 % 256 == hi / 256 && lo / 256 % 256 == lo / 256;
  }

  // ----- RTP -----

  /** The first word of a header, bit field by bit field (section 5.1 of RFC 3550). */
  function FirstWord(h: Rtp.Header): int {
    h.version * 0x4000_0000 + (if h.padding then 0x2000_0000 else 0) + (if h.extension then 0x1000_0000 else 0)
    + h.csrcCount * 0x100_0000 + (if h.marker then 0x80_0000 else 0) + h.payloadType * 0x1_0000 + h.sequenceNumber
  }

  lemma FixedWords(h: Rtp.Header, b: seq<Byte>)
    requires h.version < 4 && h.csrcCount < 16 && h.payloadType < 128
    requires |b| >= Rtp.MIN_HEADER && b[..Rtp.MIN_HEADER] == Rtp.Fixed(h)
    ensures U32(b, 0) == FirstWord(h) && U32(b, 4) == h.timestamp && U32(b, 8) == h.ssrc
  {
    var f := Rtp.Fixed(h);
    assert b[0] == b[..Rtp.MIN_HEADER][0] == f[0] && b[1] == b[..Rtp.MIN_HEADER][1] == f[1];
    assert b[2..4] == f[2..4] == Be16(h.sequenceNumber);
    assert b[4..8] == f[4..8] == Be32(h.timestamp);
    assert b[8..12] == f[8..12] == Be32(h.ssrc);
    Read16(b, 2, h.sequenceNumber);
    Read32(b, 4, h.timestamp);
    Read32(b, 8, h.ssrc);
    hide Be16, Be32;
    FirstWordBytes(h, b);
  }

  lemma FirstWordBytes(h: Rtp.Header, b: seq<Byte>)
    requires h.version < 4 && h.csrcCount < 16 && h.payloadType < 128
    requires |b| >= 4 && b[0] == Rtp.FirstByte(h) && b[1] == Rtp.SecondByte(h) && U16(b, 2) == h.sequenceNumber
    ensures U32(b, 0) == FirstWord(h)
  {
    assert U16(b, 0) == b[0] as int * 256 + b[1] as int;
  }

  /** A well-formed header, word by word: the fixed part, the sources, the extension. */
  lemma HeaderWords(h: Rtp.Header, rest: seq<Byte>)
    requires Rtp.WellFormed(h)
    ensures var b := Rtp.HeaderBytes(h) + rest;
            && U32(b, 0) == FirstWord(h) && U32(b, 4) == h.timestamp && U32(b, 8) == h.ssrc
            && (forall i :: 0 <= i < |h.csrc| ==> U32(b, 12 + 4 * i) == h.csrc[i])
            && (h.extension ==>
                  var at := 12 + 4 * |h.csrc|;
                  && U16(b, at) == h.profile && U16(b, at + 2) == |h.extData| / 4
                  && b[at + 4..at + 4 + |h.extData|] == h.extData
                  && b[at + 4 + |h.extData|..] == rest)
            && (!h.extension ==> b[12 + 4 * |h.csrc|..] == rest)
  {
    hide Rtp.Fixed, Rtp.Words, FirstWord, U32;
    var b, n := Rtp.HeaderBytes(h) + rest, 4 * |h.csrc|;
    assert b[..Rtp.MIN_HEADER] == Rtp.Fixed(h);
    FixedWords(h, b);
    assert b[Rtp.MIN_HEADER..Rtp.MIN_HEADER + n] == Rtp.Words(h.csrc);
    forall i | 0 <= i < |h.csrc|
      ensures U32(b, 12 + 4 * i) == h.csrc[i]
    {
      Rtp.WordsAreRead(h.csrc, b, Rtp.MIN_HEADER, i);
    }
    if h.extension {
      ExtensionWords(h, b, 12 + n, rest);
    }
  }

  lemma ExtensionWords(h: Rtp.Header, b: seq<Byte>, at: nat, rest: seq<Byte>)
    requires h.extension && |h.extData| / 4 < 0x1_0000
    requires at + 4 + |h.extData| <= |b| && b[at..] == Rtp.ExtBytes(h) + rest
    ensures U16(b, at) == h.profile && U16(b, at + 2) == |h.extData| / 4
    ensures b[at + 4..at + 4 + |h.extData|] == h.extData && b[at + 4 + |h.extData|..] == rest
  {
    var e := b[at..];
    hide Be16, U16;
    assert b[at..at + 2] == e[..2] == Be16(h.profile);
    assert b[at + 2..at + 4] == e[2..4] == Be16(|h.extData| / 4);
    assert b[at + 4..at + 4 + |h.extData|] == e[4..4 + |h.extData|];
    assert b[at + 4 + |h.extData|..] == e[4 + |h.extData|..];
    Read16(b, at, h.profile);
    Read16(b, at + 2, |h.extData| / 4);
  }

  // ----- STUN -----

  lemma HexDigitIs(d: nat)
    requires d < 16
    ensures Stun.HexDigit(d) == "0123456789abcdef"[d]
  {
  }

  /** Two hexadecimal digits for each byte, the higher half first. */
  lemma {:induction false} HexAt(b: seq<Byte>, i: nat)
    requires i < |b|
    ensures Stun.Hex(b)[2 * i] == "0123456789abcdef"[b[i] / 16]
    ensures Stun.Hex(b)[2 * i + 1] == "0123456789abcdef"[b[i] % 16]
  {
    HexDigitIs(b[i] / 16);
    HexDigitIs(b[i] % 16);
    hide Stun.Hex, Stun.HexDigit;
    Stun.HexLast(b);
    if i < |b| - 1 {
      HexAt(b[..|b| - 1], i);
      assert Stun.Hex(b)[..2 * (|b| - 1)][2 * i] == Stun.Hex(b)[2 * i];
      assert Stun.Hex(b)[..2 * (|b| - 1)][2 * i + 1] == Stun.Hex(b)[2 * i + 1];
    }
  }

  /** The header: type, length of what follows it, cookie and transaction id (section 6 of RFC 5389). */
  lemma MessageHeader(msgType: Word16, attrs: seq<Stun.Attr>, txid: seq<Byte>)
    requires |txid| == 12 && |Stun.AllBytes(attrs)| < 0x1_0000
    ensures var m := Stun.Message(msgType, attrs, txid);
            && U16(m, 0) == msgType && U16(m, 2) == |m| - 20 && U32(m, 4) == 0x2112a442 && m[8..20] == txid
            && m[20..] == Stun.AllBytes(attrs)
  {
    hide Stun.AllBytes;
    var m, body := Stun.Message(msgType, attrs, txid), Stun.AllBytes(attrs);
    assert m[..20] == Stun.Header(msgType, |body|, txid) && m[20..] == body;
    Stun.HeaderFields(msgType, |body|, txid, m);
  }

  lemma {:induction false} BytesSplit(attrs: seq<Stun.Attr>, i: nat)
    requires i < |attrs|
    ensures var before, a := Stun.AllBytes(attrs[..i]), Stun.AttrBytes(attrs[i]);
            && |before| + |a| <= |Stun.AllBytes(attrs)|
            && Stun.AllBytes(attrs)[|before|..|before| + |a|] == a
  {
    hide Stun.AttrBytes;
    var all := Stun.AllBytes(attrs);
    if i == 0 {
      assert attrs[..0] == [];
    } else {
      var first, rest := Stun.AttrBytes(attrs[0]), Stun.AllBytes(attrs[1..]);
      BytesSplit(attrs[1..], i - 1);
      assert attrs[..i][0] == attrs[0] && attrs[..i][1..] == attrs[1..][..i - 1];
      assert all == first + rest;
    }
  }

  /** One attribute: type, length, value, and zeros up to the next multiple of four. */
  lemma AttributeLayout(a: Stun.Attr, data: seq<Byte>, at: nat)
    requires |a.data| < 0x1_0000
    requires at + |Stun.AttrBytes(a)| <= |data| && data[at..at + |Stun.AttrBytes(a)|] == Stun.AttrBytes(a)
    ensures var n, size := |a.data|, |Stun.AttrBytes(a)|;
            && 4 + n <= size < 8 + n && size % 4 == 0
            && U16(data, at) == a.kind && U16(data, at + 2) == n && data[at + 4..at + 4 + n] == a.data
            && data[at + 4 + n..at + size] == Zeros(size - 4 - n)
  {
    var n, size := |a.data|, |Stun.AttrBytes(a)|;
    Stun.OneAttr(a, data, at);
    PaddingIsZero(a);
    SliceOfSlice(data, at, at + size, 4 + n, size);
  }

  lemma PaddingIsZero(a: Stun.Attr)
    ensures var n, size := |a.data|, |Stun.AttrBytes(a)|;
            4 + n <= size < 8 + n && size % 4 == 0 && Stun.AttrBytes(a)[4 + n..size] == Zeros(size - 4 - n)
  {
    hide Be16, Stun.PadLen;
    var front, zeros := Be16(a.kind) + Be16(|a.data|) + a.data, Zeros(Stun.PadLen(|a.data|));
    assert |front| == 4 + |a.data| && Stun.AttrBytes(a) == front + zeros;
    EndOf(front, zeros);
  }

  lemma EndOf(a: seq<Byte>, b: seq<Byte>)
    ensures (a + b)[|a|..|a + b|] == b
  {
  }

  /** Attribute i follows those before it. */
  lemma AttributeAt(attrs: seq<Stun.Attr>, i: nat, data: seq<Byte>, offset: nat)
    requires i < |attrs| && offset + |Stun.AllBytes(attrs)| <= |data|
    requires data[offset..offset + |Stun.AllBytes(attrs)|] == Stun.AllBytes(attrs)
    ensures var at := offset + |Stun.AllBytes(attrs[..i])|;
            at + |Stun.AttrBytes(attrs[i])| <= |data|
            && data[at..at + |Stun.AttrBytes(attrs[i])|] == Stun.AttrBytes(attrs[i])
  {
    hide *;
    var all, before, a := Stun.AllBytes(attrs), |Stun.AllBytes(attrs[..i])|, Stun.AttrBytes(attrs[i]);
    BytesSplit(attrs, i);
    SliceOfSlice(data, offset, offset + |all|, before, before + |a|);
  }

  // ----- what the checksums cover -----

  /** The message with another length in its header. */
  function WithLength(m: seq<Byte>, length: int): seq<Byte>
    requires |m| >= 4
  {
    m[..2] + Be16(length) + m[4..]
  }

  lemma HeaderWithLength(msgType: int, was: int, length: int, txid: seq<Byte>, body: seq<Byte>)
    requires |txid| == 12
    ensures WithLength(Stun.Header(msgType, was, txid) + body, length) == Stun.Header(msgType, length, txid) + body
  {
    hide Be16, Be32;
  }

  /** The integrity attribute is over the message up to it, with the length stated as if it came last. */
  lemma IntegrityCovers(sums: Stun.Sums, msgType: int, attrs: seq<Byte>, txid: seq<Byte>, key: Stun.Key,
                        fingerprint: bool)
    requires Stun.SumsOk(sums) && |txid| == 12
    ensures var m := Stun.Built(sums, msgType, attrs, txid, Some(key), fingerprint);
            var at := 20 + |attrs|;
            && at + 24 <= |m| && m[20..at] == attrs
            && m[at..at + 4] == [0x00, 0x08, 0, 20]
            && m[at + 4..at + 24] == sums.hmac(key, WithLength(m[..at], |attrs| + 24))
            && |m| == at + 24 + if fingerprint then 8 else 0
  {
    hide Be32, Xor32, Stun.Header;
    var m := Stun.Built(sums, msgType, attrs, txid, Some(key), fingerprint);
    var mac := sums.hmac(key, Stun.Header(msgType, |attrs| + 24, txid) + attrs);
    var a := Stun.AttrBytes(Stun.Attr(Stun.MESSAGE_INTEGRITY, mac));
    var length := |m| - 20;
    MacBytes(mac);
    assert m[..20] == Stun.Header(msgType, length, txid);
    assert m[20..20 + |attrs|] == attrs;
    assert m[20 + |attrs|..44 + |attrs|] == a;
    HeaderWithLength(msgType, length, |attrs| + 24, txid, attrs);
    assert m[..20 + |attrs|] == Stun.Header(msgType, length, txid) + attrs;
    SliceOfSlice(m, 20 + |attrs|, 44 + |attrs|, 0, 4);
    SliceOfSlice(m, 20 + |attrs|, 44 + |attrs|, 4, 24);
  }

  lemma MacBytes(mac: seq<Byte>)
    requires |mac| == 20
    ensures var a := Stun.AttrBytes(Stun.Attr(Stun.MESSAGE_INTEGRITY, mac));
            |a| == 24 && a[0..4] == [0x00, 0x08, 0, 20] && a[4..24] == mac
  {
    assert Be16(0x0008) == [0, 8] && Be16(20) == [0, 20];
  }

  /** The fingerprint is over the message up to it, exactly as it is sent. */
  lemma FingerprintCovers(sums: Stun.Sums, msgType: int, attrs: seq<Byte>, txid: seq<Byte>, key: Option<Stun.Key>)
    requires Stun.SumsOk(sums) && |txid| == 12
    ensures var m := Stun.Built(sums, msgType, attrs, txid, key, true);
            var at := |m| - 8;
            && at >= 20 && m[at..at + 4] == [0x80, 0x28, 0, 4]
            && m[at + 4..] == Be32(Xor32(sums.crc(m[..at]), 0x5354554e))
  {
    hide Be32, Xor32, Stun.Header;
    var m := Stun.Built(sums, msgType, attrs, txid, key, true);
    var body := Stun.WithIntegrity(sums, msgType, attrs, txid, key);
    var value := Be32(Xor32(sums.crc(Stun.Header(msgType, |body| + 8, txid) + body), Stun.FINGERPRINT_XOR));
    CrcBytes(value);
    hide Stun.WithIntegrity;
    var a := Stun.AttrBytes(Stun.Attr(Stun.FINGERPRINT, value));
    assert m == Stun.Header(msgType, |body| + 8, txid) + (body + a);
    assert m[..|m| - 8] == Stun.Header(msgType, |body| + 8, txid) + body;
    assert m[|m| - 8..] == a;
    assert m[|m| - 8..][0..4] == m[|m| - 8..|m| - 4] && m[|m| - 8..][4..8] == m[|m| - 4..];
  }

  lemma CrcBytes(value: seq<Byte>)
    requires |value| == 4
    ensures var a := Stun.AttrBytes(Stun.Attr(Stun.FINGERPRINT, value));
            |a| == 8 && a[0..4] == [0x80, 0x28, 0, 4] && a[4..8] == value
  {
    assert Be16(0x8028) == [0x80, 0x28] && Be16(4) == [0, 4];
  }

  // ----- fields of a response -----

  predicate IsError(a: Stun.Attr) {
    a.kind == 0x0009 && |a.data| >= 4
  }

  /** The error code is that of the last error attribute, its class the hundreds; without one it is zero. */
  lemma {:induction false} ErrorCodeIsLast(success: bool, attrs: seq<Stun.Attr>, i: nat)
    requires i <= |attrs| && forall j :: i <= j < |attrs| ==> !IsError(attrs[j])
    ensures var f := Stun.FieldsOf(success, attrs);
            if i == 0 then f.errorCode == 0
            else IsError(attrs[i - 1]) ==> f.errorCode == attrs[i - 1].data[2] % 8 * 100 + attrs[i - 1].data[3] as int
    decreases |attrs|
  {
    if |attrs| > i {
      ErrorCodeIsLast(success, attrs[..|attrs| - 1], i);
    } else if i == 0 {
      assert attrs == [];
    }
  }

  /** Eight bytes, the most significant first. */
  lemma RoutingIdBytes(b: seq<Byte>)
    requires |b| == 8
    ensures Stun.U64(b) % 256 == b[7] && Stun.U64(b) / 0x1_0000_0000 == U32(b, 0) && U32(b, 0) / 0x100_0000 == b[0]
    ensures Stun.U64(b) % 0x1_0000_0000 == U32(b, 4)
  {
    var hi, lo: int := U32(b, 0), U32(b, 4);
    DivModUnique(Stun.U64(b), 0x1_0000_0000, hi, lo);
    LastByte(b, 4);
    DivModUnique(Stun.U64(b), 256, hi * 0x100_0000 + lo / 256, lo % 256);
    DivModUnique(hi, 0x100_0000, b[0], b[1] as int * 65536 + b[2] as int * 256 + b[3] as int);
  }

  lemma LastByte(b: seq<Byte>, i: nat)
    requires i + 4 <= |b|
    ensures U32(b, i) % 256 == b[i + 3]
  {
    var upper := b[i] as int * 65536 + b[i + 1] as int * 256 + b[i + 2] as int;
    DivModUnique(U32(b, i), 256, upper, b[i + 3]);
  }

  predicate IsRouting(a: Stun.Attr) {
    a.kind == 0x4033 && |a.data| == 8
  }

  /** The routing id is that of the last such attribute of a success response; otherwise it is zero. */
  lemma {:induction false} RoutingIdIsLast(success: bool, attrs: seq<Stun.Attr>, i: nat)
    requires i <= |attrs| && forall j :: i <= j < |attrs| ==> !IsRouting(attrs[j])
    ensures var f := Stun.FieldsOf(success, attrs);
            if i == 0 || !success then f.routingId == 0
            else IsRouting(attrs[i - 1]) ==> f.routingId == Stun.U64(attrs[i - 1].data)
    decreases |attrs|
  {
    if |attrs| > i {
      RoutingIdIsLast(success, attrs[..|attrs| - 1], i);
    } else if |attrs| > 0 && !success {
      NoRouting(attrs[..|attrs| - 1]);
    }
  }

  lemma {:induction false} NoRouting(attrs: seq<Stun.Attr>)
    ensures Stun.FieldsOf(false, attrs).routingId == 0
  {
    if attrs != [] {
      NoRouting(attrs[..|attrs| - 1]);
    }
  }
}
