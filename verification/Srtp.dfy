/**
  SRTP as the client implements it: a packet index from a rollover counter, a counter-mode keystream
  chosen by that index, and a tag that is appended but not looked at when a packet is opened.
 */
module Srtp {
  import opened Arith
  import opened Bytes
  import opened Rtp

  // ----- exclusive or -----

  lemma XorInjective(a: Byte, b: Byte, c: Byte)
    requires Xor8(c, a) == Xor8(c, b)
    ensures a == b
  {
    Pow2Eight();
    XorSymmetric(c, a, 8);
    XorSymmetric(c, b, 8);
    XorTwice(a, c, 8);
    XorTwice(b, c, 8);
  }

  function XorBytes(a: seq<Byte>, k: seq<Byte>): (r: seq<Byte>)
    requires |a| == |k|
    ensures |r| == |a|
  {
    seq(|a|, i requires 0 <= i < |a| => Xor8(a[i], k[i]))
  }

  lemma XorBytesTwice(a: seq<Byte>, k: seq<Byte>)
    requires |a| == |k|
    ensures XorBytes(XorBytes(a, k), k) == a
  {
    forall i | 0 <= i < |a|
      ensures XorBytes(XorBytes(a, k), k)[i] == a[i]
    {
      Pow2Eight();
      XorTwice(a[i], k[i], 8);
    }
  }

  // ----- the rollover counter -----

  datatype Roc = Roc(roc: Word32, lastSeq: Word16, initialized: bool)

  function NoPackets(): Roc {
    Roc(0, 0, false)
  }

  function Updated(c: Roc, s: Word16): Roc {
    if !c.initialized then Roc(c.roc, s, true)
    else Roc(if s as int - c.lastSeq as int < -32768 then (c.roc as int + 1) % 0x1_0000_0000 else c.roc, s, true)
  }

  function Index(c: Roc, s: Word16): nat {
    c.roc as int * 65536 + s as int
  }

  /** The counter stands at packet index x. */
  predicate StandsAt(c: Roc, x: nat) {
    x < 0x1_0000_0000_0000 && c == Roc(x / 65536, x % 65536, true)
  }

  /**
    From index x the next packet, y, is placed right exactly when fewer than 65536 indices lie between
    and, if the sequence number has wrapped, fewer than 32768.
   */
  lemma OneStep(c: Roc, x: nat, y: nat)
    requires StandsAt(c, x) && x <= y < 0x1_0000_0000_0000
    ensures StandsAt(Updated(c, y % 65536), y) <==> y - x < 65536 && (x / 65536 == y / 65536 || y - x < 32768)
    ensures StandsAt(Updated(c, y % 65536), y) <==> Index(Updated(c, y % 65536), y % 65536) == y
  {
    var rx, sx, ry, sy := x / 65536, x % 65536, y / 65536, y % 65536;
    assert x == rx * 65536 + sx && y == ry * 65536 + sy;
    var d := Updated(c, sy);
    assert d.roc as int * 65536 + sy == y <==> d.roc == ry;
  }

  lemma FirstStep(y: nat)
    ensures StandsAt(Updated(NoPackets(), y % 65536), y) <==> y < 65536
  {
  }

  /** The counter after a list of sequence numbers. */
  function After(seqs: seq<Word16>): Roc {
    if seqs == [] then NoPackets() else Updated(After(seqs[..|seqs| - 1]), seqs[|seqs| - 1])
  }

  /** Packets that a receiver places right: in order, the first before the first wrap, no gap of 32768 or more. */
  predicate Followable(ys: seq<nat>) {
    && (ys != [] ==> ys[0] < 65536)
    && (forall j :: 0 <= j < |ys| ==> ys[j] < 0x1_0000_0000_0000)
    && (forall j :: 0 < j < |ys| ==> ys[j - 1] < ys[j] < ys[j - 1] + 32768)
  }

  function Seqs(ys: seq<nat>): (s: seq<Word16>)
    ensures |s| == |ys|
  {
    seq(|ys|, j requires 0 <= j < |ys| => ys[j] % 65536)
  }

  lemma {:induction false} FollowsStream(ys: seq<nat>)
    requires Followable(ys) && ys != []
    ensures StandsAt(After(Seqs(ys)), ys[|ys| - 1])
  {
    var init := ys[..|ys| - 1];
    assert Seqs(ys)[..|ys| - 1] == Seqs(init);
    if init == [] {
      FirstStep(ys[0]);
    } else {
      FollowsStream(init);
      OneStep(After(Seqs(init)), init[|init| - 1], ys[|ys| - 1]);
    }
  }

  // ----- the initialization vector -----

  function Be48(x: nat): (b: seq<Byte>)
    ensures |b| == 6
  {
    Be16(x / 0x1_0000_0000) + Be32(x % 0x1_0000_0000)
  }

  function Iv(salt: seq<Byte>, ssrc: Word32, index: nat): (iv: seq<Byte>)
    requires |salt| == 14
    ensures |iv| == 16
  {
    salt[..4] + XorBytes(salt[4..8], Be32(ssrc)) + XorBytes(salt[8..14], Be48(index)) + [0, 0]
  }

  lemma Be48Injective(x: nat, y: nat)
    requires x < 0x1_0000_0000_0000 && y < 0x1_0000_0000_0000 && Be48(x) == Be48(y)
    ensures x == y
  {
    Be48Read(x);
    Be48Read(y);
  }

  lemma Be48Read(x: nat)
    requires x < 0x1_0000_0000_0000
    ensures U16(Be48(x), 0) as int * 0x1_0000_0000 + U32(Be48(x), 2) as int == x
  {
    var b := Be48(x);
    assert b[0..2] == Be16(x / 0x1_0000_0000) && b[2..6] == Be32(x % 0x1_0000_0000);
    Read16(b, 0, x / 0x1_0000_0000);
    Read32(b, 2, x % 0x1_0000_0000);
  }

  lemma XorBytesInjective(a: seq<Byte>, b: seq<Byte>, k: seq<Byte>)
    requires |a| == |b| == |k| && XorBytes(k, a) == XorBytes(k, b)
    ensures a == b
  {
    forall i | 0 <= i < |a|
      ensures a[i] == b[i]
    {
      assert XorBytes(k, a)[i] == XorBytes(k, b)[i];
      XorInjective(a[i], b[i], k[i]);
    }
  }

  /** No two packets of one stream share an initialization vector. */
  lemma DistinctIvs(salt: seq<Byte>, ssrc: Word32, x: nat, y: nat)
    requires |salt| == 14 && x < 0x1_0000_0000_0000 && y < 0x1_0000_0000_0000 && x != y
    ensures Iv(salt, ssrc, x) != Iv(salt, ssrc, y)
  {
    if Iv(salt, ssrc, x) == Iv(salt, ssrc, y) {
      assert Iv(salt, ssrc, x)[8..14] == XorBytes(salt[8..14], Be48(x));
      assert Iv(salt, ssrc, y)[8..14] == XorBytes(salt[8..14], Be48(y));
      XorBytesInjective(Be48(x), Be48(y), salt[8..14]);
      Be48Injective(x, y);
    }
  }

  /** Whoever knows the salt reads the source and the index off the vector. */
  lemma IvGivesBack(salt: seq<Byte>, ssrc: Word32, index: nat)
    requires |salt| == 14 && index < 0x1_0000_0000_0000
    ensures var iv := Iv(salt, ssrc, index);
            && iv[..4] == salt[..4] && iv[14..] == [0, 0]
            && U32(XorBytes(iv[4..8], salt[4..8]), 0) == ssrc
            && var low := XorBytes(iv[8..14], salt[8..14]);
            U16(low, 0) as int * 0x1_0000_0000 + U32(low, 2) as int == index
  {
    hide Be32, Be48, XorBytes, U32, U16;
    var iv := Iv(salt, ssrc, index);
    assert iv[4..8] == XorBytes(salt[4..8], Be32(ssrc)) && iv[8..14] == XorBytes(salt[8..14], Be48(index));
    XorBytesBack(salt[4..8], Be32(ssrc));
    XorBytesBack(salt[8..14], Be48(index));
    Read32(Be32(ssrc), 0, ssrc);
    Be48Read(index);
  }

  lemma XorBytesBack(k: seq<Byte>, a: seq<Byte>)
    requires |k| == |a|
    ensures XorBytes(XorBytes(k, a), k) == a
  {
    forall i | 0 <= i < |a|
      ensures XorBytes(XorBytes(k, a), k)[i] == a[i]
    {
      Pow2Eight();
      XorSymmetric(k[i], a[i], 8);
      XorTwice(a[i], k[i], 8);
    }
  }

  /** Under one salt the vector determines the source and the index: no two packets of any streams share one. */
  lemma IvDetermines(salt: seq<Byte>, ssrc: Word32, index: nat, ssrc1: Word32, index1: nat)
    requires |salt| == 14 && index < 0x1_0000_0000_0000 && index1 < 0x1_0000_0000_0000
    ensures Iv(salt, ssrc, index) == Iv(salt, ssrc1, index1) <==> ssrc == ssrc1 && index == index1
  {
    hide Iv, XorBytes, U32, U16;
    IvGivesBack(salt, ssrc, index);
    IvGivesBack(salt, ssrc1, index1);
  }

  // ----- protecting and opening -----

  /** The cipher's keystream and the tag function, both uninterpreted. */
  datatype Crypto = Crypto(keystream: (seq<Byte>, seq<Byte>, nat) -> seq<Byte>,
                           tag: (seq<Byte>, seq<Byte>, Word32, nat) -> seq<Byte>)

  ghost predicate CryptoOk(crypto: Crypto) {
    && (forall key, iv, n: nat :: |crypto.keystream(key, iv, n)| == n)
    && (forall key, data, roc, n: nat :: |crypto.tag(key, data, roc, n)| == n)
  }

  datatype Keys = Keys(sessionKey: seq<Byte>, sessionSalt: seq<Byte>, authKey: seq<Byte>, authTagLen: nat)

  ghost predicate KeysOk(keys: Keys) {
    |keys.sessionSalt| == 14 && 0 < keys.authTagLen <= 20
  }

  function Encrypted(crypto: Crypto, keys: Keys, ssrc: Word32, index: nat, payload: seq<Byte>): (r: seq<Byte>)
    requires |keys.sessionSalt| == 14
    requires |crypto.keystream(keys.sessionKey, Iv(keys.sessionSalt, ssrc, index), |payload|)| == |payload|
    ensures |r| == |payload|
  {
    XorBytes(payload, crypto.keystream(keys.sessionKey, Iv(keys.sessionSalt, ssrc, index), |payload|))
  }

  /** The packet on the wire when the counter already stands at it. */
  ghost function Wire(crypto: Crypto, keys: Keys, c: Roc, p: Packet): seq<Byte>
    requires CryptoOk(crypto) && KeysOk(keys) && |p.header.csrc| == p.header.csrcCount
  {
    var cipher := Encrypted(crypto, keys, p.header.ssrc, Index(c, p.header.sequenceNumber), p.payload);
    var clear := HeaderBytes(p.header) + cipher;
    clear + crypto.tag(keys.authKey, clear, c.roc, keys.authTagLen)
  }

  /** The same for a header whose count field and list may disagree. */
  ghost function Sealed(crypto: Crypto, keys: Keys, roc: Word32, h: Header, cipher: seq<Byte>): seq<Byte>
    requires Reach(h) <= Size(h) + |cipher| + keys.authTagLen
  {
    var clear := Overlay(h, Zeros(Size(h) + |cipher| + keys.authTagLen))[..Size(h)] + cipher;
    clear + crypto.tag(keys.authKey, clear, roc, keys.authTagLen)
  }

  lemma SealedOfCounted(crypto: Crypto, keys: Keys, roc: Word32, h: Header, cipher: seq<Byte>)
    requires |h.csrc| == h.csrcCount
    ensures Reach(h) <= Size(h) + |cipher| + keys.authTagLen
    ensures var clear := HeaderBytes(h) + cipher;
            Sealed(crypto, keys, roc, h, cipher) == clear + crypto.tag(keys.authKey, clear, roc, keys.authTagLen)
  {
    hide HeaderBytes, Overlay;
    var zeros := Zeros(Size(h) + |cipher| + keys.authTagLen);
    OverlayOfCounted(h, zeros);
    assert Overlay(h, zeros)[..Size(h)] == HeaderBytes(h);
  }

  /** A buffer up to the end of what was stored into it. */
  lemma Appended(was: seq<Byte>, at: nat, x: seq<Byte>, after: seq<Byte>)
    requires at + |x| <= |was| && after == was[..at] + x + was[at + |x|..]
    ensures after[..at + |x|] == was[..at] + x
  {
  }

  lemma SaltPadded(salt: seq<Byte>, zeros: seq<Byte>, padded: seq<Byte>)
    requires |salt| == 14 && zeros == [0, 0, 0, 0, 0, 0, 0, 0, 0, 0, 0, 0, 0, 0, 0, 0]
    requires padded == zeros[..0] + salt[..14] + zeros[14..]
    ensures padded == salt + [0, 0]
    ensures padded[..4] == salt[..4] && padded[4..8] == salt[4..8]
    ensures padded[8..14] == salt[8..14] && padded[14..] == [0, 0]
  {
    assert salt[..14] == salt && zeros[14..] == [0, 0];
  }

  lemma SourceFolded(padded: seq<Byte>, mixed: seq<Byte>, first: seq<Byte>)
    requires |padded| == 16 && |mixed| == 4 && first == padded[..4] + mixed + padded[8..]
    ensures first[..8] == padded[..4] + mixed && first[8..14] == padded[8..14] && first[14..] == padded[14..]
  {
  }

  /** One of the loops that fold a big-endian number into the vector. */
  method XorInto(iv: array<Byte>, at: nat, src: seq<Byte>)
    requires at + |src| <= iv.Length
    modifies iv
    ensures iv[..] == old(iv[..at]) + XorBytes(old(iv[at..at + |src|]), src) + old(iv[at + |src|..])
  {
    ghost var was := iv[..];
    ghost var mixed := XorBytes(was[at..at + |src|], src);
    for i := 0 to |src|
      invariant forall j :: 0 <= j < iv.Length ==> iv[j] == if at <= j < at + i then mixed[j - at] else was[j]
    {
      assert mixed[i] == Xor8(was[at + i], src[i]);
      iv[at + i] := Xor8(iv[at + i], src[i]);
    }
  }

  datatype Opened = Opened(packet: Packet) | TooShort | BadHeader

  class SrtpContext {
    const crypto: Crypto
    const keys: Keys
    var roc: Word32
    var lastSeq: Word16
    var initialized: bool

    ghost predicate Valid() {
      CryptoOk(crypto) && KeysOk(keys)
    }

    function View(): Roc
      reads this
    {
      Roc(roc, lastSeq, initialized)
    }

    constructor (crypto: Crypto, keys: Keys)
      requires CryptoOk(crypto) && KeysOk(keys)
      ensures Valid() && View() == NoPackets() && this.crypto == crypto && this.keys == keys
    {
      this.crypto, this.keys := crypto, keys;
      roc, lastSeq, initialized := 0, 0, false;
    }

    method UpdateRoc(s: Word16)
      modifies this
      ensures View() == Updated(old(View()), s)
    {
      if !initialized {
        lastSeq := s;
        initialized := true;
        return;
      }
      var diff := s as int - lastSeq as int;
      if diff < -32768 {
        roc := (roc as int + 1) % 0x1_0000_0000;
      }
      lastSeq := s;
    }

    method GenerateIv(ssrc: Word32, index: nat) returns (iv: array<Byte>)
      requires Valid()
      ensures fresh(iv) && iv[..] == Iv(keys.sessionSalt, ssrc, index)
    {
      hide Be32, Be48, XorBytes;
      var salt := keys.sessionSalt;
      iv := new Byte[16](i => 0);
      ghost var zeros := iv[..];
      Copy(iv, 0, salt[..14]);
      ghost var padded := iv[..];
      SaltPadded(salt, zeros, padded);
      XorInto(iv, 4, Be32(ssrc));
      ghost var first := iv[..];
      SourceFolded(padded, XorBytes(salt[4..8], Be32(ssrc)), first);
      XorInto(iv, 8, Be48(index));
      assert iv[..] == first[..8] + XorBytes(salt[8..14], Be48(index)) + first[14..];
    }

    method AesCtrXor(iv: seq<Byte>, src: seq<Byte>) returns (dst: seq<Byte>)
      requires Valid()
      ensures |crypto.keystream(keys.sessionKey, iv, |src|)| == |src|
      ensures dst == XorBytes(src, crypto.keystream(keys.sessionKey, iv, |src|))
    {
      dst := XorBytes(src, crypto.keystream(keys.sessionKey, iv, |src|));
    }

    /** The counter moves even if writing the header fails. */
    method Protect(p: Packet) returns (output: seq<Byte>, panicked: bool)
      requires Valid()
      modifies this
      ensures View() == Updated(old(View()), p.header.sequenceNumber)
      ensures panicked <==> Size(p.header) + |p.payload| + keys.authTagLen < Reach(p.header)
      ensures !panicked ==>
                var cipher := Encrypted(crypto, keys, p.header.ssrc, Index(View(), p.header.sequenceNumber), p.payload);
                output == Sealed(crypto, keys, roc, p.header, cipher)
      ensures |p.header.csrc| == p.header.csrcCount ==> !panicked && output == Wire(crypto, keys, View(), p)
    {
      hide Sealed, HeaderBytes;
      UpdateRoc(p.header.sequenceNumber);
      var index := roc as int * 65536 + p.header.sequenceNumber as int;
      var iv := GenerateIv(p.header.ssrc, index);
      var cipher := AesCtrXor(iv[..], p.payload);
      output, panicked := Assemble(p.header, cipher);
      if |p.header.csrc| == p.header.csrcCount {
        SealedOfCounted(crypto, keys, roc, p.header, cipher);
      }
    }

    /** Header, encrypted payload and tag, written one after another into one buffer. */
    method Assemble(h: Header, cipher: seq<Byte>) returns (output: seq<Byte>, panicked: bool)
      requires Valid()
      ensures panicked <==> Size(h) + |cipher| + keys.authTagLen < Reach(h)
      ensures !panicked ==> output == Sealed(crypto, keys, roc, h, cipher)
    {
      hide HeaderBytes, Size, Overlay, Reach;
      var headerSize := Size(h);
      var buf := new Byte[headerSize + |cipher| + keys.authTagLen](i => 0);
      assert buf[..] == Zeros(headerSize + |cipher| + keys.authTagLen);
      var encoded := EncodeHeader(h, buf);
      if encoded.Panic? {
        return [], true;
      }
      ghost var was := buf[..];
      Copy(buf, headerSize, cipher);
      Appended(was, headerSize, cipher, buf[..]);
      var authData := buf[..headerSize + |cipher|];
      ghost var clear := buf[..];
      var tag := crypto.tag(keys.authKey, authData, roc, keys.authTagLen);
      Copy(buf, headerSize + |cipher|, tag);
      Appended(clear, headerSize + |cipher|, tag, buf[..]);
      output := buf[..];
      assert output == output[..|output|];
      panicked := false;
    }

    /** A packet that is refused leaves the counter as it was. */
    method Unprotect(data: seq<Byte>) returns (r: Opened)
      requires Valid()
      modifies this
      ensures !r.Opened? ==> View() == old(View())
      ensures |data| < MIN_HEADER ==> r == TooShort
      ensures |data| >= MIN_HEADER && !ParseHeader(data).Ok? ==> r == BadHeader
      ensures ParseHeader(data).Ok? ==> (r.Opened? <==> Size(ParseHeader(data).value) + keys.authTagLen < |data|)
      ensures ParseHeader(data).Ok? && !r.Opened? ==> r == TooShort
      ensures r.Opened? ==>
        var h := ParseHeader(data).value;
        && View() == Updated(old(View()), h.sequenceNumber)
        && r.packet == Packet(h, Encrypted(crypto, keys, h.ssrc, Index(View(), h.sequenceNumber),
                                           data[Size(h)..|data| - keys.authTagLen]))
    {
      if |data| < 12 {
        return TooShort;
      }
      var decoded := DecodeHeader(data);
      if !decoded.Ok? {
        return BadHeader;
      }
      var header := decoded.value;
      var headerSize := Size(header);
      var payloadLen := |data| - headerSize - keys.authTagLen;
      if payloadLen <= 0 {
        return TooShort;
      }
      UpdateRoc(header.sequenceNumber);
      var index := roc as int * 65536 + header.sequenceNumber as int;
      var iv := GenerateIv(header.ssrc, index);
      var decrypted := AesCtrXor(iv[..], data[headerSize..headerSize + payloadLen]);
      r := Opened(Packet(header, decrypted));
    }
  }

  // ----- one packet -----

  /** Opening undoes protecting when both counters stand at the same index and there is a payload. */
  lemma OpensWire(crypto: Crypto, keys: Keys, c: Roc, p: Packet)
    requires CryptoOk(crypto) && KeysOk(keys) && WellFormed(p.header) && p.payload != []
    ensures var w, h := Wire(crypto, keys, c, p), p.header;
            && |w| >= MIN_HEADER && ParseHeader(w) == Ok(h) && Size(h) + keys.authTagLen < |w|
            && var middle := w[Size(h)..|w| - keys.authTagLen];
            Packet(h, Encrypted(crypto, keys, h.ssrc, Index(c, h.sequenceNumber), middle)) == p
  {
    var w, h := Wire(crypto, keys, c, p), p.header;
    var cipher := Encrypted(crypto, keys, h.ssrc, Index(c, h.sequenceNumber), p.payload);
    var tag := crypto.tag(keys.authKey, HeaderBytes(h) + cipher, c.roc, keys.authTagLen);
    assert w == HeaderBytes(h) + (cipher + tag);
    HeaderRoundTrip(h, cipher + tag);
    assert w[Size(h)..|w| - keys.authTagLen] == cipher;
    var iv := Iv(keys.sessionSalt, h.ssrc, Index(c, h.sequenceNumber));
    XorBytesTwice(p.payload, crypto.keystream(keys.sessionKey, iv, |p.payload|));
  }

  // ----- a whole stream -----

  /** Packets of one sender: numbered one after another from s0, each well formed and not empty. */
  ghost predicate Stream(packets: seq<Packet>, s0: Word16) {
    && s0 + |packets| <= 0x1_0000_0000_0000
    && forall i :: 0 <= i < |packets| ==>
         && WellFormed(packets[i].header) && packets[i].payload != []
         && packets[i].header.sequenceNumber == (s0 + i) % 65536
  }

  /** What the sender puts on the wire for packet i. */
  ghost function SentWire(crypto: Crypto, keys: Keys, packets: seq<Packet>, s0: Word16, i: nat): seq<Byte>
    requires CryptoOk(crypto) && KeysOk(keys) && Stream(packets, s0) && i < |packets|
  {
    Wire(crypto, keys, Roc((s0 + i) / 65536, (s0 + i) % 65536, true), packets[i])
  }

  /** The sender's index goes up by one with every packet. */
  method ProtectAll(ctx: SrtpContext, packets: seq<Packet>, s0: Word16) returns (wires: seq<seq<Byte>>)
    requires ctx.Valid() && ctx.View() == NoPackets() && Stream(packets, s0)
    modifies ctx
    ensures |wires| == |packets|
    ensures forall i :: 0 <= i < |packets| ==> wires[i] == SentWire(ctx.crypto, ctx.keys, packets, s0, i)
  {
    hide Wire, Index, WellFormed;
    wires := [];
    for i := 0 to |packets|
      invariant |wires| == i
      invariant i == 0 ==> ctx.View() == NoPackets()
      invariant i > 0 ==> StandsAt(ctx.View(), s0 + i - 1)
      invariant forall k :: 0 <= k < i ==> wires[k] == SentWire(ctx.crypto, ctx.keys, packets, s0, k)
    {
      if i == 0 {
        FirstStep(s0);
      } else {
        OneStep(ctx.View(), s0 + i - 1, s0 + i);
      }
      HeaderCounts(packets[i].header);
      var w, _ := ctx.Protect(packets[i]);
      wires := wires + [w];
    }
  }

  lemma HeaderCounts(h: Header)
    requires WellFormed(h)
    ensures |h.csrc| == h.csrcCount
  {
  }

  /** The packets that arrive, by their positions in the sender's stream. */
  ghost predicate Arrives(picks: seq<nat>, n: nat, s0: Word16) {
    && (forall j :: 0 <= j < |picks| ==> picks[j] < n)
    && (picks != [] ==> s0 + picks[0] < 65536)
    && (forall j :: 0 < j < |picks| ==> picks[j - 1] < picks[j] < picks[j - 1] + 32768)
  }

  /** A receiver fed any such part of the stream, in order, recovers every packet it is given. */
  method OpenAll(ctx: SrtpContext, wires: seq<seq<Byte>>, picks: seq<nat>, s0: Word16, ghost packets: seq<Packet>)
    returns (results: seq<Opened>)
    requires ctx.Valid() && ctx.View() == NoPackets() && Stream(packets, s0) && |wires| == |packets|
    requires forall i :: 0 <= i < |packets| ==> wires[i] == SentWire(ctx.crypto, ctx.keys, packets, s0, i)
    requires Arrives(picks, |packets|, s0)
    modifies ctx
    ensures |results| == |picks| && forall j :: 0 <= j < |picks| ==> results[j] == Opened(packets[picks[j]])
  {
    hide Wire, Index, WellFormed, Encrypted, ParseHeader;
    results := [];
    for j := 0 to |picks|
      invariant |results| == j
      invariant j == 0 ==> ctx.View() == NoPackets()
      invariant j > 0 ==> StandsAt(ctx.View(), s0 + picks[j - 1])
      invariant forall k :: 0 <= k < j ==> results[k] == Opened(packets[picks[k]])
    {
      var i := picks[j];
      if j == 0 {
        FirstStep(s0 + i);
      } else {
        OneStep(ctx.View(), s0 + picks[j - 1], s0 + i);
      }
      OpensWire(ctx.crypto, ctx.keys, Roc((s0 + i) / 65536, (s0 + i) % 65536, true), packets[i]);
      var r := ctx.Unprotect(wires[i]);
      results := results + [r];
    }
  }

  method Relay(crypto: Crypto, keys: Keys, packets: seq<Packet>, s0: Word16, picks: seq<nat>)
    returns (results: seq<Opened>)
    requires CryptoOk(crypto) && KeysOk(keys) && Stream(packets, s0) && Arrives(picks, |packets|, s0)
    ensures |results| == |picks| && forall j :: 0 <= j < |picks| ==> results[j] == Opened(packets[picks[j]])
  {
    var sender := new SrtpContext(crypto, keys);
    var receiver := new SrtpContext(crypto, keys);
    var wires := ProtectAll(sender, packets, s0);
    results := OpenAll(receiver, wires, picks, s0, packets);
  }
}
