/** Redundant audio payloads: older frames travel in front of the main one, behind a run of small headers. */
module SplitRed {
  import opened Bytes

  type Code = x: int | 0 <= x < 128

  datatype Frame = Frame(data: seq<Byte>, timeCode: Code, isMain: bool)

  datatype Error = PktSizeZero | HeaderTooShort | RedundantTooShort | MainTooShort

  datatype Result<T> = Ok(value: T) | Err(error: Error)

  // ----- the layout -----

  datatype Block = Block(code: Code, data: seq<Byte>)

  datatype Layout = Layout(blocks: seq<Block>, mainCode: Code, main: seq<Byte>)

  /** Block sizes fit their byte. */
  predicate Fits(blocks: seq<Block>) {
    forall i :: 0 <= i < |blocks| ==> |blocks[i].data| < 256
  }

  /** And there is a main frame. */
  predicate WellFormed(x: Layout) {
    Fits(x.blocks) && x.main != []
  }

  function Headers(blocks: seq<Block>): (s: seq<Byte>)
    requires Fits(blocks)
    ensures |s| == 2 * |blocks|
  {
    if blocks == [] then [] else [0x80 + blocks[0].code, |blocks[0].data|] + Headers(blocks[1..])
  }

  function Bodies(blocks: seq<Block>): seq<Byte> {
    if blocks == [] then [] else blocks[0].data + Bodies(blocks[1..])
  }

  function Pack(x: Layout): seq<Byte>
    requires Fits(x.blocks)
  {
    Headers(x.blocks) + ([x.mainCode] + (Bodies(x.blocks) + x.main))
  }

  function FramesOf(x: Layout): seq<Frame> {
    seq(|x.blocks|, i requires 0 <= i < |x.blocks| => Frame(x.blocks[i].data, x.blocks[i].code, false))
    + [Frame(x.main, x.mainCode, true)]
  }

  // ----- what the parser reads -----

  datatype Header = Header(code: Code, size: Byte)

  datatype Scanned = Scanned(red: seq<Header>, cur: nat, rem: nat)

  /** The run of headers from cur on, when rem bytes are not yet spoken for. */
  function Scan(p: seq<Byte>, cur: nat, rem: nat): Result<Scanned>
    requires rem > 0 && cur + rem <= |p|
    decreases rem
  {
    if p[cur] < 0x80 then (if rem <= 1 then Err(MainTooShort) else Ok(Scanned([], cur, rem)))
    else if rem <= 2 || p[cur + 1] as int + 2 >= rem then Err(RedundantTooShort)
    else
      match Scan(p, cur + 2, rem - (p[cur + 1] as int + 2))
      case Err(e) => Err(e)
      case Ok(s) => Ok(s.(red := [Header(p[cur] - 0x80, p[cur + 1])] + s.red))
  }

  function SizeSum(red: seq<Header>): nat {
    if red == [] then 0 else red[0].size + SizeSum(red[1..])
  }

  /** The blocks the headers announce, cut out one after another. */
  function Cut(p: seq<Byte>, cur: nat, red: seq<Header>): (blocks: seq<Block>)
    requires cur + SizeSum(red) <= |p|
    ensures |blocks| == |red|
    ensures forall i :: 0 <= i < |red| ==>
            blocks[i].code == red[i].code && |blocks[i].data| == red[i].size
    decreases |red|
  {
    if red == [] then []
    else [Block(red[0].code, p[cur..cur + red[0].size])] + Cut(p, cur + red[0].size, red[1..])
  }

  lemma {:induction false} ScanAccounts(p: seq<Byte>, cur: nat, rem: nat)
    requires rem > 0 && cur + rem <= |p| && Scan(p, cur, rem).Ok?
    ensures var s := Scan(p, cur, rem).value;
            && s.cur == cur + 2 * |s.red| && rem == s.rem + 2 * |s.red| + SizeSum(s.red)
            && s.rem >= 2 && p[s.cur] < 0x80
    decreases rem
  {
    if p[cur] >= 0x80 {
      ScanAccounts(p, cur + 2, rem - (p[cur + 1] as int + 2));
      var s := Scan(p, cur, rem).value;
      assert s.red[1..] == Scan(p, cur + 2, rem - (p[cur + 1] as int + 2)).value.red;
    }
  }

  /** The layout a packet has, if it has one. */
  function Unpack(p: seq<Byte>): Result<Layout> {
    if p == [] then Err(PktSizeZero)
    else
      match Scan(p, 0, |p|)
      case Err(e) => Err(e)
      case Ok(s) =>
        ScanAccounts(p, 0, |p|);
        var body := s.cur + 1;
        Ok(Layout(Cut(p, body, s.red), p[s.cur], p[body + SizeSum(s.red)..]))
  }

  // ----- the program -----

  /** The header loop. Its first test never succeeds: a block that leaves nothing is refused before. */
  method ScanHeaders(p: seq<Byte>) returns (r: Result<Scanned>)
    requires |p| > 0
    ensures r == Scan(p, 0, |p|) && r != Err(HeaderTooShort)
  {
    var n := |p|;
    var red: seq<Header> := [];
    var cur := 0;
    var rem := n;
    PrependNothing(Scan(p, 0, n));
    while true
      invariant rem > 0 && cur + rem <= n
      invariant Scan(p, 0, n) == Prepend(red, Scan(p, cur, rem))
      decreases rem
    {
      if rem == 0 {
        return Err(HeaderTooShort);
      }
      var b0 := p[cur];
      if b0 < 0x80 {
        if rem <= 1 {
          return Err(MainTooShort);
        }
        break;
      }
      if rem <= 2 {
        return Err(RedundantTooShort);
      }
      var size: int := p[cur + 1];
      if size + 2 >= rem {
        return Err(RedundantTooShort);
      }
      PrependMore(red, Header(b0 - 0x80, size), Scan(p, cur + 2, rem - (size + 2)));
      red := red + [Header(b0 - 0x80, size)];
      cur := cur + 2;
      rem := rem - (size + 2);
    }
    assert red + [] == red;
    r := Ok(Scanned(red, cur, rem));
  }

  method Depack(p: seq<Byte>) returns (r: Result<seq<Frame>>)
    ensures r == (match Unpack(p) case Err(e) => Err(e) case Ok(x) => Ok(FramesOf(x)))
    ensures r != Err(HeaderTooShort)
  {
    if |p| == 0 {
      return Err(PktSizeZero);
    }
    var scanned := ScanHeaders(p);
    match scanned {
      case Err(e) => r := Err(e);
      case Ok(s) =>
        ScanAccounts(p, 0, |p|);
        var frames := CutFrames(p, s.cur, s.rem, s.red);
        r := Ok(frames);
    }
  }

  function Prepend(red: seq<Header>, s: Result<Scanned>): Result<Scanned> {
    match s
    case Err(e) => Err(e)
    case Ok(v) => Ok(v.(red := red + v.red))
  }

  lemma PrependNothing(s: Result<Scanned>)
    ensures Prepend([], s) == s
  {
    if s.Ok? {
      assert [] + s.value.red == s.value.red;
    }
  }

  lemma PrependMore(red: seq<Header>, h: Header, s: Result<Scanned>)
    ensures Prepend(red, Prepend([h], s)) == Prepend(red + [h], s)
  {
    if s.Ok? {
      assert red + ([h] + s.value.red) == red + [h] + s.value.red;
    }
  }

  /** The second loop: frames are slices of the packet, in header order. */
  method CutRedundant(p: seq<Byte>, cur0: nat, red: seq<Header>) returns (frames: seq<Frame>, cur: nat)
    requires cur0 + SizeSum(red) <= |p|
    ensures cur == cur0 + SizeSum(red) && |frames| == |red|
    ensures forall j :: 0 <= j < |red| ==>
            frames[j] == Frame(Cut(p, cur0, red)[j].data, Cut(p, cur0, red)[j].code, false)
  {
    hide Cut, SizeSum;
    cur := cur0;
    ghost var blocks := Cut(p, cur, red);
    frames := [];
    assert red[0..] == red;
    for i := 0 to |red|
      invariant cur + SizeSum(red[i..]) == cur0 + SizeSum(red)
      invariant Cut(p, cur, red[i..]) == blocks[i..]
      invariant |frames| == i && forall j :: 0 <= j < i ==> frames[j] == Frame(blocks[j].data, blocks[j].code, false)
    {
      CutStep(p, cur, red, i);
      assert blocks[i..][0] == blocks[i] && blocks[i..][1..] == blocks[i + 1..];
      var r := red[i];
      frames := frames + [Frame(p[cur..cur + r.size], r.code, false)];
      cur := cur + r.size;
    }
    NothingLeft(red);
  }

  lemma CutStep(p: seq<Byte>, cur: nat, red: seq<Header>, i: nat)
    requires i < |red| && cur + SizeSum(red[i..]) <= |p|
    ensures SizeSum(red[i..]) == red[i].size + SizeSum(red[i + 1..])
    ensures Cut(p, cur, red[i..]) ==
            [Block(red[i].code, p[cur..cur + red[i].size])] + Cut(p, cur + red[i].size, red[i + 1..])
  {
    var tail := red[i..];
    assert tail[0] == red[i] && tail[1..] == red[i + 1..];
    CutFirst(p, cur, tail);
  }

  lemma CutFirst(p: seq<Byte>, cur: nat, red: seq<Header>)
    requires red != [] && cur + SizeSum(red) <= |p|
    ensures SizeSum(red) == red[0].size + SizeSum(red[1..])
    ensures Cut(p, cur, red) == [Block(red[0].code, p[cur..cur + red[0].size])] + Cut(p, cur + red[0].size, red[1..])
  {
  }

  lemma NothingLeft(red: seq<Header>)
    ensures SizeSum(red[|red|..]) == 0
  {
  }

  /** All frames, the main one last. */
  method CutFrames(p: seq<Byte>, cur0: nat, rem: nat, red: seq<Header>) returns (frames: seq<Frame>)
    requires rem >= 2 && cur0 < |p| && p[cur0] < 0x80 && cur0 + rem + SizeSum(red) == |p|
    ensures frames == FramesOf(Layout(Cut(p, cur0 + 1, red), p[cur0], p[cur0 + 1 + SizeSum(red)..]))
  {
    hide SizeSum, Cut;
    var mainCode := p[cur0];
    var cur;
    frames, cur := CutRedundant(p, cur0 + 1, red);
    var mainSize := rem - 1;
    assert p[cur..cur + mainSize] == p[cur..];
    frames := frames + [Frame(p[cur..cur + mainSize], mainCode, true)];
  }

  // ----- parsing is the two-sided inverse of the layout -----

  lemma SliceHead(p: seq<Byte>, cur: nat, hs: seq<Byte>)
    requires |hs| >= 2 && cur + |hs| <= |p| && p[cur..cur + |hs|] == hs
    ensures p[cur] == hs[0] && p[cur + 1] == hs[1] && p[cur + 2..cur + |hs|] == hs[2..]
  {
    assert p[cur..cur + |hs|][0] == p[cur] && p[cur..cur + |hs|][1] == p[cur + 1];
    assert p[cur..cur + |hs|][2..] == p[cur + 2..cur + |hs|];
  }

  lemma NoHeaders()
    ensures HeadersOf([]) == []
  {
  }

  lemma HeadersOfCons(blocks: seq<Block>)
    requires blocks != [] && Fits(blocks)
    ensures HeadersOf(blocks) == [Header(blocks[0].code, |blocks[0].data|)] + HeadersOf(blocks[1..])
  {
  }

  lemma {:induction false} ScanOfHeaders(blocks: seq<Block>, p: seq<Byte>, cur: nat, rem: nat, mainSize: nat)
    requires Fits(blocks)
    requires cur + |Headers(blocks)| < |p| && p[cur..cur + |Headers(blocks)|] == Headers(blocks)
    requires p[cur + |Headers(blocks)|] < 0x80
    requires rem == |Headers(blocks)| + |Bodies(blocks)| + 1 + mainSize && cur + rem <= |p|
    ensures Scan(p, cur, rem) == if mainSize == 0 then Err(MainTooShort)
                                 else Ok(Scanned(HeadersOf(blocks), cur + |Headers(blocks)|, 1 + mainSize))
  {
    hide HeadersOf;
    if blocks == [] {
      NoHeaders();
    } else {
      var hs, rest := Headers(blocks), blocks[1..];
      SliceHead(p, cur, hs);
      assert p[cur + 2..cur + |hs|] == Headers(rest);
      ScanOfHeaders(rest, p, cur + 2, rem - (|blocks[0].data| + 2), mainSize);
      HeadersOfCons(blocks);
    }
  }

  function HeadersOf(blocks: seq<Block>): seq<Header>
    requires Fits(blocks)
  {
    seq(|blocks|, i requires 0 <= i < |blocks| => Header(blocks[i].code, |blocks[i].data|))
  }

  lemma {:induction false} CutOfBodies(blocks: seq<Block>, p: seq<Byte>, cur: nat)
    requires Fits(blocks)
    requires cur + |Bodies(blocks)| <= |p| && p[cur..cur + |Bodies(blocks)|] == Bodies(blocks)
    ensures SizeSum(HeadersOf(blocks)) == |Bodies(blocks)| && Cut(p, cur, HeadersOf(blocks)) == blocks
  {
    if blocks != [] {
      var size := |blocks[0].data|;
      var bodies := Bodies(blocks);
      assert p[cur..cur + size] == bodies[..size] == blocks[0].data by {
        assert p[cur..cur + |bodies|][..size] == p[cur..cur + size];
      }
      assert p[cur + size..cur + |bodies|] == bodies[size..] == Bodies(blocks[1..]) by {
        assert p[cur..cur + |bodies|][size..] == p[cur + size..cur + |bodies|];
      }
      CutOfBodies(blocks[1..], p, cur + size);
      assert HeadersOf(blocks)[1..] == HeadersOf(blocks[1..]);
    }
  }

  /** Every well-formed layout is read back. */
  lemma UnpackOfPack(x: Layout)
    requires WellFormed(x)
    ensures Unpack(Pack(x)) == Ok(x)
  {
    var p, h, b := Pack(x), |Headers(x.blocks)|, |Bodies(x.blocks)|;
    assert p[..h] == Headers(x.blocks) && p[h] == x.mainCode;
    assert p[h + 1..h + 1 + b] == Bodies(x.blocks) && p[h + 1 + b..] == x.main;
    assert p[0..0 + h] == p[..h];
    ScanOfHeaders(x.blocks, p, 0, |p|, |x.main|);
    CutOfBodies(x.blocks, p, h + 1);
  }

  /** The headers found are the byte pairs from cur on. */
  lemma {:induction false} ScanReads(p: seq<Byte>, cur: nat, rem: nat)
    requires rem > 0 && cur + rem <= |p| && Scan(p, cur, rem).Ok?
    ensures ReadFrom(p, cur, Scan(p, cur, rem).value.red)
    decreases rem
  {
    if p[cur] >= 0x80 {
      var size := p[cur + 1] as int;
      ScanReads(p, cur + 2, rem - (size + 2));
      ReadOneMore(p, cur, Header(p[cur] - 0x80, p[cur + 1]), Scan(p, cur + 2, rem - (size + 2)).value.red);
    }
  }

  ghost predicate ReadFrom(p: seq<Byte>, cur: nat, red: seq<Header>) {
    && cur + 2 * |red| <= |p|
    && forall i :: 0 <= i < |red| ==> p[cur + 2 * i] == 0x80 + red[i].code && p[cur + 2 * i + 1] == red[i].size
  }

  lemma ReadOneMore(p: seq<Byte>, cur: nat, h: Header, rest: seq<Header>)
    requires ReadFrom(p, cur + 2, rest) && p[cur] == 0x80 + h.code && p[cur + 1] == h.size
    ensures ReadFrom(p, cur, [h] + rest)
  {
    var red := [h] + rest;
    forall i | 0 <= i < |red|
      ensures p[cur + 2 * i] == 0x80 + red[i].code && p[cur + 2 * i + 1] == red[i].size
    {
      if i > 0 {
        assert p[cur + 2 + 2 * (i - 1)] == 0x80 + rest[i - 1].code;
      }
    }
  }

  lemma {:induction false} HeadersAt(blocks: seq<Block>, i: nat)
    requires Fits(blocks) && i < |blocks|
    ensures Headers(blocks)[2 * i] == 0x80 + blocks[i].code && Headers(blocks)[2 * i + 1] == |blocks[i].data|
  {
    if i > 0 {
      HeadersAt(blocks[1..], i - 1);
    }
  }

  lemma {:induction false} HeadersByPosition(blocks: seq<Block>, p: seq<Byte>, red: seq<Header>)
    requires Fits(blocks) && ReadFrom(p, 0, red) && |red| == |blocks|
    requires forall i :: 0 <= i < |red| ==> red[i].code == blocks[i].code && red[i].size == |blocks[i].data|
    ensures Headers(blocks) == p[0..2 * |blocks|]
  {
    hide Headers;
    forall k | 0 <= k < 2 * |blocks|
      ensures Headers(blocks)[k] == p[k]
    {
      var i := k / 2;
      HeadersAt(blocks, i);
      assert p[0 + 2 * i] == 0x80 + red[i].code && p[0 + 2 * i + 1] == red[i].size;
      assert k == 2 * i || k == 2 * i + 1;
    }
  }

  lemma {:induction false} BodiesOfCut(p: seq<Byte>, cur: nat, red: seq<Header>)
    requires cur + SizeSum(red) <= |p|
    ensures HeadersOf(Cut(p, cur, red)) == red && Bodies(Cut(p, cur, red)) == p[cur..cur + SizeSum(red)]
    decreases |red|
  {
    if red != [] {
      BodiesOfCut(p, cur + red[0].size, red[1..]);
      assert Cut(p, cur, red)[1..] == Cut(p, cur + red[0].size, red[1..]);
    }
  }

  lemma InFourParts(p: seq<Byte>, cur: nat, size: nat)
    requires cur + 1 + size <= |p|
    ensures p == p[0..cur] + ([p[cur]] + (p[cur + 1..cur + 1 + size] + p[cur + 1 + size..]))
  {
  }

  /** A packet that starts with these headers is the packing of the layout they announce. */
  lemma Reassembled(p: seq<Byte>, red: seq<Header>)
    requires ReadFrom(p, 0, red) && 2 * |red| + 1 + SizeSum(red) <= |p| && p[2 * |red|] < 0x80
    ensures var (n, body) := (2 * |red|, 2 * |red| + 1);
            var x := Layout(Cut(p, body, red), p[n], p[body + SizeSum(red)..]);
            Fits(x.blocks) && Pack(x) == p
  {
    hide Headers, Bodies, Cut, SizeSum, ReadFrom;
    var (n, body) := (2 * |red|, 2 * |red| + 1);
    var blocks := Cut(p, body, red);
    BodiesOfCut(p, body, red);
    HeadersByPosition(blocks, p, red);
    InFourParts(p, n, SizeSum(red));
  }

  /** Only packets that are a well-formed layout are accepted, and nothing of them is lost. */
  lemma PackOfUnpack(p: seq<Byte>)
    requires Unpack(p).Ok?
    ensures WellFormed(Unpack(p).value) && Pack(Unpack(p).value) == p
  {
    hide Pack, Cut, SizeSum, Scan, ReadFrom;
    var s := Scan(p, 0, |p|).value;
    ScanAccounts(p, 0, |p|);
    ScanReads(p, 0, |p|);
    Reassembled(p, s.red);
  }

  // ----- the bytes of a packet -----

  function Joined(frames: seq<Frame>): seq<Byte> {
    if frames == [] then [] else frames[0].data + Joined(frames[1..])
  }

  lemma {:induction false} JoinedFrames(x: Layout)
    ensures Joined(FramesOf(x)) == Bodies(x.blocks) + x.main
    decreases |x.blocks|
  {
    if x.blocks == [] {
      assert FramesOf(x) == [Frame(x.main, x.mainCode, true)];
      assert FramesOf(x)[1..] == [];
    } else {
      var rest := x.(blocks := x.blocks[1..]);
      JoinedFrames(rest);
      assert FramesOf(x)[1..] == FramesOf(rest);
    }
  }

  /**
    The frames of a packet, byte by byte: each redundant one has a marked time code and its size in front, the
    main one, alone and last, its bare time code, and their data is the rest of the packet.
   */
  lemma FramesReadPacket(p: seq<Byte>)
    requires Unpack(p).Ok?
    ensures var frames := FramesOf(Unpack(p).value);
            var n := |frames| - 1;
            && 0 <= n && 2 * n < |p|
            && (forall i :: 0 <= i <= n ==> (frames[i].isMain <==> i == n))
            && (forall i :: 0 <= i < n ==> p[2 * i] == 0x80 + frames[i].timeCode && p[2 * i + 1] == |frames[i].data|)
            && p[2 * n] == frames[n].timeCode && frames[n].data != []
            && Joined(frames) == p[2 * n + 1..]
  {
    PackOfUnpack(p);
    var x := Unpack(p).value;
    JoinedFrames(x);
    hide Unpack, Bodies, Joined;
    var h := Headers(x.blocks);
    assert forall i :: 0 <= i < |h| ==> p[i] == h[i];
    forall i | 0 <= i < |x.blocks|
      ensures h[2 * i] == 0x80 + x.blocks[i].code && h[2 * i + 1] == |x.blocks[i].data|
    {
      HeadersAt(x.blocks, i);
    }
  }

  // ----- what is refused -----

  /** Headers that spend the whole packet but the byte of the main time code. */
  lemma {:induction false} SpentByHeaders(p: seq<Byte>, cur: nat, rem: nat) returns (red: seq<Header>)
    requires rem > 0 && cur + rem <= |p| && Scan(p, cur, rem) == Err(MainTooShort)
    ensures rem == 2 * |red| + 1 + SizeSum(red) && p[cur + 2 * |red|] < 0x80
    ensures ReadFrom(p, cur, red)
    decreases rem
  {
    if p[cur] < 0x80 {
      red := [];
    } else {
      var rest := SpentByHeaders(p, cur + 2, rem - (p[cur + 1] as int + 2));
      red := [Header(p[cur] - 0x80, p[cur + 1])] + rest;
      assert red[1..] == rest;
      ReadOneMore(p, cur, red[0], rest);
    }
  }

  lemma MainMissing(p: seq<Byte>) returns (x: Layout)
    requires Unpack(p) == Err(MainTooShort)
    ensures Fits(x.blocks) && x.main == [] && Pack(x) == p
  {
    var red := SpentByHeaders(p, 0, |p|);
    hide Pack, Cut, SizeSum, Scan, ReadFrom;
    x := Layout(Cut(p, 2 * |red| + 1, red), p[2 * |red|], p[2 * |red| + 1 + SizeSum(red)..]);
    Reassembled(p, red);
  }

  lemma MainMissingIsRefused(x: Layout)
    requires Fits(x.blocks) && x.main == []
    ensures Unpack(Pack(x)) == Err(MainTooShort)
  {
    var p, h := Pack(x), |Headers(x.blocks)|;
    assert p[0..0 + h] == Headers(x.blocks) && p[h] == x.mainCode;
    ScanOfHeaders(x.blocks, p, 0, |p|, 0);
  }

  /** A nonempty packet without a main frame is reported as such exactly if it is otherwise a packed layout. */
  lemma RefusedExactly(p: seq<Byte>)
    ensures Unpack(p) == Err(PktSizeZero) <==> p == []
    ensures Unpack(p) == Err(MainTooShort) <==> exists x: Layout :: Fits(x.blocks) && x.main == [] && Pack(x) == p
    ensures Unpack(p) != Err(HeaderTooShort)
  {
    hide Pack;
    forall x: Layout | Fits(x.blocks) && x.main == [] && Pack(x) == p
      ensures Unpack(p) == Err(MainTooShort)
    {
      MainMissingIsRefused(x);
    }
    if Unpack(p) == Err(MainTooShort) {
      var x := MainMissing(p);
    }
    NeverHeaderTooShort(p, 0, |p|);
  }

  lemma {:induction false} NeverHeaderTooShort(p: seq<Byte>, cur: nat, rem: nat)
    requires cur + rem <= |p|
    ensures rem > 0 ==> Scan(p, cur, rem) != Err(HeaderTooShort) && Scan(p, cur, rem) != Err(PktSizeZero)
    decreases rem
  {
    if rem > 2 && p[cur] >= 0x80 && p[cur + 1] as int + 2 < rem {
      NeverHeaderTooShort(p, cur + 2, rem - (p[cur + 1] as int + 2));
    }
  }

  /** The accepted packets are exactly the packed layouts. */
  lemma AcceptsExactlyLayouts(p: seq<Byte>)
    ensures Unpack(p).Ok? <==> exists x :: WellFormed(x) && Pack(x) == p
  {
    if Unpack(p).Ok? {
      PackOfUnpack(p);
    }
    forall x | WellFormed(x) && Pack(x) == p
      ensures Unpack(p).Ok?
    {
      UnpackOfPack(x);
    }
  }
}
