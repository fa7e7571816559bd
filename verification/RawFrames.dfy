/** A small real frame library: zstd frames of raw blocks and skippable frames
    (sections 3.1.1 and 3.1.2 of RFC 8878), resumable at any byte, with the two
    ways libzstd has of reading a frame that says how long its content is. It
    keeps the contract of Frames. */
module RawFrames {
  import opened Zu
  import opened Codecs
  import opened Driver
  import opened ByteFrames
  import opened Checksum
  import F = Frames
  import H = Huffman
  import S = FramedStreams
  import W = ZstdWindow

  /** Collecting the magic and the frame header, a block's header or its data,
      a skippable frame's size or its data; or wrong. `due`: content still to
      come, if the frame says. */
  datatype St = Head(h: seq<byte>) | Block(h: seq<byte>, due: Option<int>) | Copy(left: nat, last: bool, due: Option<int>)
              | Size(h: seq<byte>) | Skip(left: nat) | Failed(status: Status)

  const BLANK: St := Head([])

  const INVALID: St := Failed(ErrInvalidData)

  /** Window_Descriptor: exponent and mantissa. */
  function Window(wd: byte): (n: nat) {
    H.Pow2(10 + wd / 8) + H.Pow2(7 + wd / 8) * (wd % 8)
  }

  /** Does max_output, if one is looked at, refuse that window? */
  predicate Refused(lim: Option<uint64>, wd: byte) {
    lim.Some? && Window(wd) > H.Pow2(W.WindowLog(lim.value))
  }

  /** ZSTD_error_frameParameter_windowTooLarge. */
  function Refusal(lim: Option<uint64>): (st: Status) {
    if lim.Some? && lim.value != 0 then ErrOutputLimit else ErrUnsupported
  }

  /** A frame's header: a window and no content size (0), or with a content
      size in four bytes (0x80); no checksum. The window is looked at when the
      header is complete. */
  function PushHead(lim: Option<uint64>, h: seq<byte>, b: byte): (s: St) {
    var h1 := h + [b];
    if |h1| < 4 then Head(h1)
    else if |h1| == 4 && h1[0] / 16 == 5 && h1[1..] == F.SKIP_TAIL then Size([])
    else if h1[..4] != F.Magic(F.ZstdFrames) || (|h1| >= 5 && h1[4] != 0 && h1[4] != 0x80) then INVALID
    else if |h1| < 6 || (h1[4] == 0x80 && |h1| < 10) then Head(h1)
    else if Refused(lim, h1[5]) then Failed(Refusal(lim))
    else Block([], if h1[4] == 0x80 then Some(Le32(h1[6..10])) else None)
  }

  const MAX_BLOCK: nat := 0x2_0000

  function BlockHeader(size: nat, last: bool): (h: seq<byte>)
    requires size <= MAX_BLOCK
    ensures |h| == 3 && Le24(h) == 8 * size + if last then 1 else 0
  {
    var v := 8 * size + if last then 1 else 0;
    [v % 256, v / 256 % 256, v / 65536]
  }

  function Le24(h: seq<byte>): (v: nat)
    requires |h| == 3
  {
    var a: int, b: int, c: int := h[0], h[1], h[2];
    a + 256 * b + 65536 * c
  }

  /** After `left` more bytes of a block; a frame that is over is as long as
      it said. */
  function Within(left: nat, last: bool, due: Option<int>): (e: Bite<St>) {
    if left > 0 then Bite(Copy(left, last, due), [], false)
    else if !last then Bite(Block([], due), [], false)
    else if due == None || due == Some(0) then Bite(BLANK, [], true)
    else Bite(INVALID, [], false)
  }

  function Less(due: Option<int>, n: nat): (d: Option<int>) {
    if due.Some? then Some(due.value - n) else None
  }

  function Eat(lim: Option<uint64>, s: St, b: byte): (e: Bite<St>)
    ensures |e.out| <= 1 && (e.over ==> e.next == BLANK) && (!e.over ==> e.next != BLANK)
  {
    match s
    case Head(h) => Bite(PushHead(lim, h, b), [], false)
    case Block(h, due) =>
      var h1 := h + [b];
      if |h1| < 3 then Bite(Block(h1, due), [], false)
      else if |h1| == 3 && Le24(h1) / 2 % 4 == 0 && Le24(h1) / 8 <= MAX_BLOCK then Within(Le24(h1) / 8, Le24(h1) % 2 == 1, due)
      else Bite(INVALID, [], false)
    case Copy(left, last, due) => Within(if left > 0 then left - 1 else 0, last, Less(due, 1)).(out := [b])
    case Size(h) =>
      var h1 := h + [b];
      if |h1| < 4 then Bite(Size(h1), [], false)
      else if |h1| > 4 then Bite(INVALID, [], false)
      else if Le32(h1) > 0 then Bite(Skip(Le32(h1)), [], false) else Bite(BLANK, [], true)
    case Skip(left) => if left > 1 then Bite(Skip(left - 1), [], false) else Bite(BLANK, [], true)
    case Failed(st) => Bite(s, [], false)
  }

  /** Reading byte by byte, with the window limited. */
  function Limited(lim: Option<uint64>): (m: Reader<St>) {
    Reader(BLANK,
           (s: St) => if !s.Failed? then None else Some(if s.status.IsError() then s.status else ErrInternal),
           (s: St) => s.Copy?,
           (s: St, b: byte) => Eat(lim, s, b))
  }

  lemma LimitedIsSound(lim: Option<uint64>)
    ensures Sound(Limited(lim))
  {
    forall s: St, b: byte ensures EatsWell(Limited(lim), s, b) {
      hide PushHead, Le24, Le32;
    }
  }

  function Read(lim: Option<uint64>, s: St, rest: seq<byte>): (i: F.Frame) {
    Residual(Limited(lim), s, rest)
  }

  /** The header begins with a content size. */
  predicate Sized(h: seq<byte>) {
    |h| >= 6 && h[..4] == F.Magic(F.ZstdFrames) && h[4] == 0x80
  }

  /** The single pass of ZSTD_decompressStream: the whole of a frame that says
      how long it is, with room for that, is decoded there and then, and its
      window is not looked at. */
  predicate AtOnce(w: seq<byte>, room: nat) {
    Sized(w) && var i := Read(None, BLANK, w); i.WholeFrame? && |i.out| <= room
  }

  function Step(m: uint64, s: St, w: seq<byte>, room: nat): (t: F.LibTurn<St>)
    ensures t.used <= |w| && |t.out| <= room
  {
    if s == BLANK && AtOnce(w, room) then
      var i := Read(None, BLANK, w);
      F.LibTurn(BLANK, i.used, i.out, F.FrameEnd)
    else Stream(Limited(Some(m)), s, w, room)
  }

  const RawLib: F.Lib<St> :=
    F.Lib(BLANK, (s: St) => s == BLANK, (m: uint64, s: St, w: seq<byte>, room: nat) => Step(m, s, w, room))

  /** A frame that says how long it is, and whose window is refused, may be read
      either way. */
  function Amounts(m: uint64, s: St, rest: seq<byte>): (i: F.Frame) {
    if s == BLANK && Sized(rest) && Refused(Some(m), rest[5]) then F.OpenFrame else Read(Some(m), s, rest)
  }

  /** The window a frame declares, once it is in view. */
  function Declared(s: St, rest: seq<byte>): (n: nat) {
    if s.Head? && |s.h + rest| >= 6 && (s.h + rest)[..4] == F.Magic(F.ZstdFrames) then Window((s.h + rest)[5]) else 0
  }

  const RawSem: F.LibSem<St> :=
    F.LibSem((s: St) => true, (m: uint64, s: St, rest: seq<byte>) => Amounts(m, s, rest),
             (s: St, rest: seq<byte>) => Declared(s, rest), (s: St) => 0)

  lemma MagicIsTaken(lim: Option<uint64>, p: seq<byte>)
    requires |p| == 4 && F.IsPrefix(F.ZstdFrames, p)
    ensures var t := Stream(Limited(lim), BLANK, p, 0); t.used == 4 && t.code == F.More
  {
    MagicPushed(lim, p);
    hide Stream, Eat, F.IsPrefix;
    var m, a, b, c := Limited(lim), Head([p[0]]), Head([p[0], p[1]]), Head([p[0], p[1], p[2]]);
    StreamEats(m, BLANK, p, 0);
    StreamEats(m, a, p[1..], 0);
    StreamEats(m, b, p[1..][1..], 0);
    StreamEats(m, c, p[1..][1..][1..], 0);
    StreamNothing(m, Eat(lim, c, p[3]).next, 0);
    assert p[1..][1..][1..][1..] == [];
  }

  lemma MagicPushed(lim: Option<uint64>, p: seq<byte>)
    requires |p| == 4 && F.IsPrefix(F.ZstdFrames, p)
    ensures Eat(lim, BLANK, p[0]) == Bite(Head([p[0]]), [], false)
    ensures Eat(lim, Head([p[0]]), p[1]) == Bite(Head([p[0], p[1]]), [], false)
    ensures Eat(lim, Head([p[0], p[1]]), p[2]) == Bite(Head([p[0], p[1], p[2]]), [], false)
    ensures var e := Eat(lim, Head([p[0], p[1], p[2]]), p[3]); !e.next.Failed? && !e.over
  {
    assert [] + [p[0]] == [p[0]] && [p[0]] + [p[1]] == [p[0], p[1]] && [p[0], p[1]] + [p[2]] == [p[0], p[1], p[2]];
    assert [p[0], p[1], p[2]] + [p[3]] == p;
  }

  // ---- The two ways agree where the window is admitted -------------------------------

  /** A limit that admits the declared window changes nothing. */
  lemma {:induction false} LimitIsIdle(lim: Option<uint64>, s: St, rest: seq<byte>)
    requires s.Head? && |s.h + rest| >= 6 && (s.h + rest)[..4] == F.Magic(F.ZstdFrames) ==> !Refused(lim, (s.h + rest)[5])
    ensures Read(lim, s, rest) == Read(None, s, rest)
    decreases |rest|
  {
    hide Refused;
    if !s.Failed? && rest != [] {
      if s.Head? {
        assert s.h + rest == s.h + [rest[0]] + rest[1..];
      }
      LimitedEat(lim, s, rest);
      hide Eat;
      var e := Eat(None, s, rest[0]);
      if !e.over {
        LimitIsIdle(lim, e.next, rest[1..]);
      }
    }
  }

  lemma LimitedEat(lim: Option<uint64>, s: St, rest: seq<byte>)
    requires rest != []
    requires s.Head? && |s.h + rest| >= 6 && (s.h + rest)[..4] == F.Magic(F.ZstdFrames) ==> !Refused(lim, (s.h + rest)[5])
    ensures Eat(lim, s, rest[0]) == Eat(None, s, rest[0])
    ensures var n := Eat(None, s, rest[0]).next; n.Head? ==> n == BLANK || (s.Head? && n.h == s.h + [rest[0]])
  {
    hide Window, Le32;
    if s.Head? {
      var h1 := s.h + [rest[0]];
      assert |h1| >= 6 ==> h1[..4] == (s.h + rest)[..4] && h1[5] == (s.h + rest)[5];
    }
  }

  lemma OneStepKeeps(m: uint64, s: St, w: seq<byte>, tail: seq<byte>, room: nat)
    ensures F.StepKeeps(RawLib, RawSem, m, s, w, tail, room)
  {
    LimitedIsSound(Some(m));
    hide Residual, Stream, Window, Limited;
    if Amounts(m, s, w + tail) != F.OpenFrame {
      if s == BLANK && AtOnce(w, room) {
        assert (w + tail)[..4] == w[..4] && [] + (w + tail) == w + tail;
        LimitIsIdle(Some(m), BLANK, w + tail);
        WholeStays(Limited(None), BLANK, w, tail);
      } else {
        StartIs(Some(m));
        ReaderSteps(Limited(Some(m)), s, w, tail, room);
        assert w[0..] == w;
      }
    }
  }

  lemma StartIs(lim: Option<uint64>)
    ensures Limited(lim).start == BLANK
  {
  }

  /** The contract assumed of a frame library can be met. */
  lemma RawLibKeeps()
    ensures F.LibKeeps(RawLib, RawSem, F.ZstdFrames)
  {
    hide Read, Stream, F.StepKeeps, F.IsPrefix, Window;
    forall m: uint64, d: St, w: seq<byte>, tail: seq<byte>, room: nat
      ensures F.StepKeeps(RawLib, RawSem, m, d, w, tail, room)
    {
      OneStepKeeps(m, d, w, tail, room);
    }
    forall m: uint64, d: St, p: seq<byte> ensures F.TakesMagic(RawLib, RawSem, F.ZstdFrames, m, d, p) {
      if |p| == 4 && F.IsPrefix(F.ZstdFrames, p) {
        MagicIsTaken(Some(m), p);
      }
    }
    forall m: uint64, d: St, rest: seq<byte> ensures F.FramesAlike(RawLib, RawSem, F.ZstdFrames, m, d, rest) {
      RawFramesAlike(m, d, rest);
    }
  }

  lemma RawFramesAlike(m: uint64, d: St, rest: seq<byte>)
    ensures F.FramesAlike(RawLib, RawSem, F.ZstdFrames, m, d, rest)
  {
    hide Read, Window;
    if F.Admitted(F.ZstdFrames, m, Declared(d, rest)) {
      W.Grows(W.WindowLog(m), W.LOG_DEFAULT);
      assert d == BLANK ==> d.h + rest == rest;
      LimitIsIdle(Some(m), d, rest);
      LimitIsIdle(Some(0), d, rest);
    }
  }

  // ---- Writing raw frames ------------------------------------------------------------

  function Blocks(data: seq<byte>): (z: seq<byte>)
    decreases |data|
  {
    var n := Min(|data|, MAX_BLOCK);
    BlockHeader(n, n == |data|) + data[..n] + if n == |data| then [] else Blocks(data[n..])
  }

  /** 128 KiB. */
  const SMALL_WINDOW: byte := 0x38

  function RawFrame(data: seq<byte>): (z: seq<byte>) {
    F.Magic(F.ZstdFrames) + [0, SMALL_WINDOW] + Blocks(data)
  }

  /** A frame that says how long it is, and declares any window. */
  function SizedFrame(data: seq<byte>, wd: byte): (z: seq<byte>)
    requires |data| < TWO32
  {
    SizedHeader(|data|, wd) + Blocks(data)
  }

  function SizedHeader(n: uint32, wd: byte): (h: seq<byte>)
    ensures |h| == 10
  {
    F.Magic(F.ZstdFrames) + [0x80, wd] + ToLe32(n)
  }

  lemma ReadEats(lim: Option<uint64>, s: St, b: byte, z: seq<byte>)
    requires !s.Failed?
    ensures var e := Eat(lim, s, b);
            Read(lim, s, [b] + z) == if e.over then F.WholeFrame(e.out, 1) else F.PrependFrame(e.out, 1, Read(lim, e.next, z))
  {
    ResidualEats(Limited(lim), s, b, z);
    hide Residual, Eat;
  }

  lemma {:induction false} CopyRead(lim: Option<uint64>, data: seq<byte>, last: bool, due: Option<int>, z: seq<byte>)
    requires data != [] && (last ==> due == None || due == Some(|data|))
    ensures Read(lim, Copy(|data|, last, due), data + z) ==
            if last then F.WholeFrame(data, |data|)
            else F.PrependFrame(data, |data|, Read(lim, Block([], Less(due, |data|)), z))
    decreases |data|
  {
    hide Read;
    var t := data[1..];
    assert data + z == [data[0]] + (t + z) && [data[0]] + t == data;
    ReadEats(lim, Copy(|data|, last, due), data[0], t + z);
    if t == [] {
      assert t + z == z;
    } else {
      CopyRead(lim, t, last, Less(due, 1), z);
      if !last {
        PrependFrameTwice([data[0]], 1, t, |t|, Read(lim, Block([], Less(due, |data|)), z));
      }
    }
  }

  lemma BlockHeaderRead(lim: Option<uint64>, n: nat, last: bool, due: Option<int>, z: seq<byte>)
    requires n <= MAX_BLOCK
    ensures var e, i := Within(n, last, due), Read(lim, Block([], due), BlockHeader(n, last) + z);
            i == if e.over then F.WholeFrame([], 3) else F.PrependFrame([], 3, Read(lim, e.next, z))
  {
    hide Read, BlockHeader, F.PrependFrame, Eat, Within;
    var h := BlockHeader(n, last);
    HeaderEaten(lim, h, n, last, due);
    assert h + z == [h[0]] + ([h[1]] + ([h[2]] + z));
    ReadEats(lim, Block([], due), h[0], [h[1]] + ([h[2]] + z));
    ReadEats(lim, Block([h[0]], due), h[1], [h[2]] + z);
    ReadEats(lim, Block([h[0], h[1]], due), h[2], z);
    ThreeSteps(lim, Within(n, last, due), z);
  }

  lemma HeaderEaten(lim: Option<uint64>, h: seq<byte>, n: nat, last: bool, due: Option<int>)
    requires |h| == 3 && n <= MAX_BLOCK && Le24(h) == 8 * n + if last then 1 else 0
    ensures Eat(lim, Block([], due), h[0]) == Bite(Block([h[0]], due), [], false)
    ensures Eat(lim, Block([h[0]], due), h[1]) == Bite(Block([h[0], h[1]], due), [], false)
    ensures Eat(lim, Block([h[0], h[1]], due), h[2]) == Within(n, last, due) && Within(n, last, due).out == []
  {
    hide Le24, Within;
    NothingWithin(n, last, due);
    assert [] + [h[0]] == [h[0]] && [h[0]] + [h[1]] == [h[0], h[1]] && [h[0], h[1]] + [h[2]] == h;
    var v := Le24(h);
    assert v / 2 % 4 == 0 && v / 8 == n && (v % 2 == 1 <==> last);
  }

  lemma NothingWithin(n: nat, last: bool, due: Option<int>)
    ensures Within(n, last, due).out == []
  {
  }

  lemma ThreeSteps(lim: Option<uint64>, e: Bite<St>, z: seq<byte>)
    requires e.out == []
    ensures var i := if e.over then F.WholeFrame([], 1) else F.PrependFrame([], 1, Read(lim, e.next, z));
            F.PrependFrame([], 1, F.PrependFrame([], 1, i)) ==
            if e.over then F.WholeFrame([], 3) else F.PrependFrame([], 3, Read(lim, e.next, z))
  {
    hide Read;
    PrependFrameTwice([], 1, [], 1, Read(lim, e.next, z));
    PrependFrameTwice([], 2, [], 1, Read(lim, e.next, z));
  }

  lemma {:induction false} BlocksRead(lim: Option<uint64>, data: seq<byte>, due: Option<int>, t: seq<byte>)
    requires due == None || due == Some(|data|)
    ensures Read(lim, Block([], due), Blocks(data) + t) == F.WholeFrame(data, |Blocks(data)|)
    decreases |data|
  {
    hide Read, F.PrependFrame;
    var n := Min(|data|, MAX_BLOCK);
    var last := n == |data|;
    var more := if last then [] else Blocks(data[n..]);
    var z := data[..n] + (more + t);
    assert Blocks(data) + t == BlockHeader(n, last) + z;
    BlockHeaderRead(lim, n, last, due, z);
    if n > 0 {
      CopyRead(lim, data[..n], last, due, more + t);
      if last {
        assert data[..n] == data;
        JoinWhole([], 3, data, n);
      } else {
        BlocksRead(lim, data[n..], Less(due, n), t);
        JoinWhole(data[..n], n, data[n..], |more|);
        JoinWhole([], 3, data, n + |more|);
        assert data[..n] + data[n..] == data;
      }
    }
  }

  /** A header not yet complete. */
  predicate Begun(h: seq<byte>) {
    if |h| <= 4 then h <= F.Magic(F.ZstdFrames)
    else h[..4] == F.Magic(F.ZstdFrames) && (h[4] == 0 || h[4] == 0x80) && (|h| < 6 || (h[4] == 0x80 && |h| < 10))
  }

  lemma BegunPushes(lim: Option<uint64>, h: seq<byte>, b: byte)
    requires Begun(h + [b])
    ensures PushHead(lim, h, b) == Head(h + [b])
  {
  }

  lemma BegunBefore(h: seq<byte>, n: nat)
    requires Begun(h) && n <= |h|
    ensures Begun(h[..n])
  {
  }

  lemma {:induction false} HeadBytes(lim: Option<uint64>, h: seq<byte>, q: seq<byte>, z: seq<byte>)
    requires Begun(h + q)
    ensures Read(lim, Head(h), q + z) == F.PrependFrame([], |q|, Read(lim, Head(h + q), z))
    decreases |q|
  {
    hide Read, F.PrependFrame;
    var none: seq<byte> := [];
    assert none + none == none;
    if q == [] {
      assert q + z == z && h + q == h;
      PrependFrameNothing(Read(lim, Head(h), z));
    } else {
      var h1 := h + [q[0]];
      assert q + z == [q[0]] + (q[1..] + z) && h1 + q[1..] == h + q && (h + q)[..|h1|] == h1;
      BegunBefore(h + q, |h1|);
      BegunPushes(lim, h, q[0]);
      ReadEats(lim, Head(h), q[0], q[1..] + z);
      HeadBytes(lim, h1, q[1..], z);
      PrependFrameTwice(none, 1, none, |q| - 1, Read(lim, Head(h + q), z));
    }
  }

  /** A whole header: its window is admitted, or the frame is refused there. */
  lemma HeaderRead(lim: Option<uint64>, h: seq<byte>, b: byte, due: Option<int>, z: seq<byte>)
    requires Begun(h) && |h| >= 5 && |h + [b]| == (if h[4] == 0x80 then 10 else 6)
    requires due == if h[4] == 0x80 then Some(Le32((h + [b])[6..10])) else None
    ensures var i := Read(lim, BLANK, h + ([b] + z));
            if Refused(lim, (h + [b])[5]) then i == F.BadFrame([], {Refusal(lim)})
            else i == F.PrependFrame([], |h| + 1, Read(lim, Block([], due), z))
  {
    hide F.PrependFrame, Read, PushHead, Refused, Refusal;
    var none: seq<byte> := [];
    assert none + h == h && none + none == none;
    HeadBytes(lim, none, h, [b] + z);
    LastPushed(lim, h, b, due);
    ReadEats(lim, Head(h), b, z);
    PrependFrameTwice(none, |h|, none, 1, Read(lim, PushHead(lim, h, b), z));
    if Refused(lim, (h + [b])[5]) {
      RefusedRead(lim, |h| + 1, z);
    }
  }

  lemma LastPushed(lim: Option<uint64>, h: seq<byte>, b: byte, due: Option<int>)
    requires Begun(h) && |h| >= 5 && |h + [b]| == (if h[4] == 0x80 then 10 else 6)
    requires due == if h[4] == 0x80 then Some(Le32((h + [b])[6..10])) else None
    ensures PushHead(lim, h, b) == if Refused(lim, (h + [b])[5]) then Failed(Refusal(lim)) else Block([], due)
  {
    hide Refused, Refusal, Le32;
    assert (h + [b])[..4] == h[..4] && (h + [b])[4] == h[4];
  }

  lemma RefusedRead(lim: Option<uint64>, n: nat, z: seq<byte>)
    ensures F.PrependFrame([], n, Read(lim, Failed(Refusal(lim)), z)) == F.BadFrame([], {Refusal(lim)})
  {
  }

  /** A raw frame reads back, whatever follows it and whatever the limit. */
  lemma RawFrameReads(data: seq<byte>, m: uint64)
    ensures S.IsFrame(RawLib, RawSem, F.ZstdFrames, m, S.Framed(RawFrame(data), data))
  {
    hide Read, Blocks, Window;
    var z := RawFrame(data);
    assert z[..4] == F.Magic(F.ZstdFrames);
    SmallIsAdmitted(m);
    forall t: seq<byte> {:trigger z + t}
      ensures Amounts(0, BLANK, z + t) == F.WholeFrame(data, |z|) && Declared(BLANK, z + t) == Window(SMALL_WINDOW)
    {
      RawRead(0, data, t);
    }
  }

  lemma RawRead(m: uint64, data: seq<byte>, t: seq<byte>)
    ensures var z := RawFrame(data);
            Amounts(m, BLANK, z + t) == F.WholeFrame(data, |z|) && Declared(BLANK, z + t) == Window(SMALL_WINDOW)
  {
    hide Read, Blocks, Window, F.PrependFrame;
    var z, h, r := RawFrame(data), F.Magic(F.ZstdFrames) + [0], Blocks(data) + t;
    assert z + t == h + ([SMALL_WINDOW] + r) && [] + (z + t) == z + t && (z + t)[..4] == h[..4] == F.Magic(F.ZstdFrames);
    SmallIsAdmitted(m);
    HeaderRead(Some(m), h, SMALL_WINDOW, None, r);
    BlocksRead(Some(m), data, None, t);
    JoinWhole([], 6, data, |Blocks(data)|);
  }

  lemma SmallIsAdmitted(m: uint64)
    ensures Window(SMALL_WINDOW) <= H.Pow2(W.WindowLog(m))
  {
    SmallIs();
    hide Window, H.Pow2;
    W.Grows(17, W.WindowLog(m));
  }

  lemma SmallIs()
    ensures Window(SMALL_WINDOW) == H.Pow2(17)
  {
    hide H.Pow2;
  }

  lemma SizedRead(lim: Option<uint64>, data: seq<byte>, wd: byte, t: seq<byte>)
    requires |data| < TWO32
    ensures var z := SizedFrame(data, wd);
            && Read(lim, BLANK, z + t) == (if Refused(lim, wd) then F.BadFrame([], {Refusal(lim)}) else F.WholeFrame(data, |z|))
            && |z| >= 10 && z[..4] == F.Magic(F.ZstdFrames) && z[4] == 0x80 && z[5] == wd
  {
    hide Read, F.PrependFrame, Window, Refused, Blocks, Le32, ToLe32;
    var z, g, r := SizedFrame(data, wd), SizedHeader(|data|, wd), Blocks(data) + t;
    var h := g[..9];
    assert z + t == h + ([g[9]] + r) && h + [g[9]] == g && g[6..10] == ToLe32(|data|);
    assert h[..4] == F.Magic(F.ZstdFrames) && h[4] == 0x80 && g[5] == wd && z[..4] == h[..4] && z[5] == g[5];
    HeaderRead(lim, h, g[9], Some(|data|), r);
    BlocksRead(lim, data, Some(|data|), t);
    JoinWhole([], 10, data, |Blocks(data)|);
  }

  /** A frame with a window too large for max_output may be read either way;
      with one that is admitted it is a frame like any other. */
  lemma SizedFrameReads(data: seq<byte>, wd: byte, m: uint64, t: seq<byte>)
    requires |data| < TWO32
    ensures var z := SizedFrame(data, wd);
            Amounts(m, BLANK, z + t) ==
            if F.Admitted(F.ZstdFrames, m, Window(wd)) then F.WholeFrame(data, |z|) else F.OpenFrame
  {
    var z := SizedFrame(data, wd);
    SizedRead(Some(m), data, wd, t);
    hide Read, Window;
    assert (z + t)[..4] == z[..4];
  }

  // ---- Skippable frames --------------------------------------------------------------------

  /** The four bytes, the size and that many bytes of anything. */
  function SkippableFrame(n: nat, data: seq<byte>): (z: seq<byte>)
    requires n < 16 && |data| < TWO32
  {
    ToLe32(0x184D_2A50 + n) + ToLe32(|data|) + data
  }

  lemma SkippableMagic(n: nat)
    requires n < 16
    ensures ToLe32(0x184D_2A50 + n) == [0x50 + n, 0x2A, 0x4D, 0x18]
  {
    var q: seq<byte> := [0x50 + n, 0x2A, 0x4D, 0x18];
    FieldsAreUnique(ToLe32(0x184D_2A50 + n), q);
  }

  lemma {:induction false} SkipRead(lim: Option<uint64>, data: seq<byte>, z: seq<byte>)
    requires data != []
    ensures Read(lim, Skip(|data|), data + z) == F.WholeFrame([], |data|)
    decreases |data|
  {
    hide Read;
    var t, none: seq<byte> := data[1..], [];
    assert data + z == [data[0]] + (t + z) && none + none == none;
    ReadEats(lim, Skip(|data|), data[0], t + z);
    if t != [] {
      SkipRead(lim, t, z);
    }
  }

  /** It reads as nothing, whatever is in it, whatever follows and whatever the
      limit: a frame without data. */
  lemma SkippableReads(n: nat, data: seq<byte>, m: uint64)
    requires n < 16 && |data| < TWO32
    ensures S.IsFrame(RawLib, RawSem, F.ZstdFrames, m, S.Framed(SkippableFrame(n, data), []))
  {
    hide Read, Window, ToLe32;
    var z := SkippableFrame(n, data);
    assert z[..4] == ToLe32(0x184D_2A50 + n);
    SkippableMagic(n);
    forall t: seq<byte> {:trigger z + t} ensures Amounts(0, BLANK, z + t) == F.WholeFrame([], |z|) && Declared(BLANK, z + t) == 0 {
      SkippableRead(n, data, t);
      assert (z + t)[..4] == z[..4] && [] + (z + t) == z + t && (z + t)[..4][0] == 0x50 + n;
    }
  }

  lemma SkippableRead(n: nat, data: seq<byte>, t: seq<byte>)
    requires n < 16 && |data| < TWO32
    ensures Read(Some(0), BLANK, SkippableFrame(n, data) + t) == F.WholeFrame([], |SkippableFrame(n, data)|)
  {
    hide Read, ToLe32, Le32, PushHead;
    SkippableMagic(n);
    var z, l, none: seq<byte> := SkippableFrame(n, data) + t, ToLe32(|data|), [];
    var h: seq<byte> := [0x50 + n, 0x2A, 0x4D, 0x18];
    var rest := data + t;
    SkippablePushed(n);
    assert none + none == none;
    assert z == [h[0]] + ([h[1]] + ([h[2]] + ([h[3]] + (l + rest))));
    ReadEats(Some(0), BLANK, h[0], [h[1]] + ([h[2]] + ([h[3]] + (l + rest))));
    ReadEats(Some(0), Head([h[0]]), h[1], [h[2]] + ([h[3]] + (l + rest)));
    ReadEats(Some(0), Head([h[0], h[1]]), h[2], [h[3]] + (l + rest));
    ReadEats(Some(0), Head([h[0], h[1], h[2]]), h[3], l + rest);
    SkippableSize(l, rest);
    if data != [] {
      SkipRead(Some(0), data, t);
    }
  }

  lemma SkippablePushed(n: nat)
    requires n < 16
    ensures PushHead(Some(0), [], 0x50 + n) == Head([0x50 + n])
    ensures PushHead(Some(0), [0x50 + n], 0x2A) == Head([0x50 + n, 0x2A])
    ensures PushHead(Some(0), [0x50 + n, 0x2A], 0x4D) == Head([0x50 + n, 0x2A, 0x4D])
    ensures PushHead(Some(0), [0x50 + n, 0x2A, 0x4D], 0x18) == Size([])
  {
    var a: byte := 0x50 + n;
    assert [] + [a] == [a] && [a] + [0x2A] == [a, 0x2A] && [a, 0x2A] + [0x4D] == [a, 0x2A, 0x4D];
    var h: seq<byte> := [a, 0x2A, 0x4D] + [0x18];
    assert h[1..] == F.SKIP_TAIL;
  }

  /** The four bytes of size, and what is to be skipped after them. */
  lemma SkippableSize(l: seq<byte>, z: seq<byte>)
    requires |l| == 4
    ensures Read(Some(0), Size([]), l + z) ==
            if Le32(l) > 0 then F.PrependFrame([], 4, Read(Some(0), Skip(Le32(l)), z)) else F.WholeFrame([], 4)
  {
    hide Read, Le32;
    var none: seq<byte> := [];
    assert none + none == none && none + [l[0]] == l[..1] && l[..1] + [l[1]] == l[..2] && l[..2] + [l[2]] == l[..3] && l[..3] + [l[3]] == l;
    assert l + z == [l[0]] + ([l[1]] + ([l[2]] + ([l[3]] + z)));
    ReadEats(Some(0), Size(none), l[0], [l[1]] + ([l[2]] + ([l[3]] + z)));
    ReadEats(Some(0), Size(l[..1]), l[1], [l[2]] + ([l[3]] + z));
    ReadEats(Some(0), Size(l[..2]), l[2], [l[3]] + z);
    ReadEats(Some(0), Size(l[..3]), l[3], z);
  }

  /** A frame, a skippable frame and a frame: a run that ends has delivered
      both frames' data and ends well, with every byte consumed. */
  lemma SkippableIsSkipped(a: seq<byte>, n: nat, data: seq<byte>, b: seq<byte>, opts: DecOpts, slots: seq<Slot>)
    requires n < 16 && |data| < TWO32 && S.Admits(opts, |a + b|)
    ensures InWindow(F.FramedCodec(RawLib, F.ZstdFrames))
    ensures var z := RawFrame(a) + SkippableFrame(n, data) + RawFrame(b);
            S.Minds(RawLib, F.ZstdFrames, opts, z, slots) ==>
              S.ReadsAs(S.Run(RawLib, F.ZstdFrames, opts, z, slots), a + b, |z|)
  {
    hide RawFrame, SkippableFrame, F.LibKeeps, S.IsFrame, InWindow, Keeps, S.Minds, S.ReadsAs;
    RawLibKeeps();
    F.FramedKeeps(RawLib, RawSem, F.ZstdFrames, opts);
    RawFrameReads(a, opts.maxOutput);
    SkippableReads(n, data, opts.maxOutput);
    RawFrameReads(b, opts.maxOutput);
    if S.Minds(RawLib, F.ZstdFrames, opts, RawFrame(a) + SkippableFrame(n, data) + RawFrame(b), slots) {
      S.SkippedBetween(RawLib, RawSem, F.ZstdFrames, S.Framed(RawFrame(a), a), S.Framed(SkippableFrame(n, data), []),
                       S.Framed(RawFrame(b), b), opts, slots);
    }
  }
}
