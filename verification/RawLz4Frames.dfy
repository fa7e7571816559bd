/** The LZ4 frame format as far as uncompressed blocks go: a reader of such
    frames and of skippable ones that keeps the contract of Frames, and a
    writer of them that keeps the contract of FrameEncoders. */
module RawLz4Frames {
  import opened Zu
  import opened ByteFrames
  import opened Checksum
  import F = Frames
  import S = FramedStreams
  import E = FrameEncoders

  // ---- Reading ---------------------------------------------------------------------------

  /** Collecting the header, a block's size or its data, a skippable frame's size
      or its data; or wrong. */
  datatype St = Head(h: seq<byte>) | Block(h: seq<byte>) | Copy(left: nat) | Size(h: seq<byte>) | Skip(left: nat) | Failed

  const BLANK: St := Head([])

  /** The magic; version 1 with independent blocks and nothing optional; blocks
      of 64 KiB; and the second byte of the xxHash-32 of those two. */
  const HEADER: seq<byte> := [0x04, 0x22, 0x4D, 0x18, 0x60, 0x40, 0x82]

  /** The high bit of a block's size: it is not compressed. */
  const UNCOMPRESSED: int := 0x8000_0000

  function PushHead(h: seq<byte>, b: byte): (s: St) {
    var h1 := h + [b];
    if |h1| < 4 then Head(h1)
    else if |h1| == 4 && h1[0] / 16 == 5 && h1[1..] == F.SKIP_TAIL then Size([])
    else if !(h1 <= HEADER) then Failed
    else if |h1| < |HEADER| then Head(h1) else Block([])
  }

  function Eat(s: St, b: byte): (e: Bite<St>) {
    match s
    case Head(h) => Bite(PushHead(h, b), [], false)
    case Block(h) =>
      var h1 := h + [b];
      if |h1| < 4 then Bite(Block(h1), [], false)
      else if |h1| > 4 then Bite(Failed, [], false)
      else if Le32(h1) == 0 then Bite(BLANK, [], true)
      else if UNCOMPRESSED < Le32(h1) <= UNCOMPRESSED + E.BLOCK then Bite(Copy(Le32(h1) - UNCOMPRESSED), [], false)
      else Bite(Failed, [], false)
    case Copy(left) => Bite(if left > 1 then Copy(left - 1) else Block([]), [b], false)
    case Size(h) =>
      var h1 := h + [b];
      if |h1| < 4 then Bite(Size(h1), [], false)
      else if |h1| > 4 then Bite(Failed, [], false)
      else if Le32(h1) > 0 then Bite(Skip(Le32(h1)), [], false) else Bite(BLANK, [], true)
    case Skip(left) => if left > 1 then Bite(Skip(left - 1), [], false) else Bite(BLANK, [], true)
    case Failed => Bite(Failed, [], false)
  }

  const Lz4Reader: Reader<St> :=
    Reader(BLANK, (s: St) => if s == Failed then Some(ErrInvalidData) else None, (s: St) => s.Copy?, (s: St, b: byte) => Eat(s, b))

  function Read(s: St, rest: seq<byte>): (i: F.Frame) {
    Residual(Lz4Reader, s, rest)
  }

  const RawLz4Lib: F.Lib<St> :=
    F.Lib(BLANK, (s: St) => s == BLANK, (m: uint64, s: St, w: seq<byte>, room: nat) => Stream(Lz4Reader, s, w, room))

  const RawLz4Sem: F.LibSem<St> :=
    F.LibSem((s: St) => true, (m: uint64, s: St, rest: seq<byte>) => Read(s, rest), (s: St, rest: seq<byte>) => 0, (s: St) => 0)

  lemma ReaderIsSound()
    ensures Sound(Lz4Reader)
  {
    forall s: St, b: byte ensures EatsWell(Lz4Reader, s, b) {
      hide PushHead, Le32;
    }
  }

  lemma MagicIsTaken(p: seq<byte>)
    requires |p| == 4 && F.IsPrefix(F.Lz4Frames, p)
    ensures var t := Stream(Lz4Reader, BLANK, p, 0); t.used == 4 && t.code == F.More
  {
    MagicPushed(p);
    hide Stream, Eat, F.IsPrefix;
    var m, a, b, c := Lz4Reader, Head([p[0]]), Head([p[0], p[1]]), Head([p[0], p[1], p[2]]);
    StreamEats(m, BLANK, p, 0);
    StreamEats(m, a, p[1..], 0);
    StreamEats(m, b, p[1..][1..], 0);
    StreamEats(m, c, p[1..][1..][1..], 0);
    StreamNothing(m, Eat(c, p[3]).next, 0);
    assert p[1..][1..][1..][1..] == [];
  }

  lemma MagicPushed(p: seq<byte>)
    requires |p| == 4 && F.IsPrefix(F.Lz4Frames, p)
    ensures Eat(BLANK, p[0]) == Bite(Head([p[0]]), [], false)
    ensures Eat(Head([p[0]]), p[1]) == Bite(Head([p[0], p[1]]), [], false)
    ensures Eat(Head([p[0], p[1]]), p[2]) == Bite(Head([p[0], p[1], p[2]]), [], false)
    ensures var e := Eat(Head([p[0], p[1], p[2]]), p[3]); e.next != Failed && !e.over && e.out == []
  {
    assert [] + [p[0]] == [p[0]] && [p[0]] + [p[1]] == [p[0], p[1]] && [p[0], p[1]] + [p[2]] == [p[0], p[1], p[2]];
    assert [p[0], p[1], p[2]] + [p[3]] == p;
    assert p == F.Magic(F.Lz4Frames) ==> p <= HEADER;
  }

  lemma OneStepKeeps(m: uint64, s: St, w: seq<byte>, tail: seq<byte>, room: nat)
    ensures F.StepKeeps(RawLz4Lib, RawLz4Sem, m, s, w, tail, room)
  {
    ReaderIsSound();
    hide Residual, Stream;
    ReaderSteps(Lz4Reader, s, w, tail, room);
    assert w[0..] == w;
  }

  /** The contract assumed of a frame library can be met for lz4 frames. */
  lemma RawLz4LibKeeps()
    ensures F.LibKeeps(RawLz4Lib, RawLz4Sem, F.Lz4Frames)
  {
    hide Residual, Stream, F.StepKeeps, F.IsPrefix;
    forall m: uint64, d: St, w: seq<byte>, tail: seq<byte>, room: nat
      ensures F.StepKeeps(RawLz4Lib, RawLz4Sem, m, d, w, tail, room)
    {
      OneStepKeeps(m, d, w, tail, room);
    }
    forall m: uint64, d: St, p: seq<byte> ensures F.TakesMagic(RawLz4Lib, RawLz4Sem, F.Lz4Frames, m, d, p) {
      if |p| == 4 && F.IsPrefix(F.Lz4Frames, p) {
        MagicIsTaken(p);
      }
    }
  }

  // ---- Skippable frames --------------------------------------------------------------------

  /** The four bytes, the size and that many bytes of anything. */
  function SkippableFrame(n: nat, data: seq<byte>): (z: seq<byte>)
    requires n < 16 && |data| < TWO32
  {
    ToLe32(0x184D_2A50 + n) + ToLe32(|data|) + data
  }

  lemma {:induction false} SkipRead(data: seq<byte>, z: seq<byte>)
    requires data != []
    ensures Read(Skip(|data|), data + z) == F.WholeFrame([], |data|)
    decreases |data|
  {
    hide Read;
    var t, none: seq<byte> := data[1..], [];
    assert data + z == [data[0]] + (t + z) && none + none == none;
    ReadEats(Skip(|data|), data[0], t + z);
    if t != [] {
      SkipRead(t, z);
    }
  }

  /** It reads as nothing, whatever is in it and whatever follows. */
  lemma SkippableReads(n: nat, data: seq<byte>, m: uint64)
    requires n < 16 && |data| < TWO32
    ensures S.IsFrame(RawLz4Lib, RawLz4Sem, F.Lz4Frames, m, S.Framed(SkippableFrame(n, data), []))
  {
    hide Read, ToLe32;
    var z := SkippableFrame(n, data);
    assert z[..4] == ToLe32(0x184D_2A50 + n);
    forall t: seq<byte> {:trigger z + t} ensures Read(BLANK, z + t) == F.WholeFrame([], |z|) {
      SkippableRead(n, data, t);
    }
  }

  lemma SkippableRead(n: nat, data: seq<byte>, t: seq<byte>)
    requires n < 16 && |data| < TWO32
    ensures Read(BLANK, SkippableFrame(n, data) + t) == F.WholeFrame([], |SkippableFrame(n, data)|)
  {
    hide Read, ToLe32, Le32, PushHead;
    var h: seq<byte> := [0x50 + n, 0x2A, 0x4D, 0x18];
    SkippablePushed(n);
    var z, l, rest, none: seq<byte> := SkippableFrame(n, data) + t, ToLe32(|data|), data + t, [];
    assert none + none == none;
    assert z == [h[0]] + ([h[1]] + ([h[2]] + ([h[3]] + (l + rest))));
    ReadEats(BLANK, h[0], [h[1]] + ([h[2]] + ([h[3]] + (l + rest))));
    ReadEats(Head([h[0]]), h[1], [h[2]] + ([h[3]] + (l + rest)));
    ReadEats(Head([h[0], h[1]]), h[2], [h[3]] + (l + rest));
    ReadEats(Head([h[0], h[1], h[2]]), h[3], l + rest);
    SkippableSize(l, rest);
    if data != [] {
      SkipRead(data, t);
    }
  }

  lemma SkippablePushed(n: nat)
    requires n < 16
    ensures ToLe32(0x184D_2A50 + n) == [0x50 + n, 0x2A, 0x4D, 0x18]
    ensures PushHead([], 0x50 + n) == Head([0x50 + n])
    ensures PushHead([0x50 + n], 0x2A) == Head([0x50 + n, 0x2A])
    ensures PushHead([0x50 + n, 0x2A], 0x4D) == Head([0x50 + n, 0x2A, 0x4D])
    ensures PushHead([0x50 + n, 0x2A, 0x4D], 0x18) == Size([])
  {
    var a: byte := 0x50 + n;
    FieldsAreUnique(ToLe32(0x184D_2A50 + n), [a, 0x2A, 0x4D, 0x18]);
    assert [] + [a] == [a] && [a] + [0x2A] == [a, 0x2A] && [a, 0x2A] + [0x4D] == [a, 0x2A, 0x4D];
    var h: seq<byte> := [a, 0x2A, 0x4D] + [0x18];
    assert h[1..] == F.SKIP_TAIL;
  }

  /** The four bytes of size, and what is to be skipped after them. */
  lemma SkippableSize(l: seq<byte>, z: seq<byte>)
    requires |l| == 4
    ensures Read(Size([]), l + z) == if Le32(l) > 0 then F.PrependFrame([], 4, Read(Skip(Le32(l)), z)) else F.WholeFrame([], 4)
  {
    hide Read, Le32;
    var none: seq<byte> := [];
    assert none + none == none && none + [l[0]] == l[..1] && l[..1] + [l[1]] == l[..2] && l[..2] + [l[2]] == l[..3] && l[..3] + [l[3]] == l;
    assert l + z == [l[0]] + ([l[1]] + ([l[2]] + ([l[3]] + z)));
    ReadEats(Size(none), l[0], [l[1]] + ([l[2]] + ([l[3]] + z)));
    ReadEats(Size(l[..1]), l[1], [l[2]] + ([l[3]] + z));
    ReadEats(Size(l[..2]), l[2], [l[3]] + z);
    ReadEats(Size(l[..3]), l[3], z);
  }

  // ---- Writing ---------------------------------------------------------------------------

  function BlockOf(p: seq<byte>): (z: seq<byte>)
    requires |p| <= E.BLOCK
    ensures |z| == 4 + |p|
  {
    ToLe32(UNCOMPRESSED + |p|) + p
  }

  const END_MARK: seq<byte> := [0, 0, 0, 0]

  lemma ReadEats(s: St, b: byte, z: seq<byte>)
    requires s != Failed
    ensures var e := Eat(s, b);
            Read(s, [b] + z) == if e.over then F.WholeFrame(e.out, 1) else F.PrependFrame(e.out, 1, Read(e.next, z))
  {
    ResidualEats(Lz4Reader, s, b, z);
    hide Residual, Eat;
  }

  lemma {:induction false} CopyRead(p: seq<byte>, z: seq<byte>)
    requires p != []
    ensures Read(Copy(|p|), p + z) == F.PrependFrame(p, |p|, Read(Block([]), z))
    decreases |p|
  {
    hide Read;
    var t := p[1..];
    assert p + z == [p[0]] + (t + z) && [p[0]] + t == p;
    ReadEats(Copy(|p|), p[0], t + z);
    if t == [] {
      assert t + z == z;
    } else {
      CopyRead(t, z);
      PrependFrameTwice([p[0]], 1, t, |t|, Read(Block([]), z));
    }
  }

  /** A block's four bytes of size, and the end mark. */
  lemma SizeRead(h: seq<byte>, z: seq<byte>)
    requires |h| == 4
    ensures Read(Block([]), h + z) ==
            F.PrependFrame([], 3, var e := Eat(Block(h[..3]), h[3]); if e.over then F.WholeFrame(e.out, 1) else F.PrependFrame(e.out, 1, Read(e.next, z)))
  {
    hide Read, Le32;
    var none: seq<byte> := [];
    assert none + none == none && none + [h[0]] == h[..1] && h[..1] + [h[1]] == h[..2] && h[..2] + [h[2]] == h[..3];
    assert h + z == [h[0]] + ([h[1]] + ([h[2]] + ([h[3]] + z)));
    ReadEats(Block(none), h[0], [h[1]] + ([h[2]] + ([h[3]] + z)));
    ReadEats(Block(h[..1]), h[1], [h[2]] + ([h[3]] + z));
    ReadEats(Block(h[..2]), h[2], [h[3]] + z);
    ReadEats(Block(h[..3]), h[3], z);
    PrependFrameTwice(none, 1, none, 1, Read(Block(h[..3]), [h[3]] + z));
    PrependFrameTwice(none, 1, none, 2, Read(Block(h[..3]), [h[3]] + z));
  }

  lemma BlockRead(p: seq<byte>, z: seq<byte>)
    requires 0 < |p| <= E.BLOCK
    ensures Read(Block([]), BlockOf(p) + z) == F.PrependFrame(p, |BlockOf(p)|, Read(Block([]), z))
  {
    hide Read, Le32, ToLe32;
    var h := ToLe32(UNCOMPRESSED + |p|);
    assert BlockOf(p) + z == h + (p + z) && h[..3] + [h[3]] == h && [] + p == p;
    SizeRead(h, p + z);
    CopyRead(p, z);
    PrependFrameTwice([], 1, p, |p|, Read(Block([]), z));
    PrependFrameTwice([], 3, p, 1 + |p|, Read(Block([]), z));
  }

  lemma EndRead(z: seq<byte>)
    ensures Read(Block([]), END_MARK + z) == F.WholeFrame([], 4)
  {
    hide Read;
    assert END_MARK[..3] + [END_MARK[3]] == END_MARK;
    SizeRead(END_MARK, z);
  }

  /** What has been written is the beginning of a frame, `done` of it. */
  ghost predicate Leads(z: seq<byte>, done: seq<byte>) {
    && HEADER <= z
    && forall t: seq<byte> {:trigger z + t} :: Read(BLANK, z + t) == F.PrependFrame(done, |z|, Read(Block([]), t))
  }

  ghost predicate IsRawFrame(x: seq<byte>, z: seq<byte>) {
    && HEADER <= z
    && forall t: seq<byte> {:trigger z + t} :: Read(BLANK, z + t) == F.WholeFrame(x, |z|)
  }

  lemma HeaderLeads()
    ensures Leads(HEADER, [])
  {
    hide Read;
    forall t: seq<byte> {:trigger HEADER + t} ensures Read(BLANK, HEADER + t) == F.PrependFrame([], 7, Read(Block([]), t)) {
      HeadBytes([], HEADER[..6], [0x82] + t);
      assert HEADER + t == HEADER[..6] + ([0x82] + t) && [] + HEADER[..6] == HEADER[..6] && HEADER[..6] + [0x82] == HEADER;
      ReadEats(Head(HEADER[..6]), 0x82, t);
      PrependFrameTwice([], 6, [], 1, Read(Block([]), t));
    }
  }

  lemma {:induction false} HeadBytes(h: seq<byte>, q: seq<byte>, z: seq<byte>)
    requires h + q <= HEADER && |h + q| < |HEADER|
    ensures Read(Head(h), q + z) == F.PrependFrame([], |q|, Read(Head(h + q), z))
    decreases |q|
  {
    hide Read;
    var none: seq<byte> := [];
    assert none + none == none;
    if q == [] {
      assert q + z == z && h + q == h;
      PrependFrameNothing(Read(Head(h), z));
    } else {
      var h1 := h + [q[0]];
      assert q + z == [q[0]] + (q[1..] + z) && h1 + q[1..] == h + q && h1 <= h + q;
      PushesOn(h1);
      ReadEats(Head(h), q[0], q[1..] + z);
      HeadBytes(h1, q[1..], z);
      PrependFrameTwice(none, 1, none, |q| - 1, Read(Head(h + q), z));
    }
  }

  lemma PushesOn(h1: seq<byte>)
    requires h1 <= HEADER && 0 < |h1| < |HEADER|
    ensures PushHead(h1[..|h1| - 1], h1[|h1| - 1]) == Head(h1)
  {
    assert h1[..|h1| - 1] + [h1[|h1| - 1]] == h1;
  }

  lemma LeadsOn(z: seq<byte>, done: seq<byte>, p: seq<byte>)
    requires Leads(z, done) && 0 < |p| <= E.BLOCK
    ensures Leads(z + BlockOf(p), done + p)
  {
    hide Read, BlockOf;
    var b := BlockOf(p);
    forall t: seq<byte> {:trigger z + b + t} ensures Read(BLANK, z + b + t) == F.PrependFrame(done + p, |z + b|, Read(Block([]), t)) {
      assert z + b + t == z + (b + t);
      BlockRead(p, t);
      PrependFrameTwice(done, |z|, p, |b|, Read(Block([]), t));
    }
  }

  lemma EndsThere(z: seq<byte>, done: seq<byte>)
    requires Leads(z, done)
    ensures IsRawFrame(done, z + END_MARK)
  {
    hide Read;
    forall t: seq<byte> {:trigger z + END_MARK + t} ensures Read(BLANK, z + END_MARK + t) == F.WholeFrame(done, |z + END_MARK|) {
      assert z + END_MARK + t == z + (END_MARK + t);
      EndRead(t);
      JoinWhole(done, |z|, [], 4);
      assert done + [] == done;
    }
  }

  /** Full blocks of what is at hand, and what is left of it. */
  function Full(data: seq<byte>): (z: seq<byte>)
    ensures |z| == (E.BLOCK + 4) * (|data| / E.BLOCK)
    decreases |data|
  {
    if |data| < E.BLOCK then [] else BlockOf(data[..E.BLOCK]) + Full(data[E.BLOCK..])
  }

  function Left(data: seq<byte>): (p: seq<byte>)
    ensures |p| < E.BLOCK && |p| == |data| - E.BLOCK * (|data| / E.BLOCK)
    decreases |data|
  {
    if |data| < E.BLOCK then data else Left(data[E.BLOCK..])
  }

  function Sent(data: seq<byte>): (p: seq<byte>)
    decreases |data|
  {
    if |data| < E.BLOCK then [] else data[..E.BLOCK] + Sent(data[E.BLOCK..])
  }

  lemma {:induction false} SentAndLeft(data: seq<byte>)
    ensures Sent(data) + Left(data) == data
    decreases |data|
  {
    if |data| >= E.BLOCK {
      var p, more := data[..E.BLOCK], data[E.BLOCK..];
      SentAndLeft(more);
      assert p + Sent(more) + Left(more) == p + (Sent(more) + Left(more)) == p + more == data;
    }
  }

  lemma {:induction false} FullLeads(z: seq<byte>, done: seq<byte>, data: seq<byte>)
    requires Leads(z, done)
    ensures Leads(z + Full(data), done + Sent(data))
    decreases |data|
  {
    hide Leads, BlockOf;
    if |data| < E.BLOCK {
      assert z + [] == z && done + [] == done;
    } else {
      var p, more := data[..E.BLOCK], data[E.BLOCK..];
      LeadsOn(z, done, p);
      FullLeads(z + BlockOf(p), done + p, more);
      assert z + BlockOf(p) + Full(more) == z + (BlockOf(p) + Full(more));
      assert done + p + Sent(more) == done + (p + Sent(more));
    }
  }

  /** What is waiting goes out as a block of its own. */
  function Last(buf: seq<byte>): (z: seq<byte>)
    requires |buf| < E.BLOCK
    ensures |z| <= |buf| + 4
  {
    if buf == [] then [] else BlockOf(buf)
  }

  lemma LastLeads(z: seq<byte>, done: seq<byte>, buf: seq<byte>)
    requires Leads(z, done) && |buf| < E.BLOCK
    ensures Leads(z + Last(buf), done + buf)
  {
    if buf == [] {
      assert z + [] == z && done + [] == done;
    } else {
      LeadsOn(z, done, buf);
    }
  }

  /** liblz4's frame compressor, with a compressor of blocks that never finds
      anything to save. */
  datatype Writer = Writer(size: Option<nat>, done: seq<byte>, buf: seq<byte>)

  ghost predicate Written(c: Writer, size: Option<nat>, x: seq<byte>, z: seq<byte>) {
    c.size == size && x == c.done + c.buf && |c.buf| < E.BLOCK && Leads(z, c.done)
  }

  function Update(c: Writer, w: seq<byte>): (m: E.Made<Writer>) {
    var data := c.buf + w;
    E.Made(Writer(c.size, c.done + Sent(data), Left(data)), Full(data), None)
  }

  function Flushed(c: Writer): (m: E.Made<Writer>) {
    if |c.buf| < E.BLOCK then E.Made(Writer(c.size, c.done + c.buf, []), Last(c.buf), None) else E.Made(c, [], Some(ErrInternal))
  }

  function Ended(c: Writer): (m: E.Made<Writer>) {
    var f := Flushed(c);
    if f.error.Some? || (c.size.Some? && c.size.value != |f.next.done|) then E.Made(c, [], Some(ErrInternal))
    else E.Made(f.next, f.out + END_MARK, None)
  }

  ghost const RawLz4f: E.Lz4f<Writer> := E.Lz4f(
    Writer(None, [], []),
    (cap: nat, level: int, size: Option<nat>) => E.Made(Writer(size, [], []), HEADER, None),
    (cap: nat, c: Writer, w: seq<byte>) => Update(c, w),
    (cap: nat, c: Writer) => Flushed(c),
    (cap: nat, c: Writer) => Ended(c),
    (c: Writer) => |c.buf|,
    (c: Writer, size: Option<nat>, x: seq<byte>, z: seq<byte>) => Written(c, size, x, z),
    (x: seq<byte>, z: seq<byte>) => IsRawFrame(x, z),
    (x: seq<byte>, z: seq<byte>) => Leads(z, x))

  lemma UpdateWrites(cap: nat, c: Writer, size: Option<nat>, x: seq<byte>, z: seq<byte>, w: seq<byte>)
    requires Written(c, size, x, z)
    ensures E.UpdateKeeps(RawLz4f, cap, c, size, x, z, w)
  {
    hide Leads, Full, Sent, Left;
    var data := c.buf + w;
    FullLeads(z, c.done, data);
    SentAndLeft(data);
    assert x + w == c.done + data == c.done + Sent(data) + Left(data);
  }

  lemma CallsWrite(cap: nat, c: Writer, size: Option<nat>, x: seq<byte>, z: seq<byte>)
    requires Written(c, size, x, z)
    ensures E.CallsKeep(RawLz4f, cap, c, size, x, z)
  {
    hide Leads, IsRawFrame;
    var none: seq<byte> := [];
    LastLeads(z, c.done, c.buf);
    assert x + none == x && z + Last(c.buf) + END_MARK == z + (Last(c.buf) + END_MARK);
    EndsThere(z + Last(c.buf), x);
  }

  /** It keeps the contract of the staged encoder, and its streams are frames to
      the reader: FrameEncoders.FramesRoundTrip is about something for lz4. */
  lemma RawLz4fKeeps(m: uint64)
    ensures E.Lz4fKeeps(RawLz4f)
    ensures E.MakesFrames(E.Lz4fSem(RawLz4f), RawLz4Lib, RawLz4Sem, F.Lz4Frames, m)
    ensures E.ShownReadBack(RawLz4f.shows, RawLz4Lib, RawLz4Sem, F.Lz4Frames)
  {
    hide Read, Leads, E.UpdateKeeps, E.CallsKeep, IsRawFrame, E.AreFrames, S.IsFrame;
    forall cap: nat, c: Writer, size: Option<nat>, x: seq<byte>, z: seq<byte> | RawLz4f.state(c, size, x, z)
      ensures E.CallsKeep(RawLz4f, cap, c, size, x, z)
    {
      CallsWrite(cap, c, size, x, z);
    }
    forall cap: nat, c: Writer, size: Option<nat>, x: seq<byte>, z: seq<byte>, w: seq<byte> | RawLz4f.state(c, size, x, z)
      ensures E.UpdateKeeps(RawLz4f, cap, c, size, x, z, w)
    {
      UpdateWrites(cap, c, size, x, z, w);
    }
    HeaderLeads();
    var none: seq<byte> := [];
    assert none + none == none;
    forall cap: nat, level: int, size: Option<nat> ensures E.BeginKeeps(RawLz4f, cap, level, size) {
      assert Written(Writer(size, none, none), size, none, HEADER);
    }
    forall p: seq<byte>, z: seq<byte> | IsRawFrame(p, z) ensures E.AreFrames(RawLz4Lib, RawLz4Sem, F.Lz4Frames, m, p, z) {
      RawFrameIsFrame(p, z, m);
      E.OneIsFrames(RawLz4Lib, RawLz4Sem, F.Lz4Frames, m, p, z);
    }
    forall p: seq<byte>, z: seq<byte> | RawLz4f.shows(p, z)
      ensures var o := S.Unframe(RawLz4Lib, RawLz4Sem, F.Lz4Frames, 0, z, true); (o.Complete? || o.Cut?) && o.out == p
    {
      LeadsToCut(z, p);
    }
  }

  /** What leads somewhere is a frame cut short there. */
  lemma LeadsToCut(z: seq<byte>, p: seq<byte>)
    requires Leads(z, p)
    ensures var o := S.Unframe(RawLz4Lib, RawLz4Sem, F.Lz4Frames, 0, z, true); o.Cut? && o.out == p
  {
    var none: seq<byte> := [];
    assert z + none == z && p + none == p && Read(Block(none), none) == F.CutFrame(none);
    hide Residual;
  }

  lemma RawFrameIsFrame(p: seq<byte>, z: seq<byte>, m: uint64)
    requires IsRawFrame(p, z)
    ensures S.IsFrame(RawLz4Lib, RawLz4Sem, F.Lz4Frames, m, S.Framed(z, p))
  {
    hide Read;
    assert z[..4] == HEADER[..4] == F.Magic(F.Lz4Frames);
  }
}
