/** A small real compressor: it gathers its input and writes it as a zstd frame
    of raw blocks, what it has gathered when told to flush and all of it at the
    end, resetting itself when a frame is out as libzstd does. It keeps the
    contract of ZstdEncoder. */
module RawCompressors {
  import opened Zu
  import opened Codecs
  import opened Driver
  import opened EncodeDriver
  import F = Frames
  import S = FramedStreams
  import E = FrameEncoders
  import Z = ZstdEncoder
  import opened ByteFrames
  import opened RawFrames

  /** Has put `done` into blocks and gathered `buf` since, `out` of what is
      written waiting for room; or the frame of `x` has been ended, and `left` of
      it waits. */
  datatype Gather = Gather(done: seq<byte>, buf: seq<byte>, out: seq<byte>) | Ending(x: seq<byte>, left: seq<byte>)

  const EMPTY: Gather := Gather([], [], [])

  const HEADER: seq<byte> := F.Magic(F.ZstdFrames) + [0, SMALL_WINDOW]

  /** Raw blocks, none of them the last. */
  function OpenBlocks(data: seq<byte>): (z: seq<byte>)
    ensures |z| <= 4 * |data|
    decreases |data|
  {
    if data == [] then []
    else var n := Min(|data|, MAX_BLOCK); BlockHeader(n, false) + data[..n] + OpenBlocks(data[n..])
  }

  /** The header goes before the first block. */
  function Opening(done: seq<byte>): (z: seq<byte>)
    ensures |z| <= 6
  {
    if done == [] then HEADER else []
  }

  /** What is written when all that was gathered is flushed, and at the end. */
  function Flushes(done: seq<byte>, data: seq<byte>): (z: seq<byte>) {
    if data == [] then [] else Opening(done) + OpenBlocks(data)
  }

  function Ends(done: seq<byte>, data: seq<byte>): (z: seq<byte>) {
    Opening(done) + Blocks(data)
  }

  function Emit(x: seq<byte>, left: seq<byte>, used: nat, room: nat): (t: Z.Pressed<Gather>) {
    if |left| <= room then Z.Pressed(EMPTY, used, left, 0, None)
    else Z.Pressed(Ending(x, left[room..]), used, left[..room], |left| - room, None)
  }

  function Pass(done: seq<byte>, buf: seq<byte>, out: seq<byte>, used: nat, room: nat): (t: Z.Pressed<Gather>) {
    var n := Min(|out|, room);
    Z.Pressed(Gather(done, buf, out[n..]), used, out[..n], |out| - n, None)
  }

  function GatherStep(c: Gather, w: seq<byte>, room: nat, op: Z.Op): (t: Z.Pressed<Gather>) {
    match c
    case Ending(x, left) => Emit(x, left, 0, room)
    case Gather(done, buf, out) =>
      var data := buf + w;
      match op
      case Continue => Pass(done, data, out, |w|, room)
      case FlushOp => Pass(done + data, [], out + Flushes(done, data), |w|, room)
      case End => Emit(done + data, out + Ends(done, data), |w|, room)
  }

  // ---- What has been written reads back ---------------------------------------------------

  /** `z` is the beginning of a frame, `done` of it. */
  ghost predicate Leads(z: seq<byte>, done: seq<byte>) {
    && HEADER <= z
    && forall m: uint64, t: seq<byte> ::
         Read(Some(m), BLANK, z + t) == F.PrependFrame(done, |z|, Read(Some(m), Block([], None), t))
  }

  /** `z` is a frame of `x`, whatever follows it. */
  ghost predicate Wholly(x: seq<byte>, z: seq<byte>) {
    && HEADER <= z
    && forall m: uint64, t: seq<byte> :: Read(Some(m), BLANK, z + t) == F.WholeFrame(x, |z|)
  }

  lemma HeaderLeads()
    ensures Leads(HEADER, [])
  {
    hide Read, Window, F.PrependFrame;
    forall m: uint64, t: seq<byte> ensures Read(Some(m), BLANK, HEADER + t) == F.PrependFrame([], 6, Read(Some(m), Block([], None), t)) {
      var h := F.Magic(F.ZstdFrames) + [0];
      assert HEADER + t == h + ([SMALL_WINDOW] + t) && h[..4] == F.Magic(F.ZstdFrames);
      SmallIsAdmitted(m);
      HeaderRead(Some(m), h, SMALL_WINDOW, None, t);
    }
  }

  lemma {:induction false} OpenBlocksRead(lim: Option<uint64>, data: seq<byte>, t: seq<byte>)
    ensures Read(lim, Block([], None), OpenBlocks(data) + t) == F.PrependFrame(data, |OpenBlocks(data)|, Read(lim, Block([], None), t))
    decreases |data|
  {
    hide Read, F.PrependFrame, BlockHeader;
    if data == [] {
      assert OpenBlocks(data) + t == t;
      PrependFrameNothing(Read(lim, Block([], None), t));
    } else {
      var n := Min(|data|, MAX_BLOCK);
      var b, p, rest := BlockHeader(n, false) + data[..n], data[..n], data[n..];
      hide Min;
      assert OpenBlocks(data) == b + OpenBlocks(rest);
      assert OpenBlocks(data) + t == b + (OpenBlocks(rest) + t) && p + rest == data;
      OneBlockRead(lim, p, OpenBlocks(rest) + t);
      OpenBlocksRead(lim, rest, t);
      PrependFrameTwice(p, |b|, rest, |OpenBlocks(rest)|, Read(lim, Block([], None), t));
    }
  }

  lemma OneBlockRead(lim: Option<uint64>, p: seq<byte>, t: seq<byte>)
    requires 0 < |p| <= MAX_BLOCK
    ensures var b := BlockHeader(|p|, false) + p;
            Read(lim, Block([], None), b + t) == F.PrependFrame(p, |b|, Read(lim, Block([], None), t))
  {
    hide Read, F.PrependFrame, BlockHeader;
    var none: seq<byte> := [];
    assert BlockHeader(|p|, false) + p + t == BlockHeader(|p|, false) + (p + t) && none + p == p;
    BlockHeaderRead(lim, |p|, false, None, p + t);
    CopyRead(lim, p, false, None, t);
    PrependFrameTwice(none, 3, p, |p|, Read(lim, Block([], None), t));
  }

  lemma LeadsOn(z: seq<byte>, done: seq<byte>, data: seq<byte>)
    requires Leads(z, done)
    ensures Leads(z + OpenBlocks(data), done + data)
  {
    hide Read, F.PrependFrame, OpenBlocks;
    var b := OpenBlocks(data);
    forall m: uint64, t: seq<byte>
      ensures Read(Some(m), BLANK, z + b + t) == F.PrependFrame(done + data, |z + b|, Read(Some(m), Block([], None), t))
    {
      assert z + b + t == z + (b + t);
      OpenBlocksRead(Some(m), data, t);
      PrependFrameTwice(done, |z|, data, |b|, Read(Some(m), Block([], None), t));
    }
  }

  lemma EndsThere(z: seq<byte>, done: seq<byte>, data: seq<byte>)
    requires Leads(z, done)
    ensures Wholly(done + data, z + Blocks(data))
  {
    hide Read, F.PrependFrame, Blocks;
    var b := Blocks(data);
    forall m: uint64, t: seq<byte> ensures Read(Some(m), BLANK, z + b + t) == F.WholeFrame(done + data, |z + b|) {
      assert z + b + t == z + (b + t);
      BlocksRead(Some(m), data, None, t);
      JoinWhole(done, |z|, data, |b|);
    }
  }

  lemma {:induction false} BlocksAreFew(data: seq<byte>)
    ensures 3 <= |Blocks(data)| <= 3 + 4 * |data|
    decreases |data|
  {
    if |data| > MAX_BLOCK {
      BlocksAreFew(data[MAX_BLOCK..]);
    }
  }

  // ---- The contract ------------------------------------------------------------------------

  /** Written and waiting together. */
  ghost predicate Gathered(c: Gather, x: seq<byte>, z: seq<byte>) {
    && c.Gather? && c.done + c.buf == x && |z + c.out| <= 6 + 4 * |c.done|
    && if c.done == [] then z == [] && c.out == [] else Leads(z + c.out, c.done)
  }

  ghost predicate EndingOf(c: Gather, x: seq<byte>, z: seq<byte>) {
    c.Ending? && c.x == x && c.left != [] && Wholly(x, z + c.left) && |z + c.left| <= 9 + 4 * |x|
  }

  ghost predicate ShownBy(x: seq<byte>, z: seq<byte>) {
    (x == [] && z == []) || Leads(z, x)
  }

  ghost const RawCompressor: Z.Zstd<Gather> := Z.Zstd(
    (level: int) => EMPTY,
    (c: Gather, w: seq<byte>, room: nat, op: Z.Op) => GatherStep(c, w, room, op),
    (c: Gather, x: seq<byte>, z: seq<byte>, rest: seq<byte>) => Gathered(c, x, z),
    (c: Gather, x: seq<byte>, z: seq<byte>) => EndingOf(c, x, z),
    (c: Gather) => c.Ending?,
    (x: seq<byte>, z: seq<byte>) => Wholly(x, z),
    (x: seq<byte>, z: seq<byte>) => ShownBy(x, z))

  /** Part of a frame goes out, or the last of it. */
  lemma Emits(x: seq<byte>, z: seq<byte>, left: seq<byte>, used: nat, room: nat)
    requires Wholly(x, z + left) && |z + left| <= 9 + 4 * |x| && left != []
    ensures var t := Emit(x, left, used, room);
            && t.error == None && t.used == used && |t.out| <= room
            && if t.left == 0 then Wholly(x, z + t.out) && Z.Blank(RawCompressor, t.next)
               else |t.out| == room && EndingOf(t.next, x, z + t.out)
  {
    hide Wholly, Leads;
    if |left| > room {
      assert z + left[..room] + left[room..] == z + left;
    }
  }

  lemma FlushLeads(done: seq<byte>, data: seq<byte>, z: seq<byte>)
    requires data != [] && |z| <= 6 + 4 * |done|
    requires if done == [] then z == [] else Leads(z, done)
    ensures Leads(z + Flushes(done, data), done + data) && |z + Flushes(done, data)| <= 6 + 4 * |done + data|
  {
    hide Leads, OpenBlocks;
    if done == [] {
      HeaderLeads();
      LeadsOn(HEADER, done, data);
      assert z + (HEADER + OpenBlocks(data)) == HEADER + OpenBlocks(data);
    } else {
      LeadsOn(z, done, data);
      assert z + ([] + OpenBlocks(data)) == z + OpenBlocks(data);
    }
  }

  lemma EndIsWhole(done: seq<byte>, data: seq<byte>, z: seq<byte>)
    requires |z| <= 6 + 4 * |done|
    requires if done == [] then z == [] else Leads(z, done)
    ensures Wholly(done + data, z + Ends(done, data)) && |z + Ends(done, data)| <= 9 + 4 * |done + data| && Ends(done, data) != []
  {
    hide Leads, Blocks, Wholly;
    BlocksAreFew(data);
    if done == [] {
      HeaderLeads();
      EndsThere(HEADER, done, data);
      assert z + (HEADER + Blocks(data)) == HEADER + Blocks(data);
    } else {
      EndsThere(z, done, data);
      assert z + ([] + Blocks(data)) == z + Blocks(data);
    }
  }

  lemma FlushKeeps(c: Gather, x: seq<byte>, z: seq<byte>, w: seq<byte>, room: nat)
    requires Gathered(c, x, z)
    ensures var t := GatherStep(c, w, room, Z.FlushOp);
            Gathered(t.next, x + w, z + t.out) && (t.left == 0 ==> ShownBy(x + w, z + t.out))
  {
    hide Leads, Flushes;
    var data := c.buf + w;
    var out, n := c.out + Flushes(c.done, data), Min(|c.out + Flushes(c.done, data)|, room);
    assert z + out[..n] + out[n..] == z + c.out + Flushes(c.done, data) && x + w == c.done + data == c.done + data + [];
    assert n == |out| ==> z + out[..n] == z + c.out + Flushes(c.done, data);
    if data == [] {
      assert Flushes(c.done, data) == [] by { NothingFlushes(c.done); }
      assert c.done + data == c.done && z + c.out + [] == z + c.out;
    } else {
      FlushLeads(c.done, data, z + c.out);
    }
  }

  lemma NothingFlushes(done: seq<byte>)
    ensures Flushes(done, []) == []
  {
  }

  lemma ContinueKeeps(c: Gather, x: seq<byte>, z: seq<byte>, w: seq<byte>, room: nat)
    requires Gathered(c, x, z)
    ensures var t := GatherStep(c, w, room, Z.Continue); Gathered(t.next, x + w, z + t.out)
  {
    hide Leads;
    var n := Min(|c.out|, room);
    assert z + c.out[..n] + c.out[n..] == z + c.out && x + w == c.done + (c.buf + w);
  }

  lemma RawStepKeeps(c: Gather, x: seq<byte>, z: seq<byte>, w: seq<byte>, tail: seq<byte>, room: nat, op: Z.Op)
    ensures Z.ZstdStepKeeps(RawCompressor, c, x, z, w, tail, room, op)
  {
    hide Leads, Wholly, Z.Blank, Emit, Flushes, Ends;
    if Gathered(c, x, z) && (op == Z.End ==> tail == []) {
      assert w[..|w|] == w;
      match op
      case Continue => ContinueKeeps(c, x, z, w, room);
      case FlushOp => FlushKeeps(c, x, z, w, room);
      case End =>
        var data := c.buf + w;
        EndIsWhole(c.done, data, z + c.out);
        assert z + c.out + Ends(c.done, data) == z + (c.out + Ends(c.done, data)) && x + w == c.done + data;
        Emits(c.done + data, z, c.out + Ends(c.done, data), |w|, room);
    }
  }

  lemma RawEndingKeeps(c: Gather, x: seq<byte>, z: seq<byte>, room: nat, op: Z.Op)
    ensures Z.EndingKeeps(RawCompressor, c, x, z, room, op)
  {
    hide Wholly, Z.Blank, Emit;
    if EndingOf(c, x, z) {
      Emits(x, z, c.left, 0, room);
    }
  }

  /** The contract assumed of the compressor can be met, its streams are frames
      to RawLib, with a window that any max_output admits, and what it flushes
      shows: FrameEncoders.FramesRoundTrip and FrameEncoders.FlushedReads are about
      something. */
  lemma RawCompressorKeeps(m: uint64)
    ensures Z.ZstdKeeps(RawCompressor) && Z.FramesRead(RawCompressor, RawLib, RawSem, F.ZstdFrames, m)
    ensures Z.ShowsRead(RawCompressor, RawLib, RawSem, m)
    ensures E.MakesFrames(Z.ZstdSem(RawCompressor), RawLib, RawSem, F.ZstdFrames, m)
  {
    hide Wholly, Leads, S.IsFrame, Z.ZstdStepKeeps, Z.EndingKeeps, Amounts;
    forall c: Gather, x: seq<byte>, z: seq<byte>, w: seq<byte>, tail: seq<byte>, room: nat, op: Z.Op
      ensures Z.ZstdStepKeeps(RawCompressor, c, x, z, w, tail, room, op)
    {
      RawStepKeeps(c, x, z, w, tail, room, op);
    }
    forall c: Gather, x: seq<byte>, z: seq<byte>, room: nat, op: Z.Op ensures Z.EndingKeeps(RawCompressor, c, x, z, room, op) {
      RawEndingKeeps(c, x, z, room, op);
    }
    forall p: seq<byte>, z: seq<byte> | RawCompressor.frame(p, z) ensures S.IsFrame(RawLib, RawSem, F.ZstdFrames, m, S.Framed(z, p)) {
      WhollyIsFrame(p, z, m);
    }
    forall p: seq<byte>, z: seq<byte> | RawCompressor.shows(p, z) ensures RawSem.frame(m, RawLib.start, z) == F.CutFrame(p) {
      ShownIsCut(p, z, m);
    }
    Z.ZstdMakesFrames(RawCompressor, RawLib, RawSem, F.ZstdFrames, m);
  }

  lemma WhollyIsFrame(p: seq<byte>, z: seq<byte>, m: uint64)
    requires Wholly(p, z)
    ensures S.IsFrame(RawLib, RawSem, F.ZstdFrames, m, S.Framed(z, p))
  {
    hide Read, Window;
    assert z[..4] == HEADER[..4] == F.Magic(F.ZstdFrames);
    SmallIsAdmitted(m);
    forall t: seq<byte> {:trigger z + t}
      ensures Amounts(0, BLANK, z + t) == F.WholeFrame(p, |z|) && Declared(BLANK, z + t) == Window(SMALL_WINDOW)
    {
      assert (z + t)[4] == HEADER[4] && (z + t)[5] == HEADER[5] && [] + (z + t) == z + t && (z + t)[..4] == z[..4];
    }
  }

  lemma ShownIsCut(p: seq<byte>, z: seq<byte>, m: uint64)
    requires ShownBy(p, z)
    ensures Amounts(m, BLANK, z) == F.CutFrame(p)
  {
    var none: seq<byte> := [];
    NothingLeft(Limited(Some(m)), BLANK);
    NothingLeft(Limited(Some(m)), Block(none, None));
    if z != [] {
      hide Limited, Residual;
      assert z + none == z && p + none == p && z[4] == HEADER[4];
    }
  }

  /** No frame of it takes more. */
  lemma RawWithin(x: seq<byte>)
    ensures Z.FrameWithin(RawCompressor, x, 9 + 4 * |x|)
  {
    hide Leads, Wholly;
    forall c: Gather, y: seq<byte>, z: seq<byte>, rest: seq<byte>
      | Z.Writing(RawCompressor, c, y, z, rest) && y + rest == x
      ensures |z| <= 9 + 4 * |x|
    {
      assert |y| <= |x|;
    }
  }

  // ---- Told to finish from the beginning ---------------------------------------------------

  ghost function EncoderAt(level: int, c: Gather): (s: Z.ZEnc<Gather>) {
    Z.FreshZstd(RawCompressor, level).(c := c)
  }

  /** What FINISH still writes: the frame of the window, or the rest of one. */
  ghost predicate Finishing(c: Gather, w: seq<byte>, left: seq<byte>) {
    left != [] && if c == EMPTY then left == RawFrame(w) else c.Ending? && w == [] && left == c.left
  }

  lemma FinishTurn(level: int, c: Gather, w: seq<byte>, left: seq<byte>, room: nat)
    requires Finishing(c, w, left)
    ensures var y := if c == EMPTY then w else c.x;
            Z.ZstdTurn(RawCompressor, EncoderAt(level, c), w, room, Finish) ==
            if |left| <= room then Stop(Reply(EncoderAt(level, EMPTY).(done := true), |w|, left, StreamEnd))
            else if |w| == 0 && room == 0 then Stop(Reply(EncoderAt(level, Ending(y, left)), 0, [], NeedOutput))
            else Go(EncoderAt(level, Ending(y, left[room..])), |w|, left[..room])
  {
    hide Blocks;
    if c == EMPTY {
      var none: seq<byte> := [];
      assert none + w == w && none + (none + w) == w && none + (HEADER + Blocks(w)) == RawFrame(w);
    }
    assert room == 0 ==> left[..room] == [] && left[room..] == left;
  }

  /** One call, in any room. */
  lemma FinishCall(level: int, c: Gather, w: seq<byte>, left: seq<byte>, room: nat)
    requires Finishing(c, w, left)
    ensures var y := if c == EMPTY then w else c.x;
            Z.ZstdProcess(RawCompressor, EncoderAt(level, c), w, room, Finish) ==
            if |left| <= room then Reply(EncoderAt(level, EMPTY).(done := true), |w|, left, StreamEnd)
            else Reply(EncoderAt(level, Ending(y, left[room..])), |w|, left[..room], NeedOutput)
  {
    hide RawFrame, Z.ZstdTurn, GatherStep;
    var y, none: seq<byte> := if c == EMPTY then w else c.x, [];
    FinishTurn(level, c, w, left, room);
    if |left| > room {
      assert w[|w|..] == none && left[..room] + none == left[..room] && left[0..] == left && left[..0] == none;
      FinishTurn(level, Ending(y, left[room..]), none, left[room..], 0);
    }
  }

  lemma {:induction false} FinishRun(level: int, c: Gather, w: seq<byte>, left: seq<byte>, slots: seq<Slot>)
    requires EncInWindow(Z.ZstdCodec(RawCompressor)) && Finishing(c, w, left)
    requires (forall i :: 0 <= i < |slots| ==> slots[i].flush == Finish) && Rooms(slots) >= |left|
    ensures var r := EncodeAll(Z.ZstdCodec(RawCompressor), EncHandle(EncoderAt(level, c), false), w, slots);
            r.status == StreamEnd && r.used == |w| && r.out == left
    decreases |slots|
  {
    hide EncInWindow, RawFrame, Z.ZstdProcess;
    var room, none: seq<byte> := slots[0].room, [];
    FinishCall(level, c, w, left, room);
    assert w[..|w|] == w && w[|w|..] == none;
    if |left| > room {
      var y := if c == EMPTY then w else c.x;
      FinishRun(level, Ending(y, left[room..]), none, left[room..], slots[1..]);
      assert left[..room] + left[room..] == left;
    }
  }

  /** Liveness, for this compressor behind zstd_encoder_process: any FINISH
      calls with as much room in all as the frame takes end the stream. */
  lemma RawEncodeEnds(level: int, x: seq<byte>, slots: seq<Slot>)
    requires EncInWindow(Z.ZstdCodec(RawCompressor))
    requires (forall i :: 0 <= i < |slots| ==> slots[i].flush == Finish) && Rooms(slots) >= |RawFrame(x)|
    ensures var r := Z.Encoding(RawCompressor, level, x, slots); r.status == StreamEnd && r.used == |x| && r.out == RawFrame(x)
  {
    FrameIsThere(x);
    hide EncInWindow, RawFrame, EncodeAll;
    FinishRun(level, EMPTY, x, RawFrame(x), slots);
  }

  lemma FrameIsThere(x: seq<byte>)
    ensures |RawFrame(x)| > 1
  {
  }

  // ---- A stream split in two ----------------------------------------------------------------

  /** The rest of an ended frame, with RUN. */
  lemma FlushedOut(level: int, x: seq<byte>, left: seq<byte>, room: nat)
    requires 0 < |left| <= room
    ensures Z.ZstdProcess(RawCompressor, EncoderAt(level, Ending(x, left)), [], room, Run) ==
            Reply(EncoderAt(level, EMPTY), 0, left, NeedInput)
  {
  }

  /** What happens if FINISH is not kept up. Every byte of input is there, and
      FINISH has been said once with one byte of room. With FINISH again the
      stream is one frame. With RUN in between it is two, the second of nothing;
      and read without concatenation the second is trailing bytes. */
  lemma RunAfterFinishSplits(level: int, x: seq<byte>, room: nat, m: uint64)
    requires room >= |RawFrame(x)| && room >= |RawFrame([])|
    ensures EncInWindow(Z.ZstdCodec(RawCompressor))
    ensures var first, run, finish := Slot(0, 1, Finish), Slot(0, room, Run), Slot(0, room, Finish);
            var whole, split := Z.Encoding(RawCompressor, level, x, [first, finish]), Z.Encoding(RawCompressor, level, x, [first, run, finish]);
            && whole.status == StreamEnd && whole.used == |x| && whole.out == RawFrame(x)
            && split.status == StreamEnd && split.used == |x| && split.out == RawFrame(x) + RawFrame([])
            && S.Unframe(RawLib, RawSem, F.ZstdFrames, m, split.out, false) == Complete(x, |RawFrame(x)|, RawFrame([]))
  {
    FrameIsThere(x);
    FrameIsThere([]);
    hide RawFrame, EncInWindow, Z.ZstdProcess, Z.ZstdKeeps, EncKeeps, NeverFails, E.MakesFrames, Z.FramesRead, Z.ShowsRead, S.Unframe, Z.Encoding;
    RawCompressorKeeps(m);
    Z.ZstdEncoderKeeps(RawCompressor);
    FinishCall(level, EMPTY, x, RawFrame(x), 1);
    FinishCall(level, Ending(x, RawFrame(x)[1..]), [], RawFrame(x)[1..], room);
    FlushedOut(level, x, RawFrame(x)[1..], room);
    FinishCall(level, EMPTY, [], RawFrame([]), room);
    FirstFrameReads(x, m);
    RunsAre(level, x, room);
  }

  lemma FirstFrameReads(x: seq<byte>, m: uint64)
    ensures S.Unframe(RawLib, RawSem, F.ZstdFrames, m, RawFrame(x) + RawFrame([]), false) == Complete(x, |RawFrame(x)|, RawFrame([]))
  {
    RawFrameReads(x, m);
    RawLibKeeps();
    var z, t := RawFrame(x), RawFrame([]);
    assert F.FramesAlike(RawLib, RawSem, F.ZstdFrames, m, BLANK, z + t);
    assert (z + t)[|z|..] == t;
    FrameIsThere(x);
    hide RawFrame, F.LibKeeps;
  }

  lemma RunsAre(level: int, x: seq<byte>, room: nat)
    requires EncInWindow(Z.ZstdCodec(RawCompressor))
    requires |RawFrame(x)| > 1
    requires Z.ZstdProcess(RawCompressor, EncoderAt(level, EMPTY), x, 1, Finish) ==
             Reply(EncoderAt(level, Ending(x, RawFrame(x)[1..])), |x|, RawFrame(x)[..1], NeedOutput)
    requires Z.ZstdProcess(RawCompressor, EncoderAt(level, Ending(x, RawFrame(x)[1..])), [], room, Finish) ==
             Reply(EncoderAt(level, EMPTY).(done := true), 0, RawFrame(x)[1..], StreamEnd)
    requires Z.ZstdProcess(RawCompressor, EncoderAt(level, Ending(x, RawFrame(x)[1..])), [], room, Run) ==
             Reply(EncoderAt(level, EMPTY), 0, RawFrame(x)[1..], NeedInput)
    requires Z.ZstdProcess(RawCompressor, EncoderAt(level, EMPTY), [], room, Finish) ==
             Reply(EncoderAt(level, EMPTY).(done := true), 0, RawFrame([]), StreamEnd)
    ensures var first, run, finish := Slot(0, 1, Finish), Slot(0, room, Run), Slot(0, room, Finish);
            var whole, split := Z.Encoding(RawCompressor, level, x, [first, finish]), Z.Encoding(RawCompressor, level, x, [first, run, finish]);
            && whole.status == StreamEnd && whole.used == |x| && whole.out == RawFrame(x)
            && split.status == StreamEnd && split.used == |x| && split.out == RawFrame(x) + RawFrame([])
  {
    hide RawFrame, EncInWindow, Z.ZstdProcess, EncodeAll;
    var c, z, none: seq<byte> := Z.ZstdCodec(RawCompressor), RawFrame(x), [];
    var first, run, finish := Slot(0, 1, Finish), Slot(0, room, Run), Slot(0, room, Finish);
    assert x[..|x|] == x && x[|x|..] == none && none[..0] == none && none[0..] == none && z[..1] + z[1..] == z;
    assert [first] + [finish] == [first, finish] && [first] + ([run] + [finish]) == [first, run, finish] && [finish] + [] == [finish];
    var start, ended := EncHandle(EncoderAt(level, EMPTY), false), EncHandle(EncoderAt(level, Ending(x, z[1..])), false);
    AfterSlot(c, start, x, first, [finish]);
    AfterSlot(c, ended, none, finish, []);
    AfterSlot(c, start, x, first, [run] + [finish]);
    AfterSlot(c, ended, none, run, [finish]);
    AfterSlot(c, start, none, finish, []);
    assert z[..1] + (z[1..] + RawFrame(none)) == z + RawFrame(none);
  }

  lemma AfterSlot<T(!new)>(c: EncCodec<T>, e: EncHandle<T>, rest: seq<byte>, slot: Slot, more: seq<Slot>)
    requires EncInWindow(c)
    ensures var r, n := EncodeOffer(c, e, rest, slot), EncodeAll(c, e, rest, [slot] + more);
            if r.status.IsProgress() then
              var q := EncodeAll(c, r.next, rest[r.used..], more);
              n.status == q.status && n.out == r.out + q.out && n.used == r.used + q.used
            else n.status == r.status && n.out == r.out && n.used == r.used
  {
    hide EncodeOffer;
    assert ([slot] + more)[1..] == more;
  }
}
