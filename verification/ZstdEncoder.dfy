/** The encoding half of zstd: zstd_encoder_process over libzstd's streaming
    compressor, and what becomes of a stream when FINISH is not kept up. */
module ZstdEncoder {
  import opened Zu
  import opened Codecs
  import opened Driver
  import opened EncodeDriver
  import F = Frames
  import S = FramedStreams
  import E = FrameEncoders

  // ---- The library ----------------------------------------------------------------------

  datatype Op = Continue | FlushOp | End

  /** One call of ZSTD_compressStream2: `left` is what remains to be flushed. */
  datatype Pressed<+C> = Pressed(next: C, used: nat, out: seq<byte>, left: nat, error: Option<Status>)

  /** libzstd's streaming compressor. state(c, x, z, rest): in a frame, or before
      one, given `x`, having written `z` of it, with exactly `rest` to come.
      ending(c, x, z): the frame of `x` has been ended and `z` of it written,
      and what is left waits for room; ended(c): in such a state
      (zcs->frameEnded). frame(x, z): `z` is a frame of `x`. shows(x, z): `z` is
      as much of a frame as decodes to `x`. */
  datatype Zstd<!C> = Zstd(
    start: int -> C,
    step: (C, seq<byte>, nat, Op) -> Pressed<C>,
    state: (C, seq<byte>, seq<byte>, seq<byte>) -> bool,
    ending: (C, seq<byte>, seq<byte>) -> bool,
    ended: C -> bool,
    frame: (seq<byte>, seq<byte>) -> bool,
    shows: (seq<byte>, seq<byte>) -> bool)

  /** The session is reset: the next frame may be anything. */
  ghost predicate Blank<C>(k: Zstd<C>, c: C) {
    forall rest: seq<byte> :: k.state(c, [], [], rest)
  }

  /** Under ZSTD_e_end nothing left means a whole frame of all the input, and
      the session reset; with something left the frame may have been ended all
      the same. Under ZSTD_e_flush nothing left means that what is written
      decodes to all that was taken. It stands still only for want of room. */
  ghost predicate ZstdStepKeeps<C>(k: Zstd<C>, c: C, x: seq<byte>, z: seq<byte>, w: seq<byte>, tail: seq<byte>, room: nat, op: Op) {
    k.state(c, x, z, w + tail) && (op == End ==> tail == []) ==>
      var t := k.step(c, w, room, op);
      && !k.ended(c) && t.error == None && t.used <= |w| && |t.out| <= room
      && (if op == End && t.left == 0 then t.used == |w| && k.frame(x + w, z + t.out) && Blank(k, t.next)
          else || k.state(t.next, x + w[..t.used], z + t.out, w[t.used..] + tail)
               || (op == End && t.used == |w| && k.ending(t.next, x + w, z + t.out)))
      && (op == FlushOp && t.left == 0 && t.used == |w| ==> k.shows(x + w, z + t.out))
      && (t.used == 0 && t.out == [] && !(op == End && t.left == 0) && !(w == [] && (op == Continue || t.left == 0)) ==> room == 0)
  }

  /** What waits of an ended frame is written as room allows, whatever the call
      asks for; when it is out the session is reset. */
  ghost predicate EndingKeeps<C>(k: Zstd<C>, c: C, x: seq<byte>, z: seq<byte>, room: nat, op: Op) {
    k.ending(c, x, z) ==>
      var t := k.step(c, [], room, op);
      && k.ended(c) && t.error == None && t.used == 0 && |t.out| <= room
      && if t.left == 0 then k.frame(x, z + t.out) && Blank(k, t.next)
         else |t.out| == room && k.ending(t.next, x, z + t.out)
  }

  ghost predicate ZstdKeeps<C(!new)>(k: Zstd<C>) {
    && (forall level: int :: Blank(k, k.start(level)))
    && (forall c: C, x: seq<byte>, z: seq<byte>, w: seq<byte>, tail: seq<byte>, room: nat, op: Op ::
          ZstdStepKeeps(k, c, x, z, w, tail, room, op))
    && (forall c: C, x: seq<byte>, z: seq<byte>, room: nat, op: Op :: EndingKeeps(k, c, x, z, room, op))
  }

  datatype ZEnc<+C> = ZEnc(c: C, done: bool, level: int)

  function ZLevel(level: int): (lv: int) {
    if level == LEVEL_DEFAULT then 3 else level
  }

  function FreshZstd<C>(k: Zstd<C>, level: int): (s: ZEnc<C>) {
    ZEnc(k.start(ZLevel(level)), false, ZLevel(level))
  }

  /** zstd_encoder_reset: the session starts over, at a new level if one is
      given. */
  function ResetZstd<C>(k: Zstd<C>, s: ZEnc<C>, level: int): (s': ZEnc<C>) {
    var want := if level != LEVEL_DEFAULT then level else s.level;
    ZEnc(k.start(want), false, want)
  }

  /** From any state, mid-frame or ended, a reset encoder is a new one. */
  lemma ResetZstdIsFresh<C>(k: Zstd<C>, s: ZEnc<C>, level: int)
    requires s.level != LEVEL_DEFAULT
    ensures ResetZstd(k, s, level) == FreshZstd(k, if level != LEVEL_DEFAULT then level else s.level)
  {
  }

  function OpOf(f: Flush): (op: Op) {
    match f
    case Finish => End
    case FlushNow => FlushOp
    case Run => Continue
  }

  /** A library that oversteps its windows is read as failing. */
  function Press<C>(k: Zstd<C>, c: C, w: seq<byte>, room: nat, op: Op): (t: Pressed<C>)
    ensures t.used <= |w| && |t.out| <= room
  {
    var t := k.step(c, w, room, op);
    if t.used <= |w| && |t.out| <= room then t else Pressed(c, 0, [], 0, Some(ErrInternal))
  }

  /** The turn's answer, made of the library's. */
  function TurnOf<C>(s: ZEnc<C>, t: Pressed<C>, w: seq<byte>, room: nat, f: Flush): (i: Iter<ZEnc<C>>) {
    var s1 := s.(c := t.next);
    if f == Finish && t.left == 0 then Stop(Reply(s1.(done := true), t.used, t.out, StreamEnd))
    else if t.used == |w| && (f == Run || t.left == 0) then Stop(Reply(s1, t.used, t.out, NeedInput))
    else if t.used == 0 && t.out == [] then Stop(Reply(s1, 0, [], if room == 0 then NeedOutput else ErrInternal))
    else Go(s1, t.used, t.out)
  }

  /** One turn of zstd_encoder_process. */
  function ZstdTurn<C>(k: Zstd<C>, s: ZEnc<C>, w: seq<byte>, room: nat, f: Flush): (i: Iter<ZEnc<C>>)
    ensures i.Stop? ==> i.reply.used <= |w| && |i.reply.out| <= room
    ensures i.Go? ==> i.used <= |w| && |i.out| <= room && i.used + |i.out| > 0
  {
    if s.done then Stop(Reply(s, 0, [], StreamEnd))
    else
      var t := Press(k, s.c, w, room, OpOf(f));
      if t.error.Some? then Stop(Reply(s.(c := t.next), 0, [], t.error.value)) else TurnOf(s, t, w, room, f)
  }

  function ZstdProcess<C>(k: Zstd<C>, s: ZEnc<C>, w: seq<byte>, room: nat, f: Flush): (r: Reply<ZEnc<C>>)
    ensures r.used <= |w| && |r.out| <= room
    decreases |w| + room
  {
    match ZstdTurn(k, s, w, room, f)
    case Stop(r) => r
    case Go(next, used, out) => Ahead(out, used, ZstdProcess(k, next, w[used..], room - |out|, f))
  }

  // ---- One frame after the other ---------------------------------------------------------

  /** A frame is being written, or has been ended and is being flushed. */
  predicate Writing<C>(k: Zstd<C>, c: C, x: seq<byte>, z: seq<byte>, rest: seq<byte>) {
    k.state(c, x, z, rest) || (rest == [] && k.ending(c, x, z))
  }

  /** A frame of `x`, and after it others of nothing: `n` in all. */
  ghost predicate FramesOf<C>(k: Zstd<C>, x: seq<byte>, z: seq<byte>, n: nat)
    decreases n
  {
    if n <= 1 then n == 1 && k.frame(x, z)
    else exists i: nat :: i <= |z| && FramesOf(k, x, z[..i], n - 1) && k.frame([], z[i..])
  }

  /** Taken `x` and put out `z`, with exactly `rest` to come: `n` frames are
      complete, and the encoder is done or at another. */
  ghost predicate Wrote<C>(k: Zstd<C>, s: ZEnc<C>, x: seq<byte>, z: seq<byte>, rest: seq<byte>, n: nat) {
    if s.done then rest == [] && FramesOf(k, x, z, n)
    else if n == 0 then Writing(k, s.c, x, z, rest)
    else rest == [] && exists i: nat :: i <= |z| && FramesOf(k, x, z[..i], n) && Writing(k, s.c, [], z[i..], [])
  }

  /** What has been put out decodes to `x` already, `n` frames being complete. */
  ghost predicate Shown<C>(k: Zstd<C>, x: seq<byte>, z: seq<byte>, n: nat) {
    if n == 0 then k.shows(x, z)
    else exists i: nat :: i <= |z| && FramesOf(k, x, z[..i], n) && (i == |z| || k.shows([], z[i..]))
  }

  ghost predicate ShownFrames<C>(k: Zstd<C>, x: seq<byte>, z: seq<byte>) {
    exists n: nat :: Shown(k, x, z, n)
  }

  ghost function ZstdShows<C>(k: Zstd<C>): (shows: (seq<byte>, seq<byte>) -> bool) {
    (x: seq<byte>, z: seq<byte>) => ShownFrames(k, x, z)
  }

  ghost function ZstdSem<C>(k: Zstd<C>): (sem: EncSem<ZEnc<C>>) {
    EncSem((s: ZEnc<C>, x: seq<byte>, z: seq<byte>, rest: seq<byte>) => exists n: nat :: Wrote(k, s, x, z, rest, n),
           (x: seq<byte>, z: seq<byte>) => exists n: nat :: FramesOf(k, x, z, n))
  }

  /** The call completes the frame. */
  predicate Completes<C>(k: Zstd<C>, c: C, t: Pressed<C>, op: Op) {
    t.left == 0 && (op == End || k.ended(c))
  }

  /** One call of the library on the frame at hand. */
  lemma FrameTurn<C(!new)>(k: Zstd<C>, c: C, x: seq<byte>, z: seq<byte>, w: seq<byte>, tail: seq<byte>, room: nat, op: Op)
    requires ZstdKeeps(k) && Writing(k, c, x, z, w + tail) && (op == End ==> tail == [])
    ensures var t := Press(k, c, w, room, op);
            && t.error == None
            && (if Completes(k, c, t, op) then
                  t.used == |w| && tail == [] && (op != End ==> w == []) && k.frame(x + w, z + t.out) && Blank(k, t.next)
                else Writing(k, t.next, x + w[..t.used], z + t.out, w[t.used..] + tail))
            && (t.used == 0 && t.out == [] && !(op == End && t.left == 0) && !(w == [] && (op == Continue || t.left == 0)) ==> room == 0)
            && (op != End ==> k.ended(t.next) == (k.ended(c) && !Completes(k, c, t, op)))
            && (op == FlushOp && t.left == 0 && t.used == |w| && !Completes(k, c, t, op) ==> k.shows(x + w, z + t.out))
  {
    var t := k.step(c, w, room, op);
    if k.state(c, x, z, w + tail) {
      assert ZstdStepKeeps(k, c, x, z, w, tail, room, op);
      assert w[..|w|] == w;
      assert t.used == |w| ==> w[t.used..] + tail == tail;
    } else {
      assert w == [] && tail == [] && x + w == x && x + w[..0] == x && w[0..] + tail == [];
      assert EndingKeeps(k, c, x, z, room, op);
    }
    NextEnded(k, t.next, x + w[..Min(t.used, |w|)], z + t.out, w[Min(t.used, |w|)..] + tail);
  }

  /** Which of the two states it is shows from outside. */
  lemma NextEnded<C(!new)>(k: Zstd<C>, c: C, x: seq<byte>, z: seq<byte>, rest: seq<byte>)
    requires ZstdKeeps(k)
    ensures k.state(c, x, z, rest) ==> !k.ended(c)
    ensures k.ending(c, x, z) ==> k.ended(c)
    ensures Blank(k, c) ==> !k.ended(c)
  {
    var none: seq<byte> := [];
    assert none + rest == rest && none + none == none;
    assert ZstdStepKeeps(k, c, x, z, none, rest, 0, Continue);
    assert ZstdStepKeeps(k, c, none, none, none, none, 0, Continue);
    assert EndingKeeps(k, c, x, z, 0, Continue);
  }

  /** The same, with the frames before it counted. */
  lemma TurnCounts<C(!new)>(k: Zstd<C>, s: ZEnc<C>, x: seq<byte>, z: seq<byte>, w: seq<byte>, tail: seq<byte>, room: nat, op: Op, n: nat)
    requires ZstdKeeps(k) && !s.done && Wrote(k, s, x, z, w + tail, n) && (op == End ==> tail == [])
    ensures var t := Press(k, s.c, w, room, op);
            var s1 := s.(c := t.next);
            && t.error == None
            && (if Completes(k, s.c, t, op) then
                  && t.used == |w| && tail == [] && (op != End ==> w == [])
                  && FramesOf(k, x + w, z + t.out, n + 1) && Wrote(k, s1, x + w, z + t.out, [], n + 1)
                else Wrote(k, s1, x + w[..t.used], z + t.out, w[t.used..] + tail, n))
            && (t.used == 0 && t.out == [] && !(op == End && t.left == 0) && !(w == [] && (op == Continue || t.left == 0)) ==> room == 0)
            && (op != End ==> k.ended(t.next) == (k.ended(s.c) && !Completes(k, s.c, t, op)))
            && (op == FlushOp && t.left == 0 && t.used == |w| ==>
                  Shown(k, x + w, z + t.out, if Completes(k, s.c, t, op) then n + 1 else n))
  {
    hide ZstdKeeps, Press;
    var t, none: seq<byte> := Press(k, s.c, w, room, op), [];
    var z1 := z + t.out;
    if n == 0 {
      FrameTurn(k, s.c, x, z, w, tail, room, op);
    } else {
      var i: nat :| i <= |z| && FramesOf(k, x, z[..i], n) && Writing(k, s.c, [], z[i..], []);
      assert w == [] && tail == [] && none + none == none && none + w == none && none[..0] == none && x + none == x;
      FrameTurn(k, s.c, none, z[i..], w, tail, room, op);
      assert z1[..i] == z[..i] && z1[i..] == z[i..] + t.out;
    }
    if Completes(k, s.c, t, op) {
      assert z1[..|z1|] == z1 && z1[|z1|..] == none;
      assert k.state(t.next, none, none, none);
    }
  }

  /** A call that is not FINISH flushes out the last of an ended frame: the
      session is reset, and the encoder does not know. */
  predicate Splits<C>(k: Zstd<C>, s: ZEnc<C>, next: ZEnc<C>, f: Flush) {
    f != Finish && !s.done && k.ended(s.c) && !k.ended(next.c)
  }

  /** An answer to a call before which `n` frames were complete. To FLUSH more
      input is asked for only when all that was taken can be read from what is
      out; to RUN more room only while there is input left. */
  ghost predicate CountsFrames<C>(k: Zstd<C>, s: ZEnc<C>, r: Reply<ZEnc<C>>, x: seq<byte>, z: seq<byte>,
                            w: seq<byte>, tail: seq<byte>, room: nat, f: Flush, n: nat)
  {
    var m := if Splits(k, s, r.next, f) then n + 1 else n;
    && r.used <= |w| && |r.out| <= room && (f != Finish && !s.done && k.ended(r.next.c) ==> k.ended(s.c))
    && match r.status
       case NeedInput =>
         && r.used == |w| && f != Finish && !r.next.done && Wrote(k, r.next, x + w, z + r.out, tail, m)
         && (f == FlushNow ==> Shown(k, x + w, z + r.out, m))
       case NeedOutput =>
         && |r.out| == room && !r.next.done && Wrote(k, r.next, x + w[..r.used], z + r.out, w[r.used..] + tail, m)
         && (f == Run ==> r.used < |w|)
       case StreamEnd => r.used == |w| && tail == [] && FramesOf(k, x + w, z + r.out, if s.done then m else m + 1)
       case _ => false
  }

  lemma ZstdTurnCounts<C(!new)>(k: Zstd<C>, s: ZEnc<C>, x: seq<byte>, z: seq<byte>, w: seq<byte>, tail: seq<byte>, room: nat, f: Flush, n: nat)
    requires ZstdKeeps(k) && Wrote(k, s, x, z, w + tail, n) && (f == Finish ==> tail == [])
    ensures match ZstdTurn(k, s, w, room, f)
            case Go(next, used, out) =>
              && used <= |w| && |out| <= room && Wrote(k, next, x + w[..used], z + out, w[used..] + tail, n)
              && next.done == s.done && (f != Finish ==> k.ended(next.c) == k.ended(s.c))
            case Stop(r) => CountsFrames(k, s, r, x, z, w, tail, room, f, n)
  {
    hide ZstdKeeps, Press, Wrote, FramesOf, CountsFrames, Completes, Shown;
    if s.done {
      DoneCounts(k, s, x, z, w, tail, room, f, n);
    } else {
      TurnCounts(k, s, x, z, w, tail, room, OpOf(f), n);
      var t := Press(k, s.c, w, room, OpOf(f));
      if Completes(k, s.c, t, OpOf(f)) {
        assert t.left == 0 by { CompleteIsOut(k, s.c, t, OpOf(f)); }
        CompleteCounts(k, s, t, x, z, w, room, f, n);
      } else {
        PartCounts(k, s, t, x, z, w, tail, room, f, n);
      }
    }
  }

  lemma CompleteIsOut<C>(k: Zstd<C>, c: C, t: Pressed<C>, op: Op)
    requires Completes(k, c, t, op)
    ensures t.left == 0
  {
  }

  lemma DoneCounts<C>(k: Zstd<C>, s: ZEnc<C>, x: seq<byte>, z: seq<byte>, w: seq<byte>, tail: seq<byte>, room: nat, f: Flush, n: nat)
    requires s.done && Wrote(k, s, x, z, w + tail, n)
    ensures CountsFrames(k, s, Reply(s, 0, [], StreamEnd), x, z, w, tail, room, f, n)
  {
    hide FramesOf;
    assert w == [] && tail == [] && x + w == x && z + [] == z;
  }

  lemma CompleteCounts<C>(k: Zstd<C>, s: ZEnc<C>, t: Pressed<C>, x: seq<byte>, z: seq<byte>, w: seq<byte>, room: nat, f: Flush, n: nat)
    requires !s.done && Completes(k, s.c, t, OpOf(f)) && t.used == |w| && |t.out| <= room && (f != Finish ==> w == [])
    requires FramesOf(k, x + w, z + t.out, n + 1) && Wrote(k, s.(c := t.next), x + w, z + t.out, [], n + 1)
    requires f != Finish ==> !k.ended(t.next)
    requires f == FlushNow ==> Shown(k, x + w, z + t.out, n + 1)
    ensures var i := TurnOf(s, t, w, room, f); i.Stop? && CountsFrames(k, s, i.reply, x, z, w, [], room, f, n)
  {
    hide FramesOf, Wrote, Shown;
  }

  lemma PartCounts<C>(k: Zstd<C>, s: ZEnc<C>, t: Pressed<C>, x: seq<byte>, z: seq<byte>, w: seq<byte>, tail: seq<byte>,
                      room: nat, f: Flush, n: nat)
    requires !s.done && !Completes(k, s.c, t, OpOf(f)) && t.used <= |w| && |t.out| <= room && (f == Finish ==> tail == [])
    requires Wrote(k, s.(c := t.next), x + w[..t.used], z + t.out, w[t.used..] + tail, n)
    requires t.used == 0 && t.out == [] && !(f == Finish && t.left == 0) && !(w == [] && (f == Run || t.left == 0)) ==> room == 0
    requires f != Finish ==> k.ended(t.next) == k.ended(s.c)
    requires f == FlushNow && t.left == 0 && t.used == |w| ==> Shown(k, x + w, z + t.out, n)
    ensures match TurnOf(s, t, w, room, f)
            case Go(next, used, out) =>
              && used <= |w| && |out| <= room && Wrote(k, next, x + w[..used], z + out, w[used..] + tail, n)
              && next.done == s.done && (f != Finish ==> k.ended(next.c) == k.ended(s.c))
            case Stop(r) => CountsFrames(k, s, r, x, z, w, tail, room, f, n)
  {
    hide FramesOf, Wrote, Shown;
    assert w[..|w|] == w && z + [] == z;
    assert t.used == |w| ==> w[t.used..] + tail == tail;
  }

  lemma ZstdTurnMoves<C>(k: Zstd<C>, s: ZEnc<C>, w: seq<byte>, room: nat, f: Flush)
    ensures var i := ZstdTurn(k, s, w, room, f); i.Go? ==> i.used <= |w| && |i.out| <= room && i.used + |i.out| > 0
  {
  }

  lemma CountsAhead<C>(k: Zstd<C>, s: ZEnc<C>, next: ZEnc<C>, r: Reply<ZEnc<C>>, x: seq<byte>, z: seq<byte>, p: seq<byte>, u: nat,
                       w: seq<byte>, tail: seq<byte>, room: nat, f: Flush, n: nat)
    requires u <= |w| && |p| <= room && next.done == s.done && (f != Finish ==> k.ended(next.c) == k.ended(s.c))
    requires CountsFrames(k, next, r, x + w[..u], z + p, w[u..], tail, room - |p|, f, n)
    ensures CountsFrames(k, s, Ahead(p, u, r), x, z, w, tail, room, f, n)
  {
    hide Wrote, FramesOf, Shown;
    var v := w[u..];
    assert x + w[..u] + v == x + w && z + p + r.out == z + (p + r.out);
    assert x + w[..u] + v[..r.used] == x + w[..u + r.used] && v[r.used..] == w[u + r.used..];
  }

  /** A whole call: how many frames it leaves complete; and a library that keeps
      its word is never seen to fail. */
  lemma {:induction false} ZstdProcessCounts<C(!new)>(k: Zstd<C>, s: ZEnc<C>, x: seq<byte>, z: seq<byte>,
                                                      w: seq<byte>, tail: seq<byte>, room: nat, f: Flush, n: nat)
    requires ZstdKeeps(k) && Wrote(k, s, x, z, w + tail, n) && (f == Finish ==> tail == [])
    ensures CountsFrames(k, s, ZstdProcess(k, s, w, room, f), x, z, w, tail, room, f, n)
    decreases |w| + room
  {
    hide ZstdKeeps, ZstdTurn, Wrote, CountsFrames;
    var i := ZstdTurn(k, s, w, room, f);
    ZstdTurnCounts(k, s, x, z, w, tail, room, f, n);
    ZstdTurnMoves(k, s, w, room, f);
    if i.Go? {
      var v := w[i.used..];
      ZstdProcessCounts(k, i.next, x + w[..i.used], z + i.out, v, tail, room - |i.out|, f, n);
      CountsAhead(k, s, i.next, ZstdProcess(k, i.next, v, room - |i.out|, f), x, z, i.out, i.used, w, tail, room, f, n);
    }
  }

  /** So a call keeps the promise: what ends is a whole frame of all the input,
      or that and frames of nothing. */
  lemma ZstdProcessOk<C(!new)>(k: Zstd<C>, s: ZEnc<C>, x: seq<byte>, z: seq<byte>, w: seq<byte>, tail: seq<byte>, room: nat, f: Flush)
    requires ZstdKeeps(k) && ZstdSem(k).wrote(s, x, z, w + tail) && (f == Finish ==> tail == [])
    ensures EncReplyOk(ZstdSem(k), ZstdProcess(k, s, w, room, f), x, z, w, tail, room, f)
    ensures !ZstdProcess(k, s, w, room, f).status.IsError()
  {
    hide ZstdKeeps, Wrote, FramesOf, ZstdProcess;
    var n: nat :| Wrote(k, s, x, z, w + tail, n);
    ZstdProcessCounts(k, s, x, z, w, tail, room, f, n);
  }

  function ZstdCodec<C>(k: Zstd<C>): (c: EncCodec<ZEnc<C>>) {
    EncCodec((level: int) => FreshZstd(k, level),
             (s: ZEnc<C>, w: seq<byte>, room: nat, f: Flush) => ZstdProcess(k, s, w, room, f), true,
             Some((s: ZEnc<C>, level: int) => ResetZstd(k, s, level)), Levels(-131072, 22, 3))
  }

  /** libzstd's levels, and 3 if none is asked for. */
  lemma ZstdAdvertises<C>(k: Zstd<C>, level: int)
    ensures LevelOk(ZstdCodec(k).levels, level) <==> level == LEVEL_DEFAULT || -131072 <= level <= 22
    ensures ZstdCodec(k).canFlush && FreshZstd(k, level).c == k.start(if level == LEVEL_DEFAULT then 3 else level)
  {
  }

  /** The zstd encoder keeps the promise, and is never seen to fail. */
  lemma ZstdEncoderKeeps<C(!new)>(k: Zstd<C>)
    requires ZstdKeeps(k)
    ensures EncInWindow(ZstdCodec(k)) && EncKeeps(ZstdCodec(k), ZstdSem(k)) && NeverFails(ZstdCodec(k), ZstdSem(k))
  {
    hide ZstdKeeps, EncReplyOk, ZstdProcess;
    var c, sem := ZstdCodec(k), ZstdSem(k);
    forall s: ZEnc<C>, x: seq<byte>, z: seq<byte>, w: seq<byte>, tail: seq<byte>, room: nat, f: Flush
      ensures EncStepOk(c, sem, s, x, z, w, tail, room, f) && CallSucceeds(c, sem, s, x, z, w, tail, room, f)
    {
      if sem.wrote(s, x, z, w + tail) && (f == Finish ==> tail == []) {
        ZstdProcessOk(k, s, x, z, w, tail, room, f);
      }
    }
    forall s: ZEnc<C>, w: seq<byte>, room: nat, f: Flush ensures EncInside(c, s, w, room, f) {
      var r := ZstdProcess(k, s, w, room, f);
    }
  }

  // ---- Runs -------------------------------------------------------------------------------

  /** How many calls of a run split the stream. */
  function SplitsIn<C(!new)>(k: Zstd<C>, e: EncHandle<ZEnc<C>>, rest: seq<byte>, slots: seq<Slot>): (n: nat)
    requires EncInWindow(ZstdCodec(k))
    decreases |slots|
  {
    if slots == [] then 0
    else
      var r := EncodeOffer(ZstdCodec(k), e, rest, slots[0]);
      (if Splits(k, e.s, r.next.s, slots[0].flush) then 1 else 0) +
      if r.status.IsProgress() then SplitsIn(k, r.next, rest[r.used..], slots[1..]) else 0
  }

  /** A run, in any windows, with any flushes: the stream it ends is one frame
      of all the input, and one of nothing more for every call that split it. */
  lemma {:induction false} RunCounts<C(!new)>(k: Zstd<C>, s: ZEnc<C>, x: seq<byte>, z: seq<byte>, rest: seq<byte>, slots: seq<Slot>, n: nat)
    requires ZstdKeeps(k) && EncInWindow(ZstdCodec(k)) && !s.done && Wrote(k, s, x, z, rest, n)
    ensures var r, m := EncodeAll(ZstdCodec(k), EncHandle(s, false), rest, slots), n + SplitsIn(k, EncHandle(s, false), rest, slots);
            && (r.status == StreamEnd ==> r.used == |rest| && FramesOf(k, x + rest, z + r.out, m + 1))
            && (r.status.IsProgress() ==> !r.e.s.done && Wrote(k, r.e.s, x + rest[..r.used], z + r.out, rest[r.used..], m))
            && !r.status.IsError()
    decreases |slots|
  {
    hide ZstdKeeps, EncInWindow, Wrote, FramesOf, EncodeOffer, Splits;
    if slots == [] {
      assert x + rest[..0] == x && z + [] == z && rest[0..] == rest;
    } else {
      OfferCounts(k, s, x, z, rest, slots[0], n);
      var r := EncodeOffer(ZstdCodec(k), EncHandle(s, false), rest, slots[0]);
      if r.status.IsProgress() {
        var left := rest[r.used..];
        var m := if Splits(k, s, r.next.s, slots[0].flush) then n + 1 else n;
        RunCounts(k, r.next.s, x + rest[..r.used], z + r.out, left, slots[1..], m);
        var q := EncodeAll(ZstdCodec(k), r.next, left, slots[1..]);
        Regroup(x, rest, r.used, q.used, z, r.out, q.out);
      }
    }
  }

  lemma OfferCounts<C(!new)>(k: Zstd<C>, s: ZEnc<C>, x: seq<byte>, z: seq<byte>, rest: seq<byte>, slot: Slot, n: nat)
    requires ZstdKeeps(k) && EncInWindow(ZstdCodec(k)) && !s.done && Wrote(k, s, x, z, rest, n)
    ensures var r := EncodeOffer(ZstdCodec(k), EncHandle(s, false), rest, slot);
            var m := if Splits(k, s, r.next.s, slot.flush) then n + 1 else n;
            && (slot.flush != Finish && k.ended(r.next.s.c) ==> k.ended(s.c))
            && (r.status == StreamEnd || r.status.IsProgress())
            && (r.status == StreamEnd ==> r.used == |rest| && FramesOf(k, x + rest, z + r.out, m + 1))
            && (r.status.IsProgress() ==>
                  r.next == EncHandle(r.next.s, false) && !r.next.s.done
                  && Wrote(k, r.next.s, x + rest[..r.used], z + r.out, rest[r.used..], m))
  {
    hide ZstdKeeps, EncInWindow, Wrote, FramesOf, ZstdProcess, Splits, Shown;
    var h := Offered(slot, |rest|);
    var w, tail := rest[..h], rest[h..];
    assert w + tail == rest && (tail == [] ==> w == rest);
    ZstdProcessCounts(k, s, x, z, w, tail, slot.room, slot.flush, n);
    var r := ZstdProcess(k, s, w, slot.room, slot.flush);
    assert w[..r.used] == rest[..r.used] && w[r.used..] + tail == rest[r.used..] && w[..|w|] == w;
    assert r.used == |w| ==> w[r.used..] + tail == tail;
  }

  /** FLUSH is answered by asking for input only when what is out shows all that
      was taken, the frames before it counted. */
  lemma ZstdFlushesShow<C(!new)>(k: Zstd<C>)
    requires ZstdKeeps(k)
    ensures FlushesShow(ZstdCodec(k), ZstdSem(k), ZstdShows(k))
  {
    hide ZstdKeeps, FlushShows, ZstdCodec, ZstdSem, ZstdShows;
    forall s: ZEnc<C>, x: seq<byte>, z: seq<byte>, w: seq<byte>, tail: seq<byte>, room: nat
      ensures FlushShows(ZstdCodec(k), ZstdSem(k), ZstdShows(k), s, x, z, w, tail, room)
    {
      CallShows(k, s, x, z, w, tail, room);
    }
  }

  lemma CallShows<C(!new)>(k: Zstd<C>, s: ZEnc<C>, x: seq<byte>, z: seq<byte>, w: seq<byte>, tail: seq<byte>, room: nat)
    requires ZstdKeeps(k)
    ensures FlushShows(ZstdCodec(k), ZstdSem(k), ZstdShows(k), s, x, z, w, tail, room)
  {
    hide ZstdKeeps, ZstdProcess, Wrote, ShownFrames;
    if ZstdSem(k).wrote(s, x, z, w + tail) {
      var n: nat :| Wrote(k, s, x, z, w + tail, n);
      FlushCounts(k, s, x, z, w, tail, room, n);
    }
  }

  lemma FlushCounts<C(!new)>(k: Zstd<C>, s: ZEnc<C>, x: seq<byte>, z: seq<byte>, w: seq<byte>, tail: seq<byte>, room: nat, n: nat)
    requires ZstdKeeps(k) && Wrote(k, s, x, z, w + tail, n)
    ensures var r := ZstdProcess(k, s, w, room, FlushNow); r.status == NeedInput ==> ShownFrames(k, x + w, z + r.out)
  {
    hide ZstdKeeps, ZstdProcess, Wrote, Shown;
    ZstdProcessCounts(k, s, x, z, w, tail, room, FlushNow, n);
  }

  /** A caller that says FINISH to the end once it has said it splits nothing. */
  lemma {:induction false} SteadySplitsNothing<C(!new)>(k: Zstd<C>, s: ZEnc<C>, x: seq<byte>, z: seq<byte>, rest: seq<byte>, slots: seq<Slot>, n: nat)
    requires ZstdKeeps(k) && EncInWindow(ZstdCodec(k)) && !s.done && Wrote(k, s, x, z, rest, n)
    requires Steady(slots, true) && (k.ended(s.c) ==> forall i :: 0 <= i < |slots| ==> slots[i].flush == Finish)
    ensures SplitsIn(k, EncHandle(s, false), rest, slots) == 0
    decreases |slots|
  {
    hide ZstdKeeps, EncInWindow, Wrote, FramesOf, EncodeOffer;
    if slots != [] {
      OfferCounts(k, s, x, z, rest, slots[0], n);
      var r := EncodeOffer(ZstdCodec(k), EncHandle(s, false), rest, slots[0]);
      if r.status.IsProgress() {
        SteadySplitsNothing(k, r.next.s, x + rest[..r.used], z + r.out, rest[r.used..], slots[1..], n);
      }
    }
  }

  ghost function Encoding<C(!new)>(k: Zstd<C>, level: int, p: seq<byte>, slots: seq<Slot>): (r: EncResult<ZEnc<C>>)
    requires EncInWindow(ZstdCodec(k))
    ensures r.used <= |p|
  {
    EncodeAll(ZstdCodec(k), EncHandle(FreshZstd(k, level), false), p, slots)
  }

  /** A new encoder has written nothing, whatever is to come. */
  lemma FreshWrote<C(!new)>(k: Zstd<C>, level: int, p: seq<byte>)
    requires ZstdKeeps(k)
    ensures Wrote(k, FreshZstd(k, level), [], [], p, 0) && !k.ended(FreshZstd(k, level).c)
  {
    NextEnded(k, FreshZstd(k, level).c, [], [], p);
  }

  /** Main theorem. A caller that says FINISH to the end writes one frame of all
      the input, in whatever windows. */
  lemma SteadyWritesOneFrame<C(!new)>(k: Zstd<C>, level: int, p: seq<byte>, slots: seq<Slot>)
    requires ZstdKeeps(k) && EncInWindow(ZstdCodec(k)) && Steady(slots, true)
    ensures var r := Encoding(k, level, p, slots);
            && (r.status == StreamEnd ==> r.used == |p| && k.frame(p, r.out))
            && (r.status.IsProgress() ==> Writing(k, r.e.s.c, p[..r.used], r.out, p[r.used..]) && !r.e.s.done)
  {
    hide ZstdKeeps, EncInWindow, EncodeAll, SplitsIn;
    FreshWrote(k, level, p);
    var s, r, none: seq<byte> := FreshZstd(k, level), Encoding(k, level, p, slots), [];
    RunCounts(k, s, none, none, p, slots, 0);
    SteadySplitsNothing(k, s, none, none, p, slots, 0);
    assert none + p == p && none + r.out == r.out && none + p[..r.used] == p[..r.used];
  }

  /** Exactly: what a run has written is one frame, to any reader of the frames
      of this library, if and only if no call other than FINISH flushed out the
      last of an ended frame. */
  lemma OneFrameIsExact<C(!new), D>(k: Zstd<C>, lib: F.Lib<D>, x: F.LibSem<D>, kind: F.Kind, m: uint64,
                                    level: int, p: seq<byte>, slots: seq<Slot>)
    requires ZstdKeeps(k) && EncInWindow(ZstdCodec(k)) && FramesRead(k, lib, x, kind, m)
    requires Encoding(k, level, p, slots).status == StreamEnd
    ensures S.IsFrame(lib, x, kind, m, S.Framed(Encoding(k, level, p, slots).out, p))
            <==> SplitsIn(k, EncHandle(FreshZstd(k, level), false), p, slots) == 0
  {
    hide ZstdKeeps, EncInWindow, EncodeAll, SplitsIn, S.IsFrame, Wrote, FramesRead, FramesOf;
    FreshWrote(k, level, p);
    var s, z, none: seq<byte> := FreshZstd(k, level), Encoding(k, level, p, slots).out, [];
    RunCounts(k, s, none, none, p, slots, 0);
    assert none + p == p && none + z == z;
    OneIsOne(k, lib, x, kind, m, p, z, SplitsIn(k, EncHandle(s, false), p, slots) + 1);
  }

  lemma OneIsOne<C, D>(k: Zstd<C>, lib: F.Lib<D>, x: F.LibSem<D>, kind: F.Kind, m: uint64, p: seq<byte>, z: seq<byte>, n: nat)
    requires FramesRead(k, lib, x, kind, m) && FramesOf(k, p, z, n)
    ensures S.IsFrame(lib, x, kind, m, S.Framed(z, p)) <==> n == 1
  {
    hide S.IsFrame, FramesRead;
    if n > 1 {
      var j := FirstFrame(k, lib, x, kind, m, p, z, n);
      assert S.IsFrame(lib, x, kind, m, S.Framed(z[..j], p)) by { ReadsFrame(k, lib, x, kind, m, p, z[..j]); }
      FramesEndOnce(lib, x, kind, m, p, z, j);
    } else {
      ReadsFrame(k, lib, x, kind, m, p, z);
    }
  }

  lemma ReadsFrame<C, D>(k: Zstd<C>, lib: F.Lib<D>, x: F.LibSem<D>, kind: F.Kind, m: uint64, p: seq<byte>, z: seq<byte>)
    requires FramesRead(k, lib, x, kind, m) && k.frame(p, z)
    ensures S.IsFrame(lib, x, kind, m, S.Framed(z, p))
  {
    hide S.IsFrame;
  }

  lemma IsThere<D>(lib: F.Lib<D>, x: F.LibSem<D>, kind: F.Kind, m: uint64, p: seq<byte>, z: seq<byte>)
    requires S.IsFrame(lib, x, kind, m, S.Framed(z, p))
    ensures z != []
  {
  }

  /** A frame goes no further than where it ends. */
  lemma FramesEndOnce<D>(lib: F.Lib<D>, x: F.LibSem<D>, kind: F.Kind, m: uint64, p: seq<byte>, z: seq<byte>, j: nat)
    requires j < |z| && S.IsFrame(lib, x, kind, m, S.Framed(z[..j], p))
    ensures !S.IsFrame(lib, x, kind, m, S.Framed(z, p))
  {
    hide F.IsPrefix;
    var first, none: seq<byte> := z[..j], [];
    assert first + z[j..] == z && z + none == z;
  }

  /** Of several frames the first ends before the end. */
  lemma {:induction false} FirstFrame<C, D>(k: Zstd<C>, lib: F.Lib<D>, x: F.LibSem<D>, kind: F.Kind, m: uint64,
                                            p: seq<byte>, z: seq<byte>, n: nat) returns (j: nat)
    requires FramesRead(k, lib, x, kind, m) && FramesOf(k, p, z, n) && n > 1
    ensures j < |z| && k.frame(p, z[..j])
    decreases n
  {
    hide FramesRead, S.IsFrame;
    var i: nat :| i <= |z| && FramesOf(k, p, z[..i], n - 1) && k.frame([], z[i..]);
    ReadsFrame(k, lib, x, kind, m, [], z[i..]);
    IsThere(lib, x, kind, m, [], z[i..]);
    if n == 2 {
      j := i;
    } else {
      j := FirstFrame(k, lib, x, kind, m, p, z[..i], n - 1);
      assert z[..i][..j] == z[..j];
    }
  }

  /** No more than `most` bytes of a frame of `p` are ever written. */
  ghost predicate FrameWithin<C(!new)>(k: Zstd<C>, p: seq<byte>, most: nat) {
    forall c: C, x: seq<byte>, z: seq<byte>, rest: seq<byte> :: Writing(k, c, x, z, rest) && x + rest == p ==> |z| <= most
  }

  /** Liveness. Told to finish, with more room in all than the frame can take,
      the encoder ends with the frame. */
  lemma ZstdEncodeEnds<C(!new)>(k: Zstd<C>, level: int, p: seq<byte>, slots: seq<Slot>, most: nat)
    requires ZstdKeeps(k) && EncInWindow(ZstdCodec(k)) && FrameWithin(k, p, most)
    requires (forall i :: 0 <= i < |slots| ==> slots[i].flush == Finish) && Rooms(slots) > most
    ensures var r := Encoding(k, level, p, slots); r.status == StreamEnd && r.used == |p| && k.frame(p, r.out)
  {
    hide ZstdKeeps, EncInWindow, EncodeAll, Writing, FrameWithin;
    SteadyWritesOneFrame(k, level, p, slots);
    FinishFills(k, level, p, slots);
    var r := Encoding(k, level, p, slots);
    if r.status.IsProgress() {
      assert p[..r.used] + p[r.used..] == p;
      assert |r.out| <= most by { WithinFrame(k, p, most, r.e.s.c, p[..r.used], r.out, p[r.used..]); }
    }
  }

  lemma WithinFrame<C(!new)>(k: Zstd<C>, p: seq<byte>, most: nat, c: C, x: seq<byte>, z: seq<byte>, rest: seq<byte>)
    requires FrameWithin(k, p, most) && Writing(k, c, x, z, rest) && x + rest == p
    ensures |z| <= most
  {
  }

  lemma FinishFills<C(!new)>(k: Zstd<C>, level: int, p: seq<byte>, slots: seq<Slot>)
    requires ZstdKeeps(k) && EncInWindow(ZstdCodec(k)) && forall i :: 0 <= i < |slots| ==> slots[i].flush == Finish
    ensures var r := Encoding(k, level, p, slots); r.status == StreamEnd || (r.status.IsProgress() && |r.out| == Rooms(slots))
  {
    hide ZstdKeeps, EncInWindow, EncodeAll, EncKeeps, NeverFails, Wrote;
    var none: seq<byte> := [];
    FreshWrote(k, level, p);
    ZstdEncoderKeeps(k);
    assert ZstdSem(k).wrote(FreshZstd(k, level), none, none, p);
    FinishFillsOrEnds(ZstdCodec(k), ZstdSem(k), FreshZstd(k, level), none, none, p, slots);
  }

  lemma {:induction false} ZstdStays<C>(k: Zstd<C>, s: ZEnc<C>, w: seq<byte>, room: nat, f: Flush)
    ensures ZstdProcess(k, s, w, room, f).next.level == s.level
    decreases |w| + room
  {
    ZstdTurnMoves(k, s, w, room, f);
    var i := ZstdTurn(k, s, w, room, f);
    if i.Go? {
      ZstdStays(k, i.next, w[i.used..], room - |i.out|, f);
    }
  }

  /** From any state a run can lead to, errors included, a reset is fresh at
      the level given, or else at the last. */
  lemma ZstdResetsClean<C(!new)>(k: Zstd<C>)
    ensures EncResetsClean(ZstdCodec(k), (s: ZEnc<C>) => s.level != LEVEL_DEFAULT, (s: ZEnc<C>) => s.level)
  {
    hide ZstdProcess;
    var c, own, at := ZstdCodec(k), (s: ZEnc<C>) => s.level != LEVEL_DEFAULT, (s: ZEnc<C>) => s.level;
    forall s: ZEnc<C>, w: seq<byte>, room: nat, f: Flush ensures EncStaysOwn(c, own, at, s, w, room, f) {
      ZstdStays(k, s, w, room, f);
    }
  }

  // ---- Frames to a reader ------------------------------------------------------------------

  /** What zstd writes is frames, if each is one. */
  ghost predicate FramesRead<C, D>(k: Zstd<C>, lib: F.Lib<D>, x: F.LibSem<D>, kind: F.Kind, m: uint64) {
    forall p: seq<byte>, z: seq<byte> :: k.frame(p, z) ==> S.IsFrame(lib, x, kind, m, S.Framed(z, p))
  }

  lemma ZstdMakesFrames<C, D>(k: Zstd<C>, lib: F.Lib<D>, x: F.LibSem<D>, kind: F.Kind, m: uint64)
    requires FramesRead(k, lib, x, kind, m)
    ensures E.MakesFrames(ZstdSem(k), lib, x, kind, m)
  {
    hide FramesRead, E.AreFrames, FramesOf;
    forall p: seq<byte>, z: seq<byte> | ZstdSem(k).whole(p, z) ensures E.AreFrames(lib, x, kind, m, p, z) {
      var n: nat :| FramesOf(k, p, z, n);
      CountedAreFrames(k, lib, x, kind, m, p, z, n);
    }
  }

  lemma {:induction false} CountedAreFrames<C, D>(k: Zstd<C>, lib: F.Lib<D>, x: F.LibSem<D>, kind: F.Kind, m: uint64,
                                                  p: seq<byte>, z: seq<byte>, n: nat)
    requires FramesRead(k, lib, x, kind, m) && FramesOf(k, p, z, n)
    ensures E.AreFrames(lib, x, kind, m, p, z)
    decreases n
  {
    hide S.IsFrame, E.AreFrames;
    if n == 1 {
      E.OneIsFrames(lib, x, kind, m, p, z);
    } else {
      var i: nat :| i <= |z| && FramesOf(k, p, z[..i], n - 1) && k.frame([], z[i..]);
      CountedAreFrames(k, lib, x, kind, m, p, z[..i], n - 1);
      E.OneIsFrames(lib, x, kind, m, [], z[i..]);
      E.AreMoreFrames(lib, x, kind, m, p, z[..i], [], z[i..]);
      assert z[..i] + z[i..] == z && p + [] == p;
    }
  }

  /** What shows `p` is a frame cut short after `p`, to a reader. */
  ghost predicate ShowsRead<C, D>(k: Zstd<C>, lib: F.Lib<D>, x: F.LibSem<D>, m: uint64) {
    forall p: seq<byte>, z: seq<byte> :: k.shows(p, z) ==> x.frame(m, lib.start, z) == F.CutFrame(p)
  }

  /** So what is out decodes to what was taken: as a stream that may stop there,
      or that stops short in a frame. */
  lemma ShownReads<C(!new), D(!new)>(k: Zstd<C>, lib: F.Lib<D>, x: F.LibSem<D>, kind: F.Kind, m: uint64,
                                     p: seq<byte>, z: seq<byte>, n: nat)
    requires F.LibKeeps(lib, x, kind) && FramesRead(k, lib, x, kind, m) && ShowsRead(k, lib, x, m) && Shown(k, p, z, n)
    ensures var o := S.Unframe(lib, x, kind, m, z, true); (o.Complete? || o.Cut?) && o.out == p
  {
    hide F.LibKeeps, FramesRead, S.IsFrame, S.BeginsFrame, FramesOf, E.AreFrames;
    if n > 0 {
      var i: nat :| i <= |z| && FramesOf(k, p, z[..i], n) && (i == |z| || k.shows([], z[i..]));
      CountedAreFrames(k, lib, x, kind, m, p, z[..i], n);
      var t := z[i..];
      assert z[..i] + t == z;
      if i == |z| {
        S.NothingBegins(kind, t);
      }
      FramesAndMore(lib, x, kind, m, p, z[..i], t);
    }
  }

  lemma FramesAndMore<D(!new)>(lib: F.Lib<D>, x: F.LibSem<D>, kind: F.Kind, m: uint64, p: seq<byte>, y: seq<byte>, t: seq<byte>)
    requires F.LibKeeps(lib, x, kind) && E.AreFrames(lib, x, kind, m, p, y)
    requires !S.BeginsFrame(kind, t) || x.frame(m, lib.start, t) == F.CutFrame([])
    ensures var o := S.Unframe(lib, x, kind, m, y + t, true); (o.Complete? || o.Cut?) && o.out == p
  {
    hide F.LibKeeps, S.IsFrame, S.BeginsFrame;
    var fs: seq<S.Framed> :|
      && fs != [] && (forall j :: 0 <= j < |fs| ==> S.IsFrame(lib, x, kind, m, fs[j]))
      && S.Bytes(fs) == y && S.Data(fs) == p;
    assert p + [] == p;
    S.FramesThen(lib, x, kind, m, fs, t);
  }

  lemma ShownReadsBack<C(!new), D(!new)>(k: Zstd<C>, lib: F.Lib<D>, x: F.LibSem<D>, kind: F.Kind)
    requires F.LibKeeps(lib, x, kind) && FramesRead(k, lib, x, kind, 0) && ShowsRead(k, lib, x, 0)
    ensures E.ShownReadBack(ZstdShows(k), lib, x, kind)
  {
    hide F.LibKeeps, FramesRead, ShowsRead, Shown, S.Unframe;
    forall p: seq<byte>, z: seq<byte> | ShownFrames(k, p, z)
      ensures var o := S.Unframe(lib, x, kind, 0, z, true); (o.Complete? || o.Cut?) && o.out == p
    {
      var n: nat :| Shown(k, p, z, n);
      ShownReads(k, lib, x, kind, 0, p, z, n);
    }
  }
}
