/** Frame continuation for zstd and lz4-frame (src/zu_frames.c) and the decode
    loop both codecs share (src/codec_zstd.c, src/codec_lz4.c). */
module Frames {
  import opened Zu
  import opened Codecs
  import opened Checksum
  import H = Huffman
  import W = ZstdWindow

  datatype Kind = ZstdFrames | Lz4Frames

  datatype Place = Body | Between | Done

  type Held = s: seq<byte> | |s| < 4

  // ---- The library ---------------------------------------------------------------

  /** What a call of the library answers: the frame is complete and flushed,
      there is more of it, or it is wrong. */
  datatype Code = FrameEnd | More | Fail(status: Status)

  datatype LibTurn<+D> = LibTurn(next: D, used: nat, out: seq<byte>, code: Code)

  /** `step(m, d, w, room)`: m is the max_output the session was given, from
      which libzstd's window parameter is set (ZstdWindow.WindowLog).
      `blank(d)`: no byte of a frame has been taken. */
  datatype Lib<!D> = Lib(start: D, blank: D -> bool, step: (uint64, D, seq<byte>, nat) -> LibTurn<D>)

  /** A library that oversteps its windows, ends a frame it has not begun, or
      is not ready for another after one, is read as failing. */
  function Ask<D>(lib: Lib<D>, m: uint64, d: D, w: seq<byte>, room: nat): (t: LibTurn<D>)
    ensures t.used <= |w| && |t.out| <= room
    ensures t.code.Fail? ==> t.code.status.IsError()
    ensures t.code == FrameEnd ==> lib.blank(t.next) && (lib.blank(d) ==> t.used > 0)
  {
    var t := lib.step(m, d, w, room);
    if && t.used <= |w| && |t.out| <= room
       && (t.code.Fail? ==> t.code.status.IsError())
       && (t.code == FrameEnd ==> lib.blank(t.next) && (lib.blank(d) ==> t.used > 0))
    then t
    else LibTurn(d, 0, [], Fail(ErrInternal))
  }

  /** What the rest of a frame amounts to: it ends, it stops short, or it is
      wrong after `out`. OpenFrame: the library lets its answer depend on
      windows, and nothing is said. */
  datatype Frame =
    | WholeFrame(out: seq<byte>, used: nat)
    | CutFrame(out: seq<byte>)
    | BadFrame(out: seq<byte>, statuses: set<Status>)
    | OpenFrame

  function PrependFrame(p: seq<byte>, n: nat, i: Frame): (r: Frame) {
    match i
    case WholeFrame(out, used) => WholeFrame(p + out, n + used)
    case CutFrame(out) => CutFrame(p + out)
    case BadFrame(out, statuses) => BadFrame(p + out, statuses)
    case OpenFrame => i
  }

  /** frame(m, d, rest): what the frame amounts to under max_output m.
      window(d, rest): the window a zstd frame declares. idle(d): how many
      calls in a row libzstd counts as having moved nothing. */
  datatype LibSem<!D> = LibSem(
    ok: D -> bool, frame: (uint64, D, seq<byte>) -> Frame, window: (D, seq<byte>) -> nat, idle: D -> nat)

  /** ZSTD_NO_FORWARD_PROGRESS_MAX: the call that makes it this many fails. */
  const IDLE_MAX: nat := 16

  predicate MoreOutput(i: Frame) {
    i.BadFrame? || i.OpenFrame? || i.out != []
  }

  /** One call is one step of the frame. It stands still only for want of
      room while it holds output, or for want of input; and it counts the
      calls in which it does. */
  ghost predicate StepKeeps<D>(lib: Lib<D>, x: LibSem<D>, m: uint64, d: D, w: seq<byte>, tail: seq<byte>, room: nat) {
    x.ok(d) && x.idle(d) + 1 < IDLE_MAX && !x.frame(m, d, w + tail).OpenFrame? ==>
      var t := lib.step(m, d, w, room);
      var i := x.frame(m, d, w + tail);
      && t.used <= |w| && |t.out| <= room
      && (i.WholeFrame? ==> i.used <= |w + tail| && (lib.blank(d) ==> i.used > 0))
      && (!t.code.Fail? ==> x.ok(t.next) && Waited(lib, x, d, w, t))
      && match t.code
         case FrameEnd => i == WholeFrame(t.out, t.used) && lib.blank(t.next) && (lib.blank(d) ==> t.used > 0)
         case Fail(status) => status.IsError() && i.BadFrame? && status in i.statuses
         case More =>
           && i == PrependFrame(t.out, t.used, x.frame(m, t.next, w[t.used..] + tail))
           && (t.used == 0 && t.out == [] && w != [] ==> room == 0 && MoreOutput(x.frame(m, t.next, w + tail)))
           && (t.used == 0 && t.out == [] && w == [] && room > 0 ==> x.frame(m, t.next, []) == CutFrame([]))
  }

  /** Input that only ends a frame does not count as progress, unless it began
      it too; and a new frame's first bytes are always taken. */
  ghost predicate Waited<D>(lib: Lib<D>, x: LibSem<D>, d: D, w: seq<byte>, t: LibTurn<D>) {
    && (lib.blank(d) && w != [] ==> t.used > 0)
    && x.idle(t.next) <= if t.out != [] || (t.used > 0 && (t.code == More || lib.blank(d))) then 0 else x.idle(d) + 1
  }

  /** Four bytes of magic at a frame's start are taken whole, without room. */
  ghost predicate TakesMagic<D>(lib: Lib<D>, x: LibSem<D>, kind: Kind, m: uint64, d: D, p: seq<byte>) {
    x.ok(d) && lib.blank(d) && |p| == 4 && IsPrefix(kind, p) ==> var t := lib.step(m, d, p, 0); t.used == 4 && t.code == More
  }

  /** A frame's window is within what max_output lets it claim. */
  predicate Admitted(kind: Kind, m: uint64, window: nat) {
    kind == ZstdFrames ==> window <= H.Pow2(W.WindowLog(m))
  }

  /** Before a frame all blank states are alike; and max_output matters to what
      a frame amounts to only through the window it lets a zstd frame claim. */
  ghost predicate FramesAlike<D>(lib: Lib<D>, x: LibSem<D>, kind: Kind, m: uint64, d: D, rest: seq<byte>) {
    && (x.ok(d) && lib.blank(d) ==> x.frame(m, d, rest) == x.frame(m, lib.start, rest))
    && (x.ok(d) && Admitted(kind, m, x.window(d, rest)) ==> x.frame(m, d, rest) == x.frame(0, d, rest))
  }

  ghost predicate LibKeeps<D(!new)>(lib: Lib<D>, x: LibSem<D>, kind: Kind) {
    && x.ok(lib.start) && lib.blank(lib.start) && x.idle(lib.start) == 0
    && (kind == Lz4Frames ==> forall d: D :: x.idle(d) == 0)
    && (forall m: uint64, d: D, w: seq<byte>, tail: seq<byte>, room: nat :: StepKeeps(lib, x, m, d, w, tail, room))
    && (forall m: uint64, d: D, p: seq<byte> :: TakesMagic(lib, x, kind, m, d, p))
    && (forall m: uint64, d: D, rest: seq<byte> :: FramesAlike(lib, x, kind, m, d, rest))
  }

  // ---- zu_int_frames -----------------------------------------------------------------

  /** zu_int_frames together with the library's context, and the max_output its
      session was given. */
  datatype State<+D> = State(
    place: Place, kind: Kind, concat: bool, reject: bool, maxOutput: uint64,
    held: Held, owed: Option<byte>, d: D)

  /** zu_int_frames_init over a new or reset context. */
  function Fresh<D>(lib: Lib<D>, kind: Kind, concat: bool, reject: bool, maxOutput: uint64): (s: State<D>) {
    State(Body, kind, concat, reject, maxOutput, [], None, lib.start)
  }

  /** The decoder's reset: the session is reset, with the window parameter of
      the options given, and the frames start over. */
  function Reset<D>(lib: Lib<D>, s: State<D>, concat: bool, reject: bool, maxOutput: uint64): (s': State<D>) {
    s.(d := lib.start, place := Body, concat := concat, reject := reject, maxOutput := maxOutput, held := [], owed := None)
  }

  /** Mid-probe, mid-frame, owing a byte or after an error: reset is new. */
  lemma ResetIsFresh<D>(lib: Lib<D>, s: State<D>, concat: bool, reject: bool, maxOutput: uint64)
    ensures Reset(lib, s, concat, reject, maxOutput) == Fresh(lib, s.kind, concat, reject, maxOutput)
  {
  }

  function Magic(kind: Kind): (m: seq<byte>)
    ensures |m| == 4
  {
    match kind
    case ZstdFrames => [0x28, 0xB5, 0x2F, 0xFD]
    case Lz4Frames => [0x04, 0x22, 0x4D, 0x18]
  }

  const SKIP_TAIL: seq<byte> := [0x2A, 0x4D, 0x18]

  /** zu_int_frames_is_prefix: of the format's magic, or of a skippable
      frame's, whose low nibble is free. */
  predicate IsPrefix(kind: Kind, p: seq<byte>) {
    p == [] || p <= Magic(kind) || (p[0] / 16 == 5 && p[1..] <= SKIP_TAIL)
  }

  /** The four-byte numbers, little-endian, that a frame begins with: the
      format's own, or one of the sixteen of skippable frames (sections 3.1.1
      and 3.1.2 of RFC 8878; the LZ4 frame format). */
  predicate MagicNumber(kind: Kind, n: uint32) {
    n == (if kind == ZstdFrames then 0xFD2F_B528 else 0x184D_2204) || 0x184D_2A50 <= n <= 0x184D_2A5F
  }

  /** Four bytes are taken for the beginning of a frame if and only if they are
      one of those numbers. */
  lemma FourBytesBegin(kind: Kind, p: seq<byte>)
    requires |p| == 4
    ensures IsPrefix(kind, p) <==> MagicNumber(kind, Le32(p))
  {
    var m := Magic(kind);
    assert Le32(m) == if kind == ZstdFrames then 0xFD2F_B528 else 0x184D_2204;
    FieldsAreUnique(p, m);
    assert p <= m <==> p == m;
    var n := Le32(p);
    if p[0] / 16 == 5 && p[1..] == SKIP_TAIL {
      assert p[1] == p[1..][0] && p[2] == p[1..][1] && p[3] == p[1..][2];
      assert 0x184D_2A50 <= n <= 0x184D_2A5F;
    }
    if 0x184D_2A50 <= n <= 0x184D_2A5F {
      var q: seq<byte> := [0x50 + (n - 0x184D_2A50)] + SKIP_TAIL;
      FieldsAreUnique(p, q);
      assert p[1..] == SKIP_TAIL;
    }
  }

  /** and fewer are held if and only if they may become that. */
  lemma HeldMayBegin(kind: Kind, p: seq<byte>)
    requires |p| <= 4
    ensures IsPrefix(kind, p) <==> exists q: seq<byte> :: |q| == 4 && p <= q && MagicNumber(kind, Le32(q))
  {
    if IsPrefix(kind, p) {
      var q := if p == [] || p <= Magic(kind) then Magic(kind) else [p[0]] + SKIP_TAIL;
      assert p <= q && q[1..] == (if p == [] || p <= Magic(kind) then Magic(kind)[1..] else SKIP_TAIL);
      FourBytesBegin(kind, q);
    }
    forall q: seq<byte> | |q| == 4 && p <= q && MagicNumber(kind, Le32(q)) ensures IsPrefix(kind, p) {
      FourBytesBegin(kind, q);
      PrefixOfPrefix(kind, p, q);
    }
  }

  /** A prefix of a prefix is a prefix. */
  lemma PrefixOfPrefix(kind: Kind, p: seq<byte>, q: seq<byte>)
    requires p <= q
    ensures IsPrefix(kind, q) ==> IsPrefix(kind, p)
  {
    if p != [] && IsPrefix(kind, q) && !(q <= Magic(kind)) {
      assert p[1..] <= q[1..];
    }
  }

  datatype Extended = Extended(held: seq<byte>, n: nat, disproved: bool)

  /** A held prefix takes bytes that keep it one, up to four. */
  function Extend(kind: Kind, held: seq<byte>, w: seq<byte>): (r: Extended)
    requires |held| <= 4
    ensures r.n <= |w| && |r.held| == |held| + r.n <= 4
    ensures r.disproved ==> r.n < |w| && |r.held| < 4
    decreases |w|
  {
    if |held| == 4 || w == [] then Extended(held, 0, false)
    else if !IsPrefix(kind, held + [w[0]]) then Extended(held, 0, true)
    else
      var r := Extend(kind, held + [w[0]], w[1..]);
      Extended(r.held, 1 + r.n, r.disproved)
  }

  lemma ExtendNext(kind: Kind, held: seq<byte>, w: seq<byte>)
    requires |held| < 4 && w != []
    ensures var r := Extend(kind, held, w);
            if IsPrefix(kind, held + [w[0]]) then r == Extend(kind, held + [w[0]], w[1..]).(n := 1 + Extend(kind, held + [w[0]], w[1..]).n)
            else r == Extended(held, 0, true)
  {
    hide IsPrefix;
  }

  lemma ExtendEnds(kind: Kind, held: seq<byte>, w: seq<byte>)
    requires |held| == 4 || (|held| < 4 && w == [])
    ensures Extend(kind, held, w) == Extended(held, 0, false)
  {
  }

  function Ends<D>(s: State<D>, used: nat, st: Status): (i: Iter<State<D>>) {
    Stop(Reply(s.(place := Done, held := []), used, [], st))
  }

  /** zstd_feed_held, lz4f_feed_held: a magic completed by the window's first
      `n` bytes. No room is offered. */
  function FeedTurn<D>(lib: Lib<D>, s: State<D>, p: seq<byte>, n: nat): (i: Iter<State<D>>) {
    var t := Ask(lib, s.maxOutput, s.d, p, 0);
    var s1 := s.(held := [], d := t.next);
    if t.code.Fail? then Stop(Reply(s1, n, [], t.code.status))
    else if t.used == 4 && t.code == More then Go(s1.(place := Body), n, [])
    else Stop(Reply(s1, n, [], ErrInternal))
  }

  /** zu_int_frames_between. */
  function BetweenTurn<D>(lib: Lib<D>, s: State<D>, w: seq<byte>, f: Flush): (i: Iter<State<D>>)
    ensures i.Stop? ==> i.reply.used <= |w| && i.reply.out == []
    ensures i.Go? ==> i.used <= |w| && i.out == [] && s.place != Done
    ensures i.Go? && i.used == 0 ==> i.next == s.(place := Body)
  {
    if s.place == Done then Stop(Reply(s, 0, [], StreamEnd))
    else if !s.concat then Ends(s, 0, StreamEnd)
    else if s.held == [] then
      var k := Min(|w|, 4);
      if w == [] && f != Finish then Stop(Reply(s, 0, [], NeedInput))
      else if w == [] || !IsPrefix(s.kind, w[..k]) then Ends(s, 0, StreamEnd)
      else if k == 4 then Go(s.(place := Body), 0, [])
      else if f == Finish then Ends(s, 0, StreamEnd)
      else Stop(Reply(s.(held := w[..k]), k, [], NeedInput))
    else
      var r := Extend(s.kind, s.held, w);
      if r.disproved then Ends(s, r.n, StreamEnd)
      else if |r.held| == 4 then FeedTurn(lib, s, r.held, r.n)
      else if f != Finish then Stop(Reply(s.(held := r.held), r.n, [], NeedInput))
      else Ends(s, r.n, if s.reject then ErrTrailing else StreamEnd)
  }

  /** zu_int_frames_stalled: the library stood still; on what? With neither
      room nor input at FINISH it is asked for one byte into scratch. */
  function StallTurn<D>(lib: Lib<D>, s: State<D>, w: seq<byte>, room: nat, f: Flush): (i: Iter<State<D>>)
    ensures i.Stop? ==> i.reply.used <= |w| && i.reply.out == []
    ensures i.Go? ==> s.concat && i.out == [] && i.used <= |w| && (i.used == 0 ==> lib.blank(i.next.d) && i.next.place == Body && i.next.owed == s.owed)
  {
    if room == 0 then
      if w != [] then Stop(Reply(s, 0, [], NeedOutput))
      else if f != Finish then Stop(Reply(s, 0, [], NeedInput))
      else
        var t := Ask(lib, s.maxOutput, s.d, [], 1);
        if t.code.Fail? then Stop(Reply(s.(d := t.next), 0, [], t.code.status))
        else
          var s1 := if t.code == FrameEnd then s.(d := t.next, place := Between, held := []) else s.(d := t.next);
          if t.out != [] then Stop(Reply(s1.(owed := Some(t.out[0])), 0, [], NeedOutput))
          else if t.code == FrameEnd then BetweenTurn(lib, s1, w, f)
          else Stop(Reply(s1, 0, [], ErrTruncated))
    else if w == [] then Stop(Reply(s, 0, [], if f == Finish then ErrTruncated else NeedInput))
    else Stop(Reply(s, 0, [], ErrInternal))
  }

  function BodyTurn<D>(lib: Lib<D>, s: State<D>, w: seq<byte>, room: nat, f: Flush): (i: Iter<State<D>>) {
    var t := Ask(lib, s.maxOutput, s.d, w, room);
    var s1 := s.(d := t.next);
    match t.code
    case Fail(status) => Stop(Reply(s1, 0, [], status))
    case FrameEnd => Go(s1.(place := Between, held := []), t.used, t.out)
    case More =>
      if t.used == 0 && t.out == [] then StallTurn(lib, s1, w, room, f) else Go(s1, t.used, t.out)
  }

  /** One turn of zstd_decoder_process or lz4f_decoder_process; an owed byte
      is paid first (zu_int_frames_pay). */
  function OneTurn<D>(lib: Lib<D>, s: State<D>, w: seq<byte>, room: nat, f: Flush): (i: Iter<State<D>>)
    ensures i.Stop? ==> i.reply.used <= |w| && |i.reply.out| <= room
    ensures i.Go? ==> i.used <= |w| && |i.out| <= room
    ensures i.Go? && i.used == 0 && i.out == [] ==> Rank(lib, i.next) < Rank(lib, s)
  {
    if s.owed.Some? then
      if room == 0 then Stop(Reply(s, 0, [], NeedOutput)) else Go(s.(owed := None), 0, [s.owed.value])
    else if s.place != Body then BetweenTurn(lib, s, w, f)
    else BodyTurn(lib, s, w, room, f)
  }

  /** Turns that move no cursor go down. */
  function Rank<D>(lib: Lib<D>, s: State<D>): (r: nat) {
    (if s.owed.Some? then 10 else 0) + (if !lib.blank(s.d) then 2 else 0) +
    match s.place
    case Done => 0
    case Body => 1
    case Between => 2
  }

  function Process<D>(lib: Lib<D>, s: State<D>, w: seq<byte>, room: nat, f: Flush): (r: Reply<State<D>>)
    ensures r.used <= |w| && |r.out| <= room
    decreases |w| + room, Rank(lib, s)
  {
    match OneTurn(lib, s, w, room, f)
    case Stop(r) => r
    case Go(next, used, out) => Ahead(out, used, Process(lib, next, w[used..], room - |out|, f))
  }

  // ---- What a stream amounts to -------------------------------------------------------

  /** A frame that does not end within the input. */
  function NotWhole(i: Frame): (o: Outcome)
    ensures !o.Complete?
  {
    match i
    case BadFrame(out, statuses) => Corrupt(out, statuses)
    case CutFrame(out) => Cut(out, ErrTruncated)
    case _ => Open
  }

  /** The outcome of the stream in state `s` when exactly `rest` is to come.
      A held prefix counts as if it were still unread. */
  function Rest<D>(lib: Lib<D>, x: LibSem<D>, s: State<D>, rest: seq<byte>): (o: Outcome)
    decreases |s.held| + |rest|, Rank(lib, s)
  {
    if s.owed.Some? then Prepend([s.owed.value], 0, Rest(lib, x, s.(owed := None), rest))
    else
      match s.place
      case Done => Complete([], 0, rest)
      case Between =>
        if !s.concat then Complete([], 0, rest)
        else
          var all := s.held + rest;
          if |all| >= 4 && IsPrefix(s.kind, all[..4]) then
            Prepend([], -|s.held|, Rest(lib, x, s.(place := Body, held := []), all))
          else Complete([], -|s.held|, all)
      case Body =>
        var i := x.frame(s.maxOutput, s.d, rest);
        if !i.WholeFrame? || i.used > |rest| || (lib.blank(s.d) && i.used == 0) || !lib.blank(lib.start) then NotWhole(i)
        else Prepend(i.out, i.used, Rest(lib, x, s.(place := Between, held := [], d := lib.start), rest[i.used..]))
  }

  /** The options are the stream's own, and what is held or owed is in place. */
  predicate Shaped<D>(lib: Lib<D>, x: LibSem<D>, kind: Kind, o: DecOpts, s: State<D>) {
    && s.kind == kind && s.concat == o.concat && s.reject == o.reject && s.maxOutput == o.maxOutput
    && s.place != Done && x.ok(s.d)
    && (s.place == Between ==> lib.blank(s.d))
    && (s.held != [] ==> s.place == Between && o.concat && s.owed == None && IsPrefix(kind, s.held))
  }

  predicate Inv<D>(lib: Lib<D>, x: LibSem<D>, kind: Kind, o: DecOpts, s: State<D>) {
    && Shaped(lib, x, kind, o, s)
    && (s.place == Between ==> x.idle(s.d) + 1 < IDLE_MAX)
    && (s.owed.Some? ==> x.idle(s.d) == 0)
  }

  /** The calls the library would count as idle, if it is the next to be asked. */
  function Waiting<D>(x: LibSem<D>, s: State<D>): (n: nat) {
    if s.place == Body && s.owed == None then x.idle(s.d) else 0
  }

  function FramedSem<D>(lib: Lib<D>, x: LibSem<D>, kind: Kind, o: DecOpts): (sem: Sem<State<D>>) {
    Sem((s: State<D>) => Inv(lib, x, kind, o, s), (s: State<D>, rest: seq<byte>) => Rest(lib, x, s, rest),
        (s: State<D>) => false, (s: State<D>) => Waiting(x, s))
  }

  /** No more than this many calls in a row may have moved nothing: a call may
      ask the library twice, and its sixteenth idle call fails. */
  const PATIENCE: nat := IDLE_MAX - 3

  /** The framed decoders are honest; with concatenation on they see every
      tail; they may run up to three bytes past the end,
      and those begin like a magic. */
  function FramedPolicy(kind: Kind, concat: bool, reject: bool): (p: Policy) {
    Policy(reject, true, concat, 3, (p: seq<byte>) => |p| < 4 && IsPrefix(kind, p),
           Asks(false, None, if kind == ZstdFrames then Some(PATIENCE) else None))
  }

  /** The options a framed decoder looks at, and those it was given. */
  function Seen(o: DecOpts): (o': DecOpts) {
    DecOpts(o.maxOutput, 0, o.reject, o.concat, false, 0)
  }

  function OptsOf<D>(s: State<D>): (o: DecOpts) {
    DecOpts(s.maxOutput, 0, s.reject, s.concat, false, 0)
  }

  /** A call the decoder may be asked, as its turns see it: the library is not
      at the end of its patience, or is about to be given a frame's start. */
  ghost predicate MayAsk<D>(lib: Lib<D>, x: LibSem<D>, s: State<D>, w: seq<byte>, tail: seq<byte>, f: Flush) {
    && (f == Finish ==> tail == []) && !Rest(lib, x, s, w + tail).Open?
    && (s.place == Body && s.owed == None ==>
          x.idle(s.d) <= PATIENCE || (lib.blank(s.d) && w != [] && x.idle(s.d) + 1 < IDLE_MAX))
  }

  /** What a turn in state `s` owes. */
  ghost predicate TurnOk<D(!new)>(lib: Lib<D>, x: LibSem<D>, s: State<D>, i: Iter<State<D>>,
                                      w: seq<byte>, tail: seq<byte>, room: nat, f: Flush)
  {
    IterOk(FramedSem(lib, x, s.kind, OptsOf(s)), FramedPolicy(s.kind, s.concat, s.reject),
           Rest(lib, x, s, w + tail), i, w, tail, room, f)
  }

  lemma PayOk<D(!new)>(lib: Lib<D>, x: LibSem<D>, s: State<D>, w: seq<byte>, tail: seq<byte>, room: nat, f: Flush)
    requires Inv(lib, x, s.kind, OptsOf(s), s) && s.owed.Some?
    ensures TurnOk(lib, x, s, OneTurn(lib, s, w, room, f), w, tail, room, f)
  {
    assert w[0..] == w;
    PrependNothing(Rest(lib, x, s, w + tail));
  }

  /** Is there a frame to come in these bytes? Four of them decide, or fewer
      if there are no more. */
  lemma BetweenRest<D>(lib: Lib<D>, x: LibSem<D>, s: State<D>, rest: seq<byte>)
    requires s.place == Between && s.owed == None && s.concat
    ensures var all := s.held + rest;
            Rest(lib, x, s, rest) ==
            if |all| >= 4 && IsPrefix(s.kind, all[..4])
            then Prepend([], -|s.held|, Rest(lib, x, s.(place := Body, held := []), all))
            else Complete([], -|s.held|, all)
  {
  }

  /** Holding bytes back changes nothing but where they are counted. */
  lemma HoldingCounts<D>(lib: Lib<D>, x: LibSem<D>, s: State<D>, s1: State<D>, p: seq<byte>, rest: seq<byte>)
    requires s.place == Between && s.owed == None && s.concat
    requires s1 == s.(held := s1.held) && s1.held == s.held + p
    ensures Rest(lib, x, s, p + rest) == Prepend([], |p|, Rest(lib, x, s1, rest))
  {
    hide IsPrefix, Rest;
    BetweenRest(lib, x, s, p + rest);
    BetweenRest(lib, x, s1, rest);
    assert s.held + (p + rest) == s1.held + rest;
    PrependTwice([], |p|, [], -|s1.held|, Rest(lib, x, s.(place := Body, held := []), s1.held + rest));
  }

  lemma BodyRest<D>(lib: Lib<D>, x: LibSem<D>, s: State<D>, rest: seq<byte>)
    requires s.place == Body && s.owed == None
    ensures var i := x.frame(s.maxOutput, s.d, rest);
            Rest(lib, x, s, rest) ==
            if !i.WholeFrame? || i.used > |rest| || (lib.blank(s.d) && i.used == 0) || !lib.blank(lib.start) then NotWhole(i)
            else Prepend(i.out, i.used, Rest(lib, x, s.(place := Between, held := [], d := lib.start), rest[i.used..]))
  {
  }

  /** A frame part dealt with is a part of the stream dealt with. */
  lemma BodyStep<D>(lib: Lib<D>, x: LibSem<D>, s: State<D>, t: LibTurn<D>, rest: seq<byte>)
    requires s.place == Body && s.owed == None && t.used <= |rest|
    requires x.frame(s.maxOutput, s.d, rest) == PrependFrame(t.out, t.used, x.frame(s.maxOutput, t.next, rest[t.used..]))
    requires var i := x.frame(s.maxOutput, s.d, rest); i.WholeFrame? ==> i.used <= |rest| && (lib.blank(s.d) ==> i.used > 0)
    requires var i := x.frame(s.maxOutput, t.next, rest[t.used..]); i.WholeFrame? && lib.blank(t.next) ==> i.used > 0
    ensures Rest(lib, x, s, rest) == Prepend(t.out, t.used, Rest(lib, x, s.(d := t.next), rest[t.used..]))
  {
    hide Rest;
    var i := x.frame(s.maxOutput, t.next, rest[t.used..]);
    BodyRest(lib, x, s, rest);
    BodyRest(lib, x, s.(d := t.next), rest[t.used..]);
    if i.WholeFrame? {
      assert rest[t.used..][i.used..] == rest[t.used + i.used..];
      PrependTwice(t.out, t.used, i.out, i.used,
                   Rest(lib, x, s.(place := Between, held := [], d := lib.start), rest[t.used + i.used..]));
    }
  }

  /** Two blank states lead to the same. */
  lemma BlankRest<D(!new)>(lib: Lib<D>, x: LibSem<D>, s: State<D>, d: D, rest: seq<byte>)
    requires LibKeeps(lib, x, s.kind) && s.owed == None && s.place == Body
    requires x.ok(s.d) && lib.blank(s.d) && x.ok(d) && lib.blank(d)
    ensures Rest(lib, x, s, rest) == Rest(lib, x, s.(d := d), rest)
  {
    assert FramesAlike(lib, x, s.kind, s.maxOutput, s.d, rest);
    assert FramesAlike(lib, x, s.kind, s.maxOutput, d, rest);
    hide LibKeeps;
  }

  lemma BlankBetween<D(!new)>(lib: Lib<D>, x: LibSem<D>, s: State<D>, d: D, rest: seq<byte>)
    requires LibKeeps(lib, x, s.kind) && s.owed == None && s.place == Between
    requires x.ok(s.d) && lib.blank(s.d) && x.ok(d) && lib.blank(d)
    ensures Rest(lib, x, s, rest) == Rest(lib, x, s.(d := d), rest)
  {
    hide LibKeeps, IsPrefix;
    if s.concat {
      BetweenRest(lib, x, s, rest);
      BetweenRest(lib, x, s.(d := d), rest);
      BlankRest(lib, x, s.(place := Body, held := []), d, s.held + rest);
    }
  }

  // ---- Each turn is a step of the stream ------------------------------------------------

  lemma BetweenTurnOk<D(!new)>(lib: Lib<D>, x: LibSem<D>, s: State<D>, w: seq<byte>, tail: seq<byte>, room: nat, f: Flush)
    requires LibKeeps(lib, x, s.kind) && Inv(lib, x, s.kind, OptsOf(s), s)
    requires s.place == Between && s.owed == None && MayAsk(lib, x, s, w, tail, f)
    ensures TurnOk(lib, x, s, BetweenTurn(lib, s, w, f), w, tail, room, f)
  {
    hide LibKeeps, IsPrefix, TurnOk;
    if !s.concat {
      NotConcatOk(lib, x, s, w, tail, room, f);
    } else if s.held == [] {
      NothingHeldOk(lib, x, s, w, tail, room, f);
    } else {
      HeldOk(lib, x, s, w, tail, room, f);
    }
  }

  lemma NotConcatOk<D(!new)>(lib: Lib<D>, x: LibSem<D>, s: State<D>, w: seq<byte>, tail: seq<byte>, room: nat, f: Flush)
    requires s.place == Between && s.owed == None && !s.concat
    ensures TurnOk(lib, x, s, BetweenTurn(lib, s, w, f), w, tail, room, f)
  {
  }

  /** With no more to come the stream ends where a frame did. */
  lemma EndsHere<D(!new)>(lib: Lib<D>, x: LibSem<D>, s: State<D>, room: nat)
    requires s.place == Between && s.owed == None && s.held == []
    ensures TurnOk(lib, x, s, BetweenTurn(lib, s, [], Finish), [], [], room, Finish)
  {
    var none: seq<byte> := [];
    assert none + none == none && s.held + none == none;
  }

  lemma NothingHeldOk<D(!new)>(lib: Lib<D>, x: LibSem<D>, s: State<D>, w: seq<byte>, tail: seq<byte>, room: nat, f: Flush)
    requires Inv(lib, x, s.kind, OptsOf(s), s)
    requires s.place == Between && s.owed == None && s.concat && s.held == [] && (f == Finish ==> tail == [])
    ensures TurnOk(lib, x, s, BetweenTurn(lib, s, w, f), w, tail, room, f)
  {
    hide IsPrefix, Rest;
    var rest, k := w + tail, Min(|w|, 4);
    BetweenRest(lib, x, s, rest);
    assert [] + rest == rest && w[0..] == w && w[..k] + w[k..] == w;
    if w == [] {
      PrependNothing(Rest(lib, x, s, rest));
    } else if !IsPrefix(s.kind, w[..k]) {
      NoFrameHere(s.kind, w[..k], rest);
    } else if k == 4 {
      assert rest[..4] == w[..4] && s.(place := Body, held := []) == s.(place := Body);
    } else if f != Finish {
      HoldingCounts(lib, x, s, s.(held := w[..k]), w, tail);
      assert w[k..] + tail == tail;
    }
  }

  lemma HeldOk<D(!new)>(lib: Lib<D>, x: LibSem<D>, s: State<D>, w: seq<byte>, tail: seq<byte>, room: nat, f: Flush)
    requires LibKeeps(lib, x, s.kind) && Inv(lib, x, s.kind, OptsOf(s), s)
    requires s.place == Between && s.owed == None && s.concat && s.held != [] && MayAsk(lib, x, s, w, tail, f)
    ensures TurnOk(lib, x, s, BetweenTurn(lib, s, w, f), w, tail, room, f)
  {
    hide IsPrefix, Rest, LibKeeps, Extend, TurnOk, BetweenTurn;
    var r := Extend(s.kind, s.held, w);
    ExtendFacts(s.kind, s.held, w);
    if r.disproved {
      DisprovedOk(lib, x, s, r.n, w, tail, room, f);
    } else if |r.held| == 4 {
      FedTurn(lib, s, w, f);
      ConfirmedOk(lib, x, s, r.held, r.n, w, tail, room, f);
    } else {
      assert w[..|w|] == w;
      AllHeldOk(lib, x, s, w, tail, room, f);
    }
  }

  /** A byte that cannot go on with a magic: the stream has ended. */
  lemma DisprovedOk<D(!new)>(lib: Lib<D>, x: LibSem<D>, s: State<D>, n: nat, w: seq<byte>, tail: seq<byte>, room: nat, f: Flush)
    requires s.place == Between && s.owed == None && s.concat && s.held != []
    requires n < |w| && |s.held| + n < 4 && !IsPrefix(s.kind, s.held + w[..n] + [w[n]])
    requires var r := Extend(s.kind, s.held, w); r.disproved && r.n == n
    ensures TurnOk(lib, x, s, BetweenTurn(lib, s, w, f), w, tail, room, f)
  {
    hide IsPrefix, Rest, Extend, BetweenTurn, TurnOk, Ends;
    HeldBytes(s.held, w, tail, n);
    NoFrameHere(s.kind, s.held + w[..n] + [w[n]], s.held + (w + tail));
    UnconfirmedTurn(lib, s, w, f);
    BetweenRest(lib, x, s, w + tail);
    EndsOk(lib, x, s, n, s.held + (w + tail), w, tail, room, f);
  }

  lemma EndsOk<D(!new)>(lib: Lib<D>, x: LibSem<D>, s: State<D>, n: nat, after: seq<byte>,
                        w: seq<byte>, tail: seq<byte>, room: nat, f: Flush)
    requires Rest(lib, x, s, w + tail) == Complete([], -|s.held|, after) && after != []
    requires n < |w| && |s.held| + n < 4
    ensures TurnOk(lib, x, s, Ends(s, n, StreamEnd), w, tail, room, f)
  {
    hide Rest;
  }

  /** The window goes to what is held, and still it is less than a magic. */
  lemma AllHeldOk<D(!new)>(lib: Lib<D>, x: LibSem<D>, s: State<D>, w: seq<byte>, tail: seq<byte>, room: nat, f: Flush)
    requires Inv(lib, x, s.kind, OptsOf(s), s) && (f == Finish ==> tail == [])
    requires s.place == Between && s.owed == None && s.concat && s.held != []
    requires |s.held + w| < 4 && IsPrefix(s.kind, s.held + w) && Extend(s.kind, s.held, w) == Extended(s.held + w, |w|, false)
    ensures TurnOk(lib, x, s, BetweenTurn(lib, s, w, f), w, tail, room, f)
  {
    hide IsPrefix, Rest, Extend;
    UnconfirmedTurn(lib, s, w, f);
    hide BetweenTurn;
    if f != Finish {
      HoldingCounts(lib, x, s, s.(held := s.held + w), w, tail);
      assert w[|w|..] + tail == tail;
    } else {
      assert w + [] == w;
      BetweenRest(lib, x, s, w);
    }
  }

  lemma HeldBytes(held: seq<byte>, w: seq<byte>, tail: seq<byte>, n: nat)
    requires n <= |w|
    ensures held + (w + tail) == held + w[..n] + (w[n..] + tail)
    ensures n < |w| ==> held + w[..n] + [w[n]] <= held + (w + tail)
  {
    assert held + (w + tail) == held + w[..n] + (w[n..] + tail);
  }

  lemma UnconfirmedTurn<D>(lib: Lib<D>, s: State<D>, w: seq<byte>, f: Flush)
    requires s.place == Between && s.concat && s.held != [] && |Extend(s.kind, s.held, w).held| < 4
    ensures var r := Extend(s.kind, s.held, w);
            BetweenTurn(lib, s, w, f) ==
            if r.disproved then Ends(s, r.n, StreamEnd)
            else if f != Finish then Stop(Reply(s.(held := r.held), r.n, [], NeedInput))
            else Ends(s, r.n, if s.reject then ErrTrailing else StreamEnd)
  {
    hide IsPrefix, Extend, Ask;
  }

  /** A prefix of the bytes that begins no magic settles it. */
  lemma NoFrameHere(kind: Kind, q: seq<byte>, all: seq<byte>)
    requires q <= all && |q| <= 4 && !IsPrefix(kind, q)
    ensures !(|all| >= 4 && IsPrefix(kind, all[..4]))
  {
    hide IsPrefix;
    if |all| >= 4 {
      assert q <= all[..4];
      PrefixOfPrefix(kind, q, all[..4]);
    }
  }

  lemma {:induction false} ExtendFacts(kind: Kind, held: seq<byte>, w: seq<byte>)
    requires |held| <= 4 && IsPrefix(kind, held)
    ensures var r := Extend(kind, held, w);
            && r.n <= |w| && r.held == held + w[..r.n] && |r.held| <= 4 && IsPrefix(kind, r.held)
            && (r.disproved ==> r.n < |w| && |r.held| < 4 && !IsPrefix(kind, r.held + [w[r.n]]))
            && (!r.disproved && |r.held| < 4 ==> r.n == |w|)
    decreases |w|
  {
    hide IsPrefix;
    if |held| == 4 || w == [] || !IsPrefix(kind, held + [w[0]]) {
      assert held + w[..0] == held;
    } else {
      var r := Extend(kind, held + [w[0]], w[1..]);
      ExtendFacts(kind, held + [w[0]], w[1..]);
      assert w[..1 + r.n] == [w[0]] + w[1..][..r.n];
      assert held + [w[0]] + w[1..][..r.n] == held + w[..1 + r.n];
      assert r.disproved ==> w[1..][r.n] == w[1 + r.n];
    }
  }

  /** Four bytes held: they go to the library as it would have read them. */
  lemma ConfirmedOk<D(!new)>(lib: Lib<D>, x: LibSem<D>, s: State<D>, p: seq<byte>, n: nat,
                             w: seq<byte>, tail: seq<byte>, room: nat, f: Flush)
    requires LibKeeps(lib, x, s.kind) && Inv(lib, x, s.kind, OptsOf(s), s)
    requires s.place == Between && s.owed == None && s.concat && s.held != [] && !Rest(lib, x, s, w + tail).Open?
    requires n <= |w| && p == s.held + w[..n] && |p| == 4 && IsPrefix(s.kind, p)
    requires BetweenTurn(lib, s, w, f) == FeedTurn(lib, s, p, n)
    ensures TurnOk(lib, x, s, BetweenTurn(lib, s, w, f), w, tail, room, f)
  {
    hide IsPrefix, Rest, LibKeeps, Ask, BetweenTurn, TurnOk;
    var rest, t := w[n..] + tail, Ask(lib, s.maxOutput, s.d, p, 0);
    assert s.held + (w + tail) == p + rest;
    MagicIsFed(lib, x, s, p, rest, w + tail);
    GoOk(lib, x, s, s.(place := Body, held := [], d := t.next), n, w, tail, room, f);
  }

  lemma FedTurn<D>(lib: Lib<D>, s: State<D>, w: seq<byte>, f: Flush)
    requires s.place == Between && s.concat && s.held != [] && |Extend(s.kind, s.held, w).held| == 4
    ensures var r := Extend(s.kind, s.held, w); BetweenTurn(lib, s, w, f) == FeedTurn(lib, s, r.held, r.n)
  {
    hide IsPrefix, Extend, FeedTurn;
  }

  lemma GoOk<D(!new)>(lib: Lib<D>, x: LibSem<D>, s: State<D>, next: State<D>, n: nat,
                      w: seq<byte>, tail: seq<byte>, room: nat, f: Flush)
    requires n <= |w| && Inv(lib, x, s.kind, OptsOf(s), next)
    requires Rest(lib, x, s, w + tail) == Prepend([], n, Rest(lib, x, next, w[n..] + tail))
    ensures TurnOk(lib, x, s, Go(next, n, []), w, tail, room, f)
  {
    hide Rest;
  }

  lemma MagicIsFed<D(!new)>(lib: Lib<D>, x: LibSem<D>, s: State<D>, p: seq<byte>, rest: seq<byte>, whole: seq<byte>)
    requires LibKeeps(lib, x, s.kind) && s.place == Between && s.owed == None && s.concat
    requires x.ok(s.d) && lib.blank(s.d) && x.idle(s.d) + 1 < IDLE_MAX && !Rest(lib, x, s, whole).Open?
    requires |p| == 4 && IsPrefix(s.kind, p) && s.held + whole == p + rest
    ensures var t := Ask(lib, s.maxOutput, s.d, p, 0);
            && t.used == 4 && t.code == More && x.ok(t.next) && x.idle(t.next) == 0
            && Rest(lib, x, s, whole) ==
                 Prepend([], 4 - |s.held|, Rest(lib, x, s.(place := Body, held := [], d := t.next), rest))
  {
    hide IsPrefix, Rest, LibKeeps, Ask;
    var t, all, b := Ask(lib, s.maxOutput, s.d, p, 0), p + rest, s.(place := Body, held := []);
    assert all[..4] == p && all[4..] == rest;
    BetweenRest(lib, x, s, whole);
    BodyRest(lib, x, b, all);
    MagicTaken(lib, x, s.kind, s.maxOutput, s.d, p, rest);
    BodyAsked(lib, x, b, p, rest, 0);
    PrependTwice([], -|s.held|, [], 4, Rest(lib, x, b.(d := t.next), rest));
  }

  lemma MagicTaken<D(!new)>(lib: Lib<D>, x: LibSem<D>, kind: Kind, m: uint64, d: D, p: seq<byte>, rest: seq<byte>)
    requires LibKeeps(lib, x, kind) && |p| == 4 && IsPrefix(kind, p) && x.ok(d) && lib.blank(d) && x.idle(d) + 1 < IDLE_MAX
    requires !x.frame(m, d, p + rest).OpenFrame?
    ensures var t := Ask(lib, m, d, p, 0); t.used == 4 && t.code == More && t.out == []
  {
    hide IsPrefix;
    assert TakesMagic(lib, x, kind, m, d, p);
    assert StepKeeps(lib, x, m, d, p, rest, 0);
  }

  /** What the library's contract says of one call. */
  lemma LibAsked<D(!new)>(lib: Lib<D>, x: LibSem<D>, kind: Kind, m: uint64, d: D, w: seq<byte>, tail: seq<byte>, room: nat)
    requires LibKeeps(lib, x, kind) && x.ok(d) && x.idle(d) + 1 < IDLE_MAX && !x.frame(m, d, w + tail).OpenFrame?
    ensures var t, rest := Ask(lib, m, d, w, room), w + tail;
            var i := x.frame(m, d, rest);
            && w[t.used..] + tail == rest[t.used..] && (t.code.Fail? ==> t.code.status.IsError())
            && (i.WholeFrame? ==> i.used <= |rest| && (lib.blank(d) ==> i.used > 0))
            && (!t.code.Fail? ==> x.ok(t.next) && Waited(lib, x, d, w, t))
            && match t.code
               case FrameEnd => i == WholeFrame(t.out, t.used) && lib.blank(t.next)
               case Fail(status) => i.BadFrame? && status in i.statuses
               case More =>
                 var j := x.frame(m, t.next, rest[t.used..]);
                 && i == PrependFrame(t.out, t.used, j)
                 && (t.used == 0 && t.out == [] && w != [] ==> room == 0 && MoreOutput(j))
                 && (t.used == 0 && t.out == [] && w == [] && room > 0 ==> x.frame(m, t.next, []) == CutFrame([]))
  {
    assert StepKeeps(lib, x, m, d, w, tail, room);
    var t := Ask(lib, m, d, w, room);
    assert t == lib.step(m, d, w, room);
    assert w[t.used..] + tail == (w + tail)[t.used..];
    assert (w + tail)[0..] == w + tail;
  }

  /** Once begun, a frame that ends ends after something more, or was over. */
  lemma BlankEnds<D(!new)>(lib: Lib<D>, x: LibSem<D>, kind: Kind, m: uint64, d: D, rest: seq<byte>)
    requires LibKeeps(lib, x, kind) && x.ok(d) && lib.blank(d)
    ensures var i := x.frame(m, d, rest); i.WholeFrame? ==> 0 < i.used <= |rest|
  {
    var none: seq<byte> := [];
    assert none + rest == rest;
    assert FramesAlike(lib, x, kind, m, d, rest);
    assert StepKeeps(lib, x, m, lib.start, none, rest, 0);
  }

  lemma StartIsOk<D(!new)>(lib: Lib<D>, x: LibSem<D>, kind: Kind)
    requires LibKeeps(lib, x, kind)
    ensures x.ok(lib.start) && lib.blank(lib.start) && x.idle(lib.start) == 0
  {
  }

  /** What a call of the body's turn sees of its frame, and what it leaves. */
  lemma BodyAsked<D(!new)>(lib: Lib<D>, x: LibSem<D>, s: State<D>, w: seq<byte>, tail: seq<byte>, room: nat)
    requires LibKeeps(lib, x, s.kind) && x.ok(s.d) && x.idle(s.d) + 1 < IDLE_MAX
    requires s.place == Body && s.owed == None && !Rest(lib, x, s, w + tail).Open?
    ensures var t, rest := Ask(lib, s.maxOutput, s.d, w, room), w + tail;
            && w[t.used..] + tail == rest[t.used..]
            && (!t.code.Fail? ==> x.ok(t.next) && Waited(lib, x, s.d, w, t))
            && match t.code
               case FrameEnd =>
                 lib.blank(t.next) &&
                 Rest(lib, x, s, rest) == Prepend(t.out, t.used, Rest(lib, x, s.(place := Between, held := [], d := t.next), rest[t.used..]))
               case Fail(status) =>
                 var o := Rest(lib, x, s, rest); o.Corrupt? && status in o.statuses && status.IsError()
               case More =>
                 && Rest(lib, x, s, rest) == Prepend(t.out, t.used, Rest(lib, x, s.(d := t.next), rest[t.used..]))
                 && (t.used == 0 && t.out == [] && w != [] ==> room == 0 && MoreOutput(x.frame(s.maxOutput, t.next, rest[t.used..])))
                 && (t.used == 0 && t.out == [] && w == [] && room > 0 ==> x.frame(s.maxOutput, t.next, []) == CutFrame([]))
  {
    var t, rest := Ask(lib, s.maxOutput, s.d, w, room), w + tail;
    BodyRest(lib, x, s, rest);
    LibAsked(lib, x, s.kind, s.maxOutput, s.d, w, tail, room);
    StartIsOk(lib, x, s.kind);
    hide LibKeeps, Rest, Ask;
    if t.code == FrameEnd {
      BlankBetween(lib, x, s.(place := Between, held := [], d := lib.start), t.next, rest[t.used..]);
    } else if t.code == More {
      if lib.blank(t.next) {
        BlankEnds(lib, x, s.kind, s.maxOutput, t.next, rest[t.used..]);
      }
      BodyStep(lib, x, s, t, rest);
    }
  }

  lemma BodyTurnOk<D(!new)>(lib: Lib<D>, x: LibSem<D>, s: State<D>, w: seq<byte>, tail: seq<byte>, room: nat, f: Flush)
    requires LibKeeps(lib, x, s.kind) && Inv(lib, x, s.kind, OptsOf(s), s)
    requires s.place == Body && s.owed == None && MayAsk(lib, x, s, w, tail, f)
    ensures TurnOk(lib, x, s, BodyTurn(lib, s, w, room, f), w, tail, room, f)
  {
    var t, rest := Ask(lib, s.maxOutput, s.d, w, room), w + tail;
    BodyAsked(lib, x, s, w, tail, room);
    hide LibKeeps, Rest, IsPrefix, StallTurn, BetweenTurn, Ask;
    if t.code == More && t.used == 0 && t.out == [] {
      assert rest[0..] == rest;
      PrependNothing(Rest(lib, x, s.(d := t.next), rest));
      StallOk(lib, x, s.(d := t.next), w, tail, room, f);
    }
  }

  /** The stall classifier is right in all of its cases. */
  lemma StallOk<D(!new)>(lib: Lib<D>, x: LibSem<D>, s: State<D>, w: seq<byte>, tail: seq<byte>, room: nat, f: Flush)
    requires LibKeeps(lib, x, s.kind) && Inv(lib, x, s.kind, OptsOf(s), s)
    requires s.place == Body && s.owed == None && (f == Finish ==> tail == []) && !Rest(lib, x, s, w + tail).Open?
    requires x.idle(s.d) + 1 < IDLE_MAX
    requires w != [] ==> room == 0 && MoreOutput(x.frame(s.maxOutput, s.d, w + tail))
    requires w == [] && room > 0 ==> x.frame(s.maxOutput, s.d, []) == CutFrame([])
    ensures TurnOk(lib, x, s, StallTurn(lib, s, w, room, f), w, tail, room, f)
  {
    hide LibKeeps, IsPrefix, BetweenTurn;
    assert w[0..] == w;
    PrependNothing(Rest(lib, x, s, w + tail));
    if room == 0 && w == [] && f == Finish {
      ProbeOk(lib, x, s, f);
    }
  }

  /** The probe: a byte means output was pending, and it is owed; the end of
      the frame means only the trailer was; nothing means a cut. */
  lemma ProbeOk<D(!new)>(lib: Lib<D>, x: LibSem<D>, s: State<D>, f: Flush)
    requires LibKeeps(lib, x, s.kind) && Inv(lib, x, s.kind, OptsOf(s), s) && x.idle(s.d) + 1 < IDLE_MAX
    requires s.place == Body && s.owed == None && f == Finish && !Rest(lib, x, s, []).Open?
    ensures TurnOk(lib, x, s, StallTurn(lib, s, [], 0, f), [], [], 0, f)
  {
    hide LibKeeps, IsPrefix, Rest, Ask, TurnOk, StallTurn;
    var none: seq<byte> := [];
    assert none + none == none && none[0..] == none;
    var t := Ask(lib, s.maxOutput, s.d, none, 1);
    BodyAsked(lib, x, s, none, none, 1);
    if t.code.Fail? {
      ProbeFails(lib, x, s);
    } else if t.out != [] {
      ProbeOwes(lib, x, s);
    } else {
      ProbeEnds(lib, x, s);
    }
  }

  lemma ProbeFails<D(!new)>(lib: Lib<D>, x: LibSem<D>, s: State<D>)
    requires s.place == Body && s.owed == None
    requires var t, o := Ask(lib, s.maxOutput, s.d, [], 1), Rest(lib, x, s, []);
             t.code.Fail? && o.Corrupt? && t.code.status in o.statuses && t.code.status.IsError()
    ensures TurnOk(lib, x, s, StallTurn(lib, s, [], 0, Finish), [], [], 0, Finish)
  {
    hide Ask, Rest, IsPrefix;
    var none: seq<byte> := [];
    assert none + none == none;
  }

  lemma ProbeOwes<D(!new)>(lib: Lib<D>, x: LibSem<D>, s: State<D>)
    requires Inv(lib, x, s.kind, OptsOf(s), s) && s.place == Body && s.owed == None
    requires var t := Ask(lib, s.maxOutput, s.d, [], 1);
             var s1 := if t.code == FrameEnd then s.(d := t.next, place := Between, held := []) else s.(d := t.next);
             && !t.code.Fail? && t.out != [] && x.ok(t.next) && x.idle(t.next) == 0 && (t.code == FrameEnd ==> lib.blank(t.next))
             && Rest(lib, x, s, []) == Prepend(t.out, t.used, Rest(lib, x, s1, []))
    ensures TurnOk(lib, x, s, StallTurn(lib, s, [], 0, Finish), [], [], 0, Finish)
  {
    hide Ask, Rest, IsPrefix, BetweenTurn;
    var t, none: seq<byte> := Ask(lib, s.maxOutput, s.d, [], 1), [];
    var s1 := if t.code == FrameEnd then s.(d := t.next, place := Between, held := []) else s.(d := t.next);
    assert none + none == none && none[0..] == none;
    OweOk(lib, x, s1, t.out);
  }

  lemma ProbeEnds<D(!new)>(lib: Lib<D>, x: LibSem<D>, s: State<D>)
    requires s.place == Body && s.owed == None && s.held == []
    requires var t := Ask(lib, s.maxOutput, s.d, [], 1);
             var s1 := if t.code == FrameEnd then s.(d := t.next, place := Between, held := []) else s.(d := t.next);
             && !t.code.Fail? && t.out == [] && (t.code == More ==> x.frame(s.maxOutput, t.next, []) == CutFrame([]))
             && Rest(lib, x, s, []) == Prepend([], 0, Rest(lib, x, s1, []))
    ensures TurnOk(lib, x, s, StallTurn(lib, s, [], 0, Finish), [], [], 0, Finish)
  {
    var t, none: seq<byte> := Ask(lib, s.maxOutput, s.d, [], 1), [];
    var s1 := if t.code == FrameEnd then s.(d := t.next, place := Between, held := []) else s.(d := t.next);
    PrependNothing(Rest(lib, x, s1, none));
    assert none + none == none;
    if t.code == FrameEnd {
      EndsHere(lib, x, s1, 0);
      hide Rest, Ask, IsPrefix, BetweenTurn;
    } else {
      BodyCut(lib, x, s1);
      hide Rest, Ask, IsPrefix, BetweenTurn;
    }
  }

  lemma BodyCut<D>(lib: Lib<D>, x: LibSem<D>, s: State<D>)
    requires s.place == Body && s.owed == None && x.frame(s.maxOutput, s.d, []) == CutFrame([])
    ensures Rest(lib, x, s, []) == Cut([], ErrTruncated)
  {
  }

  /** A byte in hand is a byte of the stream. */
  lemma OweOk<D>(lib: Lib<D>, x: LibSem<D>, s: State<D>, out: seq<byte>)
    requires s.owed == None && |out| <= 1
    ensures out != [] ==>
              && Rest(lib, x, s.(owed := Some(out[0])), []) == Prepend(out, 0, Rest(lib, x, s, []))
              && Pending(Rest(lib, x, s.(owed := Some(out[0])), []))
              && Prepend([], 0, Rest(lib, x, s.(owed := Some(out[0])), [])) == Prepend(out, 0, Rest(lib, x, s, []))
  {
    if out != [] {
      assert out == [out[0]];
      var s1 := s.(owed := Some(out[0]));
      assert s1.(owed := None) == s;
      PrependNothing(Rest(lib, x, s1, []));
    }
  }

  // ---- The decoders keep the promise -------------------------------------------------------

  lemma OneTurnOk<D(!new)>(lib: Lib<D>, x: LibSem<D>, s: State<D>, w: seq<byte>, tail: seq<byte>, room: nat, f: Flush)
    requires LibKeeps(lib, x, s.kind) && Inv(lib, x, s.kind, OptsOf(s), s) && MayAsk(lib, x, s, w, tail, f)
    ensures TurnOk(lib, x, s, OneTurn(lib, s, w, room, f), w, tail, room, f)
  {
    hide TurnOk, LibKeeps, BetweenTurn, BodyTurn, MayAsk;
    if s.owed.Some? {
      PayOk(lib, x, s, w, tail, room, f);
    } else if s.place == Between {
      BetweenTurnOk(lib, x, s, w, tail, room, f);
    } else {
      BodyTurnOk(lib, x, s, w, tail, room, f);
    }
  }

  lemma OneTurnMoves<D>(lib: Lib<D>, s: State<D>, w: seq<byte>, room: nat, f: Flush)
    ensures var i := OneTurn(lib, s, w, room, f);
            i.Go? ==> i.used <= |w| && |i.out| <= room && (i.used == 0 && i.out == [] ==> Rank(lib, i.next) < Rank(lib, s))
  {
    hide Rank;
  }

  /** How long the library has waited after a turn: no time, if the turn moved
      or is between frames; and a turn that has come to a frame's start takes
      some of it. */
  ghost predicate Waits<D>(lib: Lib<D>, x: LibSem<D>, s: State<D>, w: seq<byte>, i: Iter<State<D>>) {
    match i
    case Go(next, used, out) =>
      && OptsOf(next) == OptsOf(s) && next.kind == s.kind && used <= |w|
      && (AtStart(lib, s, w) ==> used > 0)
      && (Waiting(x, next) == 0 || (used == 0 && out == [] && AtStart(lib, next, w) && x.idle(next.d) + 1 < IDLE_MAX))
    case Stop(r) =>
      r.status.IsProgress() ==>
        r.out == [] && !AtStart(lib, s, w) && Waiting(x, r.next) <= if r.used > 0 then 0 else Waiting(x, s) + 1
  }

  ghost predicate AtStart<D>(lib: Lib<D>, s: State<D>, w: seq<byte>) {
    s.place == Body && s.owed == None && lib.blank(s.d) && w != []
  }

  lemma TurnWaits<D(!new)>(lib: Lib<D>, x: LibSem<D>, s: State<D>, w: seq<byte>, tail: seq<byte>, room: nat, f: Flush)
    requires LibKeeps(lib, x, s.kind) && Inv(lib, x, s.kind, OptsOf(s), s) && MayAsk(lib, x, s, w, tail, f)
    ensures Waits(lib, x, s, w, OneTurn(lib, s, w, room, f))
  {
    if s.owed == None && s.place == Body {
      BodyWaits(lib, x, s, w, tail, room, f);
    } else if s.owed == None && s.concat && s.held != [] {
      HeldWaits(lib, x, s, w, tail, room, f);
    } else {
      hide Rest, LibKeeps, IsPrefix, Extend;
    }
  }

  lemma HeldWaits<D(!new)>(lib: Lib<D>, x: LibSem<D>, s: State<D>, w: seq<byte>, tail: seq<byte>, room: nat, f: Flush)
    requires LibKeeps(lib, x, s.kind) && Inv(lib, x, s.kind, OptsOf(s), s) && MayAsk(lib, x, s, w, tail, f)
    requires s.owed == None && s.place == Between && s.concat && s.held != []
    ensures Waits(lib, x, s, w, BetweenTurn(lib, s, w, f))
  {
    hide Rest, LibKeeps, IsPrefix, Extend, Ask;
    var r := Extend(s.kind, s.held, w);
    ExtendFacts(s.kind, s.held, w);
    if !r.disproved && |r.held| == 4 {
      var rest := w[r.n..] + tail;
      assert s.held + (w + tail) == r.held + rest;
      MagicIsFed(lib, x, s, r.held, rest, w + tail);
      FedWaits(lib, x, s, r.held, r.n, w, f);
    }
  }

  lemma FedWaits<D(!new)>(lib: Lib<D>, x: LibSem<D>, s: State<D>, p: seq<byte>, n: nat, w: seq<byte>, f: Flush)
    requires s.place == Between && s.owed == None && s.concat && s.held != [] && |p| == 4 && n <= |w|
    requires var r := Extend(s.kind, s.held, w); r.held == p && r.n == n && !r.disproved
    requires var t := Ask(lib, s.maxOutput, s.d, p, 0); t.used == 4 && t.code == More && x.idle(t.next) == 0
    ensures Waits(lib, x, s, w, BetweenTurn(lib, s, w, f))
  {
    hide IsPrefix, Extend, Ask;
  }

  lemma BodyWaits<D(!new)>(lib: Lib<D>, x: LibSem<D>, s: State<D>, w: seq<byte>, tail: seq<byte>, room: nat, f: Flush)
    requires LibKeeps(lib, x, s.kind) && Inv(lib, x, s.kind, OptsOf(s), s) && MayAsk(lib, x, s, w, tail, f)
    requires s.owed == None && s.place == Body
    ensures Waits(lib, x, s, w, BodyTurn(lib, s, w, room, f))
  {
    hide LibKeeps, Rest, IsPrefix, Ask, StallTurn;
    BodyIdles(lib, x, s, w, tail, room);
    var t := Ask(lib, s.maxOutput, s.d, w, room);
    StallWaits(lib, s.(d := t.next), w, room, f);
  }

  lemma BodyIdles<D(!new)>(lib: Lib<D>, x: LibSem<D>, s: State<D>, w: seq<byte>, tail: seq<byte>, room: nat)
    requires LibKeeps(lib, x, s.kind) && x.ok(s.d) && x.idle(s.d) + 1 < IDLE_MAX
    requires s.place == Body && s.owed == None && !Rest(lib, x, s, w + tail).Open?
    ensures var t := Ask(lib, s.maxOutput, s.d, w, room); !t.code.Fail? ==> Waited(lib, x, s.d, w, t)
  {
    hide LibKeeps, Rest, IsPrefix, Ask, Waited;
    BodyAsked(lib, x, s, w, tail, room);
  }

  lemma StallWaits<D>(lib: Lib<D>, s: State<D>, w: seq<byte>, room: nat, f: Flush)
    requires s.owed == None && s.place == Body
    ensures var i := StallTurn(lib, s, w, room, f);
            && i.Stop? && i.reply.used == 0 && i.reply.out == []
            && (i.reply.status.IsProgress() ==> i.reply.next == s || i.reply.next.owed.Some?)
  {
    hide Ask, IsPrefix;
  }

  /** One call: whatever the window, the room and the flush, a step of the
      stream `w + tail`, or its end as that stream ends; and the library is
      kept waiting for no more calls than moved nothing. */
  lemma {:induction false} ProcessOk<D(!new)>(lib: Lib<D>, x: LibSem<D>, s: State<D>,
                                              w: seq<byte>, tail: seq<byte>, room: nat, f: Flush)
    requires LibKeeps(lib, x, s.kind) && Inv(lib, x, s.kind, OptsOf(s), s) && MayAsk(lib, x, s, w, tail, f)
    ensures var r := Process(lib, s, w, room, f);
            && ReplyOk(FramedSem(lib, x, s.kind, OptsOf(s)), FramedPolicy(s.kind, s.concat, s.reject),
                       Rest(lib, x, s, w + tail), r, w, tail, room, f)
            && (r.status.IsProgress() ==>
                  && Waiting(x, r.next) <= (if r.used + |r.out| > 0 then 1 else Waiting(x, s) + 1)
                  && (AtStart(lib, s, w) ==> r.used > 0))
    decreases |w| + room, Rank(lib, s)
  {
    hide ReplyOk, LibKeeps, Rest, OneTurn, Rank, Waiting, AtStart, MayAsk;
    OneTurnOk(lib, x, s, w, tail, room, f);
    OneTurnMoves(lib, s, w, room, f);
    TurnWaits(lib, x, s, w, tail, room, f);
    var i := OneTurn(lib, s, w, room, f);
    if i.Go? {
      MayAskAgain(lib, x, s, i.next, i.used, i.out, w, tail, room, f);
      ProcessOk(lib, x, i.next, w[i.used..], tail, room - |i.out|, f);
      AheadOk(FramedSem(lib, x, s.kind, OptsOf(s)), FramedPolicy(s.kind, s.concat, s.reject),
              Rest(lib, x, s, w + tail), i.out, i.used, Rest(lib, x, i.next, w[i.used..] + tail),
              Process(lib, i.next, w[i.used..], room - |i.out|, f), w, tail, room, f);
      assert i.used == 0 ==> w[i.used..] == w;
    }
  }

  lemma MayAskAgain<D(!new)>(lib: Lib<D>, x: LibSem<D>, s: State<D>, next: State<D>, used: nat, out: seq<byte>,
                             w: seq<byte>, tail: seq<byte>, room: nat, f: Flush)
    requires MayAsk(lib, x, s, w, tail, f) && Waits(lib, x, s, w, Go(next, used, out))
    requires TurnOk(lib, x, s, Go(next, used, out), w, tail, room, f)
    ensures used <= |w| && MayAsk(lib, x, next, w[used..], tail, f)
  {
    hide Rest;
    assert used == 0 ==> w[used..] == w;
  }

  function FramedCodec<D>(lib: Lib<D>, kind: Kind): (c: Codec<State<D>>) {
    Codec((o: DecOpts) => Fresh(lib, kind, o.concat, o.reject, o.maxOutput),
          (s: State<D>, w: seq<byte>, room: nat, f: Flush) => Process(lib, s, w, room, f),
          Some((s: State<D>, o: DecOpts) => Reset(lib, s, o.concat, o.reject, o.maxOutput)),
          true)
  }

  /** Both framed decoders are honest codecs. */
  lemma FramedKeeps<D(!new)>(lib: Lib<D>, x: LibSem<D>, kind: Kind, o: DecOpts)
    requires LibKeeps(lib, x, kind)
    ensures InWindow(FramedCodec(lib, kind))
    ensures Keeps(FramedCodec(lib, kind), FramedSem(lib, x, kind, Seen(o)), FramedPolicy(kind, o.concat, o.reject))
    ensures var s := Fresh(lib, kind, o.concat, o.reject, o.maxOutput); Inv(lib, x, kind, Seen(o), s) && Waiting(x, s) == 0
  {
    hide ReplyOk, Process;
    var c, sem, pol := FramedCodec(lib, kind), FramedSem(lib, x, kind, Seen(o)), FramedPolicy(kind, o.concat, o.reject);
    StartIsOk(lib, x, kind);
    forall s: State<D>, w: seq<byte>, tail: seq<byte>, room: nat, f: Flush
      ensures StepOk(c, sem, pol, s, w, tail, room, f)
    {
      if sem.inv(s) && !sem.res(s, w + tail).Open? && (f == Finish ==> tail == []) && Minded(pol.asks, f, |w|, false, sem.idle(s)) {
        ProcessOk(lib, x, s, w, tail, room, f);
      }
    }
    forall s: State<D>, w: seq<byte>, room: nat, f: Flush ensures Inside(c, s, w, room, f) { }
  }

  // ---- Reset -----------------------------------------------------------------------------

  function NextOf<D>(i: Iter<State<D>>): (s: State<D>) {
    if i.Stop? then i.reply.next else i.next
  }

  lemma TurnStays<D>(lib: Lib<D>, s: State<D>, w: seq<byte>, room: nat, f: Flush)
    ensures NextOf(OneTurn(lib, s, w, room, f)).kind == s.kind
  {
    hide BetweenTurn, BodyTurn;
    BetweenStays(lib, s, w, f);
    BodyStays(lib, s, w, room, f);
  }

  lemma BetweenStays<D>(lib: Lib<D>, s: State<D>, w: seq<byte>, f: Flush)
    ensures NextOf(BetweenTurn(lib, s, w, f)).kind == s.kind
  {
    hide IsPrefix, Extend, Ask;
  }

  lemma BodyStays<D>(lib: Lib<D>, s: State<D>, w: seq<byte>, room: nat, f: Flush)
    ensures NextOf(BodyTurn(lib, s, w, room, f)).kind == s.kind
  {
    hide Ask, BetweenTurn;
    var t := Ask(lib, s.maxOutput, s.d, w, room);
    var u := Ask(lib, s.maxOutput, t.next, [], 1);
    BetweenStays(lib, s.(d := u.next, place := Between, held := []), w, f);
  }

  lemma {:induction false} ProcessStays<D>(lib: Lib<D>, s: State<D>, w: seq<byte>, room: nat, f: Flush)
    ensures Process(lib, s, w, room, f).next.kind == s.kind
    decreases |w| + room, Rank(lib, s)
  {
    hide Process, Rank, OneTurn;
    TurnStays(lib, s, w, room, f);
    OneTurnMoves(lib, s, w, room, f);
    ProcessTurns(lib, s, w, room, f);
    var i := OneTurn(lib, s, w, room, f);
    if i.Go? {
      ProcessStays(lib, i.next, w[i.used..], room - |i.out|, f);
    }
  }

  lemma ProcessTurns<D>(lib: Lib<D>, s: State<D>, w: seq<byte>, room: nat, f: Flush)
    ensures var i := OneTurn(lib, s, w, room, f);
            && (i.Go? ==> i.used <= |w| && |i.out| <= room)
            && Process(lib, s, w, room, f) ==
               if i.Stop? then i.reply else Ahead(i.out, i.used, Process(lib, i.next, w[i.used..], room - |i.out|, f))
  {
    hide OneTurn;
  }

  /** From any state a run can lead to, errors included, a reset is fresh, at
      the options given. */
  lemma FramedResetsClean<D(!new)>(lib: Lib<D>, kind: Kind)
    ensures ResetsClean(FramedCodec(lib, kind), (s: State<D>) => s.kind == kind)
  {
    hide Process;
    var c, own := FramedCodec(lib, kind), (s: State<D>) => s.kind == kind;
    forall s: State<D>, w: seq<byte>, room: nat, f: Flush ensures StaysOwn(c, own, s, w, room, f) {
      ProcessStays(lib, s, w, room, f);
    }
  }
}
