/** The encoding side of src/zu_stream.c: no limits, only termination. */
module EncodeDriver {
  import opened Zu
  import opened Codecs
  import opened Driver

  /** A codec's encoder half. */
  datatype EncCodec<!S> = EncCodec(
    start: int -> S,
    process: (S, seq<byte>, nat, Flush) -> Reply<S>,
    canFlush: bool,
    reset: Option<(S, int) -> S>,
    levels: Levels)

  /** The level range a codec advertises. */
  datatype Levels = Levels(low: int, high: int, usual: int)

  /** zu_int_check_level; all three zero is no level axis. */
  predicate LevelOk(v: Levels, level: int) {
    || level == LEVEL_DEFAULT
    || (if v == Levels(0, 0, 0) then level == 0 else v.low <= level <= v.high)
  }

  /** zu_encoder. */
  datatype EncHandle<+S> = EncHandle(s: S, finished: bool)

  ghost predicate EncInside<S>(c: EncCodec<S>, s: S, w: seq<byte>, room: nat, f: Flush) {
    var r := c.process(s, w, room, f);
    r.used <= |w| && |r.out| <= room
  }

  ghost predicate EncInWindow<S(!new)>(c: EncCodec<S>) {
    forall s: S, w: seq<byte>, room: nat, f: Flush :: EncInside(c, s, w, room, f)
  }

  /** zu_encoder_process. */
  function EncodeCall<S>(c: EncCodec<S>, e: EncHandle<S>, w: seq<byte>, room: nat, f: Flush): (r: Reply<EncHandle<S>>)
    requires EncInside(c, e.s, w, room, f)
    ensures r.used <= |w| && |r.out| <= room
  {
    if e.finished then Reply(e, 0, [], if w != [] then ErrInvalidArgument else StreamEnd)
    else if f == FlushNow && !c.canFlush then Reply(e, 0, [], ErrUnsupported)
    else
      var r := c.process(e.s, w, room, f);
      Reply(EncHandle(r.next, r.status == StreamEnd), r.used, r.out, r.status)
  }

  /** A stream that has ended takes no more, and says so; FLUSH of a codec that
      has none is refused; neither moves anything. */
  lemma EncodeAnswers<S>(c: EncCodec<S>, e: EncHandle<S>, w: seq<byte>, room: nat, f: Flush)
    requires EncInside(c, e.s, w, room, f)
    ensures var r := EncodeCall(c, e, w, room, f);
            && (e.finished || (f == FlushNow && !c.canFlush) ==> r.next == e && r.used == 0 && r.out == [])
            && (e.finished ==> (r.status == ErrInvalidArgument <==> w != []) && (w == [] ==> r.status == StreamEnd))
            && (!e.finished && f == FlushNow && !c.canFlush ==> r.status == ErrUnsupported)
            && (r.next.finished <==> e.finished || r.status == StreamEnd)
  {
  }

  datatype EncResult<+S> = EncResult(e: EncHandle<S>, status: Status, out: seq<byte>, used: nat)

  function EncodeOffer<S(!new)>(c: EncCodec<S>, e: EncHandle<S>, rest: seq<byte>, slot: Slot): (r: Reply<EncHandle<S>>)
    requires EncInWindow(c)
    ensures r.used <= |rest|
  {
    var k := Offered(slot, |rest|);
    assert EncInside(c, e.s, rest[..k], slot.room, slot.flush);
    EncodeCall(c, e, rest[..k], slot.room, slot.flush)
  }

  /** Calls in order until one is not a progress report. */
  function EncodeAll<S(!new)>(c: EncCodec<S>, e: EncHandle<S>, rest: seq<byte>, slots: seq<Slot>): (r: EncResult<S>)
    requires EncInWindow(c)
    ensures r.used <= |rest|
    decreases |slots|
  {
    if slots == [] then EncResult(e, Ok, [], 0)
    else
      var r := EncodeOffer(c, e, rest, slots[0]);
      if !r.status.IsProgress() then EncResult(r.next, r.status, r.out, r.used)
      else
        var n := EncodeAll(c, r.next, rest[r.used..], slots[1..]);
        EncResult(n.e, n.status, r.out + n.out, r.used + n.used)
  }

  // ---- What an encoder promises ------------------------------------------------------

  /** wrote(s, x, z, rest): in state `s` an encoder has taken `x` and put out
      `z`, with exactly `rest` to come. whole(x, z): `z` is all of `x`. */
  datatype EncSem<!S> = EncSem(
    wrote: (S, seq<byte>, seq<byte>, seq<byte>) -> bool,
    whole: (seq<byte>, seq<byte>) -> bool)

  /** A call answers for what it took and put out; it asks for input only when
      its window is spent and more may come, and for room only when there is
      none left; it ends when all of the input has become all of the output. */
  ghost predicate EncReplyOk<S>(sem: EncSem<S>, r: Reply<S>, x: seq<byte>, z: seq<byte>,
                                w: seq<byte>, tail: seq<byte>, room: nat, f: Flush)
  {
    && r.used <= |w| && |r.out| <= room
    && match r.status
       case NeedInput => r.used == |w| && f != Finish && sem.wrote(r.next, x + w, z + r.out, tail)
       case NeedOutput => |r.out| == room && sem.wrote(r.next, x + w[..r.used], z + r.out, w[r.used..] + tail)
       case StreamEnd => r.used == |w| && tail == [] && sem.whole(x + w, z + r.out)
       case Ok => false
       case _ => true
  }

  ghost predicate EncStepOk<S>(c: EncCodec<S>, sem: EncSem<S>, s: S, x: seq<byte>, z: seq<byte>,
                               w: seq<byte>, tail: seq<byte>, room: nat, f: Flush)
  {
    sem.wrote(s, x, z, w + tail) && (f == Finish ==> tail == []) ==>
      EncReplyOk(sem, c.process(s, w, room, f), x, z, w, tail, room, f)
  }

  ghost predicate EncKeeps<S(!new)>(c: EncCodec<S>, sem: EncSem<S>) {
    forall s: S, x: seq<byte>, z: seq<byte>, w: seq<byte>, tail: seq<byte>, room: nat, f: Flush ::
      EncStepOk(c, sem, s, x, z, w, tail, room, f)
  }

  /** Main theorem, encoding. A run that ends, in whatever windows, has taken
      all of its input and put out all of what that becomes. */
  lemma {:induction false} EncodeAllWhole<S(!new)>(c: EncCodec<S>, sem: EncSem<S>, s: S, x: seq<byte>, z: seq<byte>,
                                                   rest: seq<byte>, slots: seq<Slot>)
    requires EncInWindow(c) && EncKeeps(c, sem) && sem.wrote(s, x, z, rest)
    ensures var r := EncodeAll(c, EncHandle(s, false), rest, slots);
            && (r.status == StreamEnd ==> r.used == |rest| && sem.whole(x + rest, z + r.out))
            && (r.status.IsProgress() ==> sem.wrote(r.e.s, x + rest[..r.used], z + r.out, rest[r.used..]))
    decreases |slots|
  {
    hide EncInWindow, EncKeeps, EncodeOffer;
    if slots == [] {
      assert x + rest[..0] == x && z + [] == z && rest[0..] == rest;
    } else {
      var r := EncodeOffer(c, EncHandle(s, false), rest, slots[0]);
      EncodeSlotOk(c, sem, s, x, z, rest, slots[0]);
      if r.status.IsProgress() {
        var left := rest[r.used..];
        EncodeAllWhole(c, sem, r.next.s, x + rest[..r.used], z + r.out, left, slots[1..]);
        var m := EncodeAll(c, r.next, left, slots[1..]);
        Regroup(x, rest, r.used, m.used, z, r.out, m.out);
      }
    }
  }

  /** A run in progress has a handle that is. */
  lemma {:induction false} StaysUnfinished<S(!new)>(c: EncCodec<S>, e: EncHandle<S>, rest: seq<byte>, slots: seq<Slot>)
    requires EncInWindow(c) && !e.finished
    ensures var r := EncodeAll(c, e, rest, slots); r.status.IsProgress() ==> r.e == EncHandle(r.e.s, false)
    decreases |slots|
  {
    if slots != [] {
      var r := EncodeOffer(c, e, rest, slots[0]);
      if r.status.IsProgress() {
        StaysUnfinished(c, r.next, rest[r.used..], slots[1..]);
      }
    }
  }

  // ---- FLUSH -------------------------------------------------------------------------

  /** Where FLUSH is answered by asking for input, what is out shows what has
      been taken. */
  ghost predicate FlushesShow<S(!new)>(c: EncCodec<S>, sem: EncSem<S>, shows: (seq<byte>, seq<byte>) -> bool) {
    forall s: S, x: seq<byte>, z: seq<byte>, w: seq<byte>, tail: seq<byte>, room: nat ::
      FlushShows(c, sem, shows, s, x, z, w, tail, room)
  }

  ghost predicate FlushShows<S>(c: EncCodec<S>, sem: EncSem<S>, shows: (seq<byte>, seq<byte>) -> bool, s: S,
                                x: seq<byte>, z: seq<byte>, w: seq<byte>, tail: seq<byte>, room: nat) {
    sem.wrote(s, x, z, w + tail) ==>
      var r := c.process(s, w, room, FlushNow); r.status == NeedInput ==> shows(x + w, z + r.out)
  }

  /** After a run a FLUSH is answered by asking for input. */
  predicate AsksAfterFlush<S(!new)>(c: EncCodec<S>, s: S, p: seq<byte>, slots: seq<Slot>, slot: Slot)
    requires EncInWindow(c)
  {
    var before := EncodeAll(c, EncHandle(s, false), p, slots);
    && before.status.IsProgress() && slot.flush == FlushNow
    && EncodeOffer(c, before.e, p[before.used..], slot).status == NeedInput
  }

  /** Then what the run and the call have put out together shows every byte they
      have taken, whatever the windows before it. */
  lemma FlushedShows<S(!new)>(c: EncCodec<S>, sem: EncSem<S>, shows: (seq<byte>, seq<byte>) -> bool, s: S,
                              p: seq<byte>, slots: seq<Slot>, slot: Slot)
    requires EncInWindow(c) && EncKeeps(c, sem) && FlushesShow(c, sem, shows) && sem.wrote(s, [], [], p)
    requires AsksAfterFlush(c, s, p, slots, slot)
    ensures var r := EncodeAll(c, EncHandle(s, false), p, slots + [slot]); r.used <= |p| && shows(p[..r.used], r.out)
  {
    hide EncInWindow, EncKeeps, FlushesShow;
    var none: seq<byte> := [];
    var before := EncodeAll(c, EncHandle(s, false), p, slots);
    EncodeAllWhole(c, sem, s, none, none, p, slots);
    StaysUnfinished(c, EncHandle(s, false), p, slots);
    var x, z, rest := p[..before.used], before.out, p[before.used..];
    assert none + x == x && none + z == z;
    OfferShows(c, sem, shows, before.e.s, x, z, rest, slot);
    var r := EncodeOffer(c, before.e, rest, slot);
    assert x + rest[..r.used] == p[..before.used + r.used];
    RunThenCall(c, EncHandle(s, false), p, slots, slot);
  }

  lemma OfferShows<S(!new)>(c: EncCodec<S>, sem: EncSem<S>, shows: (seq<byte>, seq<byte>) -> bool, s: S,
                            x: seq<byte>, z: seq<byte>, rest: seq<byte>, slot: Slot)
    requires EncInWindow(c) && EncKeeps(c, sem) && FlushesShow(c, sem, shows) && sem.wrote(s, x, z, rest) && slot.flush == FlushNow
    ensures var r := EncodeOffer(c, EncHandle(s, false), rest, slot);
            r.status == NeedInput ==> shows(x + rest[..r.used], z + r.out)
  {
    hide EncInWindow;
    var k := Offered(slot, |rest|);
    var w, tail := rest[..k], rest[k..];
    assert w + tail == rest;
    assert EncStepOk(c, sem, s, x, z, w, tail, slot.room, FlushNow);
    assert FlushShows(c, sem, shows, s, x, z, w, tail, slot.room);
    assert rest[..|w|] == w;
  }

  lemma {:induction false} RunThenCall<S(!new)>(c: EncCodec<S>, e: EncHandle<S>, rest: seq<byte>, slots: seq<Slot>, slot: Slot)
    requires EncInWindow(c) && EncodeAll(c, e, rest, slots).status.IsProgress()
    ensures var before := EncodeAll(c, e, rest, slots);
            var r, n := EncodeOffer(c, before.e, rest[before.used..], slot), EncodeAll(c, e, rest, slots + [slot]);
            n.used == before.used + r.used && n.out == before.out + r.out
    decreases |slots|
  {
    hide EncInWindow, EncodeOffer;
    if slots == [] {
      assert slots + [slot] == [slot] && rest[0..] == rest;
      var r := EncodeOffer(c, e, rest, slot);
      var none: seq<byte> := [];
      assert [slot][1..] == [] && none + r.out == r.out && r.out + none == r.out;
    } else {
      var r := EncodeOffer(c, e, rest, slots[0]);
      var left := rest[r.used..];
      RunThenCall(c, r.next, left, slots[1..], slot);
      assert (slots + [slot])[0] == slots[0] && (slots + [slot])[1..] == slots[1..] + [slot];
      var m := EncodeAll(c, r.next, left, slots[1..]);
      assert left[m.used..] == rest[r.used + m.used..];
      var q := EncodeOffer(c, m.e, left[m.used..], slot);
      assert r.out + (m.out + q.out) == r.out + m.out + q.out;
    }
  }

  // ---- A run ends --------------------------------------------------------------------

  /** No error is answered, in any state the encoder can be in. */
  ghost predicate NeverFails<S(!new)>(c: EncCodec<S>, sem: EncSem<S>) {
    forall s: S, x: seq<byte>, z: seq<byte>, w: seq<byte>, tail: seq<byte>, room: nat, f: Flush ::
      CallSucceeds(c, sem, s, x, z, w, tail, room, f)
  }

  ghost predicate CallSucceeds<S>(c: EncCodec<S>, sem: EncSem<S>, s: S, x: seq<byte>, z: seq<byte>,
                                  w: seq<byte>, tail: seq<byte>, room: nat, f: Flush) {
    sem.wrote(s, x, z, w + tail) && (f == Finish ==> tail == []) ==> !c.process(s, w, room, f).status.IsError()
  }

  /** The space of some calls together. */
  function Rooms(slots: seq<Slot>): (n: nat) {
    if slots == [] then 0 else slots[0].room + Rooms(slots[1..])
  }

  /** Told to finish, an encoder that never fails fills all the room it is
      given, or ends. */
  lemma {:induction false} FinishFillsOrEnds<S(!new)>(c: EncCodec<S>, sem: EncSem<S>, s: S, x: seq<byte>, z: seq<byte>,
                                                      rest: seq<byte>, slots: seq<Slot>)
    requires EncInWindow(c) && EncKeeps(c, sem) && NeverFails(c, sem) && sem.wrote(s, x, z, rest)
    requires forall i :: 0 <= i < |slots| ==> slots[i].flush == Finish
    ensures var r := EncodeAll(c, EncHandle(s, false), rest, slots);
            r.status == StreamEnd || (r.status.IsProgress() && |r.out| == Rooms(slots))
    decreases |slots|
  {
    hide EncInWindow;
    if slots != [] {
      var r := EncodeOffer(c, EncHandle(s, false), rest, slots[0]);
      FinishCall(c, sem, s, x, z, rest, slots[0]);
      if r.status.IsProgress() {
        FinishFillsOrEnds(c, sem, r.next.s, x + rest[..r.used], z + r.out, rest[r.used..], slots[1..]);
      }
    }
  }

  lemma FinishCall<S(!new)>(c: EncCodec<S>, sem: EncSem<S>, s: S, x: seq<byte>, z: seq<byte>, rest: seq<byte>, slot: Slot)
    requires EncInWindow(c) && EncKeeps(c, sem) && NeverFails(c, sem) && sem.wrote(s, x, z, rest) && slot.flush == Finish
    ensures var r := EncodeOffer(c, EncHandle(s, false), rest, slot);
            && (r.status == StreamEnd || (r.status == NeedOutput && |r.out| == slot.room))
            && (r.status.IsProgress() ==> !r.next.finished && sem.wrote(r.next.s, x + rest[..r.used], z + r.out, rest[r.used..]))
  {
    hide EncInWindow;
    EncodeSlotOk(c, sem, s, x, z, rest, slot);
    assert rest[..|rest|] == rest && rest + [] == rest;
    assert EncStepOk(c, sem, s, x, z, rest, [], slot.room, Finish);
    assert CallSucceeds(c, sem, s, x, z, rest, [], slot.room, Finish);
  }

  /** No state of the encoder has put out more than `most` bytes of `p`. */
  ghost predicate Within<S(!new)>(sem: EncSem<S>, p: seq<byte>, most: nat) {
    forall s: S, x: seq<byte>, z: seq<byte>, rest: seq<byte> :: sem.wrote(s, x, z, rest) && x + rest == p ==> |z| <= most
  }

  lemma StaysWithin<S(!new)>(c: EncCodec<S>, sem: EncSem<S>, s: S, x: seq<byte>, z: seq<byte>,
                             rest: seq<byte>, slots: seq<Slot>, most: nat)
    requires EncInWindow(c) && EncKeeps(c, sem) && sem.wrote(s, x, z, rest) && Within(sem, x + rest, most)
    ensures var r := EncodeAll(c, EncHandle(s, false), rest, slots); r.status.IsProgress() ==> |z + r.out| <= most
  {
    EncodeAllWhole(c, sem, s, x, z, rest, slots);
    var r := EncodeAll(c, EncHandle(s, false), rest, slots);
    assert x + rest[..r.used] + rest[r.used..] == x + rest;
  }

  /** Main theorem, liveness. Told to finish, from any state a run has led to,
      with more room in all than the output can still take, an encoder that
      never fails ends, and has put out all of the input. */
  lemma EnoughRoomEnds<S(!new)>(c: EncCodec<S>, sem: EncSem<S>, s: S, x: seq<byte>, z: seq<byte>,
                                rest: seq<byte>, slots: seq<Slot>, most: nat)
    requires EncInWindow(c) && EncKeeps(c, sem) && NeverFails(c, sem) && sem.wrote(s, x, z, rest)
    requires forall i :: 0 <= i < |slots| ==> slots[i].flush == Finish
    requires Within(sem, x + rest, most) && |z| + Rooms(slots) > most
    ensures var r := EncodeAll(c, EncHandle(s, false), rest, slots);
            r.status == StreamEnd && r.used == |rest| && sem.whole(x + rest, z + r.out)
  {
    FinishFillsOrEnds(c, sem, s, x, z, rest, slots);
    EncodeAllWhole(c, sem, s, x, z, rest, slots);
    StaysWithin(c, sem, s, x, z, rest, slots, most);
  }

  // ---- Reset -------------------------------------------------------------------------

  /** The level a reset gives a stream: the one asked for, or the last one. */
  function Resolved(level: int, last: int): (lv: int) {
    if level != LEVEL_DEFAULT then level else last
  }

  /** `own` holds of every state the encoder can be in, errors and all, `at` is
      the level it is at, and from any such state a reset leaves nothing of the
      old stream behind. */
  ghost predicate EncResetsClean<S(!new)>(c: EncCodec<S>, own: S -> bool, at: S -> int) {
    && c.reset.Some?
    && (forall level: int :: own(c.start(level)) && c.start(at(c.start(level))) == c.start(level))
    && (forall s: S, w: seq<byte>, room: nat, f: Flush :: EncStaysOwn(c, own, at, s, w, room, f))
    && (forall s: S, level: int :: own(s) ==> c.reset.value(s, level) == c.start(Resolved(level, at(s))))
  }

  ghost predicate EncStaysOwn<S>(c: EncCodec<S>, own: S -> bool, at: S -> int, s: S, w: seq<byte>, room: nat, f: Flush) {
    own(s) ==> var n := c.process(s, w, room, f).next; own(n) && at(n) == at(s)
  }

  lemma {:induction false} EncRunStaysOwn<S(!new)>(c: EncCodec<S>, own: S -> bool, at: S -> int, e: EncHandle<S>,
                                                   rest: seq<byte>, slots: seq<Slot>)
    requires EncInWindow(c) && EncResetsClean(c, own, at) && own(e.s)
    ensures var n := EncodeAll(c, e, rest, slots).e.s; own(n) && at(n) == at(e.s)
    decreases |slots|
  {
    if slots != [] {
      assert EncStaysOwn(c, own, at, e.s, rest[..Offered(slots[0], |rest|)], slots[0].room, slots[0].flush);
      var r := EncodeOffer(c, e, rest, slots[0]);
      if r.status.IsProgress() {
        EncRunStaysOwn(c, own, at, r.next, rest[r.used..], slots[1..]);
      }
    }
  }

  /** Reset equals fresh. After any run at all, in error or mid-stream, a reset
      encoder is a new one, at the level given or else at the one it had, and
      makes of any later message what a new one would. */
  lemma EncResetIsNew<S(!new)>(c: EncCodec<S>, own: S -> bool, at: S -> int, before: int,
                               input: seq<byte>, slots: seq<Slot>, level: int, next: seq<byte>, more: seq<Slot>)
    requires EncInWindow(c) && EncResetsClean(c, own, at)
    ensures var e := EncodeAll(c, EncHandle(c.start(before), false), input, slots).e;
            var reset, anew := EncHandle(c.reset.value(e.s, level), false), EncHandle(c.start(Resolved(level, before)), false);
            reset == anew && EncodeAll(c, reset, next, more) == EncodeAll(c, anew, next, more)
  {
    EncRunStaysOwn(c, own, at, EncHandle(c.start(before), false), input, slots);
  }

  function Concat(xs: seq<seq<byte>>): (s: seq<byte>) {
    if xs == [] then [] else xs[0] + Concat(xs[1..])
  }

  lemma Regroup(x: seq<byte>, rest: seq<byte>, n: nat, m: nat, z: seq<byte>, a: seq<byte>, b: seq<byte>)
    requires n + m <= |rest|
    ensures x + rest[..n] + rest[n..][..m] == x + rest[..n + m] && rest[n..][m..] == rest[n + m..]
    ensures x + rest[..n] + rest[n..] == x + rest && z + a + b == z + (a + b)
  {
  }

  lemma EncodeSlotOk<S(!new)>(c: EncCodec<S>, sem: EncSem<S>, s: S, x: seq<byte>, z: seq<byte>, rest: seq<byte>, slot: Slot)
    requires EncInWindow(c) && EncKeeps(c, sem) && sem.wrote(s, x, z, rest)
    ensures var r := EncodeOffer(c, EncHandle(s, false), rest, slot);
            && r.status != Ok
            && (r.status == StreamEnd ==> r.used == |rest| && sem.whole(x + rest, z + r.out))
            && (r.status.IsProgress() ==> !r.next.finished && sem.wrote(r.next.s, x + rest[..r.used], z + r.out, rest[r.used..]))
  {
    hide EncInWindow;
    var k := Offered(slot, |rest|);
    var w, tail := rest[..k], rest[k..];
    assert w + tail == rest;
    assert EncStepOk(c, sem, s, x, z, w, tail, slot.room, slot.flush);
    var r := EncodeOffer(c, EncHandle(s, false), rest, slot);
    assert tail == [] ==> w == rest;
    assert w[..r.used] == rest[..r.used] && w[r.used..] + tail == rest[r.used..];
    assert w[..|w|] == w;
    assert r.used == |w| ==> w[r.used..] + tail == tail;
  }

  /** zu_encoder, updated in place. */
  class Encoder<S(!new)> {
    const codec: EncCodec<S>
    var s: S
    var finished: bool
    var level: int

    function Snap(): (e: EncHandle<S>)
      reads this
    {
      EncHandle(s, finished)
    }

    /** zu_encoder_new, once the level is checked. */
    constructor (codec: EncCodec<S>, level: int)
      ensures this.codec == codec && Snap() == EncHandle(codec.start(level), false) && this.level == level
    {
      this.codec, this.s, finished, this.level := codec, codec.start(level), false, level;
    }

    /** zu_encoder_reset, with the options given or kept. A refusal changes
        nothing; otherwise the handle starts a stream anew. */
    method Reset(given: Option<int>) returns (st: Status)
      modifies this
      ensures var use := if given.Some? then given.value else old(level);
              if !LevelOk(codec.levels, use) then st == ErrInvalidArgument && unchanged(this)
              else if codec.reset == None then st == ErrUnsupported && unchanged(this)
              else st == Ok && level == use && Snap() == EncHandle(codec.reset.value(old(s), use), false)
    {
      var use := if given.Some? then given.value else level;
      if !LevelOk(codec.levels, use) {
        return ErrInvalidArgument;
      }
      match codec.reset
      case None => return ErrUnsupported;
      case Some(reset) =>
        s, level, finished := reset(s, use), use, false;
        return Ok;
    }

    method Process(buf: Buffer, f: Flush) returns (st: Status)
      requires EncInWindow(codec) && buf.dstSize <= buf.dst.Length
      modifies this, buf`srcPos, buf`dstPos, buf.dst
      ensures !old(buf.Valid()) ==>
                st == ErrInvalidArgument && Snap() == old(Snap()) && unchanged(buf) && unchanged(buf.dst)
      ensures old(buf.Valid()) ==>
                && EncInside(codec, old(s), old(buf.Window()), old(buf.Room()), f)
                && var r := EncodeCall(codec, old(Snap()), old(buf.Window()), old(buf.Room()), f);
                   Snap() == r.next && st == r.status && buf.Advanced(r.used, r.out)
    {
      hide Overlay;
      if buf.srcPos > |buf.src| || buf.dstPos > buf.dstSize {
        return ErrInvalidArgument;
      }
      assert EncInside(codec, s, buf.Window(), buf.Room(), f);
      OverlayNothing(buf.dst[..], buf.dstPos);
      if finished {
        return if buf.srcPos < |buf.src| then ErrInvalidArgument else StreamEnd;
      }
      if f == FlushNow && !codec.canFlush {
        return ErrUnsupported;
      }
      var r := codec.process(s, buf.Window(), buf.Room(), f);
      buf.Write(r.out);
      buf.srcPos := buf.srcPos + r.used;
      s, st := r.next, r.status;
      if st == StreamEnd {
        finished := true;
      }
    }
  }
}
