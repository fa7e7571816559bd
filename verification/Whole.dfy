/** The two loops that drive a decoder over a whole input: the one-shot loop
    of src/zu_stream.c and the chunked loop of src/zu_whole.c. */
module Whole {
  import opened Zu
  import opened Codecs
  import opened Driver
  import opened Sizes

  // ---- One shot ----------------------------------------------------------

  datatype Shot<+S> = Shot(d: Handle<S>, status: Status, out: seq<byte>, used: nat)

  function OneShotStep<S(!new)>(c: Codec<S>, d: Handle<S>, w: seq<byte>, cap: nat): (r: Reply<Handle<S>>)
    requires InWindow(c)
    ensures |r.out| <= cap && r.used <= |w|
  {
    assert Inside(c, d.s, w, Allowance(d, cap), Finish);
    ProcessCall(c, d, w, cap, Finish)
  }

  /** zu_int_one_shot, decoding: calls with FINISH against one fixed buffer.
      Every call but the last makes progress, so the loop ends for any codec. */
  function OneShotSpec<S(!new)>(c: Codec<S>, d: Handle<S>, w: seq<byte>, cap: nat): (r: Shot<S>)
    requires InWindow(c)
    ensures !r.status.IsProgress() || r.status == Ok
    ensures |r.out| <= cap && r.used <= |w|
    decreases |w| + cap
  {
    var r := OneShotStep(c, d, w, cap);
    if r.status == StreamEnd then Shot(r.next, Ok, r.out, r.used)
    else if !r.status.IsProgress() then Shot(r.next, r.status, r.out, r.used)
    else if r.status == NeedOutput && |r.out| == cap then Shot(r.next, ErrOutputLimit, r.out, r.used)
    else if r.out == [] && r.used == 0 then Shot(r.next, ErrInternal, r.out, r.used)
    else
      var n := OneShotSpec(c, r.next, w[r.used..], cap - |r.out|);
      Shot(n.d, n.status, r.out + n.out, r.used + n.used)
  }

  lemma ShotUnfolds<S(!new)>(c: Codec<S>, d: Handle<S>, w: seq<byte>, cap: nat)
    requires InWindow(c)
    ensures var r, here := OneShotStep(c, d, w, cap), OneShotSpec(c, d, w, cap);
            if r.status == StreamEnd then here.status == Ok && here.out == r.out
            else if !r.status.IsProgress() then here.status == r.status && here.out == r.out
            else if r.status == NeedOutput && |r.out| == cap then here.status == ErrOutputLimit && here.out == r.out
            else if r.out == [] && r.used == 0 then here.status == ErrInternal && here.out == r.out
            else
              var n := OneShotSpec(c, r.next, w[r.used..], cap - |r.out|);
              here.status == n.status && here.out == r.out + n.out
  {
    hide ProcessCall, InWindow;
  }

  /** For a codec that keeps its promise the answer is read off the outcome:
      the stream's own verdict under the limits, except that a buffer shorter
      than any ceiling and than the output is ZU_ERR_OUTPUT_LIMIT (or, for a
      codec that may ask for room it does not need, no longer than it).
      ZU_OK means the whole output, and the expected size when there is one. */
  lemma OneShotVerdict<S(!new)>(c: Codec<S>, sem: Sem<S>, pol: Policy, s: S, opts: DecOpts, src: seq<byte>, cap: nat)
    requires InWindow(c) && Keeps(c, sem, pol) && pol.reject == opts.reject && opts.maxRatio == 0
    requires sem.inv(s) && !sem.late(s) && sem.idle(s) == 0 && !sem.res(s, src).Open?
    requires pol.asks.span.Some? ==> |src| <= pol.asks.span.value
    ensures var o, r := sem.res(s, src), OneShotSpec(c, Fresh(s, opts), src, cap);
            && Consistent(r.out, o)
            && (r.status == Ok ==>
                  o.Complete? && r.out == o.out && (opts.hasExpected ==> |r.out| == opts.expected))
            && (!o.Corrupt? ==>
                  if |o.out| > cap && Fits(opts, cap) then
                    r.status == ErrOutputLimit && r.out == o.out[..cap]
                  else
                    || EndsWell(o, opts, pol, if r.status == Ok then StreamEnd else r.status, r.out, r.used)
                    || (!pol.honest && |o.out| == cap && r.status == ErrOutputLimit && r.out == o.out))
  {
    var o, d := sem.res(s, src), Fresh(s, opts);
    PrependNothing(o);
    assert src + [] == src && src[0..] == src;
    hide RatioExceeded, EndsWell, Verdict, InRatio;
    OneCall(c, sem, pol, o, d, START, src, src, [], cap, Finish);
    FirstCallEnds(c, sem, pol, s, opts, src, cap);
    var r := ProcessCall(c, d, src, cap, Finish);
    assert [] + r.out == r.out;
    if r.status == NeedOutput {
      FilledByOne(o, r.out, sem.res(r.next.s, src[r.used..]), cap);
    } else {
      EndFacts(o, opts, pol, r.status, r.out, r.used, cap);
    }
  }

  /** With FINISH and the whole input, the first call decides. */
  lemma FirstCallEnds<S(!new)>(c: Codec<S>, sem: Sem<S>, pol: Policy, s: S, opts: DecOpts, src: seq<byte>, cap: nat)
    requires InWindow(c) && Keeps(c, sem, pol) && pol.reject == opts.reject && opts.maxRatio == 0
    requires sem.inv(s) && !sem.late(s) && sem.idle(s) == 0 && !sem.res(s, src).Open?
    requires pol.asks.span.Some? ==> |src| <= pol.asks.span.value
    ensures Inside(c, s, src, Allowance(Fresh(s, opts), cap), Finish)
    ensures var r, shot := ProcessCall(c, Fresh(s, opts), src, cap, Finish), OneShotSpec(c, Fresh(s, opts), src, cap);
            && (r.status.IsProgress() ==> r.status == NeedOutput && |r.out| == cap && (pol.honest ==> Pending(sem.res(r.next.s, src[r.used..]))))
            && shot.out == r.out && shot.used == r.used
            && shot.status == (if r.status == StreamEnd then Ok else if r.status == NeedOutput then ErrOutputLimit else r.status)
            && (!sem.res(s, src).Corrupt? && |sem.res(s, src).out| > cap && Fits(opts, cap) ==> r.status == NeedOutput)
  {
    hide Judge, Allowance, ReplyOk, Keeps, Pending, Ceiling;
    var d := Fresh(s, opts);
    var a := Allowance(d, cap);
    assert Inside(c, s, src, a, Finish);
    FirstReply(c, sem, pol, s, src, a);
    var r := c.process(s, src, a, Finish);
    FirstAnswer(sem, pol, sem.res(s, src), r, src, a);
    FirstJudged(d, src, cap, r);
    ShotAtOnce(c, d, src, cap);
  }

  lemma FirstReply<S(!new)>(c: Codec<S>, sem: Sem<S>, pol: Policy, s: S, src: seq<byte>, room: nat)
    requires Keeps(c, sem, pol) && sem.inv(s) && !sem.late(s) && sem.idle(s) == 0 && !sem.res(s, src).Open?
    requires pol.asks.span.Some? ==> |src| <= pol.asks.span.value
    ensures ReplyOk(sem, pol, sem.res(s, src), c.process(s, src, room, Finish), src, [], room, Finish)
  {
    hide ReplyOk;
    assert src + [] == src;
    assert StepOk(c, sem, pol, s, src, [], room, Finish);
  }

  /** A call that does not go on, or fills the buffer, is the last. */
  lemma ShotAtOnce<S(!new)>(c: Codec<S>, d: Handle<S>, src: seq<byte>, cap: nat)
    requires InWindow(c)
    ensures var r, shot := OneShotStep(c, d, src, cap), OneShotSpec(c, d, src, cap);
            !r.status.IsProgress() || (r.status == NeedOutput && |r.out| == cap) ==>
              && shot.out == r.out && shot.used == r.used
              && shot.status == (if r.status == StreamEnd then Ok else if r.status == NeedOutput then ErrOutputLimit else r.status)
  {
    hide ProcessCall, InWindow;
  }

  lemma FirstAnswer<S>(sem: Sem<S>, pol: Policy, o: Outcome, r: Reply<S>, src: seq<byte>, room: nat)
    requires ReplyOk(sem, pol, o, r, src, [], room, Finish) && !o.Open?
    ensures r.status == NeedOutput || !r.status.IsProgress()
    ensures r.status == NeedOutput ==> |r.out| == room && (pol.honest ==> Pending(sem.res(r.next, src[r.used..])))
    ensures !o.Corrupt? && |o.out| > room ==> r.status == NeedOutput
  {
    assert src[r.used..] + [] == src[r.used..];
  }

  lemma FirstJudged<S>(d: Handle<S>, w: seq<byte>, room: nat, r: Reply<S>)
    requires r.used <= |w| && |r.out| <= Allowance(d, room) && (r.status == NeedOutput || !r.status.IsProgress())
    requires d.totalOut == 0
    ensures var st := Judge(d, w, room, r);
            && (st.IsProgress() ==> st == r.status == NeedOutput)
            && (st == NeedOutput && |r.out| == Allowance(d, room) ==> |r.out| == room)
            && (r.status == NeedOutput && Fits(d.opts, room) && d.opts.maxRatio == 0 ==> st == NeedOutput && Allowance(d, room) == room)
  {
    hide RatioExceeded;
  }

  lemma FilledByOne(o: Outcome, out: seq<byte>, next: Outcome, cap: nat)
    requires !o.Open? && |out| == cap && exists n: int :: o == Prepend(out, n, next)
    ensures out == o.out[..cap] && (next.out == [] ==> |o.out| == cap) && |o.out| >= cap
  {
  }

  lemma EndFacts(o: Outcome, opts: DecOpts, pol: Policy, st: Status, out: seq<byte>, used: nat, cap: nat)
    requires EndsWell(o, opts, pol, st, out, used) && opts.maxRatio == 0 && |out| <= cap
    ensures Consistent(out, o)
    ensures st == StreamEnd ==> o.Complete? && out == o.out && (opts.hasExpected ==> |out| == opts.expected)
  {
  }

  method OneShot<S(!new)>(c: Codec<S>, opts: DecOpts, src: seq<byte>, dst: array<byte>, cap: nat)
    returns (st: Status, written: nat)
    requires InWindow(c) && cap <= dst.Length
    modifies dst
    ensures var r := OneShotSpec(c, Fresh(c.start(opts), opts), src, cap);
            && st == r.status && written == |r.out|
            && dst[..] == Overlay(old(dst[..]), 0, r.out)
  {
    hide Overlay, ProcessCall, InWindow, OneShotSpec;
    var dec := new Decoder<S>(c, opts);
    var buf := new Buffer(src, dst, cap);
    ghost var goal, bytes := OneShotSpec(c, dec.Snap(), src, cap), dst[..];
    ghost var out: seq<byte> := [];
    OverlayNothing(dst[..], 0);
    var over := false;
    st := Ok;
    while !over
      invariant fresh(dec) && fresh(buf) && dec.codec == c
      invariant buf.Valid() && buf.dst == dst && buf.dstPos == |out| && dst[..] == Overlay(bytes, 0, out)
      invariant if over then st == goal.status && out == goal.out
                else var n := OneShotSpec(c, dec.Snap(), buf.Window(), buf.Room());
                     goal.status == n.status && goal.out == out + n.out
      decreases if over then 0 else 1 + buf.AvailIn() + buf.Room()
    {
      ghost var o;
      over, st, o := OneShotTurn(dec, buf, bytes, out);
      OutTwice(out, o, OneShotSpec(c, dec.Snap(), buf.Window(), buf.Room()).out);
      out := out + o;
    }
    written := buf.dstPos;
  }

  lemma OutTwice(a: seq<byte>, b: seq<byte>, c: seq<byte>)
    ensures a + b + c == a + (b + c)
  {
  }

  /** One turn of that loop: a call, and what is made of it. */
  method OneShotTurn<S(!new)>(dec: Decoder<S>, buf: Buffer, ghost bytes: seq<byte>, ghost out: seq<byte>)
    returns (over: bool, st: Status, ghost o: seq<byte>)
    requires InWindow(dec.codec) && buf.Valid()
    requires buf.dstPos == |out| && buf.dst.Length == |bytes| && buf.dst[..] == Overlay(bytes, 0, out)
    modifies dec, buf, buf.dst
    ensures buf.Valid() && buf.dst == old(buf.dst) && buf.dstPos == |out + o| && buf.dst[..] == Overlay(bytes, 0, out + o)
    ensures buf.AvailIn() <= old(buf.AvailIn()) && buf.Room() <= old(buf.Room())
    ensures var c := dec.codec;
            var here := OneShotSpec(c, old(dec.Snap()), old(buf.Window()), old(buf.Room()));
            if over then st == here.status && o == here.out
            else
              var n := OneShotSpec(c, dec.Snap(), buf.Window(), buf.Room());
              && here.status == n.status && here.out == o + n.out
              && buf.AvailIn() + buf.Room() < old(buf.AvailIn() + buf.Room())
  {
    hide Overlay, ProcessCall, InWindow, OneShotSpec;
    ShotUnfolds(dec.codec, dec.Snap(), buf.Window(), buf.Room());
    var beforeOut, beforeIn := buf.dstPos, buf.srcPos;
    ghost var w, room := buf.Window(), buf.Room();
    ghost var r := OneShotStep(dec.codec, dec.Snap(), w, room);
    st := dec.Process(buf, Finish);
    o := r.out;
    OverlayTwice(bytes, 0, out, o);
    assert buf.dst[..] == Overlay(bytes, 0, out + o);
    assert buf.Window() == w[r.used..] && buf.Room() == room - |o|;
    if st == StreamEnd {
      return true, Ok, o;
    }
    if st != Ok && st != NeedInput && st != NeedOutput {
      return true, st, o;
    }
    if st == NeedOutput && buf.dstPos == buf.dstSize {
      return true, ErrOutputLimit, o;
    }
    if buf.dstPos == beforeOut && buf.srcPos == beforeIn {
      return true, ErrInternal, o;
    }
    return false, st, o;
  }

  // ---- Chunk by chunk ----------------------------------------------------

  /** A run under way has written no more than there is. */
  lemma WritesWithin<S>(sem: Sem<S>, o: Outcome, d: Handle<S>, p: Progress, rest: seq<byte>)
    requires UnderWay(sem, o, d, p, rest)
    ensures !o.Open? && |p.done| <= |o.out| && Consistent(p.done, o)
  {
  }

  /** A handle no call has been made on. */
  ghost predicate Unused<S>(sem: Sem<S>, d: Handle<S>, src: seq<byte>) {
    && sem.inv(d.s) && !sem.late(d.s) && sem.idle(d.s) == 0 && !sem.res(d.s, src).Open?
    && !d.finished && d.totalIn == 0 && d.totalOut == 0
  }

  lemma StartsUnderWay<S>(sem: Sem<S>, d: Handle<S>, src: seq<byte>)
    requires Unused(sem, d, src)
    ensures UnderWay(sem, sem.res(d.s, src), d, START, src)
  {
    PrependNothing(sem.res(d.s, src));
  }

  /** No slice of the loop is longer. */
  function Slice(inChunk: nat, n: nat): (k: nat) {
    Min(inChunk, n)
  }

  /** What the loop minds: chunks within the span, and it never idles. */
  predicate Suits(asks: Asks, chunk: nat, canFlush: bool, flushEvery: nat) {
    && (asks.span.Some? ==> chunk <= asks.span.value)
    && (asks.patience.Some? ==> asks.patience.value >= 1)
    && (flushEvery > 0 ==> canFlush)
  }

  /** A call with room to write and something to read, or told that nothing
      more is coming, moves a cursor or ends the run. */
  lemma CallMoves<S(!new)>(c: Codec<S>, sem: Sem<S>, pol: Policy, o: Outcome,
                           d: Handle<S>, p: Progress, w: seq<byte>, tail: seq<byte>, room: nat, f: Flush)
    requires InWindow(c) && Keeps(c, sem, pol) && pol.reject == d.opts.reject
    requires UnderWay(sem, o, d, p, w + tail) && Minded(pol.asks, f, |w|, p.late, p.idle)
    requires room > 0 && (w != [] || f == Finish) && (f == Finish ==> tail == []) && (f == FlushNow ==> c.canFlush)
    ensures Inside(c, d.s, w, Allowance(d, room), f)
    ensures var r := ProcessCall(c, d, w, room, f);
            && RunOk(sem, pol, o, d.opts, r.next, r.status, Advance(p, r, f), (w + tail)[r.used..])
            && r.next.opts == d.opts
            && (r.status.IsProgress() ==> !(r.status == NeedInput && f == Finish) && r.used + |r.out| > 0)
  {
    assert Inside(c, d.s, w, Allowance(d, room), f);
    OneCall(c, sem, pol, o, d, p, w + tail, w, tail, room, f);
    Moves(c, sem, pol, o, d, p, w, tail, room, f);
  }

  lemma Moves<S(!new)>(c: Codec<S>, sem: Sem<S>, pol: Policy, o: Outcome,
                       d: Handle<S>, p: Progress, w: seq<byte>, tail: seq<byte>, room: nat, f: Flush)
    requires Keeps(c, sem, pol) && UnderWay(sem, o, d, p, w + tail) && Minded(pol.asks, f, |w|, p.late, p.idle)
    requires room > 0 && (w != [] || f == Finish) && (f == Finish ==> tail == []) && (f == FlushNow ==> c.canFlush)
    requires Inside(c, d.s, w, Allowance(d, room), f)
    ensures var r := ProcessCall(c, d, w, room, f);
            r.status.IsProgress() ==> !(r.status == NeedInput && f == Finish) && r.used + |r.out| > 0
  {
    hide RatioExceeded, Wrap64;
    assert StepOk(c, sem, pol, d.s, w, tail, Allowance(d, room), f);
  }

  /** The codec keeps its promise, the loop minds what it asks, and the input is
      one of which something is promised. */
  ghost predicate Promised<S(!new)>(c: Codec<S>, sem: Sem<S>, pol: Policy, d: Handle<S>, src: seq<byte>, inChunk: nat, flushEvery: nat) {
    && Keeps(c, sem, pol) && pol.reject == d.opts.reject
    && Unused(sem, d, src) && Suits(pol.asks, Slice(inChunk, |src|), c.canFlush, flushEvery)
  }

  /** Of any input at all: the codec asks for input only when its window is
      spent, and for room only when there is none left. */
  ghost predicate Spends<S(!new)>(c: Codec<S>) {
    forall s: S, w: seq<byte>, room: nat, f: Flush :: SpendsCall(c, s, w, room, f)
  }

  ghost predicate SpendsCall<S>(c: Codec<S>, s: S, w: seq<byte>, room: nat, f: Flush) {
    var r := c.process(s, w, room, f);
    && r.status != Ok && (r.status == NeedInput ==> r.used == |w|) && (r.status == NeedOutput ==> |r.out| == room)
  }

  /** The handle has written no more than its ceiling, as it counts. */
  predicate Under<S>(d: Handle<S>, written: nat) {
    Ceiling(d.opts).Some? && d.totalOut == written <= Ceiling(d.opts).value
  }

  /** Under a ceiling such a codec moves a cursor, ends the run, or asks for
      more when it has been told that there is none. */
  lemma SpendsMoves<S(!new)>(c: Codec<S>, d: Handle<S>, w: seq<byte>, room: nat, f: Flush, written: nat)
    requires InWindow(c) && Spends(c) && Under(d, written) && room > 0 && (w != [] || f == Finish)
    ensures Inside(c, d.s, w, Allowance(d, room), f)
    ensures var r := ProcessCall(c, d, w, room, f);
            r.status.IsProgress() ==>
              && Under(r.next, written + |r.out|) && r.next.opts == d.opts
              && (r.used + |r.out| > 0 || (r.status == NeedInput && f == Finish))
  {
    assert Inside(c, d.s, w, Allowance(d, room), f) && SpendsCall(c, d.s, w, Allowance(d, room), f);
    hide RatioExceeded, Spends, InWindow;
  }

  /** The end of the slice that byte `u` of `n` is in. */
  function SliceEnd(u: nat, n: nat, inChunk: nat): (k: nat)
    requires inChunk > 0 && u <= n
    ensures u <= k <= n
  {
    SliceIsPast(u, inChunk);
    Min(n, inChunk * (u / inChunk + 1))
  }

  lemma SliceIsPast(u: nat, inChunk: nat)
    requires inChunk > 0
    ensures inChunk * (u / inChunk + 1) > u
  {
  }

  /** Call number `i` of the loop, from 0, with `u` bytes of `n` taken: what is
      left of the slice, a chunk of room, and FINISH with the last slice. */
  function NextSlot(u: nat, i: nat, n: nat, inChunk: nat, outChunk: nat, flushEvery: nat): (slot: Slot)
    requires inChunk > 0 && u <= n
  {
    var k := SliceEnd(u, n, inChunk);
    Slot(k - u, outChunk, if k == n then Finish else if flushEvery > 0 && (i + 1) % flushEvery == 0 then FlushNow else Run)
  }

  /** No window is longer than a chunk, nor reaches past the end of a slice;
      FINISH is said exactly of the last bytes, and FLUSH of every flushEvery-th
      call before that. */
  lemma NextSlotIs(u: nat, i: nat, n: nat, inChunk: nat, outChunk: nat, flushEvery: nat)
    requires inChunk > 0 && u <= n
    ensures var s := NextSlot(u, i, n, inChunk, outChunk, flushEvery);
            && s.room == outChunk && s.window <= inChunk && u + s.window <= n
            && (s.flush == Finish <==> u + s.window == n)
            && (u + s.window < n ==> s.window > 0 && (u + s.window) % inChunk == 0)
            && (s.flush == FlushNow <==> u + s.window < n && flushEvery > 0 && (i + 1) % flushEvery == 0)
  {
    BetweenMultiples(u, u / inChunk, inChunk) by {
      assert u == inChunk * (u / inChunk) + u % inChunk;
    }
    var k := u / inChunk + 1;
    TimesIsMultiple(inChunk, k);
  }

  lemma TimesIsMultiple(m: nat, k: nat)
    requires m > 0
    ensures m * k % m == 0
  {
    BetweenMultiples(m * k, k, m);
  }

  /** The calls are the loop's, each made where the ones before it led. */
  ghost predicate Sliced<S(!new)>(c: Codec<S>, d: Handle<S>, src: seq<byte>, slots: seq<Slot>,
                                  inChunk: nat, outChunk: nat, flushEvery: nat)
    requires InWindow(c) && inChunk > 0
  {
    forall i :: 0 <= i < |slots| ==>
      slots[i] == NextSlot(RunAll(c, d, src, slots[..i]).used, i, |src|, inChunk, outChunk, flushEvery)
  }

  /** How the loop ends, its calls having been `slots`: with the answer of the
      last; or for want of a size to grow to; or because a call that was told
      there is no more asked for more, having written nothing. */
  ghost predicate Driven<S(!new)>(c: Codec<S>, d: Handle<S>, src: seq<byte>, slots: seq<Slot>,
                                  inChunk: nat, outChunk: nat, flushEvery: nat, st: Status, done: seq<byte>, consumed: nat)
    requires InWindow(c) && inChunk > 0
  {
    var r := RunAll(c, d, src, slots);
    && Sliced(c, d, src, slots, inChunk, outChunk, flushEvery) && done == r.out && consumed == r.used
    && if !r.status.IsProgress() then st == r.status
       else (st == ErrMemory && |done| + outChunk > SIZE_MAX) || (st == ErrInternal && Stuck(c, d, src, slots))
  }

  ghost predicate Stuck<S(!new)>(c: Codec<S>, d: Handle<S>, src: seq<byte>, slots: seq<Slot>)
    requires InWindow(c)
  {
    slots != [] &&
      var before, last := RunAll(c, d, src, slots[..|slots| - 1]), slots[|slots| - 1];
      var r := Offer(c, before.d, src[before.used..], last);
      before.status.IsProgress() && last.flush == Finish && r.status == NeedInput && r.out == []
  }

  /** zu_int_run_whole, decoding: slices of inChunk, windows of outChunk. It
      ends, with the calls it made and no others to show for it. For a codec
      that keeps its promise it ends as the input's own outcome says, and
      neither chunk size shows in the result; of an input of which nothing is
      promised it ends under a ceiling all the same, if the codec only asks for
      what it has used up. ZU_ERR_MEMORY of its own is answered only when there
      is no size to grow to. */
  method RunWhole<S(!new)>(c: Codec<S>, opts: DecOpts, src: seq<byte>, inChunk: size_t, outChunk: size_t, flushEvery: nat,
                           ghost sem: Sem<S>, ghost pol: Policy)
    returns (st: Status, sink: Sink, consumed: nat, ghost slots: seq<Slot>)
    requires InWindow(c)
    requires Promised(c, sem, pol, Fresh(c.start(opts), opts), src, inChunk, flushEvery) || (Spends(c) && Ceiling(opts).Some?)
    ensures fresh(sink) && sink.Valid()
    ensures inChunk == 0 || outChunk == 0 ==> st == ErrInvalidArgument && sink.Contents() == [] && consumed == 0
    ensures inChunk > 0 && outChunk > 0 ==>
              Driven(c, Fresh(c.start(opts), opts), src, slots, inChunk, outChunk, flushEvery, st, sink.Contents(), consumed)
    ensures Ceiling(opts).Some? ==> |sink.Contents()| <= Ceiling(opts).value
    ensures inChunk > 0 && outChunk > 0 && Promised(c, sem, pol, Fresh(c.start(opts), opts), src, inChunk, flushEvery) ==>
              var o := sem.res(c.start(opts), src);
              || EndsWell(o, opts, pol, st, sink.Contents(), consumed)
              || (st == ErrMemory && |sink.Contents()| + outChunk > SIZE_MAX && Consistent(sink.Contents(), o))
    ensures inChunk > 0 && outChunk > 0 && Promised(c, sem, pol, Fresh(c.start(opts), opts), src, inChunk, flushEvery) ==>
              var o := sem.res(c.start(opts), src);
              !o.Open? && (|o.out| + outChunk <= SIZE_MAX ==> EndsWell(o, opts, pol, st, sink.Contents(), consumed))
  {
    hide Promised, Spends, InWindow, Driven, EndsWell, Consistent, Ceiling;
    sink := new Sink();
    consumed, slots := 0, [];
    if inChunk == 0 || outChunk == 0 {
      NothingWithin(opts);
      return ErrInvalidArgument, sink, 0, [];
    }
    var dec := new Decoder<S>(c, opts);
    st, consumed, slots := Drive(dec, src, inChunk, outChunk, flushEvery, sink, sem, pol);
    DrivenWithin(c, opts, src, slots, inChunk, outChunk, flushEvery, st, sink.Contents(), consumed);
    ghost var d := Fresh(c.start(opts), opts);
    if Promised(c, sem, pol, d, src, inChunk, flushEvery) {
      StartsConsistent(sem.res(d.s, src));
      PromisedWithin(c, sem, pol, d, src, inChunk, flushEvery, if Consistent(sink.Contents(), sem.res(d.s, src)) then sink.Contents() else []);
    }
  }

  lemma NothingWithin(opts: DecOpts)
    ensures Ceiling(opts).Some? ==> 0 <= Ceiling(opts).value
  {
  }

  lemma DrivenWithin<S(!new)>(c: Codec<S>, opts: DecOpts, src: seq<byte>, slots: seq<Slot>,
                              inChunk: nat, outChunk: nat, flushEvery: nat, st: Status, done: seq<byte>, consumed: nat)
    requires InWindow(c) && inChunk > 0
    requires Driven(c, Fresh(c.start(opts), opts), src, slots, inChunk, outChunk, flushEvery, st, done, consumed)
    ensures Ceiling(opts).Some? ==> |done| <= Ceiling(opts).value
  {
    hide InWindow, Sliced, Stuck;
    RunWithinLimits(c, Fresh(c.start(opts), opts), src, slots);
  }

  lemma StartsConsistent(o: Outcome)
    ensures Consistent([], o)
  {
  }

  /** What is promised of an input bounds what is written of it. */
  lemma PromisedWithin<S(!new)>(c: Codec<S>, sem: Sem<S>, pol: Policy, d: Handle<S>, src: seq<byte>, inChunk: nat, flushEvery: nat, done: seq<byte>)
    requires Promised(c, sem, pol, d, src, inChunk, flushEvery) && Consistent(done, sem.res(d.s, src))
    ensures !sem.res(d.s, src).Open? && |done| <= |sem.res(d.s, src).out|
  {
  }

  /** Two runs over the same input, one-shot or chunk by chunk, of an honest
      codec that sees every tail: same bytes, same status, and for a codec
      that never reads past the end, same count consumed. */
  lemma RunsAgree(o: Outcome, opts: DecOpts, pol: Policy,
                  st: Status, done: seq<byte>, used: nat, st': Status, done': seq<byte>, used': nat)
    requires EndsWell(o, opts, pol, st, done, used) && EndsWell(o, opts, pol, st', done', used')
    requires (o.Complete? || o.Cut?) && opts.maxRatio == 0 && pol.honest
    requires pol.exact || !opts.reject || (o.Complete? ==> o.after == [])
    requires o.Complete? ==> !pol.lone(o.after)
    ensures done == done' && st == st'
    ensures st == StreamEnd && pol.slack == 0 ==> used == used'
  {
    hide Ceiling, OverStatus, Fits;
  }

  /** What the loop relies on from call to call: a run under way if `kept`, and
      else a handle under its ceiling. */
  ghost predicate Carried<S(!new)>(kept: bool, c: Codec<S>, sem: Sem<S>, pol: Policy, o: Outcome, d: Handle<S>, p: Progress,
                                   written: nat, consumed: int, fed: nat, n: nat, rest: seq<byte>) {
    if kept then
      && Keeps(c, sem, pol) && pol.reject == d.opts.reject
      && Steered(p, consumed, fed, n) && UnderWay(sem, o, d, p, rest) && |p.done| == written
    else Spends(c) && Under(d, written)
  }

  /** The most that will be written. */
  ghost function Most(kept: bool, o: Outcome, opts: DecOpts): (m: nat)
    requires if kept then !o.Open? else Ceiling(opts).Some?
  {
    if kept then |o.out| else Ceiling(opts).value
  }

  lemma CarriedWithin<S(!new)>(kept: bool, c: Codec<S>, sem: Sem<S>, pol: Policy, o: Outcome, d: Handle<S>, p: Progress,
                               written: nat, consumed: int, fed: nat, n: nat, rest: seq<byte>)
    requires Carried(kept, c, sem, pol, o, d, p, written, consumed, fed, n, rest)
    ensures if kept then !o.Open? else Ceiling(d.opts).Some?
    ensures written <= Most(kept, o, d.opts) && (kept ==> Consistent(p.done, o))
  {
    hide Keeps, Spends;
    if kept {
      WritesWithin(sem, o, d, p, rest);
    }
  }

  /** The calls made so far have led here. */
  ghost predicate Reached<S(!new)>(c: Codec<S>, d0: Handle<S>, src: seq<byte>, slots: seq<Slot>,
                                   inChunk: nat, outChunk: nat, flushEvery: nat, d: Handle<S>, done: seq<byte>, consumed: int)
    requires InWindow(c) && inChunk > 0
  {
    var r := RunAll(c, d0, src, slots);
    && Sliced(c, d0, src, slots, inChunk, outChunk, flushEvery)
    && r.status.IsProgress() && r.d == d && r.out == done && r.used == consumed
  }

  lemma StartsReached<S(!new)>(c: Codec<S>, d: Handle<S>, src: seq<byte>, inChunk: nat, outChunk: nat, flushEvery: nat)
    requires InWindow(c) && inChunk > 0
    ensures Reached(c, d, src, [], inChunk, outChunk, flushEvery, d, [], 0)
  {
    hide InWindow;
  }

  /** The calls of the loop are one more, and it goes on or has ended. */
  lemma ReachedNext<S(!new)>(c: Codec<S>, d0: Handle<S>, src: seq<byte>, slots: seq<Slot>, slot: Slot,
                             inChunk: nat, outChunk: nat, flushEvery: nat, d: Handle<S>, done: seq<byte>, consumed: nat)
    requires InWindow(c) && inChunk > 0 && consumed <= |src|
    requires Reached(c, d0, src, slots, inChunk, outChunk, flushEvery, d, done, consumed)
    requires slot == NextSlot(consumed, |slots|, |src|, inChunk, outChunk, flushEvery)
    ensures var r, more := Offer(c, d, src[consumed..], slot), slots + [slot];
            && (r.status.IsProgress() ==>
                  Reached(c, d0, src, more, inChunk, outChunk, flushEvery, r.next, done + r.out, consumed + r.used))
            && (r.status == NeedInput && slot.flush == Finish && r.out == [] ==>
                  Driven(c, d0, src, more, inChunk, outChunk, flushEvery, ErrInternal, done + r.out, consumed + r.used))
            && (!r.status.IsProgress() ==>
                  Driven(c, d0, src, more, inChunk, outChunk, flushEvery, r.status, done + r.out, consumed + r.used))
  {
    hide InWindow, Offer, NextSlot, RunAll;
    var more := slots + [slot];
    RunAppends(c, d0, src, slots, slot);
    assert more[..|slots|] == slots;
    forall i | 0 <= i < |more|
      ensures more[i] == NextSlot(RunAll(c, d0, src, more[..i]).used, i, |src|, inChunk, outChunk, flushEvery)
    {
      if i < |slots| {
        assert more[..i] == slots[..i];
      }
    }
  }

  lemma ReachedNoMore<S(!new)>(c: Codec<S>, d0: Handle<S>, src: seq<byte>, slots: seq<Slot>,
                               inChunk: nat, outChunk: nat, flushEvery: nat, d: Handle<S>, done: seq<byte>, consumed: nat)
    requires InWindow(c) && inChunk > 0 && |done| + outChunk > SIZE_MAX
    requires Reached(c, d0, src, slots, inChunk, outChunk, flushEvery, d, done, consumed)
    ensures Driven(c, d0, src, slots, inChunk, outChunk, flushEvery, ErrMemory, done, consumed)
  {
    hide InWindow, Sliced, Stuck;
  }

  method Drive<S(!new)>(dec: Decoder<S>, src: seq<byte>, inChunk: size_t, outChunk: size_t, flushEvery: nat,
                        sink: Sink, ghost sem: Sem<S>, ghost pol: Policy)
    returns (st: Status, consumed: nat, ghost slots: seq<Slot>)
    requires inChunk > 0 && outChunk > 0 && InWindow(dec.codec) && dec.totalOut == 0
    requires || Promised(dec.codec, sem, pol, dec.Snap(), src, inChunk, flushEvery)
             || (Spends(dec.codec) && Ceiling(dec.opts).Some?)
    requires sink.Valid() && sink.Contents() == []
    modifies dec, sink, sink.buf
    ensures sink.Valid()
    ensures Driven(dec.codec, old(dec.Snap()), src, slots, inChunk, outChunk, flushEvery, st, sink.Contents(), consumed)
    ensures Promised(dec.codec, sem, pol, old(dec.Snap()), src, inChunk, flushEvery) ==>
              var o := sem.res(old(dec.s), src);
              || EndsWell(o, old(dec.opts), pol, st, sink.Contents(), consumed)
              || (st == ErrMemory && |sink.Contents()| + outChunk > SIZE_MAX && Consistent(sink.Contents(), o))
  {
    hide UnderWay, EndsWell, Keeps, InWindow, GrowthRun, Verdict, Consistent, Ceiling, Carried, Most, Promised, Spends, Suits, Reached, Driven;
    ghost var d0, o, kept := dec.Snap(), sem.res(dec.s, src), Promised(dec.codec, sem, pol, dec.Snap(), src, inChunk, flushEvery);
    ghost var p := START;
    var buf := new Buffer([], sink.buf, 0);
    var fed: nat, over := 0, false;
    slots := [];
    StartsCarried(kept, dec.codec, sem, pol, dec.Snap(), src, inChunk, flushEvery);
    StartsReached(dec.codec, d0, src, inChunk, outChunk, flushEvery);
    ghost var chunk := Slice(inChunk, |src|);
    assert [] + src[0..] == src;
    st, consumed := Ok, 0;
    var calls := 0;
    while !over
      invariant fresh(buf) && (sink.buf == old(sink.buf) || fresh(sink.buf)) && sink.Valid() && (!over ==> calls == |slots|)
      invariant over ==> Driven(dec.codec, d0, src, slots, inChunk, outChunk, flushEvery, st, sink.Contents(), consumed)
      invariant over && kept ==> EndsWell(o, d0.opts, pol, st, sink.Contents(), consumed)
                                 || (st == ErrMemory && |sink.Contents()| + outChunk > SIZE_MAX && Consistent(sink.Contents(), o))
      invariant !over ==> dec.opts == d0.opts && Fed(buf, src, fed, inChunk, consumed) && (kept ==> p.done == sink.Contents())
      invariant !over ==> Carried(kept, dec.codec, sem, pol, o, dec.Snap(), p, sink.used, consumed, fed, |src|, buf.Window() + src[fed..])
      invariant !over ==> Reached(dec.codec, d0, src, slots, inChunk, outChunk, flushEvery, dec.Snap(), sink.Contents(), consumed)
      invariant if kept then !o.Open? else Ceiling(d0.opts).Some?
      decreases if over then 0 else 1, if over then 0 else Most(kept, o, d0.opts) - sink.used + |src| - consumed
    {
      CarriedWithin(kept, dec.codec, sem, pol, o, dec.Snap(), p, sink.used, consumed, fed, |src|, buf.Window() + src[fed..]);
      if kept {
        DueSuits(pol.asks, chunk, dec.codec.canFlush, flushEvery, calls);
      }
      over, st, fed, consumed, p, slots :=
        DriveTurn(dec, buf, src, fed, consumed, inChunk, outChunk, calls, flushEvery, sink, kept, sem, pol, o, p, d0, slots);
      calls := calls + 1;
      if !over {
        CarriedWithin(kept, dec.codec, sem, pol, o, dec.Snap(), p, sink.used, consumed, fed, |src|, buf.Window() + src[fed..]);
      }
    }
  }

  lemma StartsCarried<S(!new)>(kept: bool, c: Codec<S>, sem: Sem<S>, pol: Policy, d: Handle<S>, src: seq<byte>, inChunk: nat, flushEvery: nat)
    requires if kept then Promised(c, sem, pol, d, src, inChunk, flushEvery) else Spends(c) && Ceiling(d.opts).Some?
    requires d.totalOut == 0
    ensures var o := sem.res(d.s, src);
            && Carried(kept, c, sem, pol, o, d, START, 0, 0, 0, |src|, src)
            && (kept ==> Suits(pol.asks, Slice(inChunk, |src|), c.canFlush, flushEvery))
            && if kept then !o.Open? else Ceiling(d.opts).Some?
  {
    hide Keeps, Spends;
    if kept {
      StartsUnderWay(sem, d, src);
    }
  }

  /** The loop's own cursors: the buffer holds a slice, of which `consumed` says
      how much has been taken. */
  predicate Fed(buf: Buffer, src: seq<byte>, fed: nat, inChunk: nat, consumed: int)
    requires inChunk > 0
    reads buf
  {
    && buf.srcPos <= |buf.src| <= Slice(inChunk, |src|) && fed <= |src| && consumed == fed - (|buf.src| - buf.srcPos)
    && |buf.src| <= fed && (fed - |buf.src|) % inChunk == 0 && (0 < fed < |src| ==> |buf.src| == inChunk)
    && 0 <= consumed && buf.Window() + src[fed..] == src[consumed..]
  }

  /** With a slice at hand, or none left, it is the one the cursor is in. */
  lemma FedIsSlice(buf: Buffer, src: seq<byte>, fed: nat, inChunk: nat, consumed: nat)
    requires inChunk > 0 && Fed(buf, src, fed, inChunk, consumed) && (fed < |src| ==> buf.srcPos < |buf.src|)
    ensures consumed <= |src| && SliceEnd(consumed, |src|, inChunk) == fed
  {
    hide SliceEnd;
    SliceIsShort(buf, src, fed, inChunk, consumed);
    hide Fed;
    SliceEndIs(consumed, fed - |buf.src|, |buf.src|, |src|, inChunk);
  }

  lemma SliceIsShort(buf: Buffer, src: seq<byte>, fed: nat, inChunk: nat, consumed: nat)
    requires inChunk > 0 && Fed(buf, src, fed, inChunk, consumed)
    ensures |buf.src| <= inChunk && |buf.src| <= fed <= |src| && (fed - |buf.src|) % inChunk == 0
    ensures buf.srcPos <= |buf.src| && consumed == fed - (|buf.src| - buf.srcPos) && (0 < fed < |src| ==> |buf.src| == inChunk)
  {
  }

  /** A slice of `len` bytes from `s` on. */
  lemma SliceEndIs(u: nat, s: nat, len: nat, n: nat, m: nat)
    requires m > 0 && s % m == 0 && len <= m && s <= u <= s + len <= n
    requires s + len < n ==> u < s + len && len == m
    ensures SliceEnd(u, n, m) == s + len
  {
    var k := s / m;
    assert s == m * k;
    hide SliceEnd;
    if u < s + m {
      BetweenMultiples(u, k, m);
    } else {
      BetweenMultiples(u, k + 1, m);
    }
    SliceEndUnfolds(u, n, m);
  }

  lemma SliceEndUnfolds(u: nat, n: nat, m: nat)
    requires m > 0 && u <= n
    ensures SliceEnd(u, n, m) == Min(n, m * (u / m + 1))
  {
  }

  lemma BetweenMultiples(u: nat, k: nat, m: nat)
    requires m > 0 && m * k <= u < m * k + m
    ensures u / m == k && m * (u / m + 1) == m * k + m && u % m == u - m * k
  {
    var q, r := u / m, u % m;
    assert u == m * q + r;
    if q < k {
      TimesGrows(m, q + 1, k);
    } else if q > k {
      TimesGrows(m, k + 1, q);
    }
  }

  lemma TimesGrows(m: nat, a: int, b: int)
    requires a <= b
    ensures m * a <= m * b
  {
  }

  /** FINISH has been said only with everything fed, and no call has idled. */
  predicate Steered(p: Progress, consumed: int, fed: nat, n: nat) {
    p.used == consumed && (p.late ==> fed == n) && p.idle <= 1
  }

  lemma DueSuits(asks: Asks, chunk: nat, canFlush: bool, flushEvery: nat, call: nat)
    requires Suits(asks, chunk, canFlush, flushEvery)
    ensures Suits(asks, chunk, canFlush, if Due(call + 1, flushEvery) then 1 else 0)
  {
  }

  /** One turn of that loop: refill, reserve, call. It ends the run, as the
      outcome says if `kept`, or moves a cursor. */
  method DriveTurn<S(!new)>(dec: Decoder<S>, buf: Buffer, src: seq<byte>, fed0: nat, consumed0: nat, inChunk: size_t, outChunk: size_t,
                            calls: nat, flushEvery: nat, sink: Sink,
                            ghost kept: bool, ghost sem: Sem<S>, ghost pol: Policy, ghost o: Outcome, ghost p0: Progress,
                            ghost d0: Handle<S>, ghost slots0: seq<Slot>)
    returns (over: bool, st: Status, fed: nat, consumed: nat, ghost p: Progress, ghost slots: seq<Slot>)
    requires inChunk > 0 && outChunk > 0 && InWindow(dec.codec) && calls == |slots0|
    requires kept ==> Suits(pol.asks, Slice(inChunk, |src|), dec.codec.canFlush, if Due(calls + 1, flushEvery) then 1 else 0)
    requires sink.Valid() && Fed(buf, src, fed0, inChunk, consumed0) && (kept ==> p0.done == sink.Contents())
    requires Carried(kept, dec.codec, sem, pol, o, dec.Snap(), p0, sink.used, consumed0, fed0, |src|, buf.Window() + src[fed0..])
    requires Reached(dec.codec, d0, src, slots0, inChunk, outChunk, flushEvery, dec.Snap(), sink.Contents(), consumed0)
    modifies dec, buf, sink, sink.buf
    ensures (sink.buf == old(sink.buf) || fresh(sink.buf)) && sink.Valid()
    ensures if over then
              && Driven(dec.codec, d0, src, slots, inChunk, outChunk, flushEvery, st, sink.Contents(), consumed)
              && (kept ==>
                    || EndsWell(o, old(dec.opts), pol, st, sink.Contents(), consumed)
                    || (st == ErrMemory && |sink.Contents()| + outChunk > SIZE_MAX && Consistent(sink.Contents(), o)))
            else
              && dec.opts == old(dec.opts) && Fed(buf, src, fed, inChunk, consumed) && (kept ==> p.done == sink.Contents())
              && Carried(kept, dec.codec, sem, pol, o, dec.Snap(), p, sink.used, consumed, fed, |src|, buf.Window() + src[fed..])
              && Reached(dec.codec, d0, src, slots, inChunk, outChunk, flushEvery, dec.Snap(), sink.Contents(), consumed)
              && |slots| == calls + 1 && sink.used + consumed > old(sink.used) + consumed0
  {
    hide EndsWell, InWindow, GrowthRun, Consistent, Slice, Carried, Suits, Reached, Driven, Most, SliceEnd, Offer;
    CarriedWithin(kept, dec.codec, sem, pol, o, dec.Snap(), p0, sink.used, consumed0, fed0, |src|, buf.Window() + src[fed0..]);
    st, fed := Prepare(buf, src, fed0, inChunk, sink, outChunk, consumed0);
    if st != Ok {
      ReachedNoMore(dec.codec, d0, src, slots0, inChunk, outChunk, flushEvery, dec.Snap(), sink.Contents(), consumed0);
      return true, st, fed, consumed0, p0, slots0;
    }
    StillCarried(kept, dec.codec, sem, pol, o, dec.Snap(), p0, sink.used, consumed0, fed0, fed, |src|, buf.Window() + src[fed..]);
    FedIsSlice(buf, src, fed, inChunk, consumed0);
    ghost var d, done, slot := dec.Snap(), sink.Contents(), NextSlot(consumed0, calls, |src|, inChunk, outChunk, flushEvery);
    over, st, consumed, p := Pass(dec, buf, src, fed, consumed0, inChunk, outChunk, Due(calls + 1, flushEvery), sink, kept, sem, pol, o, p0);
    slots := slots0 + [slot];
    ReachedNext(dec.codec, d0, src, slots0, slot, inChunk, outChunk, flushEvery, d, done, consumed0);
  }

  /** What is carried stays so when more is fed. */
  lemma StillCarried<S(!new)>(kept: bool, c: Codec<S>, sem: Sem<S>, pol: Policy, o: Outcome, d: Handle<S>, p: Progress,
                              written: nat, consumed: int, fed0: nat, fed: nat, n: nat, rest: seq<byte>)
    requires Carried(kept, c, sem, pol, o, d, p, written, consumed, fed0, n, rest) && fed0 <= fed <= n
    ensures Carried(kept, c, sem, pol, o, d, p, written, consumed, fed, n, rest)
  {
    hide Keeps, UnderWay, Spends, Under;
  }

  /** The call, and what is made of it. */
  method Pass<S(!new)>(dec: Decoder<S>, buf: Buffer, src: seq<byte>, fed: nat, consumed0: nat, ghost inChunk: size_t, outChunk: size_t,
                       due: bool, sink: Sink, ghost kept: bool, ghost sem: Sem<S>, ghost pol: Policy, ghost o: Outcome, ghost p0: Progress)
    returns (over: bool, st: Status, consumed: nat, ghost p: Progress)
    requires inChunk > 0 && outChunk > 0 && InWindow(dec.codec) && sink.Valid() && sink.used + outChunk <= sink.buf.Length
    requires kept ==> Suits(pol.asks, Slice(inChunk, |src|), dec.codec.canFlush, if due then 1 else 0) && p0.done == sink.Contents()
    requires Fed(buf, src, fed, inChunk, consumed0) && (fed < |src| ==> buf.srcPos < |buf.src|)
    requires Carried(kept, dec.codec, sem, pol, o, dec.Snap(), p0, sink.used, consumed0, fed, |src|, buf.Window() + src[fed..])
    modifies dec, buf, sink, sink.buf
    ensures sink.buf == old(sink.buf) && sink.Valid()
    ensures var slot := Slot(fed - consumed0, outChunk, if fed == |src| then Finish else if due then FlushNow else Run);
            var r := Offer(dec.codec, old(dec.Snap()), src[consumed0..], slot);
            && dec.Snap() == r.next && sink.Contents() == old(sink.Contents()) + r.out && consumed == consumed0 + r.used
            && if !over then r.status.IsProgress()
               else (!r.status.IsProgress() && st == r.status)
                    || (st == ErrInternal && r.status == NeedInput && slot.flush == Finish && r.out == [])
    ensures if over then kept ==> EndsWell(o, old(dec.opts), pol, st, sink.Contents(), consumed)
            else
              && dec.opts == old(dec.opts) && Fed(buf, src, fed, inChunk, consumed) && (kept ==> p.done == sink.Contents())
              && Carried(kept, dec.codec, sem, pol, o, dec.Snap(), p, sink.used, consumed, fed, |src|, buf.Window() + src[fed..])
              && sink.used + consumed > old(sink.used) + consumed0
  {
    hide EndsWell, InWindow, GrowthRun, Consistent, Slice, Allowance, Carried, ProcessCall, Suits;
    var last := fed >= |src|;
    var flush := if last then Finish else if due then FlushNow else Run;
    var before, at := sink.used, buf.srcPos;
    ghost var d, w, tail := dec.Snap(), buf.Window(), src[fed..];
    if kept {
      LessSuits(pol.asks, Slice(inChunk, |src|), dec.codec.canFlush, due, flush == FlushNow);
    }
    MovesOn(kept, dec.codec, sem, pol, o, d, p0, before, consumed0, fed, |src|, w, tail, Slice(inChunk, |src|), outChunk, flush);
    p := Advance(p0, ProcessCall(dec.codec, d, w, outChunk, flush), flush);
    assert src[consumed0..][..Offered(Slot(fed - consumed0, outChunk, flush), |src| - consumed0)] == w;
    st := Call(dec, buf, sink, outChunk, flush);
    consumed := consumed0 + (buf.srcPos - at);
    assert (w + tail)[buf.srcPos - at..] == buf.Window() + tail;
    assert src[consumed0..][buf.srcPos - at..] == src[consumed..];
    if st != Ok && st != NeedInput && st != NeedOutput {
      return true, st, consumed, p;
    }
    if sink.used == before && last && st == NeedInput {
      return true, ErrInternal, consumed, p;
    }
    return false, st, consumed, p;
  }

  lemma LessSuits(asks: Asks, chunk: nat, canFlush: bool, due: bool, flushes: bool)
    requires Suits(asks, chunk, canFlush, if due then 1 else 0) && (flushes ==> due)
    ensures Suits(asks, chunk, canFlush, if flushes then 1 else 0)
  {
  }

  /** What a call of the loop makes of what is carried. */
  lemma MovesOn<S(!new)>(kept: bool, c: Codec<S>, sem: Sem<S>, pol: Policy, o: Outcome, d: Handle<S>, p: Progress,
                         written: nat, consumed: int, fed: nat, n: nat, w: seq<byte>, tail: seq<byte>,
                         slice: nat, chunk: nat, flush: Flush)
    requires InWindow(c) && Carried(kept, c, sem, pol, o, d, p, written, consumed, fed, n, w + tail)
    requires chunk > 0 && fed <= n && (flush == Finish <==> fed == n)
    requires (flush == Finish <==> tail == []) && (w != [] || flush == Finish)
    requires kept ==> Suits(pol.asks, slice, c.canFlush, if flush == FlushNow then 1 else 0) && |w| <= slice
    ensures Inside(c, d.s, w, Allowance(d, chunk), flush)
    ensures var r := ProcessCall(c, d, w, chunk, flush);
            var q := Advance(p, r, flush);
            if r.status.IsProgress() then
              && r.next.opts == d.opts && (kept ==> !(r.status == NeedInput && flush == Finish))
              && (r.used + |r.out| > 0 || (r.status == NeedInput && flush == Finish))
              && Carried(kept, c, sem, pol, o, r.next, q, written + |r.out|, consumed + r.used, fed, n, (w + tail)[r.used..])
            else kept ==> EndsWell(o, d.opts, pol, r.status, q.done, consumed + r.used)
  {
    hide ProcessCall, Keeps, Spends, UnderWay, EndsWell, InWindow, Under, Allowance;
    if kept {
      CallMoves(c, sem, pol, o, d, p, w, tail, chunk, flush);
    } else {
      SpendsMoves(c, d, w, chunk, flush, written);
    }
  }

  /** The next slice, if the last is spent, and room for what comes of it. */
  method Prepare(buf: Buffer, src: seq<byte>, fed: nat, inChunk: size_t, sink: Sink, outChunk: size_t, ghost consumed: nat)
    returns (st: Status, fed': nat)
    requires inChunk > 0 && Fed(buf, src, fed, inChunk, consumed) && sink.Valid()
    modifies buf`src, buf`srcPos, sink
    ensures sink.Valid() && sink.Contents() == old(sink.Contents()) && sink.used == old(sink.used)
    ensures sink.buf == old(sink.buf) || fresh(sink.buf)
    ensures st == if sink.used + outChunk <= SIZE_MAX then Ok else ErrMemory
    ensures st == Ok ==> sink.used + outChunk <= sink.buf.Length
    ensures Fed(buf, src, fed', inChunk, consumed) && fed <= fed' && (fed' < |src| ==> buf.srcPos < |buf.src|)
  {
    hide GrowthRun;
    fed' := Refill(buf, src, fed, inChunk, consumed);
    st := sink.Reserve(outChunk);
  }

  /** Is a flush asked for on this call? */
  predicate Due(call: nat, flushEvery: nat) {
    flushEvery > 0 && call % flushEvery == 0
  }

  /** The next slice of input, once the last one is spent. */
  method Refill(buf: Buffer, src: seq<byte>, fed: nat, inChunk: size_t, ghost consumed: nat) returns (fed': nat)
    requires inChunk > 0 && Fed(buf, src, fed, inChunk, consumed)
    modifies buf`src, buf`srcPos
    ensures Fed(buf, src, fed', inChunk, consumed) && fed <= fed' && (fed' < |src| ==> buf.srcPos < |buf.src|)
  {
    fed' := fed;
    if buf.srcPos == |buf.src| && fed < |src| {
      var take := Min(|src| - fed, inChunk);
      NextMultiple(fed - |buf.src|, inChunk);
      buf.src, buf.srcPos := src[fed..fed + take], 0;
      fed' := fed + take;
      assert buf.Window() + src[fed'..] == src[fed..];
    }
  }

  lemma NextMultiple(s: nat, m: nat)
    requires m > 0 && s % m == 0
    ensures (s + m) % m == 0
  {
    var k := s / m;
    assert s == m * k;
    BetweenMultiples(s + m, k + 1, m);
  }

  /** One call of the loop: a window of `chunk` bytes at the end of the sink. */
  method Call<S(!new)>(dec: Decoder<S>, buf: Buffer, sink: Sink, chunk: size_t, flush: Flush) returns (st: Status)
    requires InWindow(dec.codec) && sink.Valid() && sink.used + chunk <= sink.buf.Length && buf.srcPos <= |buf.src|
    modifies dec, buf, sink, sink.buf
    ensures sink.Valid() && sink.buf == old(sink.buf) && buf.src == old(buf.src)
    ensures Inside(dec.codec, old(dec.s), old(buf.Window()), Allowance(old(dec.Snap()), chunk), flush)
    ensures var r := ProcessCall(dec.codec, old(dec.Snap()), old(buf.Window()), chunk, flush);
            && st == r.status && dec.Snap() == r.next && sink.Contents() == old(sink.Contents()) + r.out
            && buf.srcPos == old(buf.srcPos) + r.used
  {
    hide InWindow, ProcessCall, Overlay, GrowthRun, Allowance;
    ghost var before, w, d := sink.buf[..], buf.Window(), dec.Snap();
    // The source points dst at buf + used; here the array is whole and the
    // cursor starts at `used`, so nothing below it can be written.
    buf.dst, buf.dstSize, buf.dstPos := sink.buf, sink.used + chunk, sink.used;
    st := dec.Process(buf, flush);
    ghost var r := ProcessCall(dec.codec, d, w, chunk, flush);
    OverlayPrefix(before, sink.used, r.out);
    sink.used := buf.dstPos;
  }
}
