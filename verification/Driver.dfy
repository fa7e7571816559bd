/** The stream driver, src/zu_stream.c: limits enforced above any codec. */
module Driver {
  import opened Zu
  import opened Codecs

  /** A zu_decoder handle; the counters are 64-bit and wrap. */
  datatype Handle<+S> = Handle(
    s: S, opts: DecOpts, finished: bool, totalIn: uint64, totalOut: uint64)

  function Fresh<S>(s: S, opts: DecOpts): (d: Handle<S>) {
    Handle(s, opts, false, 0, 0)
  }

  function Wrap64(x: nat): (r: uint64)
    ensures x < TWO64 ==> r == x
  {
    x % TWO64
  }

  /** The tighter of max_output and the expected size; a tie is the latter's. */
  function Ceiling(o: DecOpts): (r: Option<uint64>) {
    if o.hasExpected && (o.maxOutput == 0 || o.expected <= o.maxOutput) then Some(o.expected)
    else if o.maxOutput != 0 then Some(o.maxOutput)
    else None
  }

  function OverStatus(o: DecOpts): (st: Status) {
    if o.hasExpected && (o.maxOutput == 0 || o.expected <= o.maxOutput) then ErrInvalidData
    else ErrOutputLimit
  }

  /** The room the codec is shown: the caller's, shrunk to the ceiling. */
  function Allowance<S>(d: Handle<S>, room: nat): (a: nat)
    ensures a <= room
  {
    match Ceiling(d.opts)
    case None => room
    case Some(c) =>
      var remaining := if d.totalOut < c then c - d.totalOut else 0;
      Min(remaining, room)
  }

  /** The ratio test with its two guards against overflow. */
  predicate RatioExceeded(totalIn: uint64, totalOut: uint64, maxRatio: uint32)
    requires maxRatio != 0
  {
    var allowed :=
      if totalIn == 0 then 0
      else if totalIn > (TWO64 - 1) / maxRatio then TWO64 - 1
      else totalIn * maxRatio;
    totalOut > allowed
  }

  /** What zu_decoder_process makes of a codec's answer `r`. */
  function Judge<S>(d: Handle<S>, w: seq<byte>, room: nat, r: Reply<S>): (st: Status)
    requires r.used <= |w|
  {
    var o := d.opts;
    var capped := Allowance(d, room) < room;
    var allowance := Allowance(d, room);
    var totalIn := Wrap64(d.totalIn + r.used);
    var totalOut := Wrap64(d.totalOut + |r.out|);
    if r.status == StreamEnd && o.hasExpected && totalOut != o.expected then ErrInvalidData
    else if r.status == StreamEnd && r.used < |w| && o.reject then ErrTrailing
    else if capped && r.status == NeedOutput && |r.out| == allowance then OverStatus(o)
    else if capped && allowance == 0 && r.status != StreamEnd && r.used < |w| then OverStatus(o)
    else if o.maxOutput != 0 && totalOut > o.maxOutput then ErrOutputLimit
    else if o.hasExpected && totalOut > o.expected then ErrInvalidData
    else if r.status != ErrOutputLimit && o.maxRatio != 0 && totalOut > 0 &&
            RatioExceeded(totalIn, totalOut, o.maxRatio) then ErrRatioLimit
    else r.status
  }

  function After<S>(d: Handle<S>, r: Reply<S>): (d': Handle<S>) {
    Handle(r.next, d.opts, d.finished || r.status == StreamEnd,
           Wrap64(d.totalIn + r.used), Wrap64(d.totalOut + |r.out|))
  }

  /** One zu_decoder_process call on window `w` with `room` bytes of space. */
  function ProcessCall<S>(c: Codec<S>, d: Handle<S>, w: seq<byte>, room: nat, f: Flush): (r: Reply<Handle<S>>)
    requires Inside(c, d.s, w, Allowance(d, room), f)
    ensures r.used <= |w| && |r.out| <= room
  {
    if d.finished then
      Reply(d, 0, [], if w != [] && d.opts.reject then ErrTrailing else StreamEnd)
    else if f == FlushNow && !c.canFlush then
      Reply(d, 0, [], ErrUnsupported)
    else
      var r := c.process(d.s, w, Allowance(d, room), f);
      Reply(After(d, r), r.used, r.out, Judge(d, w, room, r))
  }

  // ---- Any codec at all -------------------------------------------------

  /** The budget is kept: no more was written than either limit allows. */
  ghost predicate WithinLimits<S>(d: Handle<S>) {
    && (d.opts.maxOutput != 0 ==> d.totalOut <= d.opts.maxOutput)
    && (d.opts.hasExpected ==> d.totalOut <= d.opts.expected)
  }

  lemma AllowanceFits<S>(d: Handle<S>, room: nat)
    requires WithinLimits(d)
    ensures d.opts.maxOutput != 0 ==> d.totalOut + Allowance(d, room) <= d.opts.maxOutput
    ensures d.opts.hasExpected ==> d.totalOut + Allowance(d, room) <= d.opts.expected
  {
  }

  /** The guarded 64-bit comparison is the comparison over the integers. */
  lemma RatioIsExact(totalIn: uint64, totalOut: uint64, maxRatio: uint32)
    requires maxRatio != 0
    ensures RatioExceeded(totalIn, totalOut, maxRatio) <==> totalOut > totalIn * maxRatio
  {
    var q := (TWO64 - 1) / maxRatio;
    if totalIn > q {
      MulGrows(q + 1, totalIn, maxRatio);
    } else {
      MulGrows(totalIn, q, maxRatio);
    }
  }

  lemma MulGrows(a: nat, b: nat, m: nat)
    requires a <= b
    ensures a * m <= b * m
  {
  }

  // ---- Runs --------------------------------------------------------------

  /** How one call of a run is made: the first `window` bytes of what is left
      are offered, with `room` bytes of space. FINISH says that nothing more
      is coming, so it comes with all that is left: with the last bytes, or
      after them. */
  datatype Slot = Slot(window: nat, room: nat, flush: Flush)

  function Offered(slot: Slot, left: nat): (k: nat)
    ensures k <= left
  {
    if slot.flush == Finish then left else Min(slot.window, left)
  }

  /** How far a run got: the status of its last call, what it wrote and took. */
  datatype RunResult<+S> = RunResult(d: Handle<S>, status: Status, out: seq<byte>, used: nat)

  /** The call a slot stands for. */
  function Offer<S(!new)>(c: Codec<S>, d: Handle<S>, rest: seq<byte>, slot: Slot): (r: Reply<Handle<S>>)
    requires InWindow(c)
    ensures r.used <= |rest|
  {
    var w := rest[..Offered(slot, |rest|)];
    assert Inside(c, d.s, w, Allowance(d, slot.room), slot.flush);
    ProcessCall(c, d, w, slot.room, slot.flush)
  }

  /** Calls are made in order until one is not a progress report. */
  function RunAll<S(!new)>(c: Codec<S>, d: Handle<S>, rest: seq<byte>, slots: seq<Slot>): (r: RunResult<S>)
    requires InWindow(c)
    ensures r.used <= |rest|
    decreases |slots|
  {
    if slots == [] then RunResult(d, Ok, [], 0)
    else
      var r := Offer(c, d, rest, slots[0]);
      if !r.status.IsProgress() then RunResult(r.next, r.status, r.out, r.used)
      else
        var n := RunAll(c, r.next, rest[r.used..], slots[1..]);
        RunResult(n.d, n.status, r.out + n.out, r.used + n.used)
  }

  /** Every call keeps the budget, whatever the codec does and whatever was
      answered before. */
  lemma LimitsHold<S(!new)>(c: Codec<S>, d: Handle<S>, w: seq<byte>, room: nat, f: Flush)
    requires InWindow(c) && WithinLimits(d)
    requires Inside(c, d.s, w, Allowance(d, room), f)
    ensures WithinLimits(ProcessCall(c, d, w, room, f).next)
    ensures var r := ProcessCall(c, d, w, room, f);
            Ceiling(d.opts).Some? ==> r.next.totalOut == d.totalOut + |r.out|
  {
    hide Wrap64, RatioExceeded;
    AllowanceFits(d, room);
  }

  /** ... so a whole run delivers no more than either limit. */
  lemma {:induction false} RunWithinLimits<S(!new)>(c: Codec<S>, d: Handle<S>, rest: seq<byte>, slots: seq<Slot>)
    requires InWindow(c) && WithinLimits(d)
    ensures var r := RunAll(c, d, rest, slots);
            && WithinLimits(r.d)
            && r.d.opts == d.opts
            && (d.opts.maxOutput != 0 ==> d.totalOut + |r.out| <= d.opts.maxOutput)
            && (d.opts.hasExpected ==> d.totalOut + |r.out| <= d.opts.expected)
    decreases |slots|
  {
    if slots != [] {
      var w := rest[..Offered(slots[0], |rest|)];
      assert Inside(c, d.s, w, Allowance(d, slots[0].room), slots[0].flush);
      LimitsHold(c, d, w, slots[0].room, slots[0].flush);
      var r := Offer(c, d, rest, slots[0]);
      if r.status.IsProgress() {
        RunWithinLimits(c, r.next, rest[r.used..], slots[1..]);
      }
    }
  }

  /** Once a stream has ended every call says so, or refuses the bytes it is
      shown if trailing bytes are refused; and it moves and changes nothing. */
  lemma EndedAnswers<S>(c: Codec<S>, d: Handle<S>, w: seq<byte>, room: nat, f: Flush)
    requires d.finished && Inside(c, d.s, w, Allowance(d, room), f)
    ensures var r := ProcessCall(c, d, w, room, f);
            && r.next == d && r.used == 0 && r.out == []
            && (r.status == ErrTrailing <==> w != [] && d.opts.reject) && (r.status != ErrTrailing ==> r.status == StreamEnd)
  {
  }

  /** With a limit used up, a call that leaves input over and does not end the
      stream is over it, whatever else is wrong with the stream: over the
      expected size if that is no larger than a set max_output. */
  lemma UsedUpAnswers<S>(c: Codec<S>, d: Handle<S>, w: seq<byte>, room: nat, f: Flush)
    requires !d.finished && (f == FlushNow ==> c.canFlush) && room > 0 && Inside(c, d.s, w, Allowance(d, room), f)
    requires var o := d.opts; (o.maxOutput != 0 && d.totalOut >= o.maxOutput) || (o.hasExpected && d.totalOut >= o.expected)
    ensures var o, r := d.opts, ProcessCall(c, d, w, room, f);
            && r.out == []
            && (r.used < |w| && !r.next.finished ==>
                  r.status == if o.hasExpected && (o.maxOutput == 0 || o.expected <= o.maxOutput) then ErrInvalidData else ErrOutputLimit)
  {
  }

  /** A ratio error of the driver's own is of a call that passes the ratio, and
      never takes the place of a codec's OUTPUT_LIMIT. */
  lemma RatioAnswers<S>(c: Codec<S>, d: Handle<S>, w: seq<byte>, room: nat, f: Flush)
    requires !d.finished && (f == FlushNow ==> c.canFlush) && Inside(c, d.s, w, Allowance(d, room), f)
    ensures var r, q := ProcessCall(c, d, w, room, f), c.process(d.s, w, Allowance(d, room), f);
            r.status == ErrRatioLimit && q.status != ErrRatioLimit ==>
              && q.status != ErrOutputLimit && d.opts.maxRatio != 0
              && r.next.totalOut as int > r.next.totalIn as int * d.opts.maxRatio
  {
    var r := ProcessCall(c, d, w, room, f);
    if d.opts.maxRatio != 0 {
      RatioIsExact(r.next.totalIn, r.next.totalOut, d.opts.maxRatio);
    }
  }

  /** FLUSH of a codec that has none is refused, and nothing moves. */
  lemma UnflushableAnswers<S>(c: Codec<S>, d: Handle<S>, w: seq<byte>, room: nat)
    requires !d.finished && !c.canFlush && Inside(c, d.s, w, Allowance(d, room), FlushNow)
    ensures var r := ProcessCall(c, d, w, room, FlushNow); r.next == d && r.used == 0 && r.out == [] && r.status == ErrUnsupported
  {
  }

  /** An error the driver makes of a stream's own end is not sticky: told
      nothing more is offered, the next call says the stream ended. */
  lemma EndErrorsAreNotSticky<S(!new)>(c: Codec<S>, d: Handle<S>, w: seq<byte>, room: nat, f: Flush, room': nat, f': Flush)
    requires InWindow(c) && !d.finished && !(f == FlushNow && !c.canFlush)
    requires Inside(c, d.s, w, Allowance(d, room), f)
    requires c.process(d.s, w, Allowance(d, room), f).status == StreamEnd
    ensures var r := ProcessCall(c, d, w, room, f);
            && Inside(c, r.next.s, [], Allowance(r.next, room'), f')
            && ProcessCall(c, r.next, [], room', f').status == StreamEnd
  {
    hide RatioExceeded, Wrap64;
    var r := ProcessCall(c, d, w, room, f);
    assert Inside(c, r.next.s, [], Allowance(r.next, room'), f');
  }

  // ---- Honest codecs -----------------------------------------------------

  /** Output bytes the ceiling lets through. */
  predicate Fits(opts: DecOpts, n: nat) {
    match Ceiling(opts)
    case None => true
    case Some(c) => n <= c
  }

  /** The status a run may end in, read off the outcome of the whole input:
      no window size, no call boundary and no FINISH timing appears here. */
  predicate Verdict(o: Outcome, opts: DecOpts, pol: Policy, st: Status) {
    match o
    case Complete(out, _, after) =>
      if !Fits(opts, |out|) then st == OverStatus(opts)
      else if opts.hasExpected && |out| != opts.expected then
        st == ErrInvalidData || (st == ErrTrailing && opts.reject && pol.exact && after != [] && pol.lone(after))
      else if opts.reject && pol.exact then st == if after != [] then ErrTrailing else StreamEnd
      else st == StreamEnd || (st == ErrTrailing && opts.reject && after != [])
    case Cut(out, status) => st == if Fits(opts, |out|) then status else OverStatus(opts)
    case Corrupt(out, statuses) => st in statuses || (Ceiling(opts).Some? && |out| >= Ceiling(opts).value && st == OverStatus(opts))
    case Open => true
  }

  /** `delivered` may be all a run wrote: it never contradicts the outcome. */
  predicate Consistent(delivered: seq<byte>, o: Outcome) {
    o.Open? || delivered <= o.out
  }

  /** The handle's counters are the run's, while 64 bits hold them. */
  predicate Counts<S>(d: Handle<S>, done: nat, used: nat) {
    done < TWO64 && used < TWO64 ==> d.totalIn == used && d.totalOut == done
  }

  /** What a ratio limit admits. */
  predicate InRatio(opts: DecOpts, done: nat, used: nat) {
    opts.maxRatio != 0 && done < TWO64 && used < TWO64 ==> done <= used * opts.maxRatio
  }

  /** How far a run has come: bytes written, bytes taken, whether FINISH has
      been said, and how many calls in a row have moved nothing. */
  datatype Progress = Progress(done: seq<byte>, used: nat, late: bool, idle: nat)

  const START: Progress := Progress([], 0, false, 0)

  function Advance<S>(p: Progress, r: Reply<S>, f: Flush): (q: Progress) {
    Progress(p.done + r.out, p.used + r.used, p.late || f == Finish, Idled(p.idle, r.used + |r.out|))
  }

  /** A run is under way: `o` is the outcome of the whole input, `p` how far it
      has come, `rest` what is to come. */
  ghost predicate UnderWay<S>(sem: Sem<S>, o: Outcome, d: Handle<S>, p: Progress, rest: seq<byte>) {
    && !d.finished && sem.inv(d.s) && !o.Open?
    && o == Prepend(p.done, p.used, sem.res(d.s, rest))
    && (Ceiling(d.opts).Some? ==> d.totalOut == |p.done| <= Ceiling(d.opts).value)
    && Counts(d, |p.done|, p.used) && InRatio(d.opts, |p.done|, p.used)
    && (sem.late(d.s) ==> p.late) && sem.idle(d.s) <= p.idle
  }

  /** The end a run may come to. The ratio limit refuses exactly what is over
      it: a run that ends well is within it, and one it stops is not. */
  ghost predicate EndsWell(o: Outcome, opts: DecOpts, pol: Policy, status: Status, done: seq<byte>, used: nat) {
    && Consistent(done, o)
    && ( || Verdict(o, opts, pol, status)
         || (status == ErrRatioLimit && opts.maxRatio != 0
             && (|done| < TWO64 && used < TWO64 ==> !InRatio(opts, |done|, used)))
         || (!pol.honest && !o.Corrupt? && !o.Open? && Ceiling(opts) == Some(|o.out|) && status == OverStatus(opts)))
    && (status == StreamEnd ==> o.Complete? && o.used <= used <= o.used + pol.slack && InRatio(opts, |done|, used))
    && (o.Complete? && (status == StreamEnd || status == ErrTrailing) ==> done == o.out)
    && (opts.maxRatio == 0 && (o.Complete? || o.Cut?) ==>
          done == if Fits(opts, |o.out|) then o.out else o.out[..Ceiling(opts).value])
  }

  /** One call of a run that is to go on: nothing was lost on the way. */
  lemma CallContinues<S>(c: Codec<S>, sem: Sem<S>, pol: Policy, o: Outcome,
                         d: Handle<S>, p: Progress, w: seq<byte>, tail: seq<byte>, room: nat, f: Flush)
    requires UnderWay(sem, o, d, p, w + tail) && pol.reject == d.opts.reject
    requires StepOk(c, sem, pol, d.s, w, tail, Allowance(d, room), f)
    requires (f == Finish ==> tail == []) && (f == FlushNow ==> c.canFlush)
    requires Minded(pol.asks, f, |w|, p.late, p.idle)
    requires Inside(c, d.s, w, Allowance(d, room), f)
    ensures var r := ProcessCall(c, d, w, room, f);
            r.status.IsProgress() ==>
              UnderWay(sem, o, r.next, Advance(p, r, f), (w + tail)[r.used..]) && r.next.opts == d.opts
  {
    hide RatioExceeded, Wrap64;
    var r := c.process(d.s, w, Allowance(d, room), f);
    if ProcessCall(c, d, w, room, f).status.IsProgress() {
      assert r.status == NeedInput || r.status == NeedOutput;
      assert w[r.used..] + tail == (w + tail)[r.used..];
      PrependTwice(p.done, p.used, r.out, r.used, sem.res(r.next, (w + tail)[r.used..]));
      CountersGoOn(d, r, p, w, room);
    }
  }

  /** The counters go on counting, and a call that is let through is within
      the ratio. */
  lemma CountersGoOn<S>(d: Handle<S>, r: Reply<S>, p: Progress, w: seq<byte>, room: nat)
    requires r.used <= |w| && Counts(d, |p.done|, p.used)
    ensures Counts(After(d, r), |p.done + r.out|, p.used + r.used)
    ensures Judge(d, w, room, r).IsProgress() || Judge(d, w, room, r) == StreamEnd ==>
              InRatio(d.opts, |p.done + r.out|, p.used + r.used)
    ensures Judge(d, w, room, r) == ErrRatioLimit && d.opts.maxRatio != 0 && r.status != ErrRatioLimit
            && |p.done + r.out| < TWO64 && p.used + r.used < TWO64 ==>
              !InRatio(d.opts, |p.done + r.out|, p.used + r.used)
  {
    hide RatioExceeded;
    var n, m := |p.done + r.out|, p.used + r.used;
    if d.opts.maxRatio != 0 && n < TWO64 && m < TWO64 {
      RatioIsExact(m, n, d.opts.maxRatio);
    }
  }

  /** A codec that would go on is stopped at the ceiling, by its asking for room
      or leaving input, or by the ratio. */
  lemma WhyStopped<S>(d: Handle<S>, w: seq<byte>, room: nat, r: Reply<S>)
    requires r.used <= |w| && |r.out| <= Allowance(d, room)
    requires Ceiling(d.opts).Some? ==> d.totalOut <= Ceiling(d.opts).value
    requires r.status == NeedInput || r.status == NeedOutput
    requires !Judge(d, w, room, r).IsProgress()
    ensures || (Judge(d, w, room, r) == ErrRatioLimit && d.opts.maxRatio != 0)
            || (Judge(d, w, room, r) == OverStatus(d.opts) && Ceiling(d.opts) == Some(d.totalOut + |r.out|)
                && (r.status == NeedOutput || r.used < |w|))
  {
    hide RatioExceeded;
  }

  lemma AllowanceIsRoom<S>(d: Handle<S>, room: nat)
    ensures Ceiling(d.opts).Some? && d.totalOut <= Ceiling(d.opts).value ==>
              d.totalOut + Allowance(d, room) <= Ceiling(d.opts).value
    ensures OverStatus(d.opts) != ErrRatioLimit
  {
  }

  /** Stopping there is as the outcome says. */
  lemma StoppedWell(o: Outcome, opts: DecOpts, pol: Policy, next: Outcome, done: seq<byte>, used: nat, st: Status)
    requires o == Prepend(done, used, next) && !o.Open?
    requires Ceiling(opts).Some? ==> |done| <= Ceiling(opts).value
    requires || (st == ErrRatioLimit && opts.maxRatio != 0
                 && (|done| < TWO64 && used < TWO64 ==> !InRatio(opts, |done|, used)))
             || (st == OverStatus(opts) && Ceiling(opts) == Some(|done|) && (pol.honest ==> Pending(next)))
    requires opts.maxRatio == 0 ==> st != ErrRatioLimit
    ensures EndsWell(o, opts, pol, st, done, used)
  {
    hide InRatio;
    assert o.out == done + next.out;
  }

  /** One call of a run that is to end: it ends as the outcome says. Either
      the ceiling or the ratio stopped it, */
  lemma CallEndsAtCeiling<S>(c: Codec<S>, sem: Sem<S>, pol: Policy, o: Outcome,
                             d: Handle<S>, p: Progress, w: seq<byte>, tail: seq<byte>, room: nat, f: Flush)
    requires UnderWay(sem, o, d, p, w + tail) && pol.reject == d.opts.reject
    requires StepOk(c, sem, pol, d.s, w, tail, Allowance(d, room), f)
    requires (f == Finish ==> tail == []) && (f == FlushNow ==> c.canFlush)
    requires Minded(pol.asks, f, |w|, p.late, p.idle)
    requires Inside(c, d.s, w, Allowance(d, room), f)
    requires c.process(d.s, w, Allowance(d, room), f).status.IsProgress()
    ensures var r := ProcessCall(c, d, w, room, f);
            !r.status.IsProgress() ==> EndsWell(o, d.opts, pol, r.status, p.done + r.out, p.used + r.used)
  {
    hide RatioExceeded, Wrap64, InRatio, Judge, EndsWell, Allowance, OverStatus;
    var r := c.process(d.s, w, Allowance(d, room), f);
    assert r.status != Ok;
    var next := sem.res(r.next, w[r.used..] + tail);
    PrependTwice(p.done, p.used, r.out, r.used, next);
    CountersGoOn(d, r, p, w, room);
    if !Judge(d, w, room, r).IsProgress() {
      AllowanceIsRoom(d, room);
      WhyStopped(d, w, room, r);
      StoppedWell(o, d.opts, pol, next, p.done + r.out, p.used + r.used, Judge(d, w, room, r));
    }
  }

  /** or the stream came to its end, */
  lemma CallEndsStream<S>(c: Codec<S>, sem: Sem<S>, pol: Policy, o: Outcome,
                          d: Handle<S>, p: Progress, w: seq<byte>, tail: seq<byte>, room: nat, f: Flush)
    requires UnderWay(sem, o, d, p, w + tail) && pol.reject == d.opts.reject
    requires StepOk(c, sem, pol, d.s, w, tail, Allowance(d, room), f)
    requires (f == Finish ==> tail == []) && (f == FlushNow ==> c.canFlush)
    requires Minded(pol.asks, f, |w|, p.late, p.idle)
    requires Inside(c, d.s, w, Allowance(d, room), f)
    requires c.process(d.s, w, Allowance(d, room), f).status == StreamEnd
    ensures var r := ProcessCall(c, d, w, room, f);
            !r.status.IsProgress() && EndsWell(o, d.opts, pol, r.status, p.done + r.out, p.used + r.used)
  {
    hide RatioExceeded, Wrap64, InRatio;
    var r := c.process(d.s, w, Allowance(d, room), f);
    assert o.out == p.done + r.out;
    CountersGoOn(d, r, p, w, room);
  }

  /** or the codec refused it. */
  lemma CallEndsInError<S>(c: Codec<S>, sem: Sem<S>, pol: Policy, o: Outcome,
                           d: Handle<S>, p: Progress, w: seq<byte>, tail: seq<byte>, room: nat, f: Flush)
    requires UnderWay(sem, o, d, p, w + tail) && pol.reject == d.opts.reject
    requires StepOk(c, sem, pol, d.s, w, tail, Allowance(d, room), f)
    requires (f == Finish ==> tail == []) && (f == FlushNow ==> c.canFlush)
    requires Minded(pol.asks, f, |w|, p.late, p.idle)
    requires Inside(c, d.s, w, Allowance(d, room), f)
    requires c.process(d.s, w, Allowance(d, room), f).status.IsError()
    ensures var r := ProcessCall(c, d, w, room, f);
            !r.status.IsProgress() && EndsWell(o, d.opts, pol, r.status, p.done + r.out, p.used + r.used)
  {
    hide RatioExceeded, Wrap64, InRatio;
    var r := c.process(d.s, w, Allowance(d, room), f);
    if o.Corrupt? {
      var next := sem.res(d.s, w + tail);
      assert o.out == p.done + next.out && p.done + r.out <= o.out;
    } else {
      assert o.out == p.done + r.out;
    }
    CountersGoOn(d, r, p, w, room);
  }

  /** A run in progress, or at its end. */
  ghost predicate RunOk<S>(sem: Sem<S>, pol: Policy, o: Outcome, opts: DecOpts,
                           d: Handle<S>, status: Status, p: Progress, rest: seq<byte>) {
    if status.IsProgress() then UnderWay(sem, o, d, p, rest) && d.opts == opts
    else EndsWell(o, opts, pol, status, p.done, p.used)
  }

  /** One call of a run: the run goes on as before, or ends as it must. */
  lemma OneCall<S(!new)>(c: Codec<S>, sem: Sem<S>, pol: Policy, o: Outcome,
                         d: Handle<S>, p: Progress, rest: seq<byte>, w: seq<byte>, tail: seq<byte>, room: nat, f: Flush)
    requires InWindow(c) && Keeps(c, sem, pol) && pol.reject == d.opts.reject
    requires UnderWay(sem, o, d, p, rest)
    requires rest == w + tail && (f == Finish ==> tail == []) && (f == FlushNow ==> c.canFlush)
    requires Minded(pol.asks, f, |w|, p.late, p.idle)
    ensures Inside(c, d.s, w, Allowance(d, room), f)
    ensures var r := ProcessCall(c, d, w, room, f);
            RunOk(sem, pol, o, d.opts, r.next, r.status, Advance(p, r, f), rest[r.used..])
  {
    assert Inside(c, d.s, w, Allowance(d, room), f);
    assert StepOk(c, sem, pol, d.s, w, tail, Allowance(d, room), f);
    hide UnderWay, EndsWell, StepOk, ProcessCall, Judge, Allowance;
    CallContinues(c, sem, pol, o, d, p, w, tail, room, f);
    var answer := c.process(d.s, w, Allowance(d, room), f).status;
    if answer == StreamEnd {
      CallEndsStream(c, sem, pol, o, d, p, w, tail, room, f);
    } else if answer.IsProgress() {
      CallEndsAtCeiling(c, sem, pol, o, d, p, w, tail, room, f);
    } else {
      CallEndsInError(c, sem, pol, o, d, p, w, tail, room, f);
    }
  }

  /** One more call, after a run still in progress. */
  lemma {:induction false} RunAppends<S(!new)>(c: Codec<S>, d: Handle<S>, rest: seq<byte>, slots: seq<Slot>, last: Slot)
    requires InWindow(c) && RunAll(c, d, rest, slots).status.IsProgress()
    ensures var n, q := RunAll(c, d, rest, slots), RunAll(c, d, rest, slots + [last]);
            var r := Offer(c, n.d, rest[n.used..], last);
            && q.d == r.next && q.out == n.out + r.out && q.used == n.used + r.used
            && q.status == if r.status.IsProgress() then Ok else r.status
    decreases |slots|
  {
    hide Offer, InWindow;
    if slots == [] {
      assert rest[0..] == rest && [last][1..] == [];
    } else {
      var r := Offer(c, d, rest, slots[0]);
      assert (slots + [last])[1..] == slots[1..] + [last];
      RunAppends(c, r.next, rest[r.used..], slots[1..], last);
      var m := RunAll(c, r.next, rest[r.used..], slots[1..]);
      assert rest[r.used..][m.used..] == rest[r.used + m.used..];
    }
  }

  /** A run of two calls. */
  lemma TwoSlots<S(!new)>(c: Codec<S>, d: Handle<S>, rest: seq<byte>, first: Slot, last: Slot)
    requires InWindow(c) && Offer(c, d, rest, first).status.IsProgress()
    requires var r := Offer(c, d, rest, first); !Offer(c, r.next, rest[r.used..], last).status.IsProgress()
    ensures var r := Offer(c, d, rest, first);
            var q, n := Offer(c, r.next, rest[r.used..], last), RunAll(c, d, rest, [first, last]);
            n.status == q.status && n.out == r.out + q.out && n.used == r.used + q.used
  {
    hide Offer;
    assert [first, last][1..] == [last];
  }

  /** What a caller minds in the course of a run: a codec that asks nothing is
      asked to flush only if it can, and that is all. */
  ghost predicate Proper<S(!new)>(c: Codec<S>, asks: Asks, d: Handle<S>, p: Progress, rest: seq<byte>, slots: seq<Slot>)
    requires InWindow(c)
    decreases |slots|
  {
    slots != [] ==>
      var r := Offer(c, d, rest, slots[0]);
      && (slots[0].flush == FlushNow ==> c.canFlush)
      && Minded(asks, slots[0].flush, Offered(slots[0], |rest|), p.late, p.idle)
      && (r.status.IsProgress() ==> Proper(c, asks, r.next, Advance(p, r, slots[0].flush), rest[r.used..], slots[1..]))
  }

  /** FINISH, once said, is said to the end, and flushes only where they are
      supported. */
  predicate Steady(slots: seq<Slot>, canFlush: bool) {
    && (forall i :: 0 <= i < |slots| && slots[i].flush == FlushNow ==> canFlush)
    && forall i, j :: 0 <= i < j < |slots| && slots[i].flush == Finish ==> slots[j].flush == Finish
  }

  /** Steady slots on an input no longer than the span are proper, for a codec
      that is patient; */
  lemma {:induction false} SteadyIsProper<S(!new)>(c: Codec<S>, asks: Asks, d: Handle<S>, p: Progress, rest: seq<byte>, slots: seq<Slot>)
    requires InWindow(c) && asks.patience == None && Steady(slots, c.canFlush)
    requires asks.span.Some? ==> |rest| <= asks.span.value
    requires p.late ==> forall i :: 0 <= i < |slots| ==> slots[i].flush == Finish
    ensures Proper(c, asks, d, p, rest, slots)
    decreases |slots|
  {
    if slots != [] {
      var r := Offer(c, d, rest, slots[0]);
      if r.status.IsProgress() {
        SteadyIsProper(c, asks, r.next, Advance(p, r, slots[0].flush), rest[r.used..], slots[1..]);
      }
    }
  }

  /** and any slots are, for a codec that asks nothing. */
  lemma {:induction false} AnythingIsProper<S(!new)>(c: Codec<S>, d: Handle<S>, p: Progress, rest: seq<byte>, slots: seq<Slot>)
    requires InWindow(c) && forall i :: 0 <= i < |slots| && slots[i].flush == FlushNow ==> c.canFlush
    ensures Proper(c, NOTHING_ASKED, d, p, rest, slots)
    decreases |slots|
  {
    if slots != [] {
      var r := Offer(c, d, rest, slots[0]);
      if r.status.IsProgress() {
        AnythingIsProper(c, r.next, Advance(p, r, slots[0].flush), rest[r.used..], slots[1..]);
      }
    }
  }

  /** and so are no more calls than the codec is patient for. */
  lemma {:induction false} FewAreProper<S(!new)>(c: Codec<S>, asks: Asks, d: Handle<S>, p: Progress, rest: seq<byte>, slots: seq<Slot>)
    requires InWindow(c) && forall i :: 0 <= i < |slots| && slots[i].flush == FlushNow ==> c.canFlush
    requires !asks.steady && asks.span == None && (asks.patience.Some? ==> p.idle + |slots| <= asks.patience.value + 1)
    ensures Proper(c, asks, d, p, rest, slots)
    decreases |slots|
  {
    if slots != [] {
      var r := Offer(c, d, rest, slots[0]);
      if r.status.IsProgress() {
        FewAreProper(c, asks, r.next, Advance(p, r, slots[0].flush), rest[r.used..], slots[1..]);
      }
    }
  }

  lemma OneSlot<S(!new)>(c: Codec<S>, sem: Sem<S>, pol: Policy, o: Outcome,
                         d: Handle<S>, p: Progress, rest: seq<byte>, slot: Slot)
    requires InWindow(c) && Keeps(c, sem, pol) && pol.reject == d.opts.reject
    requires UnderWay(sem, o, d, p, rest) && (slot.flush == FlushNow ==> c.canFlush)
    requires Minded(pol.asks, slot.flush, Offered(slot, |rest|), p.late, p.idle)
    ensures var r := Offer(c, d, rest, slot);
            RunOk(sem, pol, o, d.opts, r.next, r.status, Advance(p, r, slot.flush), rest[r.used..])
  {
    hide RunOk, UnderWay, Keeps, ProcessCall;
    var k := Offered(slot, |rest|);
    assert rest == rest[..k] + rest[k..];
    OneCall(c, sem, pol, o, d, p, rest, rest[..k], rest[k..], slot.room, slot.flush);
  }

  /** Where a run has come to: as far as its own cursors say. */
  ghost predicate RunTo<S>(sem: Sem<S>, pol: Policy, o: Outcome, opts: DecOpts,
                           r: RunResult<S>, done: seq<byte>, used: nat, rest: seq<byte>) {
    exists q: Progress :: q.done == done && q.used == used && RunOk(sem, pol, o, opts, r.d, r.status, q, rest)
  }

  /** Main theorem. A run of a codec that keeps its promise, in whatever
      windows, ends in a status read off the outcome of the whole input and
      delivers its bytes; a run that has not ended has delivered a prefix of
      them. */
  lemma {:induction false} RunVerdict<S(!new)>(c: Codec<S>, sem: Sem<S>, pol: Policy, o: Outcome,
                                               d: Handle<S>, p: Progress, rest: seq<byte>, slots: seq<Slot>)
    requires InWindow(c) && Keeps(c, sem, pol) && pol.reject == d.opts.reject
    requires UnderWay(sem, o, d, p, rest) && Proper(c, pol.asks, d, p, rest, slots)
    ensures var r := RunAll(c, d, rest, slots);
            RunTo(sem, pol, o, d.opts, r, p.done + r.out, p.used + r.used, rest[r.used..])
    decreases |slots|
  {
    hide UnderWay, EndsWell, Offer, Keeps;
    if slots == [] {
      assert p.done + [] == p.done && rest[0..] == rest;
      assert RunOk(sem, pol, o, d.opts, d, Ok, p, rest);
    } else {
      OneSlot(c, sem, pol, o, d, p, rest, slots[0]);
      var r := Offer(c, d, rest, slots[0]);
      var q := Advance(p, r, slots[0].flush);
      var whole := RunAll(c, d, rest, slots);
      if r.status.IsProgress() {
        var left := rest[r.used..];
        RunVerdict(c, sem, pol, o, r.next, q, left, slots[1..]);
        var n := RunAll(c, r.next, left, slots[1..]);
        assert p.done + whole.out == q.done + n.out;
        assert rest[whole.used..] == left[n.used..];
      } else {
        assert RunOk(sem, pol, o, d.opts, whole.d, whole.status, q, rest[whole.used..]);
      }
    }
  }

  /** The same, from a fresh handle. */
  lemma FreshRunVerdict<S(!new)>(c: Codec<S>, sem: Sem<S>, pol: Policy, s: S, opts: DecOpts,
                                 input: seq<byte>, slots: seq<Slot>)
    requires InWindow(c) && Keeps(c, sem, pol) && pol.reject == opts.reject
    requires sem.inv(s) && !sem.late(s) && sem.idle(s) == 0 && !sem.res(s, input).Open?
    requires Proper(c, pol.asks, Fresh(s, opts), START, input, slots)
    ensures var o, r := sem.res(s, input), RunAll(c, Fresh(s, opts), input, slots);
            && RunTo(sem, pol, o, opts, r, r.out, r.used, input[r.used..])
            && Consistent(r.out, o)
            && (!r.status.IsProgress() ==> EndsWell(o, opts, pol, r.status, r.out, r.used))
  {
    hide Verdict, Offer, Proper, Keeps;
    var o, r := sem.res(s, input), RunAll(c, Fresh(s, opts), input, slots);
    PrependNothing(o);
    RunVerdict(c, sem, pol, o, Fresh(s, opts), START, input, slots);
    assert [] + r.out == r.out;
  }

  /** The output is past a limit: more than max_output, or than expected. */
  predicate Passes(opts: DecOpts, n: nat) {
    (opts.maxOutput != 0 && n > opts.maxOutput) || (opts.hasExpected && n > opts.expected)
  }

  /** Main theorem, limits. A run of any codec that keeps its promise, over an
      input whose output is past a limit, ends over the tighter of the two, and
      in its status: INVALID_DATA if that is the expected size, which wins a
      tie, and else OUTPUT_LIMIT. Delivered is exactly what the tighter admits.
      And an output past neither is not over any. */
  lemma PastALimit<S(!new)>(c: Codec<S>, sem: Sem<S>, pol: Policy, s: S, opts: DecOpts, input: seq<byte>, slots: seq<Slot>)
    requires InWindow(c) && Keeps(c, sem, pol) && pol.reject == opts.reject && opts.maxRatio == 0
    requires sem.inv(s) && !sem.late(s) && sem.idle(s) == 0 && (sem.res(s, input).Complete? || sem.res(s, input).Cut?)
    requires Proper(c, pol.asks, Fresh(s, opts), START, input, slots)
    requires !RunAll(c, Fresh(s, opts), input, slots).status.IsProgress()
    ensures var o, r := sem.res(s, input), RunAll(c, Fresh(s, opts), input, slots);
            if Passes(opts, |o.out|) then
              && r.status == (if opts.hasExpected && (opts.maxOutput == 0 || opts.expected <= opts.maxOutput) then ErrInvalidData
                              else ErrOutputLimit)
              && r.out <= o.out && (opts.maxOutput != 0 ==> |r.out| <= opts.maxOutput) && (opts.hasExpected ==> |r.out| <= opts.expected)
              && ((opts.maxOutput != 0 && |r.out| == opts.maxOutput) || (opts.hasExpected && |r.out| == opts.expected))
            else r.out == o.out
  {
    hide RunTo, Proper, RunAll, Keeps;
    FreshRunVerdict(c, sem, pol, s, opts, input, slots);
  }

  /** How a run without limits ends: nothing but the outcome decides, down to
      the last output byte, and for an exact codec down to the tail. */
  predicate PlainEnd(o: Outcome, reject: bool, pol: Policy, st: Status, done: seq<byte>, used: nat) {
    match o
    case Complete(out, n, after) =>
      && done == out && (st == StreamEnd ==> n <= used <= n + pol.slack)
      && (if !reject then st == StreamEnd
          else if pol.exact then st == if after != [] then ErrTrailing else StreamEnd
          else st == StreamEnd || (st == ErrTrailing && after != []))
    case Cut(out, status) => st == status && done == out
    case Corrupt(out, statuses) => st in statuses && done <= out
    case Open => true
  }

  lemma EndsPlainly(o: Outcome, opts: DecOpts, pol: Policy, st: Status, done: seq<byte>, used: nat)
    requires EndsWell(o, opts, pol, st, done, used) && Ceiling(opts) == None && opts.maxRatio == 0
    ensures PlainEnd(o, opts.reject, pol, st, done, used)
  {
  }

  /** Limits are transparent: if an unlimited run of an honest codec, in some
      windows, ends well with output the ceiling admits, every limited run,
      in any windows, that ends delivers those bytes and that end. If the
      output is over the ceiling, the limited run delivers the bytes up to
      it and ends in the ceiling's own status. */
  lemma LimitsAreTransparent<S(!new)>(c: Codec<S>, sem: Sem<S>, pol: Policy, s: S,
                                      unlimited: DecOpts, limited: DecOpts,
                                      input: seq<byte>, free: seq<Slot>, tight: seq<Slot>)
    requires InWindow(c) && Keeps(c, sem, pol) && pol.honest && pol.exact
    requires sem.inv(s) && !sem.late(s) && sem.idle(s) == 0 && !sem.res(s, input).Open?
    requires pol.reject == unlimited.reject == limited.reject
    requires Proper(c, pol.asks, Fresh(s, unlimited), START, input, free)
    requires Proper(c, pol.asks, Fresh(s, limited), START, input, tight)
    requires Ceiling(unlimited) == None && unlimited.maxRatio == 0 && limited.maxRatio == 0
    requires RunAll(c, Fresh(s, unlimited), input, free).status == StreamEnd
    ensures var whole := RunAll(c, Fresh(s, unlimited), input, free).out;
            var r := RunAll(c, Fresh(s, limited), input, tight);
            if r.status.IsProgress() then r.out <= whole
            else if !Fits(limited, |whole|) then
              r.status == OverStatus(limited) && r.out == whole[..Ceiling(limited).value]
            else
              r.out == whole &&
              r.status == if limited.hasExpected && |whole| != limited.expected then ErrInvalidData else StreamEnd
  {
    hide RunTo, Proper, RunAll;
    FreshRunVerdict(c, sem, pol, s, unlimited, input, free);
    FreshRunVerdict(c, sem, pol, s, limited, input, tight);
  }

  // ---- The handle itself -------------------------------------------------

  /** zu_decoder. */
  class Decoder<S(!new)> {
    const codec: Codec<S>
    var s: S
    var opts: DecOpts
    var finished: bool
    var totalIn: uint64
    var totalOut: uint64

    function Snap(): (d: Handle<S>)
      reads this
    {
      Handle(s, opts, finished, totalIn, totalOut)
    }

    /** zu_decoder_new, once the codec is resolved. */
    constructor (codec: Codec<S>, opts: DecOpts)
      ensures this.codec == codec && Snap() == Fresh(codec.start(opts), opts)
    {
      this.codec := codec;
      s, this.opts, finished, totalIn, totalOut := codec.start(opts), opts, false, 0, 0;
    }

    /** The indirect call through the vtable: the codec moves both cursors
        and writes where it is allowed to. */
    method CallCodec(buf: Buffer, f: Flush) returns (st: Status)
      requires buf.Valid() && Inside(codec, s, buf.Window(), buf.Room(), f)
      modifies this`s, buf`srcPos, buf`dstPos, buf.dst
      ensures var r := codec.process(old(s), old(buf.Window()), old(buf.Room()), f);
              s == r.next && st == r.status && buf.Advanced(r.used, r.out)
    {
      var r := codec.process(s, buf.Window(), buf.Room(), f);
      buf.Write(r.out);
      buf.srcPos := buf.srcPos + r.used;
      s, st := r.next, r.status;
    }

    /** Enforces the ceiling by shrinking the window the codec is given. */
    method Shrink(buf: Buffer) returns (allowance: nat, capped: bool, overStatus: Status)
      requires buf.Valid()
      modifies buf`dstSize
      ensures allowance == Allowance(Snap(), old(buf.Room()))
      ensures capped == (allowance < old(buf.Room())) && overStatus == OverStatus(opts)
      ensures buf.Valid() && buf.dstSize == buf.dstPos + allowance
    {
      allowance, capped := buf.dstSize - buf.dstPos, false;
      var ceiling, hasCeiling := 0, false;
      overStatus := ErrOutputLimit;
      if opts.maxOutput != 0 {
        ceiling, hasCeiling := opts.maxOutput, true;
      }
      if opts.hasExpected && (!hasCeiling || opts.expected <= ceiling) {
        ceiling, hasCeiling, overStatus := opts.expected, true, ErrInvalidData;
      }
      if hasCeiling {
        var remaining := if totalOut < ceiling then ceiling - totalOut else 0;
        if remaining < allowance {
          allowance, capped := remaining, true;
          buf.dstSize := buf.dstPos + allowance;
        }
      }
    }

    /** The body of zu_decoder_process: the caller's window is shrunk to the
        ceiling for the codec's call and restored after it. */
    method Turn(buf: Buffer, f: Flush) returns (st: Status)
      requires buf.Valid() && !finished && Inside(codec, s, buf.Window(), Allowance(Snap(), buf.Room()), f)
      modifies this, buf, buf.dst
      ensures var d, w, room := old(Snap()), old(buf.Window()), old(buf.Room());
              var r := codec.process(d.s, w, Allowance(d, room), f);
              Snap() == After(d, r) && st == Judge(d, w, room, r) && buf.Advanced(r.used, r.out)
    {
      hide Overlay, RatioExceeded, Wrap64, Judge, Allowance;
      ghost var d, w, room := Snap(), buf.Window(), buf.Room();
      var realDstSize := buf.dstSize;
      var allowance, capped, overStatus := Shrink(buf);
      ghost var r := codec.process(d.s, w, allowance, f);
      var beforeIn, beforeOut := buf.srcPos, buf.dstPos;
      st := CallCodec(buf, f);
      var usedIn, produced := buf.srcPos - beforeIn, buf.dstPos - beforeOut;
      if capped {
        buf.dstSize := realDstSize;
      }
      totalIn := Wrap64(totalIn + usedIn);
      totalOut := Wrap64(totalOut + produced);
      if st == StreamEnd {
        finished := true;
      }
      st := Checks(st, buf, allowance, produced, capped, overStatus, d, w, room, r);
    }

    /** zu_decoder_process. */
    method Process(buf: Buffer, f: Flush) returns (st: Status)
      requires InWindow(codec) && buf.dstSize <= buf.dst.Length
      modifies this, buf, buf.dst
      ensures !old(buf.Valid()) ==>
                st == ErrInvalidArgument && Snap() == old(Snap()) &&
                unchanged(buf) && unchanged(buf.dst)
      ensures old(buf.Valid()) ==>
                && Inside(codec, old(s), old(buf.Window()), Allowance(old(Snap()), old(buf.Room())), f)
                && var r := ProcessCall(codec, old(Snap()), old(buf.Window()), old(buf.Room()), f);
                   Snap() == r.next && st == r.status && buf.Advanced(r.used, r.out)
    {
      if buf.srcPos > |buf.src| || buf.dstPos > buf.dstSize {
        return ErrInvalidArgument;
      }
      hide Overlay, RatioExceeded, Wrap64, Judge, Allowance;
      assert Inside(codec, s, buf.Window(), Allowance(Snap(), buf.Room()), f);
      OverlayNothing(buf.dst[..], buf.dstPos);
      if finished {
        if buf.srcPos < |buf.src| && opts.reject {
          return ErrTrailing;
        }
        return StreamEnd;
      }
      if f == FlushNow && !codec.canFlush {
        return ErrUnsupported;
      }
      st := Turn(buf, f);
    }

    /** The checks zu_decoder_process makes once the codec has answered. */
    method Checks(answer: Status, buf: Buffer, allowance: nat, produced: nat, capped: bool, overStatus: Status,
                  ghost d: Handle<S>, ghost w: seq<byte>, ghost room: nat, ghost r: Reply<S>)
      returns (st: Status)
      requires buf.Valid() && r.used <= |w| && d.opts == opts && r.status == answer
      requires totalIn == Wrap64(d.totalIn + r.used) && totalOut == Wrap64(d.totalOut + |r.out|)
      requires produced == |r.out| && allowance == Allowance(d, room)
      requires capped == (allowance < room) && overStatus == OverStatus(opts)
      requires buf.srcPos < |buf.src| <==> r.used < |w|
      ensures st == Judge(d, w, room, r)
    {
      hide RatioExceeded, Wrap64;
      if answer == StreamEnd {
        if opts.hasExpected && totalOut != opts.expected {
          return ErrInvalidData;
        }
        if buf.srcPos < |buf.src| && opts.reject {
          return ErrTrailing;
        }
      }
      if capped && answer == NeedOutput && produced == allowance {
        return overStatus;
      }
      if capped && allowance == 0 && answer != StreamEnd && buf.srcPos < |buf.src| {
        return overStatus;
      }
      if opts.maxOutput != 0 && totalOut > opts.maxOutput {
        return ErrOutputLimit;
      }
      if opts.hasExpected && totalOut > opts.expected {
        return ErrInvalidData;
      }
      if answer != ErrOutputLimit && opts.maxRatio != 0 && totalOut > 0 {
        if RatioExceeded(totalIn, totalOut, opts.maxRatio) {
          return ErrRatioLimit;
        }
      }
      return answer;
    }

    /** zu_decoder_reset, options given or kept. */
    method Reset(given: Option<DecOpts>) returns (st: Status)
      modifies this
      ensures codec.reset == None ==> st == ErrUnsupported && Snap() == old(Snap())
      ensures codec.reset.Some? ==>
                var use := if given.Some? then given.value else old(opts);
                st == Ok && Snap() == ResetHandle(codec, old(Snap()), use)
    {
      var use := if given.Some? then given.value else opts;
      match codec.reset
      case None => return ErrUnsupported;
      case Some(reset) =>
        s, opts, finished, totalIn, totalOut := reset(s, use), use, false, 0, 0;
        return Ok;
    }
  }

  // ---- Reset -------------------------------------------------------------

  /** What zu_decoder_reset leaves. */
  function ResetHandle<S>(c: Codec<S>, d: Handle<S>, use: DecOpts): (d': Handle<S>)
    requires c.reset.Some?
  {
    Fresh(c.reset.value(d.s, use), use)
  }

  /** Every state a run leads to is the codec's own, whatever was asked and
      however it ended. */
  lemma {:induction false} RunStaysOwn<S(!new)>(c: Codec<S>, own: S -> bool, d: Handle<S>, rest: seq<byte>, slots: seq<Slot>)
    requires InWindow(c) && ResetsClean(c, own) && own(d.s)
    ensures own(RunAll(c, d, rest, slots).d.s)
    decreases |slots|
  {
    if slots != [] {
      var w := rest[..Offered(slots[0], |rest|)];
      assert StaysOwn(c, own, d.s, w, Allowance(d, slots[0].room), slots[0].flush);
      var r := Offer(c, d, rest, slots[0]);
      if r.status.IsProgress() {
        RunStaysOwn(c, own, r.next, rest[r.used..], slots[1..]);
      }
    }
  }

  /** Reset equals fresh. After any run at all, mid-stream, at its end or in
      error, a reset handle is the new handle at the resolved options, and what
      it makes of any later message, however offered, is what a new one makes
      of it. */
  lemma ResetIsNew<S(!new)>(c: Codec<S>, own: S -> bool, before: DecOpts, input: seq<byte>, slots: seq<Slot>,
                            use: DecOpts, next: seq<byte>, more: seq<Slot>)
    requires InWindow(c) && ResetsClean(c, own)
    ensures var d := RunAll(c, Fresh(c.start(before), before), input, slots).d;
            && ResetHandle(c, d, use) == Fresh(c.start(use), use)
            && RunAll(c, ResetHandle(c, d, use), next, more) == RunAll(c, Fresh(c.start(use), use), next, more)
  {
    RunStaysOwn(c, own, Fresh(c.start(before), before), input, slots);
  }
}
