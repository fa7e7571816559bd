/** What a codec is to the driver, and what an honest one promises.

    A codec's process function is a value: state, offered window, output room
    and flush in; next state, bytes taken, bytes written and status out. The
    promise is stated against a residual semantics `res(s, rest)`: what a
    stream in state `s` amounts to when exactly `rest` is still to come. A
    call sees only a prefix `w` of `rest == w + tail`, so a codec that keeps
    the promise cannot let its verdict depend on where the windows fall. */
module Codecs {
  import opened Zu

  datatype Reply<+S> = Reply(next: S, used: nat, out: seq<byte>, status: Status)

  /** A codec's vtable, as far as decoding goes. */
  datatype Codec<!S> = Codec(
    start: DecOpts -> S,
    process: (S, seq<byte>, nat, Flush) -> Reply<S>,
    reset: Option<(S, DecOpts) -> S>,
    canFlush: bool)

  /** All that the driver relies on: cursors stay inside the window. */
  ghost predicate InWindow<S(!new)>(c: Codec<S>) {
    forall s: S, w: seq<byte>, room: nat, f: Flush :: Inside(c, s, w, room, f)
  }

  ghost predicate Inside<S>(c: Codec<S>, s: S, w: seq<byte>, room: nat, f: Flush) {
    var r := c.process(s, w, room, f);
    r.used <= |w| && |r.out| <= room
  }

  /** The meaning of a stream: it ends by itself after `used` bytes, with the
      bytes `after` behind it; or the input stops inside it; or it fails, is
      reported by one of `statuses`, and `out` is what may come out before.
      Open: nothing is said of it, because the engine itself lets its answer
      depend on windows. */
  datatype Outcome =
    | Complete(out: seq<byte>, used: int, after: seq<byte>)
    | Cut(out: seq<byte>, status: Status)
    | Corrupt(out: seq<byte>, statuses: set<Status>)
    | Open

  /** The outcome as seen `n` input bytes and `p` output bytes earlier. */
  function Prepend(p: seq<byte>, n: int, o: Outcome): (r: Outcome) {
    match o
    case Complete(out, used, after) => Complete(p + out, n + used, after)
    case Cut(out, status) => Cut(p + out, status)
    case Corrupt(out, statuses) => Corrupt(p + out, statuses)
    case Open => o
  }

  lemma PrependTwice(p: seq<byte>, n: int, q: seq<byte>, m: int, o: Outcome)
    ensures Prepend(p, n, Prepend(q, m, o)) == Prepend(p + q, n + m, o)
  {
  }

  lemma PrependNothing(o: Outcome)
    ensures Prepend([], 0, o) == o
  {
  }

  /** Output is still to come (or the stream fails, and it may). */
  predicate Pending(o: Outcome) {
    o.Corrupt? || o.Open? || o.out != []
  }

  /** inv: the states reached between calls. res: the residual outcome.
      late: the codec has been told FINISH and remembers it. idle: how many
      calls in a row it counts as having moved nothing. */
  datatype Sem<!S> = Sem(inv: S -> bool, res: (S, seq<byte>) -> Outcome, late: S -> bool, idle: S -> nat)

  /** What a codec asks of its caller. steady: FINISH, once said, is said until
      the end. span: the longest window it takes with FINISH. patience: how
      many calls in a row may have moved nothing before another is made. */
  datatype Asks = Asks(steady: bool, span: Option<nat>, patience: Option<nat>)

  const NOTHING_ASKED: Asks := Asks(false, None, None)

  /** What is promised beyond the residual semantics.
      honest: NEED_OUTPUT only when an output byte really is pending.
      exact: bytes after the stream are reported whatever the windows.
      slack: how far a call may run past the end of the stream.
      lone: the bytes after a stream that a codec may hold back to the end of
      the input and then has to report itself. */
  datatype Policy = Policy(reject: bool, honest: bool, exact: bool, slack: nat, lone: seq<byte> -> bool, asks: Asks)

  const NEVER_LONE: seq<byte> -> bool := (p: seq<byte>) => false

  ghost predicate StepOk<S>(c: Codec<S>, sem: Sem<S>, pol: Policy,
                            s: S, w: seq<byte>, tail: seq<byte>, room: nat, f: Flush)
  {
    sem.inv(s) && !sem.res(s, w + tail).Open? && (f == Finish ==> tail == [])
    && Minded(pol.asks, f, |w|, sem.late(s), sem.idle(s)) ==>
      var r := c.process(s, w, room, f);
      && ReplyOk(sem, pol, sem.res(s, w + tail), r, w, tail, room, f)
      && (r.status.IsProgress() ==> Remembers(sem, s, r, f))
  }

  /** A call with flush `f` on `n` bytes is one the codec may be asked. */
  predicate Minded(asks: Asks, f: Flush, n: nat, late: bool, idle: nat) {
    && (asks.steady && late ==> f == Finish)
    && (asks.span.Some? && f == Finish ==> n <= asks.span.value)
    && (asks.patience.Some? ==> idle <= asks.patience.value)
  }

  /** FINISH is remembered only if it was said, and idle calls are counted. */
  ghost predicate Remembers<S>(sem: Sem<S>, s: S, r: Reply<S>, f: Flush) {
    && (sem.late(r.next) ==> sem.late(s) || f == Finish)
    && sem.idle(r.next) <= Idled(sem.idle(s), r.used + |r.out|)
  }

  /** Idle calls in a row, after one that moved `n` bytes. */
  function Idled(idle: nat, n: nat): (r: nat) {
    if n > 0 then 1 else idle + 1
  }

  /** `r` answers a call on window `w` whose whole remaining outcome is `o`. */
  ghost predicate ReplyOk<S>(sem: Sem<S>, pol: Policy, o: Outcome, r: Reply<S>,
                             w: seq<byte>, tail: seq<byte>, room: nat, f: Flush)
  {
    && r.used <= |w| && |r.out| <= room
    && match r.status
       case NeedInput =>
         && r.used == |w| && f != Finish
         && Continues(sem, o, r, w, tail)
       case NeedOutput =>
         && |r.out| == room
         && Continues(sem, o, r, w, tail)
         && (pol.honest ==> Pending(sem.res(r.next, w[r.used..] + tail)))
       case StreamEnd =>
         && o.Complete? && o.out == r.out
         && o.used <= r.used <= o.used + pol.slack
         && (r.used < |w| ==> o.after != [])
         && (pol.exact && pol.reject && o.after != [] ==> r.used < |w|)
       case ErrTrailing =>
         if o.Complete? then
           && pol.exact && pol.reject && o.after != [] && pol.lone(o.after) && o.out == r.out
           && r.used == |w| && r.used <= o.used + pol.slack
         else Fails(o, r, w, tail)
       case Ok => false
       case _ => Fails(o, r, w, tail)
  }

  /** The call was one step of the stream, which goes on. */
  ghost predicate Continues<S>(sem: Sem<S>, o: Outcome, r: Reply<S>, w: seq<byte>, tail: seq<byte>)
    requires r.used <= |w|
  {
    && sem.inv(r.next)
    && o == Prepend(r.out, r.used, sem.res(r.next, w[r.used..] + tail))
  }

  /** The call failed, and the stream does fail: all input is in when it is
      reported short, and a failing stream is reported as what it is, having
      put out nothing but what it should. */
  ghost predicate Fails<S>(o: Outcome, r: Reply<S>, w: seq<byte>, tail: seq<byte>)
    requires r.used <= |w|
  {
    || (o.Cut? && o.out == r.out && o.status == r.status && r.used == |w| && tail == [])
    || (o.Corrupt? && r.status in o.statuses && r.out <= o.out)
  }

  /** The promise, for every state, every window, every room and flush. */
  ghost predicate Keeps<S(!new)>(c: Codec<S>, sem: Sem<S>, pol: Policy) {
    forall s: S, w: seq<byte>, tail: seq<byte>, room: nat, f: Flush ::
      StepOk(c, sem, pol, s, w, tail, room, f)
  }

  /** `own` holds of every state the codec can be in, errors and all, and from
      any such state a reset leaves nothing of the old stream behind. */
  ghost predicate ResetsClean<S(!new)>(c: Codec<S>, own: S -> bool) {
    && c.reset.Some?
    && (forall o: DecOpts :: own(c.start(o)))
    && (forall s: S, w: seq<byte>, room: nat, f: Flush :: StaysOwn(c, own, s, w, room, f))
    && (forall s: S, o: DecOpts :: own(s) ==> c.reset.value(s, o) == c.start(o))
  }

  ghost predicate StaysOwn<S>(c: Codec<S>, own: S -> bool, s: S, w: seq<byte>, room: nat, f: Flush) {
    own(s) ==> own(c.process(s, w, room, f).next)
  }

  // ---- Codecs that loop ------------------------------------------------------

  /** One turn of a codec's own loop: answer the caller, or go round again
      having moved the cursors. */
  datatype Iter<+S> = Stop(reply: Reply<S>) | Go(next: S, used: nat, out: seq<byte>)

  /** The answer as seen from `n` input and |p| output bytes earlier. */
  function Ahead<S>(p: seq<byte>, n: nat, r: Reply<S>): (r': Reply<S>) {
    Reply(r.next, n + r.used, p + r.out, r.status)
  }

  lemma AheadTwice<S>(p: seq<byte>, n: nat, q: seq<byte>, m: nat, r: Reply<S>)
    ensures Ahead(p, n, Ahead(q, m, r)) == Ahead(p + q, n + m, r)
  {
    assert p + (q + r.out) == p + q + r.out;
  }

  /** What a turn owes: a step of the stream, or a proper answer. */
  ghost predicate IterOk<S>(sem: Sem<S>, pol: Policy, o: Outcome, i: Iter<S>,
                            w: seq<byte>, tail: seq<byte>, room: nat, f: Flush)
  {
    match i
    case Stop(r) => ReplyOk(sem, pol, o, r, w, tail, room, f)
    case Go(next, used, out) =>
      && used <= |w| && |out| <= room && sem.inv(next)
      && o == Prepend(out, used, sem.res(next, w[used..] + tail))
  }

  /** A proper answer stays one when the turns before it are counted in. */
  lemma AheadOk<S>(sem: Sem<S>, pol: Policy, o: Outcome, p: seq<byte>, n: nat, o': Outcome, r: Reply<S>,
                   w: seq<byte>, tail: seq<byte>, room: nat, f: Flush)
    requires n <= |w| && |p| <= room && o == Prepend(p, n, o')
    requires ReplyOk(sem, pol, o', r, w[n..], tail, room - |p|, f)
    ensures ReplyOk(sem, pol, o, Ahead(p, n, r), w, tail, room, f)
  {
    var a := Ahead(p, n, r);
    assert w[n..][r.used..] == w[a.used..];
    if r.status == NeedInput || r.status == NeedOutput {
      PrependTwice(p, n, r.out, r.used, sem.res(r.next, w[a.used..] + tail));
    }
  }
}
