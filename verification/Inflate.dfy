/** DEFLATE decoding as an engine: a resumable transducer behind mz_inflate().
    EngineKeeps is what the codec assumes of it; MzInflate.dfy shows that
    mz_inflate() keeps it. */
module Inflate {
  import opened Zu

  datatype MzFlush = MzNoFlush | MzSyncFlush | MzFinish

  /** mz_inflate()'s answer. MZ_BUF_ERROR is no error here (see zu_int_from_mz). */
  datatype MzStatus = MzOk | MzEnd | MzError(status: Status)

  datatype Turn<+E> = Turn(next: E, used: nat, out: seq<byte>, mz: MzStatus)

  datatype Engine<!E> = Engine(start: E, step: (E, seq<byte>, nat, MzFlush) -> Turn<E>)

  /** An engine that oversteps its window, or fails with no error, has no
      meaning; it is read as failing internally, without having moved. */
  function Ask<E>(g: Engine<E>, e: E, w: seq<byte>, room: nat, f: MzFlush): (t: Turn<E>)
    ensures t.used <= |w| && |t.out| <= room
    ensures t.mz.MzError? ==> t.mz.status.IsError()
  {
    var t := g.step(e, w, room, f);
    if t.used <= |w| && |t.out| <= room && (t.mz.MzError? ==> t.mz.status.IsError()) then t
    else Turn(e, 0, [], MzError(ErrInternal))
  }

  /** What the rest of a DEFLATE stream amounts to: it ends, it stops short, or
      it is wrong after `out`. Open: the engine's own answer to it depends on
      windows, and nothing is said. */
  datatype Inf =
    | InfEnd(out: seq<byte>, used: nat)
    | InfCut(out: seq<byte>)
    | InfBad(out: seq<byte>, statuses: set<Status>)
    | InfOpen

  function PrependInf(p: seq<byte>, n: nat, i: Inf): (r: Inf) {
    match i
    case InfEnd(out, used) => InfEnd(p + out, n + used)
    case InfCut(out) => InfCut(p + out)
    case InfBad(out, statuses) => InfBad(p + out, statuses)
    case InfOpen => i
  }

  lemma PrependInfNothing(i: Inf)
    ensures PrependInf([], 0, i) == i
  {
  }

  lemma PrependInfTwice(p: seq<byte>, n: nat, q: seq<byte>, m: nat, i: Inf)
    ensures PrependInf(p, n, PrependInf(q, m, i)) == PrependInf(p + q, n + m, i)
  {
  }

  /** `ok(e, called)`: a state the engine can be in, before or after the
      first call; `inf(e, rest)`: what follows when `rest` is all there is;
      `late(e)`: it has been told MZ_FINISH. */
  datatype EngineSem<!E> = EngineSem(ok: (E, bool) -> bool, inf: (E, seq<byte>) -> Inf, late: E -> bool)

  /** As much of `out` as there is room for. */
  function Given(out: seq<byte>, room: nat): (p: seq<byte>)
    ensures p <= out && |p| <= room
  {
    out[..Min(|out|, room)]
  }

  /** One call is one step of the stream, wherever the window ends. MZ_FINISH
      says that the window is all there is; it is not said on the first call,
      and once said is said again. A failing call delivers what comes before
      the failure as far as there is room, and the rest of that is lost; a
      stream that stops short fails like that when MZ_FINISH is said. An
      engine with room and nothing to do is short of input. */
  ghost predicate StepKeeps<E>(g: Engine<E>, x: EngineSem<E>, e: E, called: bool,
                               w: seq<byte>, tail: seq<byte>, room: nat, f: MzFlush)
  {
    x.ok(e, called) && !x.inf(e, w + tail).InfOpen?
    && (f == MzFinish ==> called && tail == []) && (x.late(e) ==> f == MzFinish) ==>
      var t := g.step(e, w, room, f);
      var i := x.inf(e, w + tail);
      && t.used <= |w| && |t.out| <= room
      && (i.InfEnd? ==> i.used <= |w + tail|)
      && match t.mz
         case MzEnd => i == InfEnd(t.out, t.used)
         case MzError(status) =>
           && status.IsError() && t.out == Given(i.out, room)
           && ((i.InfBad? && status in i.statuses) || (i.InfCut? && f == MzFinish && status == ErrInvalidData))
         case MzOk =>
           && x.ok(t.next, true) && (x.late(t.next) ==> f == MzFinish)
           && i == PrependInf(t.out, t.used, x.inf(t.next, w[t.used..] + tail))
           && (room > 0 && t.used == 0 && t.out == [] ==> w == [] && x.inf(t.next, []) == InfCut([]))
  }

  ghost predicate EngineKeeps<E(!new)>(g: Engine<E>, x: EngineSem<E>) {
    && x.ok(g.start, false) && !x.late(g.start)
    && forall e: E, called: bool, w: seq<byte>, tail: seq<byte>, room: nat, f: MzFlush ::
         StepKeeps(g, x, e, called, w, tail, room, f)
  }
}
