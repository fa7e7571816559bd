/** mz_inflate() of src/vendor/miniz/miniz.c: tinfl behind a 32 KiB dictionary
    it decodes into and drains from. It keeps the contract of Inflate, given
    what is assumed of tinfl_decompress(): that its answer does not depend on
    where its windows fall. */
module MzInflate {
  import opened Zu
  import opened Inflate

  /** TINFL_LZ_DICT_SIZE. */
  const DICT: nat := 32768

  /** tinfl_status; all the negative ones are one. */
  datatype TStatus = TDone | TMoreOutput | TNeedInput | TFailed

  datatype TTurn<+D> = TTurn(next: D, used: nat, out: seq<byte>, status: TStatus)

  /** tinfl_decompress(): state, window, space, and whether more input may
      follow (TINFL_FLAG_HAS_MORE_INPUT). */
  datatype Tinfl<!D> = Tinfl(start: D, step: (D, seq<byte>, nat, bool) -> TTurn<D>)

  datatype TinflSem<!D> = TinflSem(ok: D -> bool, inf: (D, seq<byte>) -> Inf)

  /** It decodes as far as window and space allow: to the end of the stream;
      until the space is full; until the window is, and then it needs more
      input or, told there is none, fails; or to where the stream is wrong. */
  ghost predicate TStepKeeps<D>(tn: Tinfl<D>, y: TinflSem<D>, d: D, w: seq<byte>, tail: seq<byte>, space: nat, more: bool) {
    y.ok(d) && !y.inf(d, w + tail).InfOpen? && space > 0 && (!more ==> tail == []) ==>
      var t := tn.step(d, w, space, more);
      var i := y.inf(d, w + tail);
      && t.used <= |w| && |t.out| <= space && (i.InfEnd? ==> i.used <= |w + tail|)
      && match t.status
         case TDone => i == InfEnd(t.out, t.used)
         case TMoreOutput =>
           && |t.out| == space && y.ok(t.next)
           && i == PrependInf(t.out, t.used, y.inf(t.next, w[t.used..] + tail))
         case TNeedInput =>
           && more && t.used == |w| && y.ok(t.next)
           && i == PrependInf(t.out, t.used, y.inf(t.next, tail)) && y.inf(t.next, []) == InfCut([])
         case TFailed =>
           && ((i.InfBad? && ErrInvalidData in i.statuses) || (i.InfCut? && !more))
           && t.out == i.out
  }

  ghost predicate TinflKeeps<D(!new)>(tn: Tinfl<D>, y: TinflSem<D>) {
    && y.ok(tn.start)
    && forall d: D, w: seq<byte>, tail: seq<byte>, space: nat, more: bool :: TStepKeeps(tn, y, d, w, tail, space, more)
  }

  // ---- mz_inflate --------------------------------------------------------------------

  /** inflate_state: `dict` are the bytes decoded and not yet drained, `ofs`
      where they begin in the dictionary. */
  datatype Mz<+D> = Mz(d: D, dict: seq<byte>, ofs: nat, last: TStatus, flushed: bool, first: bool)

  /** tinfl overstepping its window or space is read as failing. */
  function Decode<D>(tn: Tinfl<D>, d: D, w: seq<byte>, space: nat, more: bool): (t: TTurn<D>)
    ensures t.used <= |w| && |t.out| <= space
  {
    var t := tn.step(d, w, space, more);
    if t.used <= |w| && |t.out| <= space then t else TTurn(d, 0, [], TFailed)
  }

  /** What one decode leaves: as much as there is room for goes out at once. */
  function Drained<D>(m: Mz<D>, t: TTurn<D>, n: nat): (m': Mz<D>)
    requires n <= |t.out|
  {
    m.(d := t.next, dict := t.out[n..], ofs := (m.ofs + n) % DICT, last := t.status)
  }

  /** The loop of mz_inflate. `starved`: the caller offered no input. */
  function Loop<D>(tn: Tinfl<D>, m: Mz<D>, w: seq<byte>, starved: bool, room: nat, f: MzFlush): (r: Turn<Mz<D>>)
    ensures r.used <= |w| && |r.out| <= room
    decreases room
  {
    var t := Decode(tn, m.d, w, if m.ofs < DICT then DICT - m.ofs else 0, f != MzFinish);
    var n := Min(|t.out|, room);
    var m1, out := Drained(m, t, n), t.out[..n];
    if t.status == TFailed then Turn(m1, t.used, out, MzError(ErrInvalidData))
    else if t.status == TNeedInput && starved then Turn(m1, t.used, out, MzOk)
    else if f == MzFinish && t.status == TDone then Turn(m1, t.used, out, if m1.dict == [] then MzEnd else MzOk)
    else if f == MzFinish && room == n then Turn(m1, t.used, out, MzOk)
    else if f != MzFinish && (t.status == TDone || t.used == |w| || room == n || m1.dict != []) then
      Turn(m1, t.used, out, if t.status == TDone && m1.dict == [] then MzEnd else MzOk)
    else if n == 0 then Turn(m1, t.used, out, MzOk)
    else
      var r := Loop(tn, m1, w[t.used..], starved, room - n, f);
      Turn(r.next, t.used + r.used, out + r.out, r.mz)
  }

  /** mz_inflate. */
  function MzStep<D>(tn: Tinfl<D>, m: Mz<D>, w: seq<byte>, room: nat, f: MzFlush): (r: Turn<Mz<D>>)
    ensures r.used <= |w| && |r.out| <= room
  {
    var m1 := m.(first := false, flushed := m.flushed || f == MzFinish);
    if m.last == TFailed then Turn(m.(first := false), 0, [], MzError(ErrInvalidData))
    else if m.flushed && f != MzFinish then Turn(m.(first := false), 0, [], MzError(ErrInvalidData))
    else if f == MzFinish && m.first then
      // Straight into the caller's window, which has to hold it all.
      var t := Decode(tn, m.d, w, room, false);
      match t.status
      case TFailed => Turn(m1.(d := t.next, last := TFailed), t.used, t.out, MzError(ErrInvalidData))
      case TDone => Turn(m1.(d := t.next, last := TDone), t.used, t.out, MzEnd)
      case _ => Turn(m1.(d := t.next, last := TFailed), t.used, t.out, MzOk)
    else if m.dict != [] then
      var n := Min(|m.dict|, room);
      var m2 := m1.(dict := m.dict[n..], ofs := (m.ofs + n) % DICT);
      Turn(m2, 0, m.dict[..n], if m.last == TDone && m2.dict == [] then MzEnd else MzOk)
    else Loop(tn, m1, w, w == [], room, f)
  }

  function MzEngine<D>(tn: Tinfl<D>): (g: Engine<Mz<D>>) {
    Engine(Mz(tn.start, [], 0, TNeedInput, false, true),
           (m: Mz<D>, w: seq<byte>, room: nat, f: MzFlush) => MzStep(tn, m, w, room, f))
  }

  // ---- It keeps the contract ------------------------------------------------------------

  predicate Sound<D>(y: TinflSem<D>, m: Mz<D>, called: bool) {
    && m.ofs < DICT && m.last != TFailed && m.first == !called
    && (m.first ==> m.dict == [] && !m.flushed)
    && (if m.last == TDone then m.dict != [] else y.ok(m.d))
  }

  /** What is decoded and not yet drained comes before what is to be decoded. */
  function Remaining<D>(y: TinflSem<D>, m: Mz<D>, rest: seq<byte>): (i: Inf) {
    PrependInf(m.dict, 0, if m.last == TDone then InfEnd([], 0) else y.inf(m.d, rest))
  }

  function MzSem<D>(y: TinflSem<D>): (x: EngineSem<Mz<D>>) {
    EngineSem((m: Mz<D>, called: bool) => Sound(y, m, called),
              (m: Mz<D>, rest: seq<byte>) => Remaining(y, m, rest),
              (m: Mz<D>) => m.flushed)
  }

  /** What a turn owes to the stream `i`. */
  ghost predicate TurnKeeps<D>(y: TinflSem<D>, r: Turn<Mz<D>>, i: Inf, late: bool,
                               w: seq<byte>, tail: seq<byte>, room: nat, f: MzFlush)
    requires r.used <= |w|
  {
    match r.mz
    case MzEnd => i == InfEnd(r.out, r.used)
    case MzError(status) =>
      && status == ErrInvalidData && (i.InfBad? || i.InfCut?) && r.out == Given(i.out, room)
      && (if i.InfBad? then status in i.statuses else f == MzFinish)
    case MzOk =>
      && Sound(y, r.next, true) && r.next.flushed == late
      && i == PrependInf(r.out, r.used, Remaining(y, r.next, w[r.used..] + tail))
      && (room > 0 && r.used == 0 && r.out == [] ==> w == [] && Remaining(y, r.next, []) == InfCut([]))
  }

  /** Going round again: what the later turns owe they owe to the whole. */
  lemma GoesRound<D>(y: TinflSem<D>, r: Turn<Mz<D>>, p: seq<byte>, n: nat, i: Inf, late: bool,
                     w: seq<byte>, tail: seq<byte>, room: nat, f: MzFlush)
    requires n <= |w| && 0 < |p| <= room && r.used <= |w| - n
    requires TurnKeeps(y, r, i, late, w[n..], tail, room - |p|, f)
    ensures TurnKeeps(y, Turn(r.next, n + r.used, p + r.out, r.mz), PrependInf(p, n, i), late, w, tail, room, f)
  {
    assert w[n..][r.used..] == w[n + r.used..];
    PrependInfTwice(p, n, r.out, r.used, Remaining(y, r.next, w[n + r.used..] + tail));
  }

  /** What has been decoded and what of it is drained make up one step. */
  lemma DrainedStep<D>(y: TinflSem<D>, m: Mz<D>, t: TTurn<D>, n: nat, rest: seq<byte>)
    requires n <= |t.out| && t.used <= |rest|
    ensures PrependInf(t.out, t.used, if t.status == TDone then InfEnd([], 0) else y.inf(t.next, rest[t.used..])) ==
            PrependInf(t.out[..n], t.used, Remaining(y, Drained(m, t, n), rest[t.used..]))
  {
    var m1 := Drained(m, t, n);
    var i := if t.status == TDone then InfEnd([], 0) else y.inf(t.next, rest[t.used..]);
    assert t.out[..n] + t.out[n..] == t.out;
    PrependInfTwice(t.out[..n], t.used, t.out[n..], 0, i);
  }

  /** May the loop go round again, after a decode that keeps the contract? */
  predicate Again<D>(t: TTurn<D>, w: seq<byte>, room: nat, f: MzFlush) {
    t.status == TMoreOutput && room > |t.out| > 0 && (f == MzFinish || t.used != |w|)
  }

  lemma LoopGoesRound<D>(tn: Tinfl<D>, m: Mz<D>, t: TTurn<D>, w: seq<byte>, starved: bool, room: nat, f: MzFlush)
    requires m.ofs < DICT && t == Decode(tn, m.d, w, DICT - m.ofs, f != MzFinish) && Again(t, w, room, f)
    ensures var m1 := Drained(m, t, |t.out|);
            var r := Loop(tn, m1, w[t.used..], starved, room - |t.out|, f);
            && m1.dict == [] && m1.ofs < DICT
            && Loop(tn, m, w, starved, room, f) == Turn(r.next, t.used + r.used, t.out + r.out, r.mz)
  {
    assert t.out[..|t.out|] == t.out;
  }

  /** What a decode that leaves room says of the stream. */
  lemma DecodedMore<D(!new)>(tn: Tinfl<D>, y: TinflSem<D>, m: Mz<D>, w: seq<byte>, tail: seq<byte>, f: MzFlush)
    requires TinflKeeps(tn, y) && y.ok(m.d) && m.ofs < DICT
    requires !y.inf(m.d, w + tail).InfOpen? && (f == MzFinish ==> tail == [])
    ensures TStepKeeps(tn, y, m.d, w, tail, DICT - m.ofs, f != MzFinish)
    ensures var t := Decode(tn, m.d, w, DICT - m.ofs, f != MzFinish);
            t.status == TMoreOutput ==>
              && y.ok(t.next) && !y.inf(t.next, w[t.used..] + tail).InfOpen?
              && y.inf(m.d, w + tail) == PrependInf(t.out, t.used, y.inf(t.next, w[t.used..] + tail))
  {
    assert TStepKeeps(tn, y, m.d, w, tail, DICT - m.ofs, f != MzFinish);
  }

  lemma {:induction false} LoopIsStep<D(!new)>(tn: Tinfl<D>, y: TinflSem<D>, m: Mz<D>, w: seq<byte>, tail: seq<byte>,
                                               starved: bool, room: nat, f: MzFlush)
    requires TinflKeeps(tn, y) && y.ok(m.d) && m.ofs < DICT && m.dict == [] && !m.first
    requires !y.inf(m.d, w + tail).InfOpen? && (f == MzFinish ==> tail == [])
    requires (starved ==> w == []) && (w == [] ==> starved || f == MzFinish)
    ensures TurnKeeps(y, Loop(tn, m, w, starved, room, f), y.inf(m.d, w + tail), m.flushed, w, tail, room, f)
    decreases room
  {
    hide TurnKeeps, TinflKeeps, TStepKeeps, Loop, Decode;
    DecodedMore(tn, y, m, w, tail, f);
    var t := Decode(tn, m.d, w, DICT - m.ofs, f != MzFinish);
    if Again(t, w, room, f) {
      var m1 := Drained(m, t, |t.out|);
      LoopGoesRound(tn, m, t, w, starved, room, f);
      LoopIsStep(tn, y, m1, w[t.used..], tail, starved, room - |t.out|, f);
      GoesRound(y, Loop(tn, m1, w[t.used..], starved, room - |t.out|, f), t.out, t.used, y.inf(t.next, w[t.used..] + tail),
                m.flushed, w, tail, room, f);
    } else {
      LoopStops(tn, y, m, t, w, tail, starved, room, f);
    }
  }

  lemma LoopStops<D>(tn: Tinfl<D>, y: TinflSem<D>, m: Mz<D>, t: TTurn<D>, w: seq<byte>, tail: seq<byte>,
                     starved: bool, room: nat, f: MzFlush)
    requires m.ofs < DICT && m.dict == [] && !m.first && y.ok(m.d)
    requires TStepKeeps(tn, y, m.d, w, tail, DICT - m.ofs, f != MzFinish)
    requires t == Decode(tn, m.d, w, DICT - m.ofs, f != MzFinish) && !Again(t, w, room, f)
    requires !y.inf(m.d, w + tail).InfOpen? && (f == MzFinish ==> tail == [])
    requires (starved ==> w == []) && (w == [] ==> starved || f == MzFinish)
    ensures TurnKeeps(y, Loop(tn, m, w, starved, room, f), y.inf(m.d, w + tail), m.flushed, w, tail, room, f)
  {
    var rest, n := w + tail, Min(|t.out|, room);
    assert w[t.used..] + tail == rest[t.used..];
    DrainedStep(y, m, t, n, rest);
  }

  /** mz_inflate() keeps the contract assumed of an engine. */
  lemma MzKeeps<D(!new)>(tn: Tinfl<D>, y: TinflSem<D>)
    requires TinflKeeps(tn, y)
    ensures EngineKeeps(MzEngine(tn), MzSem(y))
  {
    forall m: Mz<D>, called: bool, w: seq<byte>, tail: seq<byte>, room: nat, f: MzFlush
      ensures StepKeeps(MzEngine(tn), MzSem(y), m, called, w, tail, room, f)
    {
      MzStepKeeps(tn, y, m, called, w, tail, room, f);
    }
  }

  /** While the dictionary is not empty a call only drains it. */
  lemma DictDrains<D(!new)>(tn: Tinfl<D>, y: TinflSem<D>, m: Mz<D>, w: seq<byte>, tail: seq<byte>, room: nat, f: MzFlush)
    requires Sound(y, m, true) && m.dict != [] && (m.flushed ==> f == MzFinish)
    ensures TurnKeeps(y, MzStep(tn, m, w, room, f), Remaining(y, m, w + tail), m.flushed || f == MzFinish, w, tail, room, f)
  {
    var n := Min(|m.dict|, room);
    assert m.dict[..n] + m.dict[n..] == m.dict && w[0..] == w;
    PrependInfTwice(m.dict[..n], 0, m.dict[n..], 0, if m.last == TDone then InfEnd([], 0) else y.inf(m.d, w + tail));
  }

  lemma EndIsWithin<D(!new)>(tn: Tinfl<D>, y: TinflSem<D>, d: D, w: seq<byte>, tail: seq<byte>, f: MzFlush)
    requires TinflKeeps(tn, y) && y.ok(d) && (f == MzFinish ==> tail == [])
    ensures var i := y.inf(d, w + tail); i.InfEnd? ==> i.used <= |w + tail|
  {
    assert TStepKeeps(tn, y, d, w, tail, 1, f != MzFinish);
  }

  lemma StartsLoop<D(!new)>(tn: Tinfl<D>, y: TinflSem<D>, m: Mz<D>, w: seq<byte>, tail: seq<byte>, room: nat, f: MzFlush)
    requires TinflKeeps(tn, y) && Sound(y, m, m.dict != [] || !m.first) && m.dict == [] && (f == MzFinish ==> !m.first && tail == [])
    requires !Remaining(y, m, w + tail).InfOpen? && (m.flushed ==> f == MzFinish)
    ensures TurnKeeps(y, MzStep(tn, m, w, room, f), Remaining(y, m, w + tail), m.flushed || f == MzFinish, w, tail, room, f)
    ensures var i := Remaining(y, m, w + tail); i.InfEnd? ==> i.used <= |w + tail|
  {
    hide TurnKeeps, TinflKeeps, Loop, Decode;
    EndIsWithin(tn, y, m.d, w, tail, f);
    PrependInfNothing(y.inf(m.d, w + tail));
    LoopIsStep(tn, y, m.(first := false, flushed := m.flushed || f == MzFinish), w, tail, w == [], room, f);
  }

  lemma MzStepKeeps<D(!new)>(tn: Tinfl<D>, y: TinflSem<D>, m: Mz<D>, called: bool,
                             w: seq<byte>, tail: seq<byte>, room: nat, f: MzFlush)
    requires TinflKeeps(tn, y)
    ensures StepKeeps(MzEngine(tn), MzSem(y), m, called, w, tail, room, f)
  {
    hide TinflKeeps, MzStep;
    if Sound(y, m, called) && !Remaining(y, m, w + tail).InfOpen?
       && (f == MzFinish ==> called && tail == []) && (m.flushed ==> f == MzFinish) {
      if m.dict == [] {
        StartsLoop(tn, y, m, w, tail, room, f);
      } else {
        DictDrains(tn, y, m, w, tail, room, f);
        if m.last != TDone {
          EndIsWithin(tn, y, m.d, w, tail, f);
        }
      }
    }
  }

  // ---- MZ_FINISH on too little ----------------------------------------------------------

  lemma FinishStops<D>(tn: Tinfl<D>, y: TinflSem<D>, m: Mz<D>, w: seq<byte>, starved: bool, room: nat)
    requires y.ok(m.d) && m.ofs < DICT && !y.inf(m.d, w + []).InfOpen?
    requires TStepKeeps(tn, y, m.d, w, [], DICT - m.ofs, false)
    requires !Again(Decode(tn, m.d, w, DICT - m.ofs, false), w, room, MzFinish)
    ensures var r := Loop(tn, m, w, starved, room, MzFinish); r.mz == MzOk ==> |r.out| == room || r.next.last == TDone
  {
  }

  /** Under MZ_FINISH the loop goes round until the room is full, or the stream
      has ended or failed. */
  lemma {:induction false} FinishFillsRoom<D(!new)>(tn: Tinfl<D>, y: TinflSem<D>, m: Mz<D>, w: seq<byte>, starved: bool, room: nat)
    requires TinflKeeps(tn, y) && y.ok(m.d) && m.ofs < DICT && !y.inf(m.d, w).InfOpen?
    ensures var r := Loop(tn, m, w, starved, room, MzFinish); r.mz == MzOk ==> |r.out| == room || r.next.last == TDone
    decreases room
  {
    hide TinflKeeps, Loop, Decode, TStepKeeps;
    assert w + [] == w;
    DecodedMore(tn, y, m, w, [], MzFinish);
    var t := Decode(tn, m.d, w, DICT - m.ofs, false);
    assert w[t.used..] + [] == w[t.used..];
    if Again(t, w, room, MzFinish) {
      LoopGoesRound(tn, m, t, w, starved, room, MzFinish);
      FinishFillsRoom(tn, y, Drained(m, t, |t.out|), w[t.used..], starved, room - |t.out|);
    } else {
      FinishStops(tn, y, m, w, starved, room);
    }
  }

  /** So with more room than there is output, a stream cut short fails. */
  lemma CutFails<D(!new)>(tn: Tinfl<D>, y: TinflSem<D>, m: Mz<D>, w: seq<byte>, room: nat)
    requires TinflKeeps(tn, y) && Sound(y, m, true) && m.dict == []
    requires y.inf(m.d, w).InfCut? && |y.inf(m.d, w).out| < room
    ensures MzStep(tn, m, w, room, MzFinish).mz == MzError(ErrInvalidData)
  {
    hide Loop, Decode, TinflKeeps;
    assert w + [] == w;
    var m1 := m.(first := false, flushed := true);
    LoopIsStep(tn, y, m1, w, [], w == [], room, MzFinish);
    FinishFillsRoom(tn, y, m1, w, w == [], room);
  }
}
