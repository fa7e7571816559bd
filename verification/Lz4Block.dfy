/** lz4-block (src/codec_lz4.c): input gathered to FINISH, then one pass, in
    the caller's window when that is large enough and through a stage
    otherwise. */
module Lz4Block {
  import opened Zu
  import opened Codecs
  import opened Driver
  import opened EncodeDriver
  import opened Lz4Format
  import opened Lz4Search

  /** lz4_state, as far as the block codec uses it. The first `pos` bytes of
      the stage have been delivered. */
  datatype State = State(input: seq<byte>, stage: seq<byte>, pos: nat, done: bool,
                         level: int, maxOutput: uint64, hasExpected: bool, expected: uint64)

  function Pending(s: State): (p: seq<byte>) {
    if s.pos <= |s.stage| then s.stage[s.pos..] else []
  }

  /** zu_int_lz4_drain, and what its answer is turned into. */
  function Drain(s: State, used: nat, room: nat): (r: Reply<State>)
    ensures r.used == used && |r.out| <= room
  {
    var p := Pending(s);
    var n := Min(|p|, room);
    if n == |p| then Reply(s.(stage := [], pos := 0), used, p, StreamEnd)
    else Reply(s.(pos := s.pos + n), used, p[..n], NeedOutput)
  }

  /** zu_int_lz4b_gather: does the input so far still fit a block? */
  predicate Gathers(s: State, w: seq<byte>) {
    w == [] || |s.input| + |w| <= MAX_INPUT
  }

  /** The pass is over: its result goes to the stage and the input is freed. */
  function Staged(s: State, data: seq<byte>): (s': State) {
    s.(input := [], stage := data, pos := 0, done := true)
  }

  function Failed(s: State, used: nat, st: Status): (r: Reply<State>) {
    Reply(s, used, [], st)
  }

  // ---- Decoding -------------------------------------------------------------------------

  function FreshDec(o: DecOpts): (s: State) {
    State([], [], 0, false, 0, o.maxOutput, o.hasExpected, o.expected)
  }

  /** lz4b_decoder_reset. */
  function ResetDec(s: State, o: DecOpts): (s': State) {
    s.(input := [], stage := [], pos := 0, done := false,
       maxOutput := o.maxOutput, hasExpected := o.hasExpected, expected := o.expected)
  }

  /** lz4b_decoder_process. */
  function Decode(l: Lib, s: State, w: seq<byte>, room: nat, f: Flush): (r: Reply<State>)
    ensures r.used <= |w| && |r.out| <= room
  {
    if s.done then Drain(s, 0, room)
    else if f != Finish then
      if Gathers(s, w) then Reply(s.(input := s.input + w), |w|, [], NeedInput) else Failed(s, 0, ErrInvalidData)
    else if s.hasExpected then DecodeExpected(l, s, w, room)
    else if !Gathers(s, w) then Failed(s, 0, ErrInvalidData)
    else
      var s1 := s.(input := s.input + w);
      if s1.input == [] then Failed(s1, |w|, ErrInvalidData)
      else if |s1.input| > MAX_INPUT then Failed(s1, |w|, ErrInvalidData)
      else
        var r := Sought(l, s1.input, s.maxOutput);
        match r.found
        case None => Failed(s1, |w|, r.status)
        case Some(data) => Drain(Staged(s1, data), |w|, room)
  }

  /** The decoded size is known: exactly one pass, for exactly that size. */
  function DecodeExpected(l: Lib, s: State, w: seq<byte>, room: nat): (r: Reply<State>)
    ensures r.used <= |w| && |r.out| <= room
  {
    var want := s.expected;
    if s.maxOutput != 0 && want > s.maxOutput then Failed(s, 0, ErrOutputLimit)
    else if want > INT_MAX then Failed(s, 0, ErrInvalidData)
    else if s.input == [] && room >= want then
      if w == [] || |w| > MAX_INPUT then Failed(s, 0, ErrInvalidData)
      else
        var r := l.safe(w, want);
        if r == None || |r.value| != want then Failed(s, 0, ErrInvalidData)
        else Reply(s.(done := true), |w|, r.value, StreamEnd)
    else if !Gathers(s, w) then Failed(s, 0, ErrInvalidData)
    else
      var s1 := s.(input := s.input + w);
      if s1.input == [] then Failed(s1, |w|, ErrInvalidData)
      else
        var r := l.safe(s1.input, want);
        if r == None || |r.value| != want then Failed(s1, |w|, ErrInvalidData)
        else Drain(Staged(s1, r.value), |w|, room)
  }

  // ---- What a block amounts to -------------------------------------------------------------

  /** What the pass makes of all of `z`: the size known, one decode for exactly
      that; or searched for. */
  function Pass(l: Lib, s: State, z: seq<byte>): (r: Search)
    requires 0 < |z| <= MAX_INPUT
    ensures r.found == None ==> r.status.IsError()
  {
    if s.hasExpected then
      var r := if s.expected <= INT_MAX then l.safe(z, s.expected) else None;
      if r.Some? && |r.value| == s.expected then Search(r, Ok, 1, s.expected) else Search(None, ErrInvalidData, 1, 0)
    else Sought(l, z, s.maxOutput)
  }

  /** The outcome of decoding all of `z`: nothing here knows how it came. An
      oversize block under a contradictory limit may be refused for either. */
  function Outcome(l: Lib, s: State, z: seq<byte>, used: int): (o: Codecs.Outcome) {
    if s.hasExpected && s.maxOutput != 0 && s.expected > s.maxOutput then
      Corrupt([], if |z| > MAX_INPUT then {ErrOutputLimit, ErrInvalidData} else {ErrOutputLimit})
    else if z == [] || |z| > MAX_INPUT then Corrupt([], {ErrInvalidData})
    else
      var r := Pass(l, s, z);
      match r.found
      case None => Corrupt([], {r.status})
      case Some(data) => Complete(data, used, [])
  }

  function Rest(l: Lib, s: State, rest: seq<byte>): (o: Codecs.Outcome) {
    if s.done then Complete(Pending(s), 0, rest) else Outcome(l, s, s.input + rest, |rest|)
  }

  predicate Inv(o: DecOpts, s: State) {
    && s.maxOutput == o.maxOutput && s.hasExpected == o.hasExpected && s.expected == o.expected
    && s.pos <= |s.stage| && |s.input| <= MAX_INPUT
    && (if s.done then s.input == [] else s.stage == [])
  }

  function DecoderSem(l: Lib, o: DecOpts): (sem: Sem<State>) {
    Sem((s: State) => Inv(o, s), (s: State, rest: seq<byte>) => Rest(l, s, rest), (s: State) => false, (s: State) => 0)
  }

  /** The codec is honest. A block is all the input there is, so nothing
      comes after it. */
  function DecoderPolicy(reject: bool): (p: Policy) {
    Policy(reject, true, false, 0, NEVER_LONE, NOTHING_ASKED)
  }

  ghost predicate CallOk(l: Lib, o: DecOpts, s: State, r: Reply<State>, w: seq<byte>, tail: seq<byte>, room: nat, f: Flush) {
    ReplyOk(DecoderSem(l, o), DecoderPolicy(o.reject), Rest(l, s, w + tail), r, w, tail, room, f)
  }

  /** Draining `data` is a step of a stream that amounts to `data`. */
  lemma DrainOk(l: Lib, o: DecOpts, s: State, s1: State, w: seq<byte>, used: nat, room: nat, f: Flush, tail: seq<byte>)
    requires Inv(o, s1) && s1.done && used <= |w|
    requires Rest(l, s, w + tail).Complete? && Rest(l, s, w + tail).out == Pending(s1) && Rest(l, s, w + tail).used == used
    requires Rest(l, s, w + tail).after == w[used..] + tail
    ensures CallOk(l, o, s, Drain(s1, used, room), w, tail, room, f)
  {
    hide Drain, Outcome, Pending;
    DrainWrites(s1, [], room);
    var r := Drain(s1, used, room);
    assert [] + Drain(s1, 0, room).out == r.out && [] + Pending(s1) == Pending(s1);
    assert Pending(s1) == r.out + Pending(r.next);
    assert Rest(l, r.next, w[used..] + tail) == Complete(Pending(r.next), 0, w[used..] + tail);
  }

  /** One call is a step of the one pass over all of the input, or ends it as
      that ends; of the library nothing is used but its answers. */
  lemma DecodeOk(l: Lib, o: DecOpts, s: State, w: seq<byte>, tail: seq<byte>, room: nat, f: Flush)
    requires Inv(o, s) && (f == Finish ==> tail == [])
    ensures CallOk(l, o, s, Decode(l, s, w, room, f), w, tail, room, f)
  {
    hide Sought, CallOk;
    if s.done {
      assert w[0..] == w;
      DrainOk(l, o, s, s, w, 0, room, f, tail);
    } else if f != Finish {
      GatherOk(l, o, s, w, tail, room, f);
    } else {
      FinishDecOk(l, o, s, w, room);
    }
  }

  lemma GatherOk(l: Lib, o: DecOpts, s: State, w: seq<byte>, tail: seq<byte>, room: nat, f: Flush)
    requires Inv(o, s) && !s.done && f != Finish
    ensures CallOk(l, o, s, Decode(l, s, w, room, f), w, tail, room, f)
  {
    hide Sought;
    assert s.input + w + tail == s.input + (w + tail);
    assert w[|w|..] + tail == tail;
    OutcomeEnds(l, s, s.input + (w + tail), |w + tail|);
  }

  lemma FinishDecOk(l: Lib, o: DecOpts, s: State, w: seq<byte>, room: nat)
    requires Inv(o, s) && !s.done
    ensures CallOk(l, o, s, Decode(l, s, w, room, Finish), w, [], room, Finish)
  {
    hide Sought, CallOk, Drain;
    var z := s.input + w;
    assert w + [] == w && (s.input == [] ==> z == w);
    if 0 < |z| <= MAX_INPUT && Pass(l, s, z).found.Some? && !(s.hasExpected && s.maxOutput != 0 && s.expected > s.maxOutput) {
      if s.hasExpected && s.input == [] && room >= s.expected {
        DirectOk(l, o, s, w, room);
      } else {
        assert w[|w|..] + [] == [];
        DrainOk(l, o, s, Staged(s.(input := z), Pass(l, s, z).found.value), w, |w|, room, Finish, []);
      }
    } else {
      RefusedOk(l, o, s, w, room);
    }
  }

  lemma DirectOk(l: Lib, o: DecOpts, s: State, w: seq<byte>, room: nat)
    requires Inv(o, s) && !s.done && s.hasExpected && s.input == [] && room >= s.expected
    requires 0 < |w| <= MAX_INPUT && Pass(l, s, w).found.Some? && !(s.maxOutput != 0 && s.expected > s.maxOutput)
    ensures CallOk(l, o, s, Decode(l, s, w, room, Finish), w, [], room, Finish)
  {
    assert s.input + (w + []) == w;
  }

  lemma RefusedOk(l: Lib, o: DecOpts, s: State, w: seq<byte>, room: nat)
    requires Inv(o, s) && !s.done
    requires var z := s.input + w;
             || (s.hasExpected && s.maxOutput != 0 && s.expected > s.maxOutput)
             || z == [] || |z| > MAX_INPUT || Pass(l, s, z).found == None
    ensures CallOk(l, o, s, Decode(l, s, w, room, Finish), w, [], room, Finish)
  {
    hide Sought, Drain;
    assert s.input + (w + []) == s.input + w && (s.input == [] ==> s.input + w == w);
  }

  function DecoderCodec(l: Lib): (c: Codec<State>) {
    Codec((o: DecOpts) => FreshDec(o),
          (s: State, w: seq<byte>, room: nat, f: Flush) => Decode(l, s, w, room, f),
          Some((s: State, o: DecOpts) => ResetDec(s, o)),
          false)
  }

  /** The block decoder is an honest codec, over any library at all. */
  lemma DecoderKeeps(l: Lib, o: DecOpts)
    ensures InWindow(DecoderCodec(l))
    ensures Keeps(DecoderCodec(l), DecoderSem(l, o), DecoderPolicy(o.reject))
    ensures Inv(o, FreshDec(o))
  {
    hide ReplyOk, Decode;
    var c, sem, pol := DecoderCodec(l), DecoderSem(l, o), DecoderPolicy(o.reject);
    forall s: State, w: seq<byte>, tail: seq<byte>, room: nat, f: Flush
      ensures StepOk(c, sem, pol, s, w, tail, room, f)
    {
      if sem.inv(s) && (f == Finish ==> tail == []) {
        DecodeOk(l, o, s, w, tail, room, f);
      }
    }
    forall s: State, w: seq<byte>, room: nat, f: Flush ensures Inside(c, s, w, room, f) { }
  }

  /** From any state of a decoder, after an error too, a reset is fresh. */
  lemma DecoderResetsClean(l: Lib)
    ensures ResetsClean(DecoderCodec(l), (s: State) => s.level == 0)
  {
    var c, own := DecoderCodec(l), (s: State) => s.level == 0;
    forall s: State, w: seq<byte>, room: nat, f: Flush ensures StaysOwn(c, own, s, w, room, f) {
      hide Sought;
    }
  }

  ghost function Decoding(l: Lib, opts: DecOpts, z: seq<byte>, slots: seq<Slot>): (r: RunResult<State>)
    requires InWindow(DecoderCodec(l))
  {
    RunAll(DecoderCodec(l), Driver.Fresh(FreshDec(opts), opts), z, slots)
  }

  /** Over a run: it comes to the outcome of one pass. */
  lemma BlockVerdict(l: Lib, opts: DecOpts, z: seq<byte>, slots: seq<Slot>)
    requires opts.maxRatio == 0
    requires forall i :: 0 <= i < |slots| ==> slots[i].flush != FlushNow
    ensures InWindow(DecoderCodec(l))
    ensures var o, r := Outcome(l, FreshDec(opts), z, |z|), Decoding(l, opts, z, slots);
            && Consistent(r.out, o)
            && (!r.status.IsProgress() ==>
                  if o.Corrupt? then r.out == [] && (r.status in o.statuses || (Ceiling(opts) == Some(0) && r.status == OverStatus(opts)))
                  else (opts.maxOutput == 0 || |o.out| <= opts.maxOutput) && (opts.hasExpected ==> |o.out| == opts.expected) ==>
                         r.status == StreamEnd && r.out == o.out && r.used == |z|)
  {
    hide Keeps, InWindow, Outcome, RunAll, EndsWell, RunTo, Driver.Proper;
    DecoderKeeps(l, opts);
    var s := FreshDec(opts);
    assert s.input + z == z;
    AnythingIsProper(DecoderCodec(l), Driver.Fresh(s, opts), START, z, slots);
    OutcomeEnds(l, s, z, |z|);
    FreshRunVerdict(DecoderCodec(l), DecoderSem(l, opts), DecoderPolicy(opts.reject), s, opts, z, slots);
    var r := Decoding(l, opts, z, slots);
    if !r.status.IsProgress() {
      EndsAsBlock(Rest(l, s, z), opts, r.status, r.out, r.used);
    }
  }

  lemma OutcomeEnds(l: Lib, s: State, z: seq<byte>, used: int)
    ensures var o := Outcome(l, s, z, used);
            if o.Corrupt? then o.out == [] else o.Complete? && o.used == used && o.after == []
  {
  }

  /** Over a run, whatever the block: what is delivered is what the block
      expands to, to its end or, in progress, up to a point. */
  lemma BlockIsExpanded(l: Lib, opts: DecOpts, z: seq<byte>, slots: seq<Slot>)
    requires LibKeeps(l) && opts.maxRatio == 0 && |z| <= MAX_INPUT
    requires forall i :: 0 <= i < |slots| ==> slots[i].flush != FlushNow
    ensures InWindow(DecoderCodec(l))
    ensures var r := Decoding(l, opts, z, slots);
            && (r.out == [] || (Expand(z, []).Some? && r.out <= Expand(z, []).value))
            && (r.status == StreamEnd ==> Expand(z, []) == Some(r.out) && r.used == |z|)
  {
    hide LibKeeps, InWindow, Sought, Decoding, Expand;
    BlockVerdict(l, opts, z, slots);
    var s := FreshDec(opts);
    if z != [] {
      PassIsSound(l, s, z);
    }
  }

  lemma PassIsSound(l: Lib, s: State, z: seq<byte>)
    requires LibKeeps(l) && 0 < |z| <= MAX_INPUT
    ensures var r := Pass(l, s, z);
            && (r.found.Some? ==> r.found == Expand(z, []) && r.status == Ok)
            && (r.found.Some? ==> if s.hasExpected then |r.found.value| == s.expected else s.maxOutput == 0 || |r.found.value| <= s.maxOutput)
  {
    hide Sought, Expand, WellEnded;
    SearchIsSound(l, z, s.maxOutput);
    if s.hasExpected && s.expected <= INT_MAX {
      assert DecodesSafely(l, z, s.expected);
    }
  }

  /** Over a run: a block that ends as it should, within the limits, comes out
      whole, in any windows, with its size known or not; one over max_output is
      refused for that. */
  lemma BlockInAnyWindows(l: Lib, opts: DecOpts, z: seq<byte>, slots: seq<Slot>)
    requires LibKeeps(l) && 0 < |z| <= MAX_INPUT && opts.maxRatio == 0
    requires WellEnded(z) && |Expand(z, []).value| <= INT_MAX
    requires forall i :: 0 <= i < |slots| ==> slots[i].flush != FlushNow
    ensures InWindow(DecoderCodec(l))
    ensures var d, r := Expand(z, []).value, Decoding(l, opts, z, slots);
            var fits, right := opts.maxOutput == 0 || |d| <= opts.maxOutput, opts.hasExpected ==> |d| == opts.expected;
            if r.status.IsProgress() then fits && right ==> r.out <= d
            else if fits && right then r.status == StreamEnd && r.out == d && r.used == |z|
            else if !fits && !opts.hasExpected then r.status == ErrOutputLimit
            else r.status == ErrInvalidData || r.status == ErrOutputLimit
  {
    assert Expand(z, []).Some?;
    hide LibKeeps, InWindow, Sought, Expand, Decoding, WellEnded;
    BlockVerdict(l, opts, z, slots);
    PassOfWellEnded(l, FreshDec(opts), z);
  }

  lemma PassOfWellEnded(l: Lib, s: State, z: seq<byte>)
    requires LibKeeps(l) && 0 < |z| <= MAX_INPUT && WellEnded(z) && |Expand(z, []).value| <= INT_MAX
    ensures var r, d := Pass(l, s, z), Expand(z, []);
            if if s.hasExpected then |d.value| == s.expected else s.maxOutput == 0 || |d.value| <= s.maxOutput then r.found == d
            else r.found == None && r.status == if s.hasExpected then ErrInvalidData else ErrOutputLimit
  {
    hide Sought, Expand, Spares;
    SearchIsExact(l, z, s.maxOutput);
    if s.hasExpected && s.expected <= INT_MAX {
      assert DecodesSafely(l, z, s.expected);
    }
  }

  /** Over a run, where that is not so: the same ten-byte block, unlimited,
      comes out; under a max_output of ten it is over the limit; and told that
      it is ten bytes long the decoder calls it invalid. */
  lemma TightBlock(a: byte, t: seq<byte>, opts: DecOpts, slots: seq<Slot>)
    requires |t| == 5 && opts.maxRatio == 0
    requires forall i :: 0 <= i < |slots| ==> slots[i].flush != FlushNow
    requires || (!opts.hasExpected && (opts.maxOutput == 0 || opts.maxOutput == 10))
             || (opts.hasExpected && opts.expected == 10 && opts.maxOutput == 0)
    ensures InWindow(DecoderCodec(StrictLib))
    ensures var r := Decoding(StrictLib, opts, Tight(a, t), slots);
            !r.status.IsProgress() ==>
              if opts.hasExpected then r.status == ErrInvalidData
              else if opts.maxOutput == 10 then r.status == ErrOutputLimit
              else r.status == StreamEnd && Some(r.out) == Expand(Tight(a, t), [])
  {
    hide InWindow, Sought, Expand, Decoding, Safe;
    TightIsNotFound(a, t);
    BlockVerdict(StrictLib, opts, Tight(a, t), slots);
  }

  lemma EndsAsBlock(o: Codecs.Outcome, opts: DecOpts, st: Status, done: seq<byte>, used: nat)
    requires EndsWell(o, opts, DecoderPolicy(opts.reject), st, done, used) && opts.maxRatio == 0
    ensures o.Corrupt? && o.out == [] ==>
              done == [] && (st in o.statuses || (Ceiling(opts) == Some(0) && st == OverStatus(opts)))
    ensures o.Complete? && o.after == [] && (opts.maxOutput == 0 || |o.out| <= opts.maxOutput)
            && (opts.hasExpected ==> |o.out| == opts.expected) ==>
              st == StreamEnd && done == o.out && used == o.used
  {
  }

  /** Where windows show: an oversize block whose expected size is over
      max_output is refused for its size if it is gathered in pieces, and for
      the limit if it comes all at once. */
  lemma OversizeUnderContradiction(l: Lib, o: DecOpts, z: seq<byte>, room: nat)
    requires |z| > MAX_INPUT && o.hasExpected && o.maxOutput != 0 && o.expected > o.maxOutput
    ensures Decode(l, FreshDec(o), z, room, Finish).status == ErrOutputLimit
    ensures Decode(l, FreshDec(o), z, room, Run).status == ErrInvalidData
  {
  }

  // ---- Encoding -------------------------------------------------------------------------

  function FreshEnc(level: int): (s: State) {
    State([], [], 0, false, level, 0, false, 0)
  }

  /** lz4b_encoder_reset: saying nothing keeps the level. */
  function ResetEnc(s: State, level: int): (s': State) {
    s.(input := [], stage := [], pos := 0, done := false, level := if level != LEVEL_DEFAULT then level else s.level)
  }

  /** Both resets, from gathering, draining or after an error. */
  lemma ResetIsFresh(s: State, o: DecOpts, level: int)
    ensures ResetDec(s, o) == FreshDec(o).(level := s.level)
    ensures ResetEnc(s, level) ==
            FreshEnc(if level != LEVEL_DEFAULT then level else s.level).(
              maxOutput := s.maxOutput, hasExpected := s.hasExpected, expected := s.expected)
  {
  }

  /** What the library writes for `x`; a result past the bound is failure. */
  function Compressed(l: Lib, s: State, x: seq<byte>): (z: seq<byte>)
    ensures |z| <= CompressBound(|x|)
  {
    var z := l.compress(Lz4Level(s.level), x);
    if |z| <= CompressBound(|x|) then z else []
  }

  /** lz4b_encoder_process. */
  function Encode(l: Lib, s: State, w: seq<byte>, room: nat, f: Flush): (r: Reply<State>)
    ensures r.used <= |w| && |r.out| <= room
  {
    if s.done then Drain(s, 0, room)
    else if f != Finish then
      if Gathers(s, w) then Reply(s.(input := s.input + w), |w|, [], NeedInput) else Failed(s, 0, ErrInvalidArgument)
    else if s.input == [] && |w| <= MAX_INPUT && room >= CompressBound(|w|) then
      var z := Compressed(l, s, w);
      if z == [] then Failed(s, 0, ErrInternal) else Reply(s.(done := true), |w|, z, StreamEnd)
    else if !Gathers(s, w) then Failed(s, 0, ErrInvalidArgument)
    else
      var s1 := s.(input := s.input + w);
      var z := Compressed(l, s, s1.input);
      if CompressBound(|s1.input|) == 0 then Failed(s1, |w|, ErrInvalidArgument)
      else if z == [] then Failed(s1, |w|, ErrInternal)
      else Drain(Staged(s1, z), |w|, room)
  }

  function EncoderCodec(l: Lib): (c: EncCodec<State>) {
    EncCodec((level: int) => FreshEnc(level),
             (s: State, w: seq<byte>, room: nat, f: Flush) => Encode(l, s, w, room, f), false,
             Some((s: State, level: int) => ResetEnc(s, level)), Levels(-65536, 12, 1))
  }

  /** The levels from liblz4's fastest to its best, and FLUSH is for streams. */
  lemma EncoderAdvertises(l: Lib, level: int)
    ensures LevelOk(EncoderCodec(l).levels, level) <==> level == LEVEL_DEFAULT || -65536 <= level <= 12
    ensures !EncoderCodec(l).canFlush && Lz4Level(LEVEL_DEFAULT) == 1
  {
  }

  /** Taken `x`, delivered `z`: what is delivered and what is staged make the
      block for `x`, and before the pass there is neither. */
  predicate Wrote(l: Lib, s: State, x: seq<byte>, z: seq<byte>) {
    && |x| <= MAX_INPUT && s.pos <= |s.stage|
    && if s.done then z + Pending(s) == Compressed(l, s, x) && s.input == []
       else s.input == x && z == [] && s.stage == []
  }

  function EncoderSem(l: Lib, level: int): (sem: EncSem<State>) {
    EncSem((s: State, x: seq<byte>, z: seq<byte>, rest: seq<byte>) =>
             Wrote(l, s, x, z) && s.level == level && (s.done ==> rest == []),
           (x: seq<byte>, z: seq<byte>) =>
             |x| <= MAX_INPUT && z == Compressed(l, FreshEnc(level), x))
  }

  ghost predicate EncCallOk(l: Lib, s: State, r: Reply<State>, x: seq<byte>, z: seq<byte>,
                            w: seq<byte>, tail: seq<byte>, room: nat, f: Flush) {
    EncReplyOk(EncoderSem(l, s.level), r, x, z, w, tail, room, f)
  }

  /** One call, direct or staged. */
  lemma EncodeOk(l: Lib, s: State, x: seq<byte>, z: seq<byte>, w: seq<byte>, tail: seq<byte>, room: nat, f: Flush)
    requires Wrote(l, s, x, z) && (s.done ==> w + tail == []) && (f == Finish ==> tail == [])
    ensures EncCallOk(l, s, Encode(l, s, w, room, f), x, z, w, tail, room, f)
  {
    hide Compressed, CompressBound, Drain, EncCallOk;
    assert z + [] == z;
    if s.done {
      assert x + w == x && w[0..] + tail == [];
      DrainEncOk(l, s, s, x, z, w, tail, room, f);
    } else if f == Finish {
      FinishOk(l, s, x, w, room);
    } else {
      GatherEncOk(l, s, x, z, w, tail, room, f);
    }
  }

  lemma GatherEncOk(l: Lib, s: State, x: seq<byte>, z: seq<byte>, w: seq<byte>, tail: seq<byte>, room: nat, f: Flush)
    requires Wrote(l, s, x, z) && !s.done && f != Finish
    ensures EncCallOk(l, s, Encode(l, s, w, room, f), x, z, w, tail, room, f)
  {
    hide Compressed;
    assert z + [] == z && (w == [] ==> x + w == x);
  }

  /** What a stage holds of the block for all of `x + w` goes out by parts. */
  lemma DrainEncOk(l: Lib, s: State, s1: State, x: seq<byte>, z: seq<byte>, w: seq<byte>, tail: seq<byte>, room: nat, f: Flush)
    requires Wrote(l, s1, x + w, z) && s1.done && s1.level == s.level && tail == []
    ensures EncCallOk(l, s, Drain(s1, |w|, room), x, z, w, tail, room, f)
  {
    hide Compressed, Drain;
    DrainWrites(s1, z, room);
    var r := Drain(s1, |w|, room);
    SameLevel(l, s1, r.next, x + w);
    SameLevel(l, s1, FreshEnc(s.level), x + w);
    assert w[..|w|] == w && w[|w|..] + tail == [] && z + r.out + [] == z + r.out;
  }

  /** Direct and staged, the pass makes the same block. */
  lemma FinishOk(l: Lib, s: State, x: seq<byte>, w: seq<byte>, room: nat)
    requires Wrote(l, s, x, []) && !s.done
    ensures EncCallOk(l, s, Encode(l, s, w, room, Finish), x, [], w, [], room, Finish)
  {
    hide Compressed, CompressBound, Drain;
    var y := s.input + w;
    assert s.input == [] ==> y == w;
    var b := Compressed(l, s, y);
    var s1 := Staged(s.(input := y), b);
    SameLevel(l, s, FreshEnc(s.level), y);
    SameLevel(l, s, s1, y);
    assert [] + b == b && Pending(s1) == b;
    if |y| <= MAX_INPUT {
      DrainEncOk(l, s, s1, x, [], w, [], room, Finish);
    }
  }

  /** The stage and what has left it are always the same bytes. */
  lemma DrainWrites(s: State, z: seq<byte>, room: nat)
    requires s.pos <= |s.stage|
    ensures var r := Drain(s, 0, room);
            && (forall u: nat :: Drain(s, u, room) == r.(used := u))
            && z + r.out + Pending(r.next) == z + Pending(s) && r.next.pos <= |r.next.stage|
            && r.next == s.(stage := r.next.stage, pos := r.next.pos)
            && (r.status == StreamEnd ==> Pending(r.next) == [])
            && (r.status == NeedOutput ==> |r.out| == room && Pending(r.next) != [])
            && (r.status == StreamEnd || r.status == NeedOutput)
  {
    var p, n := Pending(s), Min(|Pending(s)|, room);
    assert p == p[..n] + p[n..] && s.stage[s.pos..][n..] == s.stage[s.pos + n..];
    assert z + (p[..n] + p[n..]) == z + p[..n] + p[n..];
  }

  lemma EncoderInWindow(l: Lib)
    ensures EncInWindow(EncoderCodec(l))
  {
    hide Encode;
    forall s: State, w: seq<byte>, room: nat, f: Flush ensures EncInside(EncoderCodec(l), s, w, room, f) {
      var r := Encode(l, s, w, room, f);
    }
  }

  lemma EncoderKeeps(l: Lib, level: int)
    ensures EncInWindow(EncoderCodec(l)) && EncKeeps(EncoderCodec(l), EncoderSem(l, level))
    ensures EncoderSem(l, level).wrote(FreshEnc(level), [], [], [])
  {
    hide EncReplyOk, Encode, Wrote;
    EncoderInWindow(l);
    var c, sem := EncoderCodec(l), EncoderSem(l, level);
    forall s: State, x: seq<byte>, z: seq<byte>, w: seq<byte>, tail: seq<byte>, room: nat, f: Flush
      ensures EncStepOk(c, sem, s, x, z, w, tail, room, f)
    {
      if sem.wrote(s, x, z, w + tail) && (f == Finish ==> tail == []) {
        EncodeOk(l, s, x, z, w, tail, room, f);
      }
    }
    NothingWrote(l, level);
  }

  lemma NothingWrote(l: Lib, level: int)
    ensures Wrote(l, FreshEnc(level), [], [])
  {
  }

  lemma SameLevel(l: Lib, s: State, s': State, x: seq<byte>)
    requires s.level == s'.level
    ensures Compressed(l, s, x) == Compressed(l, s', x)
  {
  }

  // ---- A finished block ------------------------------------------------------------------

  /** Nothing of the decoder's options is set in an encoder. */
  predicate EncOwn(s: State) {
    s.maxOutput == 0 && !s.hasExpected && s.expected == 0
  }

  /** From any state of an encoder, after an error too, a reset is fresh at the
      level given, or else at the last. */
  lemma EncoderResetsClean(l: Lib)
    ensures EncResetsClean(EncoderCodec(l), (s: State) => EncOwn(s), (s: State) => s.level)
  {
    var c, own, at := EncoderCodec(l), (s: State) => EncOwn(s), (s: State) => s.level;
    hide Encode;
    forall s: State, w: seq<byte>, room: nat, f: Flush ensures EncStaysOwn(c, own, at, s, w, room, f) {
      EncodeStays(l, s, w, room, f);
    }
  }

  lemma EncodeStays(l: Lib, s: State, w: seq<byte>, room: nat, f: Flush)
    ensures var s' := Encode(l, s, w, room, f).next; (EncOwn(s) ==> EncOwn(s')) && s'.level == s.level
  {
    hide Compressed;
  }

  /** Inputs that a block can hold. */
  function SmallSem(l: Lib, level: int): (sem: EncSem<State>) {
    EncSem((s: State, x: seq<byte>, z: seq<byte>, rest: seq<byte>) =>
             EncoderSem(l, level).wrote(s, x, z, rest) && |x| + |rest| <= MAX_INPUT,
           EncoderSem(l, level).whole)
  }

  /** On those the encoder never fails, and writes no more than the bound. */
  lemma SmallKeeps(l: Lib, level: int)
    requires LibKeeps(l)
    ensures var c, sem := EncoderCodec(l), SmallSem(l, level); EncKeeps(c, sem) && NeverFails(c, sem)
    ensures forall p: seq<byte> :: |p| <= MAX_INPUT ==> Within(SmallSem(l, level), p, CompressBound(|p|))
  {
    hide LibKeeps, EncReplyOk, Encode, Wrote, CompressBound;
    var c, sem := EncoderCodec(l), SmallSem(l, level);
    forall s: State, x: seq<byte>, z: seq<byte>, w: seq<byte>, tail: seq<byte>, room: nat, f: Flush
      ensures EncStepOk(c, sem, s, x, z, w, tail, room, f) && CallSucceeds(c, sem, s, x, z, w, tail, room, f)
    {
      if sem.wrote(s, x, z, w + tail) && (f == Finish ==> tail == []) {
        EncodeOk(l, s, x, z, w, tail, room, f);
        SmallStays(l, level, s, x, z, w, tail, room, f);
        SmallSucceeds(l, s, x, z, w, tail, room, f);
      }
    }
    forall p: seq<byte> | |p| <= MAX_INPUT ensures Within(sem, p, CompressBound(|p|)) {
      forall s: State, x: seq<byte>, z: seq<byte>, rest: seq<byte> | sem.wrote(s, x, z, rest) && x + rest == p
        ensures |z| <= CompressBound(|p|)
      {
        WroteWithin(l, s, x, z, rest);
      }
    }
  }

  lemma SmallStays(l: Lib, level: int, s: State, x: seq<byte>, z: seq<byte>, w: seq<byte>, tail: seq<byte>, room: nat, f: Flush)
    requires |x| + |w + tail| <= MAX_INPUT && s.level == level
    requires EncCallOk(l, s, Encode(l, s, w, room, f), x, z, w, tail, room, f)
    ensures EncReplyOk(SmallSem(l, level), Encode(l, s, w, room, f), x, z, w, tail, room, f)
  {
    hide Wrote, Encode, Compressed;
  }

  lemma SmallSucceeds(l: Lib, s: State, x: seq<byte>, z: seq<byte>, w: seq<byte>, tail: seq<byte>, room: nat, f: Flush)
    requires LibKeeps(l) && Wrote(l, s, x, z) && |x| + |w + tail| <= MAX_INPUT
    ensures !Encode(l, s, w, room, f).status.IsError()
  {
    hide LibKeeps, Compressed, WellEnded, Expand;
    if !s.done && f == Finish {
      assert s.input == [] ==> s.input + w == w;
      CompressedDecodes(l, s, s.input + w);
    }
  }

  lemma WroteWithin(l: Lib, s: State, x: seq<byte>, z: seq<byte>, rest: seq<byte>)
    requires Wrote(l, s, x, z) && (s.done ==> rest == []) && |x| + |rest| <= MAX_INPUT
    ensures |z| <= CompressBound(|x + rest|)
  {
    if s.done {
      assert x + rest == x && |z| <= |z + Pending(s)|;
    }
  }

  /** Liveness: told to finish with more room in all than LZ4_compressBound,
      the encoder ends, with the block of the whole input. */
  lemma BlockEncodeEnds(l: Lib, level: int, x: seq<byte>, slots: seq<Slot>)
    requires EncInWindow(EncoderCodec(l)) && LibKeeps(l) && |x| <= 0x7E00_0000
    requires (forall i :: 0 <= i < |slots| ==> slots[i].flush == Finish) && Rooms(slots) > |x| + |x| / 255 + 16
    ensures var r := EncodeAll(EncoderCodec(l), EncHandle(FreshEnc(level), false), x, slots);
            r.status == StreamEnd && r.used == |x| && r.out == Compressed(l, FreshEnc(level), x)
  {
    assert CompressBound(|x|) == |x| + |x| / 255 + 16;
    hide LibKeeps, EncInWindow, EncKeeps, NeverFails, Within, Compressed, EncodeAll, Encode, CompressBound;
    var s, none: seq<byte> := FreshEnc(level), [];
    SmallKeeps(l, level);
    NothingWrote(l, level);
    assert none + x == x;
    EnoughRoomEnds(EncoderCodec(l), SmallSem(l, level), s, none, none, x, slots, CompressBound(|x|));
    var r := EncodeAll(EncoderCodec(l), EncHandle(s, false), x, slots);
    assert none + r.out == r.out;
  }

  /** Main theorem, round trip. What a finished encoder delivers, in any
      windows, the decoder reads back in any others, with the size known or
      not, exactly when the block is no longer than the decoder gathers. */
  lemma BlockRoundTrip(l: Lib, level: int, x: seq<byte>, there: seq<Slot>, opts: DecOpts, back: seq<Slot>)
    requires EncInWindow(EncoderCodec(l)) && LibKeeps(l) && opts.maxRatio == 0
    requires opts.maxOutput == 0 || |x| <= opts.maxOutput
    requires opts.hasExpected ==> opts.expected == |x|
    requires forall i :: 0 <= i < |back| ==> back[i].flush != FlushNow
    requires EncodeAll(EncoderCodec(l), EncHandle(FreshEnc(level), false), x, there).status == StreamEnd
    ensures InWindow(DecoderCodec(l))
    ensures var z := EncodeAll(EncoderCodec(l), EncHandle(FreshEnc(level), false), x, there).out;
            var r := Decoding(l, opts, z, back);
            && |z| <= CompressBound(|x|)
            && if r.status.IsProgress() then |z| <= MAX_INPUT ==> r.out <= x
               else if |z| <= MAX_INPUT then r.status == StreamEnd && r.out == x && r.used == |z|
               else r.out == [] && (r.status == ErrInvalidData || (Ceiling(opts) == Some(0) && r.status == OverStatus(opts)))
  {
    hide LibKeeps, EncInWindow, EncKeeps, Compressed, Decoding, EncodeAll, Encode, InWindow, Expand, WellEnded;
    var s, none: seq<byte> := FreshEnc(level), [];
    var z := EncodeAll(EncoderCodec(l), EncHandle(s, false), x, there).out;
    EncoderKeeps(l, level);
    EncodeAllWhole(EncoderCodec(l), EncoderSem(l, level), s, none, none, x, there);
    assert none + x == x && none + z == z;
    CompressedDecodes(l, s, x);
    if |z| <= MAX_INPUT {
      BlockInAnyWindows(l, opts, z, back);
    } else {
      BlockVerdict(l, opts, z, back);
    }
  }

  lemma CompressedDecodes(l: Lib, s: State, x: seq<byte>)
    requires LibKeeps(l) && |x| <= MAX_INPUT
    ensures var z := Compressed(l, s, x); z != [] && WellEnded(z) && Expand(z, []) == Some(x)
  {
    assert CompressesWell(l, Lz4Level(s.level), x);
    hide WellEnded, Expand;
  }

  /** The other side of that condition: the longest input the encoder takes,
      made of literals, makes a block the decoder never takes. */
  lemma LongestInputIsRefused(level: int, x: seq<byte>, o: DecOpts, room: nat)
    requires |x| == 0x7E00_0000 && !o.hasExpected
    ensures var r := Encode(StrictLib, FreshEnc(level), x, CompressBound(|x|), Finish);
            && r.status == StreamEnd && r.used == |x|
            && Decode(StrictLib, FreshDec(o), r.out, room, Finish).status == ErrInvalidData
  {
    StrictLibKeeps();
    assert CompressesWell(StrictLib, Lz4Level(level), x);
    hide WellEnded, Expand;
  }
}
