/** DEFLATE bodies cut short. mz_inflate() drops what it has decoded and has no
    room for when it fails, and it fails when FINISH is said of a cut body: how
    much of a cut body is delivered is a matter of the last call's room. */
module DeflateCuts {
  import opened Zu
  import opened Codecs
  import opened Driver
  import opened Checksum
  import opened Inflate
  import opened MzInflate
  import opened DeflateDecoder
  import opened GzipRoundTrip
  import opened DeflateLimits
  import S = StoredBlocks

  // ---- What a FINISH call delivers of a cut body -------------------------------------------

  /** A call that says FINISH of a body cut after `out`: it fails or fills its
      room; it does not fill its room with less than `out`; and if it fails
      everything is delivered exactly when there is room for it. */
  predicate CutEnd(out: seq<byte>, st: Status, done: seq<byte>, room: nat) {
    && done <= out
    && (st == ErrInvalidData || (st == NeedOutput && |done| == room))
    && (st == ErrInvalidData ==> (done == out <==> |out| <= room))
    && (|out| < room ==> st == ErrInvalidData)
  }

  /** An erring turn, or the last one, after one that wrote `p`. */
  lemma CutEndLater(p: seq<byte>, out: seq<byte>, st: Status, done: seq<byte>, room: nat)
    requires |p| <= room && CutEnd(out, st, done, room - |p|)
    ensures CutEnd(p + out, st, p + done, room)
  {
    assert done == out ==> p + done == p + out;
    assert (p + out)[..|p + done|] == p + out[..|done|];
  }

  /** A turn that answers: it failed with what it had room for, or there was
      neither input nor output left, or no room. */
  lemma CutBodyStops<E>(out: seq<byte>, t: Turn<E>, room: nat)
    requires t.mz.MzError? ==> t.out == Given(out, room)
    ensures t.mz.MzError? ==> CutEnd(out, ErrInvalidData, t.out, room)
    ensures room == 0 ==> CutEnd(out, NeedOutput, [], room)
    ensures out == [] ==> CutEnd(out, ErrInvalidData, [], room)
  {
  }

  /** A turn either goes on with the body or answers. */
  lemma CutBodyTurn<E(!new)>(g: Engine<E>, x: EngineSem<E>, d: State<E>, w: seq<byte>, room: nat)
    requires EngineKeeps(g, x) && Inv(g, x, d.wrap, d.concat, d.reject, d) && d.place == Body
    requires x.inf(d.e, w).InfCut? && |w| <= CLAMP && room <= CLAMP
    ensures match BodyTurn(g, d, w, room, Finish)
            case Go(d1, used, out) =>
              && used <= |w| && |out| <= room && used + |out| > 0
              && Inv(g, x, d1.wrap, d1.concat, d1.reject, d1) && d1.place == Body
              && x.inf(d1.e, w[used..]).InfCut? && x.inf(d.e, w).out == out + x.inf(d1.e, w[used..]).out
            case Stop(r) => CutEnd(x.inf(d.e, w).out, r.status, r.out, room)
  {
    assert w + [] == w;
    BodyRest(g, x, d, w);
    BodyAsked(g, x, d, w, [], room, Finish);
    hide ChecksumUpdate, Rest, AskBody, EngineKeeps, CutEnd, Inv, Inflated;
    var t := AskBody(g, d, w, room, Finish);
    InflatedInv(g, x, d, t);
    assert w[0..] == w;
    CutBodyStops(x.inf(d.e, w).out, t, room);
  }

  lemma InBody<E>(g: Engine<E>, d: State<E>, w: seq<byte>, room: nat)
    requires d.place == Body
    ensures var i := BodyTurn(g, d, w, room, Finish);
            && (i.Go? ==> i.used <= |w| && |i.out| <= room)
            && var r := Process(g, d, w, room, Finish);
               if i.Stop? then r == i.reply
               else var n := Process(g, i.next, w[i.used..], room - |i.out|, Finish); r.status == n.status && r.out == i.out + n.out
  {
    hide BodyTurn;
    ProcessTurns(g, d, w, room, Finish);
  }

  /** The call. The engine sees room of 31 bits, hence the bound on it. */
  lemma {:induction false} CutBodyCall<E(!new)>(g: Engine<E>, x: EngineSem<E>, d: State<E>, w: seq<byte>, room: nat)
    requires EngineKeeps(g, x) && Inv(g, x, d.wrap, d.concat, d.reject, d) && d.place == Body
    requires x.inf(d.e, w).InfCut? && |w| <= CLAMP && room <= CLAMP
    ensures var r := Process(g, d, w, room, Finish);
            CutEnd(x.inf(d.e, w).out, r.status, r.out, room)
    decreases |w| + room
  {
    hide *;
    InBody(g, d, w, room);
    CutBodyTurn(g, x, d, w, room);
    var i := BodyTurn(g, d, w, room, Finish);
    if i.Go? {
      var v := w[i.used..];
      CutBodyCall(g, x, i.next, v, room - |i.out|);
      var r := Process(g, i.next, v, room - |i.out|, Finish);
      CutEndLater(i.out, x.inf(i.next.e, v).out, r.status, r.out, room);
    }
  }

  /** Over a run without limits: after any calls that have led into a body that
      is cut short, a call that says FINISH delivers all there is of it, or
      fails with all delivered, exactly when what had been delivered and the
      room of that one call suffice. */
  lemma CutRunDelivers<E(!new)>(g: Engine<E>, x: EngineSem<E>, wrap: Wrap, opts: DecOpts, s: seq<byte>, slots: seq<Slot>, room: nat)
    requires EngineKeeps(g, x) && InWindow(DecoderCodec(g, wrap)) && Minds(g, wrap, opts, s, slots)
    requires Ceiling(opts) == None && opts.maxRatio == 0 && !WholeDecode(g, x, wrap, opts.concat, s).Open?
    requires Decoding(g, wrap, opts, s, slots).status.IsProgress() && room <= CLAMP
    requires var before := Decoding(g, wrap, opts, s, slots);
             var d, rest := before.d.s, s[before.used..];
             d.place == Body && x.inf(d.e, rest).InfCut? && |rest| <= CLAMP
    ensures var before := Decoding(g, wrap, opts, s, slots);
            var o, r := WholeDecode(g, x, wrap, opts.concat, s), Offer(DecoderCodec(g, wrap), before.d, s[before.used..], Slot(0, room, Finish));
            && o.Corrupt? && before.out + r.out <= o.out
            && (r.status == ErrInvalidData || (r.status == NeedOutput && |r.out| == room))
            && (r.status == ErrInvalidData ==> (before.out + r.out == o.out <==> |o.out| <= |before.out| + room))
            && (|o.out| < |before.out| + room ==> r.status == ErrInvalidData)
  {
    var before := Decoding(g, wrap, opts, s, slots);
    var d, rest := before.d.s, s[before.used..];
    var o := WholeDecode(g, x, wrap, opts.concat, s);
    hide Counts, Process, Offer, EngineKeeps, InWindow, Decoding, Minds, WholeDecode, Rest, Inv;
    WhereTheRunIs(g, x, wrap, opts, s, slots);
    BodyRest(g, x, d, rest);
    var i := x.inf(d.e, rest);
    CutBodyCall(g, x, d, rest, room);
    FinishOffer(g, wrap, before.d, rest, room);
    var r := Process(g, d, rest, room, Finish);
    CutEndLater(before.out, i.out, r.status, r.out, |before.out| + room);
    assert before.out + r.out == before.out + i.out <==> r.out == i.out by { PrefixCancels(before.out, r.out, i.out); }
  }

  /** Without limits a call that does not end the stream answers as the codec
      does. */
  lemma FinishOffer<E(!new)>(g: Engine<E>, wrap: Wrap, d: Handle<State<E>>, rest: seq<byte>, room: nat)
    requires InWindow(DecoderCodec(g, wrap)) && !d.finished && Ceiling(d.opts) == None && d.opts.maxRatio == 0
    ensures var r, q := Offer(DecoderCodec(g, wrap), d, rest, Slot(0, room, Finish)), Process(g, d.s, rest, room, Finish);
            q.status != StreamEnd ==> r.status == q.status && r.out == q.out
  {
    hide Process, InWindow;
    assert rest[..|rest|] == rest;
  }

  lemma PrefixCancels(p: seq<byte>, a: seq<byte>, b: seq<byte>)
    ensures p + a == p + b <==> a == b
  {
    assert (p + a)[|p|..] == a && (p + b)[|p|..] == b;
  }

  /** A run in progress is where its cursors say. */
  lemma WhereTheRunIs<E(!new)>(g: Engine<E>, x: EngineSem<E>, wrap: Wrap, opts: DecOpts, s: seq<byte>, slots: seq<Slot>)
    requires EngineKeeps(g, x) && InWindow(DecoderCodec(g, wrap)) && Minds(g, wrap, opts, s, slots)
    requires !WholeDecode(g, x, wrap, opts.concat, s).Open? && Decoding(g, wrap, opts, s, slots).status.IsProgress()
    ensures var r := Decoding(g, wrap, opts, s, slots);
            && Inv(g, x, wrap, opts.concat, opts.reject, r.d.s) && !r.d.finished && r.d.opts == opts
            && Counts(r.d, |r.out|, r.used)
            && WholeDecode(g, x, wrap, opts.concat, s) == Prepend(r.out, r.used, Rest(g, x, r.d.s, s[r.used..]))
  {
    hide EngineKeeps, Keeps, InWindow, WholeDecode, Rest, Inv, EndsWell, RunAll, Driver.Proper, Late;
    DecoderKeeps(g, x, wrap, opts.concat, opts.reject);
    WholeDecodeIsRest(g, x, wrap, opts.concat, opts.reject, s);
    FreshRunVerdict(DecoderCodec(g, wrap), DecoderSem(g, x, wrap, opts.concat, opts.reject),
                    DecoderPolicy(wrap, opts.concat, opts.reject),
                    DeflateDecoder.Fresh(g, wrap, opts.concat, opts.reject), opts, s, slots);
  }

  // ---- And at one input ------------------------------------------------------------------

  /** A last block of three bytes, of which two are there. */
  function CutBlock(a: byte, b: byte): (z: seq<byte>) {
    BlockHead(3, true) + [a, b]
  }

  /** The raw decoder once it has read the block's header. */
  function InBlock(): (d: State<Mz<S.St>>) {
    NewRaw().(e := Mz(S.Copy(3, true), [], 0, TNeedInput, false, false), called := true)
  }

  lemma HeaderRun()
    ensures Process(S.StoredEngine, NewRaw(), BlockHead(3, true), 1, Run) == Reply(InBlock(), 5, [], NeedInput)
  {
    HeaderTaken();
    NothingTaken();
    hide BlockHead, OneTurn;
    var h: seq<byte> := BlockHead(3, true);
    assert h[5..] == [];
    assert Process(S.StoredEngine, NewRaw(), h, 1, Run) == Ahead([], 5, Process(S.StoredEngine, InBlock(), [], 1, Run));
  }

  lemma HeaderTaken()
    ensures OneTurn(S.StoredEngine, NewRaw(), BlockHead(3, true), 1, Run) == Go(InBlock(), 5, [])
  {
    hide S.Step, BlockHead;
    var h, none: seq<byte> := BlockHead(3, true), [];
    assert h + none == h && h[..Clamp(5)] == h;
    StepHead(3, true, none, DICT, true);
    StepNothing();
  }

  lemma NothingTaken()
    ensures Process(S.StoredEngine, InBlock(), [], 1, Run) == Reply(InBlock(), 0, [], NeedInput)
  {
    hide S.Step;
    var none: seq<byte> := [];
    assert none[..Clamp(0)] == none;
    StepNothing();
  }

  lemma StepNothing()
    ensures S.Step(S.Within(3, true), [], DICT, true) == TTurn(S.Copy(3, true), 0, [], TNeedInput)
    ensures S.Step(S.Copy(3, true), [], DICT, true) == TTurn(S.Copy(3, true), 0, [], TNeedInput)
  {
  }

  lemma StepTwo(a: byte, b: byte, more: bool)
    ensures S.Step(S.Copy(3, true), [a, b], DICT, more) ==
            TTurn(S.Copy(1, true), 2, [a, b], if more then TNeedInput else TFailed)
  {
    var one, none: seq<byte> := [b], [];
    assert [a, b][1..] == one && one[1..] == none;
    assert S.Step(S.Copy(1, true), none, DICT - 2, more) == TTurn(S.Copy(1, true), 0, [], if more then TNeedInput else TFailed);
    assert S.Step(S.Copy(2, true), one, DICT - 1, more) == TTurn(S.Copy(1, true), 1, [b], if more then TNeedInput else TFailed);
  }

  lemma FinishInBlock(a: byte, b: byte, room: nat)
    requires 1 <= room <= 2
    ensures var r := Process(S.StoredEngine, InBlock(), [a, b], room, Finish);
            r.status == ErrInvalidData && r.used == 2 && r.out == [a, b][..room]
  {
    StepTwo(a, b, false);
    hide S.Step;
    assert [a, b][..Clamp(2)] == [a, b];
  }

  /** FINISH at once is not said to the engine at its first call: what it could
      not deliver waits in its dictionary. */
  lemma FinishAtOnce(a: byte, b: byte)
    ensures var r := Process(S.StoredEngine, NewRaw(), CutBlock(a, b), 1, Finish);
            r.status == NeedOutput && r.used == 7 && r.out == [a]
  {
    StepHead(3, true, [a, b], DICT, true);
    StepTwo(a, b, true);
    hide S.Step, BlockHead;
    var z, none: seq<byte> := CutBlock(a, b), [];
    assert z[..Clamp(7)] == z && z[7..] == none && none[..Clamp(0)] == none && [a, b][..1] == [a] && [a, b][1..] == [b];
    var i := OneTurn(S.StoredEngine, NewRaw(), z, 1, Finish);
    assert i == Go(i.next, 7, [a]) && i.next.place == Body && i.next.called;
    assert i.next.e == Mz(S.Copy(1, true), [b], 1, TNeedInput, false, false);
    DictionaryWaits(i.next, b);
  }

  lemma DictionaryWaits(d: State<Mz<S.St>>, b: byte)
    requires d.place == Body && d.called && d.e == Mz(S.Copy(1, true), [b], 1, TNeedInput, false, false)
    ensures var r := Process(S.StoredEngine, d, [], 0, Finish); r.status == NeedOutput && r.used == 0 && r.out == []
  {
    var none: seq<byte> := [];
    assert none[..Clamp(0)] == none && [b][..0] == none;
  }

  function Unlimited(maxOutput: uint64): (o: DecOpts) {
    DecOpts(maxOutput, 0, true, false, false, 0)
  }

  /** A cut body: its header RUN, the rest with FINISH. With one byte of room
      one of two decoded bytes is lost, with two neither is. Under a
      max_output of one the end is INVALID_DATA, or the limit's if FINISH is
      said at once. */
  lemma CutBodyLosesBytes(a: byte, b: byte)
    ensures InWindow(DecoderCodec(S.StoredEngine, Raw))
    ensures var z, header := CutBlock(a, b), Slot(5, 1, Run);
            var one := Decoding(S.StoredEngine, Raw, Unlimited(0), z, [header, Slot(0, 1, Finish)]);
            var two := Decoding(S.StoredEngine, Raw, Unlimited(0), z, [header, Slot(0, 2, Finish)]);
            && one.status == two.status == ErrInvalidData && one.out == [a] && two.out == [a, b]
            && Decoding(S.StoredEngine, Raw, Unlimited(1), z, [header, Slot(0, 2, Finish)]).status == ErrInvalidData
            && Decoding(S.StoredEngine, Raw, Unlimited(1), z, [Slot(0, 2, Finish)]).status == ErrOutputLimit
  {
    DecoderInWindow(S.StoredEngine, Raw);
    TwoCalls(a, b, Unlimited(0), 1);
    TwoCalls(a, b, Unlimited(0), 2);
    TwoCalls(a, b, Unlimited(1), 2);
    OneCallOnly(a, b);
    hide InWindow, Decoding;
    assert [a, b][..1] == [a] && [a, b][..2] == [a, b];
  }

  lemma TwoCalls(a: byte, b: byte, opts: DecOpts, room: nat)
    requires InWindow(DecoderCodec(S.StoredEngine, Raw)) && 1 <= room <= 2
    requires opts == Unlimited(0) || opts == Unlimited(1)
    ensures var r := Decoding(S.StoredEngine, Raw, opts, CutBlock(a, b), [Slot(5, 1, Run), Slot(0, room, Finish)]);
            r.status == ErrInvalidData && r.out == [a, b][..if opts.maxOutput == 0 then room else 1]
  {
    var c, d, z, last := DecoderCodec(S.StoredEngine, Raw), Driver.Fresh(NewRaw(), opts), CutBlock(a, b), Slot(0, room, Finish);
    assert z[5..] == [a, b];
    var r := Offer(c, d, z, Slot(5, 1, Run));
    HeaderCall(a, b, opts);
    FinishCall(a, b, opts, room, r.next);
    hide Offer, InWindow, CutBlock;
    var q := Offer(c, r.next, [a, b], last);
    assert [Slot(5, 1, Run), last][1..] == [last];
    assert RunAll(c, r.next, [a, b], [last]) == RunResult(q.next, q.status, q.out, q.used);
  }

  lemma HeaderCall(a: byte, b: byte, opts: DecOpts)
    requires InWindow(DecoderCodec(S.StoredEngine, Raw))
    requires opts == Unlimited(0) || opts == Unlimited(1)
    ensures var r := Offer(DecoderCodec(S.StoredEngine, Raw), Driver.Fresh(NewRaw(), opts), CutBlock(a, b), Slot(5, 1, Run));
            && r.status == NeedInput && r.used == 5 && r.out == []
            && r.next.s == InBlock() && r.next.opts == opts && !r.next.finished && r.next.totalOut == 0
  {
    var z := CutBlock(a, b);
    assert z[..5] == BlockHead(3, true);
    HeaderRun();
    hide Process, InWindow, BlockHead;
  }

  lemma FinishCall(a: byte, b: byte, opts: DecOpts, room: nat, d: Handle<State<Mz<S.St>>>)
    requires InWindow(DecoderCodec(S.StoredEngine, Raw)) && 1 <= room <= 2
    requires opts == Unlimited(0) || opts == Unlimited(1)
    requires d.s == InBlock() && d.opts == opts && !d.finished && d.totalOut == 0
    ensures var r := Offer(DecoderCodec(S.StoredEngine, Raw), d, [a, b], Slot(0, room, Finish));
            r.status == ErrInvalidData && r.out == [a, b][..if opts.maxOutput == 0 then room else 1]
  {
    hide Process, InWindow, InBlock;
    assert [a, b][..2] == [a, b];
    FinishInBlock(a, b, 1);
    FinishInBlock(a, b, room);
  }

  lemma OneCallOnly(a: byte, b: byte)
    requires InWindow(DecoderCodec(S.StoredEngine, Raw))
    ensures Decoding(S.StoredEngine, Raw, Unlimited(1), CutBlock(a, b), [Slot(0, 2, Finish)]).status == ErrOutputLimit
  {
    var z := CutBlock(a, b);
    assert z[..7] == z;
    FinishAtOnce(a, b);
    hide Process, InWindow, BlockHead;
  }

  // ---- FINISH with too much left -----------------------------------------------------------

  /** The raw decoder once it has been called, with nothing to go on. */
  function Called(): (d: State<Mz<S.St>>) {
    NewRaw().(e := Mz(S.Head([]), [], 0, TNeedInput, false, false), called := true)
  }

  lemma EmptyRun(room: nat)
    requires room > 0
    ensures Process(S.StoredEngine, NewRaw(), [], room, Run) == Reply(Called(), 0, [], NeedInput)
  {
    var none: seq<byte> := [];
    assert none[..Clamp(0)] == none;
    assert S.Step(S.Head([]), none, DICT, true) == TTurn(S.Head([]), 0, none, TNeedInput);
  }

  lemma LongFinish(z: seq<byte>, room: nat)
    requires |z| > CLAMP && room >= CLAMP
    requires var i := S.Residual(S.Head([]), z[..CLAMP]); i.InfCut? && |i.out| < CLAMP
    ensures Process(S.StoredEngine, Called(), z, room, Finish).status == ErrInvalidData
  {
    S.StoredTinflKeeps();
    CutFails(S.StoredTinfl, S.StoredTinflSem, Called().e, z[..CLAMP], CLAMP);
    hide MzStep, TinflKeeps, S.Residual;
  }

  /** The 2^31 - 1 that the decoder asks for is no artefact either. The window
      is offered in 31 bits with MZ_FINISH, as if that were all: this complete
      stream, longer than that, is refused by a decoder that has been called
      before, if it has the room to come to the end of what it is shown. */
  lemma LongInputIsRefused(data: seq<byte>, room: nat)
    requires |data| > 0x7FFF_FFFF && room >= 0x7FFF_FFFF
    ensures InWindow(DecoderCodec(S.StoredEngine, Raw))
    ensures var z := S.Store(data);
            && WholeDecode(S.StoredEngine, S.StoredSem, Raw, false, z) == Complete(data, |z|, [])
            && Decoding(S.StoredEngine, Raw, Unlimited(0), z, [Slot(0, room, Run), Slot(0, room, Finish)]).status == ErrInvalidData
  {
    hide S.Store, S.Residual, Process, InWindow;
    DecoderInWindow(S.StoredEngine, Raw);
    var z := S.Store(data);
    S.StoreInflates(data, []);
    S.StoreIsLonger(data);
    assert z + [] == z && z[|z|..] == [] && z[..0] == [] && z[0..] == z && z[..|z|] == z;
    PrependInfNothing(S.Residual(S.Head([]), z));
    S.ResidualOfPrefix(S.Head([]), z, CLAMP);
    EmptyRun(room);
    LongFinish(z, room);
    var c, d, last := DecoderCodec(S.StoredEngine, Raw), Driver.Fresh(NewRaw(), Unlimited(0)), Slot(0, room, Finish);
    var r := Offer(c, d, z, Slot(0, room, Run));
    assert r.status == NeedInput && r.used == 0 && r.next.s == Called();
    var q := Offer(c, r.next, z, last);
    assert [Slot(0, room, Run), last][1..] == [last];
    assert RunAll(c, r.next, z, [last]) == RunResult(q.next, q.status, q.out, q.used);
  }
}
