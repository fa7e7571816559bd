/** FINISH is for good, to the DEFLATE decoders: mz_inflate() answers any other
    flush with MZ_STREAM_ERROR once it has been told MZ_FINISH, and the codec
    reports that as invalid data, however good the stream. */
module DeflateFinish {
  import opened Zu
  import opened Codecs
  import opened Driver
  import opened Inflate
  import opened MzInflate
  import opened DeflateDecoder
  import opened GzipRoundTrip
  import opened DeflateLimits
  import opened DeflateCuts
  import S = StoredBlocks

  /** Whatever the stream, and whatever waits in the dictionary. */
  lemma LateIsRefused<D>(tn: Tinfl<D>, d: State<Mz<D>>, w: seq<byte>, room: nat, f: Flush)
    requires d.place == Body && d.e.flushed && f != Finish
    ensures var r := Process(MzEngine(tn), d, w, room, f); r.status == ErrInvalidData && r.used == 0 && r.out == []
  {
    hide Loop, Decode, ChecksumUpdate;
  }

  /** Exactly: over a run without limits of a stream that is complete, the next
      call calls it invalid if and only if it says something else than FINISH
      while the engine is in the body and has been told MZ_FINISH. */
  lemma RefusedExactlyIfLate<D(!new)>(tn: Tinfl<D>, y: TinflSem<D>, wrap: Wrap, opts: DecOpts,
                                      s: seq<byte>, slots: seq<Slot>, slot: Slot)
    requires TinflKeeps(tn, y) && InWindow(DecoderCodec(MzEngine(tn), wrap)) && Minds(MzEngine(tn), wrap, opts, s, slots)
    requires Ceiling(opts) == None && opts.maxRatio == 0
    requires WholeDecode(MzEngine(tn), MzSem(y), wrap, opts.concat, s).Complete?
    requires var before := Decoding(MzEngine(tn), wrap, opts, s, slots);
             before.status.IsProgress() && (slot.flush == Finish ==> |s| - before.used <= CLAMP)
    ensures var before := Decoding(MzEngine(tn), wrap, opts, s, slots);
            var r := Offer(DecoderCodec(MzEngine(tn), wrap), before.d, s[before.used..], slot);
            r.status == ErrInvalidData <==> before.d.s.place == Body && before.d.s.e.flushed && slot.flush != Finish
  {
    hide *;
    var g, x := MzEngine(tn), MzSem(y);
    MzKeeps(tn, y);
    var before := Decoding(g, wrap, opts, s, slots);
    var rest := s[before.used..];
    WhereTheRunIs(g, x, wrap, opts, s, slots);
    LateShows(y, before.d.s);
    if before.d.s.place == Body && before.d.s.e.flushed && slot.flush != Finish {
      LateOffer(tn, wrap, before.d, rest, slot);
    } else {
      NotLateOffer(g, x, wrap, opts, s, before, slot);
    }
  }

  lemma LateShows<D>(y: TinflSem<D>, d: State<Mz<D>>)
    ensures Late(MzSem(y), d) <==> d.place == Body && d.e.flushed
  {
  }

  lemma LateOffer<D(!new)>(tn: Tinfl<D>, wrap: Wrap, d: Handle<State<Mz<D>>>, rest: seq<byte>, slot: Slot)
    requires InWindow(DecoderCodec(MzEngine(tn), wrap)) && !d.finished && Ceiling(d.opts) == None && d.opts.maxRatio == 0
    requires d.s.place == Body && d.s.e.flushed && slot.flush != Finish
    ensures Offer(DecoderCodec(MzEngine(tn), wrap), d, rest, slot).status == ErrInvalidData
  {
    hide Process, InWindow;
    LateIsRefused(tn, d.s, rest[..Offered(slot, |rest|)], slot.room, slot.flush);
  }

  /** A call the engine may be asked goes on with the stream, or ends it well. */
  lemma NotLateOffer<E(!new)>(g: Engine<E>, x: EngineSem<E>, wrap: Wrap, opts: DecOpts, s: seq<byte>,
                              before: RunResult<State<E>>, slot: Slot)
    requires EngineKeeps(g, x) && InWindow(DecoderCodec(g, wrap)) && before.used <= |s|
    requires Ceiling(opts) == None && opts.maxRatio == 0 && before.d.opts == opts
    requires var o := WholeDecode(g, x, wrap, opts.concat, s);
             o.Complete? && o == Prepend(before.out, before.used, Rest(g, x, before.d.s, s[before.used..]))
    requires Inv(g, x, wrap, opts.concat, opts.reject, before.d.s) && !before.d.finished
    requires Counts(before.d, |before.out|, before.used)
    requires (Late(x, before.d.s) ==> slot.flush == Finish) && (slot.flush == Finish ==> |s| - before.used <= CLAMP)
    ensures Offer(DecoderCodec(g, wrap), before.d, s[before.used..], slot).status != ErrInvalidData
  {
    hide EngineKeeps, InWindow, WholeDecode, Process, Rest, Inv, Keeps, Offer, EndsWell;
    var c, sem, pol := DecoderCodec(g, wrap), DecoderSem(g, x, wrap, opts.concat, opts.reject), DecoderPolicy(wrap, opts.concat, opts.reject);
    var o, p := WholeDecode(g, x, wrap, opts.concat, s), Progress(before.out, before.used, Late(x, before.d.s), 0);
    DecoderKeeps(g, x, wrap, opts.concat, opts.reject);
    OneSlot(c, sem, pol, o, before.d, p, s[before.used..], slot);
    var r := Offer(c, before.d, s[before.used..], slot);
    if !r.status.IsProgress() {
      var q := Advance(p, r, slot.flush);
      EndsPlainly(o, opts, pol, r.status, q.done, q.used);
    }
  }

  // ---- And at one input ------------------------------------------------------------------

  /** The decoder that was told FINISH at once, with room for one byte of two. */
  function OneDelivered(b: byte): (d: State<Mz<S.St>>) {
    NewRaw().(e := Mz(S.Finished, [b], 1, TDone, true, false), called := true)
  }

  lemma StepWhole(a: byte, b: byte)
    ensures S.Step(S.Head([]), S.Store([a, b]), DICT, true) == TTurn(S.Finished, 7, [a, b], TDone)
  {
    StepHead(2, true, [a, b], DICT, true);
    StoreOfTwo(a, b);
    assert [a, b][1..] == [b] && [b][1..] == [];
    assert S.Step(S.Finished, [], DICT - 2, true) == TTurn(S.Finished, 0, [], TDone);
    assert S.Step(S.Copy(1, true), [b], DICT - 1, true) == TTurn(S.Finished, 1, [b], TDone);
  }

  lemma StoreOfTwo(a: byte, b: byte)
    ensures S.Store([a, b]) == BlockHead(2, true) + [a, b] && |S.Store([a, b])| == 7
  {
    assert [a, b][..2] == [a, b];
  }

  lemma FinishWithOneByte(a: byte, b: byte)
    ensures Process(S.StoredEngine, NewRaw(), S.Store([a, b]), 1, Finish) == Reply(OneDelivered(b), 7, [a], NeedOutput)
  {
    StepWhole(a, b);
    StoreOfTwo(a, b);
    hide S.Step, S.Store;
    var z, none: seq<byte> := S.Store([a, b]), [];
    assert z[..Clamp(7)] == z && z[7..] == none && none[..Clamp(0)] == none && [a, b][..1] == [a] && [a, b][1..] == [b];
    var i := OneTurn(S.StoredEngine, NewRaw(), z, 1, Finish);
    assert i == Go(OneDelivered(b).(e := Mz(S.Finished, [b], 1, TDone, false, false)), 7, [a]);
    DoneWaits(b);
  }

  lemma DoneWaits(b: byte)
    ensures Process(S.StoredEngine, OneDelivered(b).(e := Mz(S.Finished, [b], 1, TDone, false, false)), [], 0, Finish) ==
            Reply(OneDelivered(b), 0, [], NeedOutput)
  {
    var none: seq<byte> := [];
    assert none[..Clamp(0)] == none && [b][..0] == none && [b][0..] == [b];
  }

  lemma DoneDrains(b: byte)
    ensures var r := Process(S.StoredEngine, OneDelivered(b), [], 1, Finish); r.status == StreamEnd && r.used == 0 && r.out == [b]
  {
    var none: seq<byte> := [];
    assert none[..Clamp(0)] == none && [b][..1] == [b] && [b][1..] == none;
  }

  /** A good stream of two bytes, FINISH said at once with room for one: said
      again it delivers the other and ends; RUN in its place is refused. */
  lemma RunAfterFinishRefuses(a: byte, b: byte)
    ensures InWindow(DecoderCodec(S.StoredEngine, Raw))
    ensures var z, first := S.Store([a, b]), Slot(0, 1, Finish);
            var kept, dropped := Decoding(S.StoredEngine, Raw, Unlimited(0), z, [first, first]),
                                 Decoding(S.StoredEngine, Raw, Unlimited(0), z, [first, Slot(0, 1, Run)]);
            && WholeDecode(S.StoredEngine, S.StoredSem, Raw, false, z) == Complete([a, b], |z|, [])
            && kept.status == StreamEnd && kept.out == [a, b] && kept.used == |z|
            && dropped.status == ErrInvalidData && dropped.out == [a]
  {
    DecoderInWindow(S.StoredEngine, Raw);
    StoreDecodes([a, b]);
    FinishWithOneByte(a, b);
    DoneDrains(b);
    LateIsRefused(S.StoredTinfl, OneDelivered(b), [], 1, Run);
    TwoCallsAre(a, b);
  }

  lemma StoreDecodes(data: seq<byte>)
    ensures WholeDecode(S.StoredEngine, S.StoredSem, Raw, false, S.Store(data)) == Complete(data, |S.Store(data)|, [])
  {
    S.StoreInflates(data, []);
    hide S.Store, S.Residual;
    var z := S.Store(data);
    assert z + [] == z && z[|z|..] == [];
    PrependInfNothing(S.Residual(S.Head([]), z));
  }

  lemma TwoCallsAre(a: byte, b: byte)
    requires InWindow(DecoderCodec(S.StoredEngine, Raw))
    requires Process(S.StoredEngine, NewRaw(), S.Store([a, b]), 1, Finish) == Reply(OneDelivered(b), 7, [a], NeedOutput)
    requires var r := Process(S.StoredEngine, OneDelivered(b), [], 1, Finish); r.status == StreamEnd && r.used == 0 && r.out == [b]
    requires var r := Process(S.StoredEngine, OneDelivered(b), [], 1, Run); r.status == ErrInvalidData && r.used == 0 && r.out == []
    ensures var z, first := S.Store([a, b]), Slot(0, 1, Finish);
            var kept, dropped := Decoding(S.StoredEngine, Raw, Unlimited(0), z, [first, first]),
                                 Decoding(S.StoredEngine, Raw, Unlimited(0), z, [first, Slot(0, 1, Run)]);
            && kept.status == StreamEnd && kept.out == [a, b] && kept.used == |z|
            && dropped.status == ErrInvalidData && dropped.out == [a]
  {
    hide InWindow, S.Store, OneDelivered, Offer, RunAll;
    var c, d, z := DecoderCodec(S.StoredEngine, Raw), Driver.Fresh(NewRaw(), Unlimited(0)), S.Store([a, b]);
    var first, run := Slot(0, 1, Finish), Slot(0, 1, Run);
    StoreOfTwo(a, b);
    assert z[7..] == [];
    PlainOffer(d, z, first);
    var r := Offer(c, d, z, first);
    PlainOffer(r.next, [], first);
    PlainOffer(r.next, [], run);
    TwoSlots(c, d, z, first, first);
    TwoSlots(c, d, z, first, run);
  }

  /** Without limits a call is the codec's. */
  lemma PlainOffer(d: Handle<State<Mz<S.St>>>, rest: seq<byte>, slot: Slot)
    requires InWindow(DecoderCodec(S.StoredEngine, Raw)) && !d.finished && d.opts == Unlimited(0)
    requires rest == [] || slot.flush == Finish
    ensures var r, q := Offer(DecoderCodec(S.StoredEngine, Raw), d, rest, slot), Process(S.StoredEngine, d.s, rest, slot.room, slot.flush);
            && r.used == q.used && r.out == q.out && r.next.s == q.next && r.next.opts == d.opts
            && (q.status != StreamEnd ==> r.status == q.status && !r.next.finished)
            && (q.status == StreamEnd && q.used == |rest| ==> r.status == StreamEnd)
  {
    hide Process, InWindow;
    assert rest[..Offered(slot, |rest|)] == rest;
  }
}
