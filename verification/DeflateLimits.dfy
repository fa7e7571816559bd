/** The DEFLATE family under limits, and the one output size at which windows
    show. */
module DeflateLimits {
  import opened Zu
  import opened Codecs
  import opened Driver
  import opened Checksum
  import opened Inflate
  import opened MzInflate
  import opened DeflateDecoder
  import opened GzipRoundTrip
  import S = StoredBlocks

  /** How a stream ends under `opts`, given what the whole of it amounts to. */
  predicate Ends(wrap: Wrap, o: Outcome, opts: DecOpts, st: Status, done: seq<byte>) {
    if o.Open? then true
    else if o.Corrupt? then
      && done <= o.out
      && (st in o.statuses || (Ceiling(opts).Some? && |o.out| >= Ceiling(opts).value && st == OverStatus(opts)))
    else
      && (done == if Fits(opts, |o.out|) then o.out else o.out[..Ceiling(opts).value])
      && if !Fits(opts, |o.out|) then st == OverStatus(opts)
         else if Ceiling(opts) == Some(|o.out|) && st == OverStatus(opts) then true
         else if o.Cut? then st == o.status
         else if opts.hasExpected && |o.out| != opts.expected then
           st == ErrInvalidData || (st == ErrTrailing && opts.reject && opts.concat && wrap == Gzip && o.after == [0x1F])
         else if o.after == [] || !opts.reject then st == StreamEnd
         else if wrap == Gzip && opts.concat then st == ErrTrailing
         else st == StreamEnd || st == ErrTrailing
  }

  /** Under any limits, in any windows: what is delivered is the output, up to
      the ceiling; a stream over the ceiling is over it; a stream under it ends
      as if there were none. Of a stream that is wrong, or whose body is cut
      short, what is delivered is a prefix of what is good of it, and the
      ceiling's status is given only if there is as much of that. */
  lemma DecodeUnderLimits<E(!new)>(g: Engine<E>, x: EngineSem<E>, wrap: Wrap, opts: DecOpts, s: seq<byte>, slots: seq<Slot>)
    requires EngineKeeps(g, x) && InWindow(DecoderCodec(g, wrap)) && Minds(g, wrap, opts, s, slots) && opts.maxRatio == 0
    ensures var o, r := WholeDecode(g, x, wrap, opts.concat, s), Decoding(g, wrap, opts, s, slots);
            if r.status.IsProgress() then Consistent(r.out, o) else Ends(wrap, o, opts, r.status, r.out)
  {
    hide EngineKeeps, InWindow, WholeDecode, EndsWell, Ends, Decoding, Minds;
    var o, r := WholeDecode(g, x, wrap, opts.concat, s), Decoding(g, wrap, opts, s, slots);
    if o.Open? {
      NothingSaidOf(wrap, o, opts, r.status, r.out);
    } else {
      DecodeVerdict(g, x, wrap, opts, s, slots);
      if !r.status.IsProgress() {
        EndsAsDeflate(wrap, o, opts, r.status, r.out, r.used);
      }
    }
  }

  lemma NothingSaidOf(wrap: Wrap, o: Outcome, opts: DecOpts, st: Status, done: seq<byte>)
    requires o.Open?
    ensures Ends(wrap, o, opts, st, done) && Consistent(done, o)
  {
  }

  lemma EndsAsDeflate(wrap: Wrap, o: Outcome, opts: DecOpts, st: Status, done: seq<byte>, used: nat)
    requires EndsWell(o, opts, DecoderPolicy(wrap, opts.concat, opts.reject), st, done, used) && opts.maxRatio == 0
    ensures Ends(wrap, o, opts, st, done)
  {
    hide Ceiling, OverStatus;
  }

  // ---- Exactly at the ceiling ----------------------------------------------------------

  /** One byte in a stored block that is not the last, and an empty last one. */
  function TwoBlocks(b: byte): (z: seq<byte>) {
    BlockHead(1, false) + [b] + BlockHead(0, true)
  }

  function BlockHead(n: uint16, last: bool): (h: seq<byte>)
    ensures |h| == 5
  {
    [if last then 1 else 0] + ToLe16(n) + ToLe16(0xFFFF - n)
  }

  lemma HeadPushed(n: uint16, last: bool)
    ensures var h := BlockHead(n, last);
            && S.Push([], h[0]) == S.Head(h[..1]) && S.Push(h[..1], h[1]) == S.Head(h[..2])
            && S.Push(h[..2], h[2]) == S.Head(h[..3]) && S.Push(h[..3], h[3]) == S.Head(h[..4])
            && S.Push(h[..4], h[4]) == S.Within(n, last)
  {
    hide Le16, ToLe16, S.Within;
    var h := BlockHead(n, last);
    assert [] + [h[0]] == h[..1] && h[..1] + [h[1]] == h[..2] && h[..2] + [h[2]] == h[..3] && h[..3] + [h[3]] == h[..4];
    assert h[..4] + [h[4]] == h && h[1..3] == ToLe16(n) && h[3..5] == ToLe16(0xFFFF - n);
  }

  lemma StepTakes(p: seq<byte>, b: byte, z: seq<byte>, space: nat, more: bool)
    ensures var t := S.Step(S.Push(p, b), z, space, more);
            S.Step(S.Head(p), [b] + z, space, more) == TTurn(t.next, 1 + t.used, t.out, t.status)
  {
    assert ([b] + z)[1..] == z;
  }

  /** A block's header is taken whatever the space. */
  lemma StepHead(n: uint16, last: bool, z: seq<byte>, space: nat, more: bool)
    ensures var t := S.Step(S.Within(n, last), z, space, more);
            S.Step(S.Head([]), BlockHead(n, last) + z, space, more) == TTurn(t.next, 5 + t.used, t.out, t.status)
  {
    hide S.Push, S.Step, S.Within, BlockHead;
    var h := BlockHead(n, last);
    HeadPushed(n, last);
    assert h + z == [h[0]] + ([h[1]] + ([h[2]] + ([h[3]] + ([h[4]] + z))));
    StepTakes([], h[0], [h[1]] + ([h[2]] + ([h[3]] + ([h[4]] + z))), space, more);
    StepTakes(h[..1], h[1], [h[2]] + ([h[3]] + ([h[4]] + z)), space, more);
    StepTakes(h[..2], h[2], [h[3]] + ([h[4]] + z), space, more);
    StepTakes(h[..3], h[3], [h[4]] + z, space, more);
    StepTakes(h[..4], h[4], z, space, more);
  }

  /** The whole stream, whatever follows, and its first block. */
  lemma StepBoth(b: byte, t: seq<byte>)
    ensures S.Step(S.Head([]), TwoBlocks(b) + t, DICT, true) == TTurn(S.Finished, 11, [b], TDone)
    ensures S.Step(S.Head([]), TwoBlocks(b)[..6], DICT, true) == TTurn(S.Head([]), 6, [b], TNeedInput)
  {
    hide BlockHead, S.Push, S.Step, S.Within;
    var h, l, none: seq<byte> := BlockHead(1, false), BlockHead(0, true), [];
    assert TwoBlocks(b) + t == h + ([b] + (l + t)) && TwoBlocks(b)[..6] == h + ([b] + none);
    StepHead(0, true, t, DICT - 1, true);
    StepHead(1, false, [b] + (l + t), DICT, true);
    StepHead(1, false, [b] + none, DICT, true);
    StepData(b, l + t);
    StepData(b, none);
    StepEnds(t);
  }

  lemma StepData(b: byte, z: seq<byte>)
    ensures var t := S.Step(S.Head([]), z, DICT - 1, true);
            S.Step(S.Within(1, false), [b] + z, DICT, true) == TTurn(t.next, 1 + t.used, [b] + t.out, t.status)
  {
    assert ([b] + z)[1..] == z;
  }

  lemma StepEnds(t: seq<byte>)
    ensures S.Step(S.Within(0, true), t, DICT - 1, true) == TTurn(S.Finished, 0, [], TDone)
    ensures S.Step(S.Head([]), [], DICT - 1, true) == TTurn(S.Head([]), 0, [], TNeedInput)
  {
  }

  /** A new raw decoder over stored blocks. */
  function NewRaw(): (d: State<Mz<S.St>>) {
    DeflateDecoder.Fresh(S.StoredEngine, Raw, false, true)
  }

  /** Windows do show when the output is exactly the ceiling: this stream of
      one byte, under a max_output of one, ends well read at once, and is over
      the limit if the first window ends with the byte. DecodeUnderLimits says
      that this is the only size at which they do. */
  lemma ExactlyAtTheCeiling(b: byte, opts: DecOpts)
    requires opts == DecOpts(1, 0, true, false, false, 0)
    ensures InWindow(DecoderCodec(S.StoredEngine, Raw))
    ensures var c, d := DecoderCodec(S.StoredEngine, Raw), Driver.Fresh(NewRaw(), opts);
            && Offer(c, d, TwoBlocks(b), Slot(11, 2, Finish)).status == StreamEnd
            && Offer(c, d, TwoBlocks(b), Slot(6, 2, Run)).status == ErrOutputLimit
  {
    hide S.Step, S.Push, BlockHead, Process;
    DecoderInWindow(S.StoredEngine, Raw);
    var z := TwoBlocks(b);
    assert z[..11] == z && z + [] == z;
    StepBoth(b, []);
    AtOnce(z, b, Finish);
    UpToTheByte(z[..6], b);
  }

  /** mz_inflate() on a stream that one decode takes to its end. */
  lemma EndsAtOnce(z: seq<byte>, b: byte, f: MzFlush)
    requires f != MzFinish && z != [] && S.Step(S.Head([]), z, DICT, true) == TTurn(S.Finished, 11, [b], TDone)
    ensures var t := S.StoredEngine.step(S.StoredEngine.start, z, 1, f);
            t.mz == MzEnd && t.used == 11 && t.out == [b]
  {
    hide S.Step;
    assert [b][..1] == [b];
  }

  lemma AtOnce(z: seq<byte>, b: byte, f: Flush)
    requires 11 <= |z| <= 12 && S.Step(S.Head([]), z, DICT, true) == TTurn(S.Finished, 11, [b], TDone)
    ensures var r := Process(S.StoredEngine, NewRaw(), z, 1, f); r.status == StreamEnd && r.used == 11 && r.out == [b]
  {
    hide S.Step, MzStep;
    assert z[..Clamp(|z|)] == z;
    EndsAtOnce(z, b, MzFlushOf(f, false));
  }

  /** Nor are trailing bytes seen, for raw DEFLATE, unless the window the
      stream ends in shows them: the byte `j` after this stream is refused or
      left unread according to where the window ends. */
  lemma TrailingHasToBeSeen(b: byte, j: byte, opts: DecOpts)
    requires opts == DecOpts(0, 0, true, false, false, 0)
    ensures InWindow(DecoderCodec(S.StoredEngine, Raw))
    ensures var c, d := DecoderCodec(S.StoredEngine, Raw), Driver.Fresh(NewRaw(), opts);
            && Offer(c, d, TwoBlocks(b) + [j], Slot(12, 1, Finish)).status == ErrTrailing
            && Offer(c, d, TwoBlocks(b) + [j], Slot(11, 1, Run)).status == StreamEnd
  {
    hide S.Step, S.Push, BlockHead, Process;
    DecoderInWindow(S.StoredEngine, Raw);
    var z := TwoBlocks(b);
    assert (z + [j])[..12] == z + [j] && (z + [j])[..11] == z == z + [];
    StepBoth(b, [j]);
    StepBoth(b, []);
    AtOnce(z + [j], b, Finish);
    AtOnce(z, b, Run);
  }

  lemma UpToTheByte(w: seq<byte>, b: byte)
    requires |w| == 6 && S.Step(S.Head([]), w, DICT, true) == TTurn(S.Head([]), 6, [b], TNeedInput)
    ensures var r := Process(S.StoredEngine, NewRaw(), w, 1, Run); r.status == NeedOutput && r.used == 6 && r.out == [b]
  {
    hide S.Step;
    assert w[..Clamp(6)] == w && w[6..] == [] && [b][..1] == [b];
    var i := OneTurn(S.StoredEngine, NewRaw(), w, 1, Run);
    var m := Mz(S.Head([]), [], 1, TNeedInput, false, false);
    assert i == Go(i.next, 6, [b]) && i.next.place == Body && i.next.e == m;
    StandsStill(i.next);
  }

  lemma StandsStill(d: State<Mz<S.St>>)
    requires d.place == Body && d.e == Mz(S.Head([]), [], 1, TNeedInput, false, false)
    ensures var r := Process(S.StoredEngine, d, [], 0, Run); r.status == NeedOutput && r.used == 0 && r.out == []
  {
    var none: seq<byte> := [];
    assert none[..Clamp(0)] == none;
  }
}
