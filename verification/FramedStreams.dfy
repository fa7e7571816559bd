/** Whole-buffer readings of the framed formats (zstd, section 3 of RFC 8878,
    and the LZ4 frame format), and what the driver makes of a framed decoder. */
module FramedStreams {
  import opened Zu
  import opened Codecs
  import opened Driver
  import opened Sizes
  import opened Whole
  import opened Checksum
  import F = Frames

  /** The four bytes a frame, own or skippable, begins with. */
  predicate BeginsFrame(kind: F.Kind, s: seq<byte>) {
    |s| >= 4 && F.MagicNumber(kind, Le32(s[..4]))
  }

  /** They are what the decoder looks for. */
  lemma BeginsIsPrefix(kind: F.Kind, s: seq<byte>)
    ensures BeginsFrame(kind, s) <==> |s| >= 4 && F.IsPrefix(kind, s[..4])
  {
    hide F.IsPrefix;
    if |s| >= 4 {
      F.FourBytesBegin(kind, s[..4]);
    }
  }

  /** Decoding a file of frames held in memory, under max_output m: frames one
      after the other for as long as a magic is found where a frame ends. */
  function Unframe<D>(lib: F.Lib<D>, x: F.LibSem<D>, kind: F.Kind, m: uint64, s: seq<byte>, concat: bool): (o: Outcome)
    decreases |s|
  {
    var i := x.frame(m, lib.start, s);
    if !i.WholeFrame? || i.used == 0 || i.used > |s| then F.NotWhole(i)
    else if concat && BeginsFrame(kind, s[i.used..]) then Prepend(i.out, i.used, Unframe(lib, x, kind, m, s[i.used..], concat))
    else Complete(i.out, i.used, s[i.used..])
  }

  /** The streaming decoder's residual semantics is the whole-buffer decoder. */
  lemma {:induction false} UnframeIsRest<D>(lib: F.Lib<D>, x: F.LibSem<D>, s: F.State<D>, input: seq<byte>)
    requires s.place == F.Body && s.owed == None && s.held == [] && s.d == lib.start && lib.blank(lib.start)
    ensures F.Rest(lib, x, s, input) == Unframe(lib, x, s.kind, s.maxOutput, input, s.concat)
    decreases |input|
  {
    hide F.IsPrefix;
    var i := x.frame(s.maxOutput, lib.start, input);
    if i.WholeFrame? && 0 < i.used <= |input| {
      var s1, after := s.(place := F.Between), input[i.used..];
      assert [] + after == after && s1.(place := F.Body) == s;
      BeginsIsPrefix(s.kind, after);
      if s.concat && BeginsFrame(s.kind, after) {
        UnframeIsRest(lib, x, s, after);
        PrependNothing(F.Rest(lib, x, s, after));
      }
    }
  }

  // ---- Files of frames ---------------------------------------------------------------

  datatype Framed = Framed(bytes: seq<byte>, data: seq<byte>)

  /** `z.bytes` is one frame, whatever follows it, to a decoder without limit;
      and max_output m admits the window it declares. */
  ghost predicate IsFrame<D>(lib: F.Lib<D>, x: F.LibSem<D>, kind: F.Kind, m: uint64, z: Framed) {
    && BeginsFrame(kind, z.bytes)
    && forall t: seq<byte> {:trigger z.bytes + t} ::
         && x.frame(0, lib.start, z.bytes + t) == F.WholeFrame(z.data, |z.bytes|)
         && F.Admitted(kind, m, x.window(lib.start, z.bytes + t))
  }

  function Bytes(zs: seq<Framed>): (s: seq<byte>) {
    if zs == [] then [] else zs[0].bytes + Bytes(zs[1..])
  }

  function Data(zs: seq<Framed>): (s: seq<byte>) {
    if zs == [] then [] else zs[0].data + Data(zs[1..])
  }

  lemma FrameThere<D(!new)>(lib: F.Lib<D>, x: F.LibSem<D>, kind: F.Kind, m: uint64, z: Framed, t: seq<byte>)
    requires F.LibKeeps(lib, x, kind) && IsFrame(lib, x, kind, m, z)
    ensures x.frame(m, lib.start, z.bytes + t) == F.WholeFrame(z.data, |z.bytes|)
  {
    hide F.IsPrefix;
    assert F.FramesAlike(lib, x, kind, m, lib.start, z.bytes + t);
  }

  /** Frames end to end, and whatever follows. */
  lemma {:induction false} FramesThen<D(!new)>(lib: F.Lib<D>, x: F.LibSem<D>, kind: F.Kind, m: uint64, zs: seq<Framed>, t: seq<byte>)
    requires F.LibKeeps(lib, x, kind) && zs != []
    requires forall i :: 0 <= i < |zs| ==> IsFrame(lib, x, kind, m, zs[i])
    ensures Reads(lib, x, kind, m, Bytes(zs), Data(zs), t)
    decreases |zs|
  {
    hide *;
    var more := zs[1..];
    BytesThen(zs, t);
    if |zs| > 1 {
      FramesThen(lib, x, kind, m, more, t);
      BeginsThere(lib, x, kind, m, zs[1], Bytes(more[1..]) + t);
    }
    FrameBefore(lib, x, kind, m, zs[0], Bytes(more), Data(more), t);
  }

  /** One more before them, if there are any. */
  lemma FrameBefore<D(!new)>(lib: F.Lib<D>, x: F.LibSem<D>, kind: F.Kind, m: uint64, z: Framed, b: seq<byte>, d: seq<byte>, t: seq<byte>)
    requires F.LibKeeps(lib, x, kind) && IsFrame(lib, x, kind, m, z)
    requires (b == [] && d == []) || (BeginsFrame(kind, b + t) && Reads(lib, x, kind, m, b, d, t))
    ensures Reads(lib, x, kind, m, z.bytes + b, z.data + d, t)
  {
    hide F.LibKeeps, IsFrame, BeginsFrame, Unframe, Prepend;
    assert z.bytes + b + t == z.bytes + (b + t);
    FrameThere(lib, x, kind, m, z, b + t);
    UnframesOne(lib, x, kind, m, z, b + t);
    if b == [] && d == [] {
      assert b + t == t && z.bytes + b == z.bytes && z.data + d == z.data;
    } else {
      PrependTwice(z.data, |z.bytes|, d, |b|, Unframe(lib, x, kind, m, t, true));
      PrependComplete(z.data, |z.bytes|, d, |b|, t);
    }
  }

  /** Bytes that read as data, and then what follows is read, if it is a frame. */
  ghost predicate Reads<D>(lib: F.Lib<D>, x: F.LibSem<D>, kind: F.Kind, m: uint64, b: seq<byte>, d: seq<byte>, t: seq<byte>) {
    Unframe(lib, x, kind, m, b + t, true) ==
    if BeginsFrame(kind, t) then Prepend(d, |b|, Unframe(lib, x, kind, m, t, true)) else Complete(d, |b|, t)
  }

  lemma BytesThen(zs: seq<Framed>, t: seq<byte>)
    requires zs != []
    ensures var more := zs[1..];
            && Bytes(zs) == zs[0].bytes + Bytes(more) && Data(zs) == zs[0].data + Data(more)
            && (more == [] ==> Bytes(more) == [] && Data(more) == [])
            && (more != [] ==> Bytes(more) + t == zs[1].bytes + (Bytes(more[1..]) + t))
  {
  }

  lemma PrependComplete(p: seq<byte>, n: nat, q: seq<byte>, m: nat, t: seq<byte>)
    ensures Prepend(p, n, Complete(q, m, t)) == Complete(p + q, n + m, t)
  {
  }

  /** Frames end to end decode to their data end to end, whatever max_output
      admits their windows; bytes after them that begin no frame are what is
      left over. */
  lemma FramesConcatenate<D(!new)>(lib: F.Lib<D>, x: F.LibSem<D>, kind: F.Kind, m: uint64, zs: seq<Framed>, junk: seq<byte>)
    requires F.LibKeeps(lib, x, kind) && zs != [] && !BeginsFrame(kind, junk)
    requires forall i :: 0 <= i < |zs| ==> IsFrame(lib, x, kind, m, zs[i])
    ensures Unframe(lib, x, kind, m, Bytes(zs) + junk, true) == Complete(Data(zs), |Bytes(zs)|, junk)
  {
    hide F.LibKeeps, IsFrame, BeginsFrame, Unframe;
    FramesThen(lib, x, kind, m, zs, junk);
  }

  lemma NothingBegins(kind: F.Kind, t: seq<byte>)
    requires t == []
    ensures !BeginsFrame(kind, t)
  {
  }

  lemma BeginsThere<D>(lib: F.Lib<D>, x: F.LibSem<D>, kind: F.Kind, m: uint64, z: Framed, t: seq<byte>)
    requires IsFrame(lib, x, kind, m, z)
    ensures BeginsFrame(kind, z.bytes + t)
  {
    hide F.IsPrefix;
    assert (z.bytes + t)[..4] == z.bytes[..4];
  }

  lemma UnframesOne<D>(lib: F.Lib<D>, x: F.LibSem<D>, kind: F.Kind, m: uint64, z: Framed, t: seq<byte>)
    requires x.frame(m, lib.start, z.bytes + t) == F.WholeFrame(z.data, |z.bytes|) && IsFrame(lib, x, kind, m, z)
    ensures Unframe(lib, x, kind, m, z.bytes + t, true) ==
            if BeginsFrame(kind, t) then Prepend(z.data, |z.bytes|, Unframe(lib, x, kind, m, t, true))
            else Complete(z.data, |z.bytes|, t)
  {
    assert (z.bytes + t)[|z.bytes|..] == t;
    hide F.IsPrefix;
  }

  // ---- Every byte is accounted for -------------------------------------------------------

  /** The bytes one turn hands to the library. */
  function TurnHands<D>(lib: F.Lib<D>, s: F.State<D>, w: seq<byte>, room: nat): (p: seq<byte>) {
    if s.owed.Some? || s.place == F.Done then []
    else if s.place == F.Body then w[..F.Ask(lib, s.maxOutput, s.d, w, room).used]
    else if s.concat && s.held != [] && |F.Extend(s.kind, s.held, w).held| == 4 then F.Extend(s.kind, s.held, w).held
    else []
  }

  /** The bytes a whole call hands to the library, in order. */
  function Handed<D>(lib: F.Lib<D>, s: F.State<D>, w: seq<byte>, room: nat, f: Flush): (p: seq<byte>)
    decreases |w| + room, F.Rank(lib, s)
  {
    match F.OneTurn(lib, s, w, room, f)
    case Stop(_) => []
    case Go(next, used, out) => TurnHands(lib, s, w, room) + Handed(lib, next, w[used..], room - |out|, f)
  }

  lemma TurnConserves<D>(lib: F.Lib<D>, s: F.State<D>, w: seq<byte>, room: nat, f: Flush)
    requires s.held != [] ==> s.place == F.Between && s.concat && s.owed == None && F.IsPrefix(s.kind, s.held)
    ensures var i := F.OneTurn(lib, s, w, room, f);
            if i.Go? then
              && i.next.held == [] && i.next.kind == s.kind
              && s.held + w[..i.used] == TurnHands(lib, s, w, room)
            else
              && i.reply.used <= |w|
              && (i.reply.status.IsProgress() ==> i.reply.next.held == s.held + w[..i.reply.used])
              && (i.reply.status == StreamEnd ==>
                    |s.held + w[..i.reply.used]| < 4 && F.IsPrefix(s.kind, s.held + w[..i.reply.used]))
  {
    hide F.IsPrefix, F.Ask, F.Extend;
    assert F.IsPrefix(s.kind, []) by { EmptyIsPrefix(s.kind); }
    if s.place == F.Between && s.owed == None && s.held != [] {
      F.ExtendFacts(s.kind, s.held, w);
    } else if s.place == F.Body && s.owed == None {
      BodyConserves(lib, s, w, room, f);
    }
  }

  lemma EmptyIsPrefix(kind: F.Kind)
    ensures F.IsPrefix(kind, [])
  {
  }

  lemma BodyConserves<D>(lib: F.Lib<D>, s: F.State<D>, w: seq<byte>, room: nat, f: Flush)
    requires s.held == [] && s.place == F.Body && s.owed == None
    ensures var i := F.BodyTurn(lib, s, w, room, f);
            if i.Go? then i.next.held == [] && i.next.kind == s.kind && i.used == F.Ask(lib, s.maxOutput, s.d, w, room).used
            else i.reply.used == 0 && (i.reply.status.IsProgress() ==> i.reply.next.held == [])
  {
    hide F.IsPrefix, F.Ask;
  }

  /** A byte consumed has gone to the library, in its place, or is held; at
      the end of the stream up to three bytes, begun like a magic, went
      nowhere. */
  predicate Accounted<D>(kind: F.Kind, held: seq<byte>, w: seq<byte>, p: seq<byte>, r: Reply<F.State<D>>) {
    && r.used <= |w|
    && var taken := held + w[..r.used];
       && (r.status.IsProgress() ==> taken == p + r.next.held)
       && (r.status == StreamEnd ==> p <= taken && |taken| - |p| < 4 && F.IsPrefix(kind, taken[|p|..]))
  }

  lemma AccountedAhead<D>(kind: F.Kind, held: seq<byte>, w: seq<byte>, q: seq<byte>, p: seq<byte>,
                          out: seq<byte>, n: nat, r: Reply<F.State<D>>)
    requires n <= |w| && held + w[..n] == q && Accounted(kind, [], w[n..], p, r)
    ensures Accounted(kind, held, w, q + p, Ahead(out, n, r))
  {
    hide F.IsPrefix;
    var later, taken := [] + w[n..][..r.used], held + w[..n + r.used];
    assert taken == q + later;
    if r.status == StreamEnd {
      assert taken[|q + p|..] == later[|p|..];
    }
  }

  lemma {:induction false} BytesAreConserved<D>(lib: F.Lib<D>, s: F.State<D>, w: seq<byte>, room: nat, f: Flush)
    requires s.held != [] ==> s.place == F.Between && s.concat && s.owed == None && F.IsPrefix(s.kind, s.held)
    ensures Accounted(s.kind, s.held, w, Handed(lib, s, w, room, f), F.Process(lib, s, w, room, f))
    decreases |w| + room, F.Rank(lib, s)
  {
    hide F.IsPrefix, F.OneTurn, F.Rank, TurnHands, Accounted;
    TurnConserves(lib, s, w, room, f);
    F.OneTurnMoves(lib, s, w, room, f);
    var i := F.OneTurn(lib, s, w, room, f);
    if i.Go? {
      var r := F.Process(lib, i.next, w[i.used..], room - |i.out|, f);
      BytesAreConserved(lib, i.next, w[i.used..], room - |i.out|, f);
      AccountedAhead(s.kind, s.held, w, TurnHands(lib, s, w, room),
                     Handed(lib, i.next, w[i.used..], room - |i.out|, f), i.out, i.used, r);
    } else {
      AccountedAtOnce(s.kind, s.held, w, i.reply);
    }
  }

  lemma AccountedAtOnce<D>(kind: F.Kind, held: seq<byte>, w: seq<byte>, r: Reply<F.State<D>>)
    requires r.used <= |w| && (r.status.IsProgress() ==> r.next.held == held + w[..r.used])
    requires r.status == StreamEnd ==> |held + w[..r.used]| < 4 && F.IsPrefix(kind, held + w[..r.used])
    ensures Accounted(kind, held, w, [], r)
  {
    assert (held + w[..r.used])[0..] == held + w[..r.used];
  }

  // ---- Limits --------------------------------------------------------------------------

  ghost function Run<D(!new)>(lib: F.Lib<D>, kind: F.Kind, opts: DecOpts, input: seq<byte>, slots: seq<Slot>): (r: RunResult<F.State<D>>)
    requires InWindow(F.FramedCodec(lib, kind))
    ensures r.used <= |input|
  {
    RunAll(F.FramedCodec(lib, kind), Driver.Fresh(New(lib, kind, opts), opts), input, slots)
  }

  function New<D>(lib: F.Lib<D>, kind: F.Kind, opts: DecOpts): (s: F.State<D>) {
    F.Fresh(lib, kind, opts.concat, opts.reject, opts.maxOutput)
  }

  /** The run minds libzstd's patience: no more than thirteen calls in a row
      have moved nothing when another is made. */
  ghost predicate Minds<D(!new)>(lib: F.Lib<D>, kind: F.Kind, opts: DecOpts, input: seq<byte>, slots: seq<Slot>)
    requires InWindow(F.FramedCodec(lib, kind))
  {
    Driver.Proper(F.FramedCodec(lib, kind), F.FramedPolicy(kind, opts.concat, opts.reject).asks,
                  Driver.Fresh(New(lib, kind, opts), opts), START, input, slots)
  }

  /** Any run over lz4 frames does, and over zstd frames any run of no more
      than fourteen calls. */
  lemma FewMind<D(!new)>(lib: F.Lib<D>, kind: F.Kind, opts: DecOpts, input: seq<byte>, slots: seq<Slot>)
    requires InWindow(F.FramedCodec(lib, kind)) && (kind == F.Lz4Frames || |slots| <= 14)
    ensures Minds(lib, kind, opts, input, slots)
  {
    FewAreProper(F.FramedCodec(lib, kind), F.FramedPolicy(kind, opts.concat, opts.reject).asks,
                 Driver.Fresh(New(lib, kind, opts), opts), START, input, slots);
  }

  /** Trailing bytes that a decoder may hold back, unsure, to the end. */
  ghost predicate Lone(kind: F.Kind, p: seq<byte>) {
    0 < |p| < 4 && exists q: seq<byte> :: |q| == 4 && p <= q && F.MagicNumber(kind, Le32(q))
  }

  lemma LoneIsPrefix(kind: F.Kind, p: seq<byte>)
    ensures Lone(kind, p) <==> 0 < |p| < 4 && F.IsPrefix(kind, p)
  {
    hide F.IsPrefix;
    if |p| < 4 {
      F.HeldMayBegin(kind, p);
    }
  }

  /** How a stream ends under `opts`. With concatenation off bytes after it are
      refused if the window it ends in shows them, as the driver sees no more. */
  ghost predicate Ends(kind: F.Kind, o: Outcome, opts: DecOpts, st: Status, done: seq<byte>, used: nat) {
    match o
    case Complete(out, n, after) =>
      if !Fits(opts, |out|) then st == OverStatus(opts) && done == out[..Ceiling(opts).value]
      else
        && done == out && (st == StreamEnd ==> n <= used <= n + 3)
        && if opts.hasExpected && |out| != opts.expected then
             st == ErrInvalidData || (st == ErrTrailing && opts.reject && opts.concat && Lone(kind, after))
           else if opts.reject && after != [] then st == ErrTrailing || (st == StreamEnd && !opts.concat)
           else st == StreamEnd
    case Cut(out, _) =>
      if Fits(opts, |out|) then st == ErrTruncated && done == out
      else st == OverStatus(opts) && done == out[..Ceiling(opts).value]
    case Corrupt(out, statuses) =>
      && done <= out
      && (st in statuses || (Ceiling(opts).Some? && |out| >= Ceiling(opts).value && st == OverStatus(opts)))
    case Open => true
  }

  /** Main theorem. A framed decoder under any limits, in any windows, with
      any room and FINISH timing: a run that ends has delivered every byte the
      ceiling admits and ends as the whole input says. A stream of exactly the
      ceiling's size ends well, one a byte longer is over the limit, and one
      cut after its last output byte is truncated and never over a limit. */
  lemma FramedLimits<D(!new)>(lib: F.Lib<D>, x: F.LibSem<D>, kind: F.Kind, opts: DecOpts, input: seq<byte>, slots: seq<Slot>)
    requires F.LibKeeps(lib, x, kind) && opts.maxRatio == 0
    requires InWindow(F.FramedCodec(lib, kind)) && Minds(lib, kind, opts, input, slots)
    ensures var o, r := Unframe(lib, x, kind, opts.maxOutput, input, opts.concat), Run(lib, kind, opts, input, slots);
            if r.status.IsProgress() then Consistent(r.out, o) else Ends(kind, o, opts, r.status, r.out, r.used)
  {
    hide F.LibKeeps, Keeps, InWindow, Unframe, F.Rest, F.Inv, EndsWell, Ends, RunAll, RunTo, F.Waiting, Driver.Proper;
    var c, sem, pol := F.FramedCodec(lib, kind), F.FramedSem(lib, x, kind, F.Seen(opts)), F.FramedPolicy(kind, opts.concat, opts.reject);
    F.FramedKeeps(lib, x, kind, opts);
    F.StartIsOk(lib, x, kind);
    var s := New(lib, kind, opts);
    UnframeIsRest(lib, x, s, input);
    OnlyTruncated(lib, x, kind, opts.maxOutput, input, opts.concat);
    var o, r := Unframe(lib, x, kind, opts.maxOutput, input, opts.concat), Run(lib, kind, opts, input, slots);
    if o.Open? {
      NothingSaid(kind, o, opts, r.status, r.out, r.used);
    } else {
      FreshRunVerdict(c, sem, pol, s, opts, input, slots);
      if !r.status.IsProgress() {
        EndsAsFramed(kind, o, opts, r.status, r.out, r.used);
      }
    }
  }

  /** Concatenated frames, trailing bytes refused, under limits that `n` bytes of
      output meet. */
  predicate Admits(opts: DecOpts, n: nat) {
    && opts.concat && opts.reject && opts.maxRatio == 0
    && (opts.maxOutput == 0 || n <= opts.maxOutput) && (opts.hasExpected ==> n == opts.expected)
  }

  /** The run reads `data` and every one of `n` bytes, unless it is still at it. */
  predicate ReadsAs<S>(r: RunResult<S>, data: seq<byte>, n: nat) {
    if r.status.IsProgress() then r.out <= data else r.status == StreamEnd && r.out == data && r.used == n
  }

  /** Main theorem, files of frames: any run over frames end to end delivers
      their data end to end and consumes every byte. */
  lemma FileReads<D(!new)>(lib: F.Lib<D>, x: F.LibSem<D>, kind: F.Kind, zs: seq<Framed>, opts: DecOpts, slots: seq<Slot>)
    requires F.LibKeeps(lib, x, kind) && zs != [] && forall i :: 0 <= i < |zs| ==> IsFrame(lib, x, kind, opts.maxOutput, zs[i])
    requires Admits(opts, |Data(zs)|) && InWindow(F.FramedCodec(lib, kind)) && Minds(lib, kind, opts, Bytes(zs), slots)
    ensures ReadsAs(Run(lib, kind, opts, Bytes(zs), slots), Data(zs), |Bytes(zs)|)
  {
    hide F.LibKeeps, InWindow, IsFrame, Minds, RunAll, Unframe, Lone;
    var none: seq<byte> := [];
    FramesConcatenate(lib, x, kind, opts.maxOutput, zs, none);
    assert Bytes(zs) + none == Bytes(zs);
    FramedLimits(lib, x, kind, opts, Bytes(zs), slots);
  }

  /** So a frame without data, as a skippable one is, is skipped wherever it is. */
  lemma SkippedBetween<D(!new)>(lib: F.Lib<D>, x: F.LibSem<D>, kind: F.Kind, a: Framed, skip: Framed, b: Framed,
                                opts: DecOpts, slots: seq<Slot>)
    requires F.LibKeeps(lib, x, kind) && IsFrame(lib, x, kind, opts.maxOutput, a)
    requires IsFrame(lib, x, kind, opts.maxOutput, skip) && skip.data == [] && IsFrame(lib, x, kind, opts.maxOutput, b)
    requires Admits(opts, |a.data + b.data|) && InWindow(F.FramedCodec(lib, kind))
    requires Minds(lib, kind, opts, a.bytes + skip.bytes + b.bytes, slots)
    ensures var z := a.bytes + skip.bytes + b.bytes;
            ReadsAs(Run(lib, kind, opts, z, slots), a.data + b.data, |z|)
  {
    hide F.LibKeeps, InWindow, IsFrame, Minds, Run, ReadsAs;
    var zs := [a, skip, b];
    ThreeFrames(a, skip, b);
    assert a.data + skip.data + b.data == a.data + b.data;
    FileReads(lib, x, kind, zs, opts, slots);
  }

  lemma ThreeFrames(a: Framed, b: Framed, c: Framed)
    ensures Bytes([a, b, c]) == a.bytes + b.bytes + c.bytes && Data([a, b, c]) == a.data + b.data + c.data
  {
    assert [a, b, c][1..] == [b, c] && [b, c][1..] == [c] && [c][1..] == [];
    var none: seq<Framed> := [];
    assert Bytes(none) == [] && Data(none) == [];
    assert Bytes([c]) == c.bytes && Data([c]) == c.data;
    assert Bytes([b, c]) == b.bytes + c.bytes && Data([b, c]) == b.data + c.data;
  }

  lemma NothingSaid(kind: F.Kind, o: Outcome, opts: DecOpts, st: Status, done: seq<byte>, used: nat)
    requires o.Open?
    ensures Ends(kind, o, opts, st, done, used) && Consistent(done, o)
  {
  }

  /** Of any library, and in any state, the framed decoders ask for input only
      with their window spent and for room only with none left. */
  lemma FramedSpends<D(!new)>(lib: F.Lib<D>, kind: F.Kind)
    ensures Spends(F.FramedCodec(lib, kind)) && InWindow(F.FramedCodec(lib, kind))
  {
    hide F.Process;
    var c := F.FramedCodec(lib, kind);
    forall s: F.State<D>, w: seq<byte>, room: nat, f: Flush ensures SpendsCall(c, s, w, room, f) && Inside(c, s, w, room, f) {
      ProcessSpends(lib, s, w, room, f);
    }
  }

  lemma {:induction false} ProcessSpends<D>(lib: F.Lib<D>, s: F.State<D>, w: seq<byte>, room: nat, f: Flush)
    ensures var r := F.Process(lib, s, w, room, f);
            && r.used <= |w| && |r.out| <= room && r.status != Ok
            && (r.status == NeedInput ==> r.used == |w|) && (r.status == NeedOutput ==> |r.out| == room)
    decreases |w| + room, F.Rank(lib, s)
  {
    hide F.OneTurn, F.Rank;
    TurnSpends(lib, s, w, room, f);
    F.OneTurnMoves(lib, s, w, room, f);
    var i := F.OneTurn(lib, s, w, room, f);
    if i.Go? {
      ProcessSpends(lib, i.next, w[i.used..], room - |i.out|, f);
    }
  }

  lemma TurnSpends<D>(lib: F.Lib<D>, s: F.State<D>, w: seq<byte>, room: nat, f: Flush)
    ensures match F.OneTurn(lib, s, w, room, f)
            case Go(next, used, out) => used <= |w| && |out| <= room
            case Stop(r) =>
              && r.used <= |w| && r.out == [] && r.status != Ok
              && (r.status == NeedInput ==> r.used == |w|) && (r.status == NeedOutput ==> room == 0)
  {
    hide F.IsPrefix, F.Extend, F.Ask;
    if s.place == F.Between && s.owed == None && s.concat && s.held != [] {
      ExtendTakesAll(s.kind, s.held, w);
    }
  }

  lemma {:induction false} ExtendTakesAll(kind: F.Kind, held: seq<byte>, w: seq<byte>)
    requires |held| <= 4
    ensures var r := F.Extend(kind, held, w); !r.disproved && |r.held| < 4 ==> r.n == |w|
    decreases |w|
  {
    hide F.IsPrefix;
    if |held| < 4 && w != [] && F.IsPrefix(kind, held + [w[0]]) {
      ExtendTakesAll(kind, held + [w[0]], w[1..]);
    }
  }

  /** zu_int_run_whole over a framed decoder: it ends, and so; and under a
      ceiling it ends on inputs of which nothing is said, too. */
  method RunFramed<D(!new)>(lib: F.Lib<D>, ghost x: F.LibSem<D>, kind: F.Kind, opts: DecOpts, src: seq<byte>,
                            inChunk: size_t, outChunk: size_t, flushEvery: nat)
    returns (st: Status, sink: Sink, consumed: nat, ghost slots: seq<Slot>)
    requires F.LibKeeps(lib, x, kind) && opts.maxRatio == 0 && inChunk > 0 && outChunk > 0
    requires !Unframe(lib, x, kind, opts.maxOutput, src, opts.concat).Open? || Ceiling(opts).Some?
    ensures fresh(sink) && sink.Valid()
    ensures var o := Unframe(lib, x, kind, opts.maxOutput, src, opts.concat);
            || Ends(kind, o, opts, st, sink.Contents(), consumed)
            || (st == ErrMemory && |sink.Contents()| + outChunk > SIZE_MAX && Consistent(sink.Contents(), o))
    ensures InWindow(F.FramedCodec(lib, kind))
    ensures Driven(F.FramedCodec(lib, kind), Driver.Fresh(New(lib, kind, opts), opts), src, slots,
                   inChunk, outChunk, flushEvery, st, sink.Contents(), consumed)
    ensures Ceiling(opts).Some? ==> |sink.Contents()| <= Ceiling(opts).value
  {
    hide F.LibKeeps, Keeps, InWindow, Unframe, F.Rest, EndsWell, Ends, F.Inv, F.Waiting, Driven;
    ghost var sem, pol := F.FramedSem(lib, x, kind, F.Seen(opts)), F.FramedPolicy(kind, opts.concat, opts.reject);
    F.FramedKeeps(lib, x, kind, opts);
    F.StartIsOk(lib, x, kind);
    UnframeIsRest(lib, x, New(lib, kind, opts), src);
    OnlyTruncated(lib, x, kind, opts.maxOutput, src, opts.concat);
    FramedSpends(lib, kind);
    st, sink, consumed, slots := RunWhole(F.FramedCodec(lib, kind), opts, src, inChunk, outChunk, flushEvery, sem, pol);
    ghost var o := Unframe(lib, x, kind, opts.maxOutput, src, opts.concat);
    if o.Open? {
      NothingSaid(kind, o, opts, st, sink.Contents(), consumed);
    } else if EndsWell(o, opts, pol, st, sink.Contents(), consumed) {
      EndsAsFramed(kind, o, opts, st, sink.Contents(), consumed);
    }
  }

  lemma {:induction false} OnlyTruncated<D>(lib: F.Lib<D>, x: F.LibSem<D>, kind: F.Kind, m: uint64, s: seq<byte>, concat: bool)
    ensures var o := Unframe(lib, x, kind, m, s, concat); o.Cut? ==> o.status == ErrTruncated
    decreases |s|
  {
    hide BeginsFrame;
    var i := x.frame(m, lib.start, s);
    if i.WholeFrame? && 0 < i.used <= |s| {
      OnlyTruncated(lib, x, kind, m, s[i.used..], concat);
    }
  }

  lemma EndsAsFramed(kind: F.Kind, o: Outcome, opts: DecOpts, st: Status, done: seq<byte>, used: nat)
    requires EndsWell(o, opts, F.FramedPolicy(kind, opts.concat, opts.reject), st, done, used) && opts.maxRatio == 0
    requires o.Cut? ==> o.status == ErrTruncated
    ensures Ends(kind, o, opts, st, done, used)
  {
    hide F.IsPrefix, Ceiling, OverStatus, Lone;
    if o.Complete? {
      LoneIsPrefix(kind, o.after);
    }
  }

  // ---- The one place where windows show ------------------------------------------------

  /** What is consumed and what is left over are all there is. */
  predicate AddsUp(held: seq<byte>, rest: seq<byte>, o: Outcome) {
    o.Complete? ==> -|held| <= o.used <= |rest| && o.after == (held + rest)[|held| + o.used..]
  }

  lemma AddsUpLater(p: seq<byte>, n: nat, rest: seq<byte>, o: Outcome)
    requires n <= |rest| && AddsUp([], rest[n..], o)
    ensures AddsUp([], rest, Prepend(p, n, o))
  {
    if o.Complete? {
      assert ([] + rest[n..])[o.used..] == rest[n..][o.used..];
      SliceTwice(rest, n, o.used);
      assert ([] + rest)[n + o.used..] == rest[n + o.used..];
    }
  }

  lemma SliceTwice(s: seq<byte>, n: nat, m: nat)
    requires n + m <= |s|
    ensures s[n..][m..] == s[n + m..]
  {
  }

  lemma AddsUpHeld(held: seq<byte>, rest: seq<byte>, o: Outcome)
    requires AddsUp([], held + rest, o)
    ensures AddsUp(held, rest, Prepend([], -|held|, o))
  {
    assert [] + (held + rest) == held + rest;
  }

  lemma {:induction false} CountsAddUp<D>(lib: F.Lib<D>, x: F.LibSem<D>, s: F.State<D>, rest: seq<byte>)
    requires s.held != [] ==> s.place == F.Between && s.concat
    ensures AddsUp(s.held, rest, F.Rest(lib, x, s, rest))
    decreases |s.held| + |rest|, F.Rank(lib, s)
  {
    hide F.IsPrefix, AddsUp, BeginsFrame, Prepend;
    if s.owed.Some? {
      CountsAddUp(lib, x, s.(owed := None), rest);
      AddsUpOwed(s.held, rest, [s.owed.value], F.Rest(lib, x, s.(owed := None), rest));
    } else if s.place == F.Between && s.concat {
      var all, s1 := s.held + rest, s.(place := F.Body, held := []);
      F.BetweenRest(lib, x, s, rest);
      BeginsIsPrefix(s.kind, all);
      if BeginsFrame(s.kind, all) {
        CountsAddUp(lib, x, s1, all);
        AddsUpHeld(s.held, rest, F.Rest(lib, x, s1, all));
      } else {
        AddsUpEnd(s.held, rest);
      }
    } else if s.place == F.Body {
      var i := x.frame(s.maxOutput, s.d, rest);
      if i.WholeFrame? && i.used <= |rest| && (lib.blank(s.d) ==> i.used > 0) && lib.blank(lib.start) {
        var s1, t := s.(place := F.Between, held := [], d := lib.start), rest[i.used..];
        CountsAddUp(lib, x, s1, t);
        AddsUpLater(i.out, i.used, rest, F.Rest(lib, x, s1, t));
      } else {
        AddsUpEnd([], rest);
      }
    } else {
      AddsUpEnd([], rest);
    }
  }

  lemma AddsUpOwed(held: seq<byte>, rest: seq<byte>, p: seq<byte>, o: Outcome)
    requires AddsUp(held, rest, o)
    ensures AddsUp(held, rest, Prepend(p, 0, o))
  {
  }

  lemma AddsUpEnd(held: seq<byte>, rest: seq<byte>)
    ensures AddsUp(held, rest, Complete([], -|held|, held + rest))
    ensures forall o: Outcome :: !o.Complete? ==> AddsUp(held, rest, o)
    ensures held == [] ==> AddsUp(held, rest, Complete([], 0, rest))
  {
    assert held == [] ==> held + rest == rest;
  }

  /** Nothing held: a turn holds nothing, except in an answer. */
  lemma NothingHeldTurn<D(!new)>(lib: F.Lib<D>, x: F.LibSem<D>, s: F.State<D>, w: seq<byte>, tail: seq<byte>, room: nat, f: Flush)
    requires F.LibKeeps(lib, x, s.kind) && F.Inv(lib, x, s.kind, F.OptsOf(s), s) && s.held == [] && s.concat
    requires F.MayAsk(lib, x, s, w, tail, f) && F.Rest(lib, x, s, w + tail).Complete?
    ensures var i := F.OneTurn(lib, s, w, room, f);
            if i.Go? then i.next.held == [] && i.next.concat
            else
              && i.reply.status != ErrTrailing
              && (i.reply.status == StreamEnd ==>
                    i.reply.used == 0 && (f == Finish || (w != [] && !F.IsPrefix(s.kind, w[..Min(|w|, 4)]))))
  {
    hide F.IsPrefix, F.LibKeeps, F.Rest;
    if s.place == F.Body && s.owed == None {
      BodyNeverTrailing(lib, x, s, w, tail, room, f);
    }
  }

  lemma BodyNeverTrailing<D(!new)>(lib: F.Lib<D>, x: F.LibSem<D>, s: F.State<D>, w: seq<byte>, tail: seq<byte>, room: nat, f: Flush)
    requires F.LibKeeps(lib, x, s.kind) && F.Inv(lib, x, s.kind, F.OptsOf(s), s) && s.held == [] && s.concat
    requires F.MayAsk(lib, x, s, w, tail, f) && F.Rest(lib, x, s, w + tail).Complete?
    requires s.place == F.Body && s.owed == None
    ensures var i := F.BodyTurn(lib, s, w, room, f);
            if i.Go? then i.next.held == [] && i.next.concat
            else
              && i.reply.status != ErrTrailing
              && (i.reply.status == StreamEnd ==> i.reply.used == 0 && f == Finish)
  {
    var t := F.Ask(lib, s.maxOutput, s.d, w, room);
    F.BodyAsked(lib, x, s, w, tail, room);
    if t.code == F.More && t.used == 0 && t.out == [] && w == [] && room == 0 && f == Finish {
      assert [] + [] == w + tail && (w + tail)[0..] == w + tail;
      F.BodyAsked(lib, x, s.(d := t.next), [], [], 1);
    }
    hide F.IsPrefix, F.LibKeeps, F.Rest, F.Ask;
  }

  /** A call that begins with nothing held consumes a stream exactly, and never
      reports the tail itself; while more may come it does not end on a tail
      that may yet become a frame. */
  lemma {:induction false} NothingHeldCall<D(!new)>(lib: F.Lib<D>, x: F.LibSem<D>, s: F.State<D>,
                                                    w: seq<byte>, tail: seq<byte>, room: nat, f: Flush)
    requires F.LibKeeps(lib, x, s.kind) && F.Inv(lib, x, s.kind, F.OptsOf(s), s) && s.held == [] && s.concat
    requires F.MayAsk(lib, x, s, w, tail, f) && F.Rest(lib, x, s, w + tail).Complete?
    ensures var o, r := F.Rest(lib, x, s, w + tail), F.Process(lib, s, w, room, f);
            && r.status != ErrTrailing
            && (r.status == StreamEnd ==> r.used == o.used)
            && (r.status == StreamEnd && tail == [] && Lone(s.kind, o.after) ==> f == Finish)
    decreases |w| + room, F.Rank(lib, s)
  {
    hide F.LibKeeps, F.Rest, F.OneTurn, F.Rank, F.IsPrefix, F.MayAsk, F.Waits, Lone;
    F.OneTurnOk(lib, x, s, w, tail, room, f);
    F.OneTurnMoves(lib, s, w, room, f);
    F.TurnWaits(lib, x, s, w, tail, room, f);
    NothingHeldTurn(lib, x, s, w, tail, room, f);
    CountsAddUp(lib, x, s, w + tail);
    var i, o := F.OneTurn(lib, s, w, room, f), F.Rest(lib, x, s, w + tail);
    if i.Go? {
      F.MayAskAgain(lib, x, s, i.next, i.used, i.out, w, tail, room, f);
      SameOpts(lib, x, s, i, w);
      NothingHeldCall(lib, x, i.next, w[i.used..], tail, room - |i.out|, f);
    } else if tail == [] && i.reply.status == StreamEnd {
      LoneIsPrefix(s.kind, o.after);
      assert o.used == 0 && o.after == w;
      assert |w| < 4 ==> w[..Min(|w|, 4)] == w;
    }
  }

  lemma SameOpts<D>(lib: F.Lib<D>, x: F.LibSem<D>, s: F.State<D>, i: Iter<F.State<D>>, w: seq<byte>)
    requires F.Waits(lib, x, s, w, i) && i.Go?
    ensures F.OptsOf(i.next) == F.OptsOf(s) && i.next.kind == s.kind
  {
  }

  /** A whole stream in one call, with room for its output: it ends there, or
      stops at a tail that may yet become a frame and has taken it. */
  lemma WholeCall<D(!new)>(lib: F.Lib<D>, x: F.LibSem<D>, s: F.State<D>, input: seq<byte>, room: nat, f: Flush)
    requires F.LibKeeps(lib, x, s.kind) && F.Inv(lib, x, s.kind, F.OptsOf(s), s) && s.held == [] && s.concat && s.reject
    requires F.Waiting(x, s) == 0
    requires var o := F.Rest(lib, x, s, input); o.Complete? && |o.out| <= room && Lone(s.kind, o.after)
    ensures var o, r := F.Rest(lib, x, s, input), F.Process(lib, s, input, room, f);
            && r.out == o.out && r.used <= |input|
            && if f == Finish then r.status == StreamEnd && r.used == o.used
               else
                 && r.status == NeedInput && r.used == |input|
                 && r.next.place == F.Between && r.next.owed == None && r.next.held == o.after
                 && r.next.concat && r.next.reject && r.next.kind == s.kind
  {
    hide F.LibKeeps, F.Rest, F.IsPrefix, F.Process;
    var o, r, none: seq<byte> := F.Rest(lib, x, s, input), F.Process(lib, s, input, room, f), [];
    assert input + none == input;
    F.ProcessOk(lib, x, s, input, none, room, f);
    NothingHeldCall(lib, x, s, input, none, room, f);
    CountsAddUp(lib, x, s, input);
    if r.status == NeedInput {
      HeldAtTheEnd(lib, x, s, o, r, input);
    }
  }

  lemma HeldAtTheEnd<D(!new)>(lib: F.Lib<D>, x: F.LibSem<D>, s: F.State<D>, o: Outcome, r: Reply<F.State<D>>, input: seq<byte>)
    requires o.Complete? && s.held == [] && AddsUp([], input, o) && o.after != [] && r.used == |input|
    requires F.Inv(lib, x, s.kind, F.OptsOf(s), r.next)
    requires o == Prepend(r.out, r.used, F.Rest(lib, x, r.next, input[r.used..] + []))
    ensures r.out == o.out && r.next.place == F.Between && r.next.owed == None && r.next.held == o.after
    ensures r.next.concat == s.concat && r.next.reject == s.reject && r.next.kind == s.kind
  {
    hide F.Rest, F.IsPrefix;
    var none: seq<byte> := [];
    assert input[r.used..] + [] == none;
    assert |o.after| == |input| - o.used;
    CountsAddUp(lib, x, r.next, none);
    if r.next.place == F.Between && r.next.concat && r.next.owed == None {
      F.BetweenRest(lib, x, r.next, none);
    }
    assert r.next.held + none == r.next.held;
  }

  /** Exactly where windows show: a stream shorter than the expected size with
      a lone piece of magic after it, trailing bytes refused. Read in one
      piece it is the wrong size; read up to the piece, and then told that
      nothing more is coming, it has trailing bytes. FramedLimits says that
      every other stream that is neither corrupt nor open has one status. */
  lemma WhereWindowsShow<D(!new)>(lib: F.Lib<D>, x: F.LibSem<D>, kind: F.Kind, opts: DecOpts, input: seq<byte>, room: nat)
    requires F.LibKeeps(lib, x, kind) && opts.concat && opts.reject && opts.maxRatio == 0
    requires var o := Unframe(lib, x, kind, opts.maxOutput, input, true);
             && o.Complete? && Lone(kind, o.after) && Fits(opts, |o.out|) && |o.out| <= room
             && opts.hasExpected && |o.out| != opts.expected
    ensures InWindow(F.FramedCodec(lib, kind))
    ensures Run(lib, kind, opts, input, [Slot(0, room, Finish)]).status == ErrInvalidData
    ensures Run(lib, kind, opts, input, [Slot(|input|, room, Flush.Run), Slot(0, room, Finish)]).status == ErrTrailing
  {
    hide F.LibKeeps, Unframe, F.Rest, F.IsPrefix, F.Process, RatioExceeded;
    var c, s := F.FramedCodec(lib, kind), New(lib, kind, opts);
    F.FramedKeeps(lib, x, kind, opts);
    F.StartIsOk(lib, x, kind);
    UnframeIsRest(lib, x, s, input);
    var d := Driver.Fresh(s, opts);
    var a := Allowance(d, room);
    assert F.OptsOf(s) == F.Seen(opts);
    WholeCall(lib, x, s, input, a, Finish);
    WholeCall(lib, x, s, input, a, Flush.Run);
    assert input[..|input|] == input;
    var once, twice := [Slot(0, room, Finish)], [Slot(|input|, room, Flush.Run), Slot(0, room, Finish)];
    assert once[1..] == [] && twice[1..] == [Slot(0, room, Finish)] && twice[1..][1..] == [];
    assert Offer(c, d, input, once[0]).status == ErrInvalidData;
    var r := Offer(c, d, input, twice[0]);
    assert r.status == NeedInput && input[r.used..] == [];
    LonePieceIsTrailing(lib, r.next, room);
    assert RunAll(c, r.next, [], twice[1..]).status == ErrTrailing;
    TwoCalls(c, d, input, twice);
  }

  lemma TwoCalls<S(!new)>(c: Codec<S>, d: Handle<S>, input: seq<byte>, slots: seq<Slot>)
    requires InWindow(c) && slots != []
    ensures var r := Offer(c, d, input, slots[0]);
            r.status.IsProgress() ==> RunAll(c, d, input, slots).status == RunAll(c, r.next, input[r.used..], slots[1..]).status
  {
    hide Offer;
  }

  lemma LonePieceIsTrailing<D(!new)>(lib: F.Lib<D>, d: Handle<F.State<D>>, room: nat)
    requires InWindow(F.FramedCodec(lib, d.s.kind)) && !d.finished && WithinLimits(d) && d.opts.maxRatio == 0
    requires d.s.place == F.Between && d.s.owed == None && d.s.held != [] && d.s.concat && d.s.reject
    ensures Offer(F.FramedCodec(lib, d.s.kind), d, [], Slot(0, room, Finish)).status == ErrTrailing
  {
    var a := Allowance(d, room);
    assert F.OneTurn(lib, d.s, [], a, Finish).Stop?;
    assert F.Process(lib, d.s, [], a, Finish) == Reply(d.s.(place := F.Done, held := []), 0, [], ErrTrailing);
  }
}
