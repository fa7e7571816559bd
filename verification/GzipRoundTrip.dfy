/** The DEFLATE family end to end: what the encoders write in any windows the
    decoders read back in any others. */
module GzipRoundTrip {
  import opened Zu
  import opened Codecs
  import opened Driver
  import opened EncodeDriver
  import opened Checksum
  import opened Inflate
  import opened DeflateDecoder
  import opened DeflateEncoder
  import opened Rfc1952
  import H = GzipHeader

  function EncoderCodec<C, E>(k: Compressor<C, E>, wrap: Wrap): (c: EncCodec<Enc<C>>) {
    EncCodec((level: int) => FreshEnc(k, wrap, level),
             (s: Enc<C>, w: seq<byte>, room: nat, f: Flush) => EncProcess(k, s, w, room, f), true,
             Some((s: Enc<C>, level: int) => ResetEnc(k, s, level)), Levels(0, 9, DEFAULT_LEVEL))
  }

  /** Levels 0 to 9, and 6 if none is asked for. */
  lemma EncoderAdvertises<C, E>(k: Compressor<C, E>, wrap: Wrap, level: int)
    ensures LevelOk(EncoderCodec(k, wrap).levels, level) <==> level == LEVEL_DEFAULT || 0 <= level <= 9
    ensures EncoderCodec(k, wrap).canFlush && FreshEnc(k, wrap, LEVEL_DEFAULT) == FreshEnc(k, wrap, 6)
    ensures level != LEVEL_DEFAULT ==> FreshEnc(k, wrap, level).c == k.start(level)
  {
  }

  lemma EncoderInWindow<C(!new), E(!new)>(k: Compressor<C, E>, wrap: Wrap)
    ensures EncInWindow(EncoderCodec(k, wrap))
  {
    hide EncProcess;
    forall s: Enc<C>, w: seq<byte>, room: nat, f: Flush ensures EncInside(EncoderCodec(k, wrap), s, w, room, f) {
      EncProcessFits(k, s, w, room, f);
    }
  }

  /** The wrapper is the codec's, and the level a settled one. */
  predicate EncOwn<C>(wrap: Wrap, s: Enc<C>) {
    s.wrap == wrap && s.level != LEVEL_DEFAULT
  }

  /** From any state a run can lead to, errors included, a reset is fresh at
      the level given, or else at the last. */
  lemma EncoderResetsClean<C(!new), E(!new)>(k: Compressor<C, E>, wrap: Wrap)
    ensures EncResetsClean(EncoderCodec(k, wrap), (s: Enc<C>) => EncOwn(wrap, s), (s: Enc<C>) => s.level)
  {
    hide EncProcess, FreshEnc, ResetEnc, EncOwn;
    var c, own, at := EncoderCodec(k, wrap), (s: Enc<C>) => EncOwn(wrap, s), (s: Enc<C>) => s.level;
    forall level: int ensures own(c.start(level)) && c.start(at(c.start(level))) == c.start(level) {
      FreshIsOwn(k, wrap, level);
    }
    forall s: Enc<C>, w: seq<byte>, room: nat, f: Flush ensures EncStaysOwn(c, own, at, s, w, room, f) {
      ProcessIsOwn(k, wrap, s, w, room, f);
    }
    forall s: Enc<C>, level: int | own(s) ensures c.reset.value(s, level) == c.start(Resolved(level, at(s))) {
      ResetIsOwn(k, wrap, s, level);
    }
  }

  lemma FreshIsOwn<C, E>(k: Compressor<C, E>, wrap: Wrap, level: int)
    ensures var s := FreshEnc(k, wrap, level); EncOwn(wrap, s) && FreshEnc(k, wrap, s.level) == s
  {
  }

  lemma ProcessIsOwn<C, E>(k: Compressor<C, E>, wrap: Wrap, s: Enc<C>, w: seq<byte>, room: nat, f: Flush)
    ensures var n := EncProcess(k, s, w, room, f).next; n.level == s.level && (EncOwn(wrap, s) ==> EncOwn(wrap, n))
  {
    hide EncProcess;
    EncProcessStays(k, s, w, room, f);
  }

  lemma ResetIsOwn<C, E>(k: Compressor<C, E>, wrap: Wrap, s: Enc<C>, level: int)
    requires EncOwn(wrap, s)
    ensures ResetEnc(k, s, level) == FreshEnc(k, wrap, Resolved(level, s.level))
  {
    ResetEncIsFresh(k, s, level);
    hide ResetEnc, FreshEnc;
  }

  lemma EncProcessFits<C, E>(k: Compressor<C, E>, s: Enc<C>, w: seq<byte>, room: nat, f: Flush)
    ensures var r := EncProcess(k, s, w, room, f); r.used <= |w| && |r.out| <= room
  {
  }

  /** No FINISH call of the run is offered more than 2^31 - 1 bytes. */
  ghost predicate Moderate<S(!new)>(c: EncCodec<S>, e: EncHandle<S>, rest: seq<byte>, slots: seq<Slot>)
    requires EncInWindow(c)
    decreases |slots|
  {
    slots != [] ==>
      && (slots[0].flush == Finish ==> |rest| <= 0x7FFF_FFFF)
      && var r := EncodeOffer(c, e, rest, slots[0]);
         r.status.IsProgress() ==> Moderate(c, r.next, rest[r.used..], slots[1..])
  }

  /** The wrapper around a DEFLATE stream for `x`. */
  ghost predicate Encoded<C, E>(k: Compressor<C, E>, wrap: Wrap, level: int, x: seq<byte>, b: seq<byte>, z: seq<byte>) {
    IsDeflate(k.g, k.x, b, x) && z == Stream(wrap, level, x, b)
  }

  lemma EncodeSlot<C(!new), E(!new)>(k: Compressor<C, E>, s: Enc<C>, x: seq<byte>, b: seq<byte>, z: seq<byte>,
                                     rest: seq<byte>, slot: Slot) returns (b': seq<byte>)
    requires CompressorKeeps(k) && EncInWindow(EncoderCodec(k, s.wrap)) && Wrote(k, s, x, b, z)
    ensures var r := EncodeOffer(EncoderCodec(k, s.wrap), EncHandle(s, false), rest, slot);
            var n := r.next.s;
            && n.wrap == s.wrap && n.level == s.level && r.status != Ok
            && (r.status == StreamEnd ==> Over(n) && Encoded(k, s.wrap, s.level, x + rest[..r.used], b', z + r.out))
            && (r.status.IsProgress() ==> Wrote(k, n, x + rest[..r.used], b', z + r.out) && !r.next.finished)
            && (!r.status.IsError() ==> TakesAll(k, s, n, r.used, rest[..Offered(slot, |rest|)], slot.flush))
  {
    hide Wrote, EncProcess, IsDeflate, Stream, CompressorKeeps, EncInWindow, TakesAll;
    var w, room := rest[..Offered(slot, |rest|)], slot.room;
    var p := EncProcess(k, s, w, room, slot.flush);
    EncProcessTakesAll(k, s, x, b, z, w, room, slot.flush);
    b' := EncProcessWrites(k, s, x, b, z, w, room, slot.flush);
    assert w[..p.used] == rest[..p.used];
    if p.status == StreamEnd {
      OverWrote(k, p.next, x + rest[..p.used], b', z + p.out);
    }
  }

  /** Every run that ends has written the wrapper around a DEFLATE stream for
      exactly the input it took; and it has taken all of it if no more than
      2^31 - 1 bytes were left whenever FINISH was said. */
  lemma {:induction false} EncodeWrites<C(!new), E(!new)>(k: Compressor<C, E>, s: Enc<C>, x: seq<byte>, b: seq<byte>, z: seq<byte>,
                                                          rest: seq<byte>, slots: seq<Slot>) returns (b': seq<byte>)
    requires CompressorKeeps(k) && EncInWindow(EncoderCodec(k, s.wrap)) && Wrote(k, s, x, b, z)
    ensures var c := EncoderCodec(k, s.wrap);
            var r := EncodeAll(c, EncHandle(s, false), rest, slots);
            r.status == StreamEnd ==>
              && Encoded(k, s.wrap, s.level, x + rest[..r.used], b', z + r.out)
              && (Moderate(c, EncHandle(s, false), rest, slots) && (Closed(k, s) ==> rest == []) ==> r.used == |rest|)
    decreases |slots|
  {
    hide Wrote, Encoded, CompressorKeeps, EncInWindow, EncodeOffer, Closed;
    b' := b;
    if slots != [] {
      var c := EncoderCodec(k, s.wrap);
      var r := EncodeOffer(c, EncHandle(s, false), rest, slots[0]);
      b' := EncodeSlot(k, s, x, b, z, rest, slots[0]);
      if r.status.IsProgress() {
        var left := rest[r.used..];
        b' := EncodeWrites(k, r.next.s, x + rest[..r.used], b', z + r.out, left, slots[1..]);
        var m := EncodeAll(c, r.next, left, slots[1..]);
        Regroup(x, rest, r.used, m.used, z, r.out, m.out);
      } else if r.status == StreamEnd {
        OverIsClosed(k, r.next.s);
      }
    }
  }

  lemma OverIsClosed<C, E>(k: Compressor<C, E>, s: Enc<C>)
    requires Over(s)
    ensures Closed(k, s)
  {
  }

  /** The converse, for an engine that takes what it is shown as soon as it is
      to finish, and a caller that says FINISH to the end: of an input longer
      than that when FINISH is said exactly 2^31 - 1 bytes are taken. */
  lemma {:induction false} FinishTakesTheClamp<C(!new), E(!new)>(k: Compressor<C, E>, s: Enc<C>, x: seq<byte>, b: seq<byte>, z: seq<byte>,
                                                                 rest: seq<byte>, slots: seq<Slot>)
    requires CompressorKeeps(k) && Eager(k) && EncInWindow(EncoderCodec(k, s.wrap)) && Wrote(k, s, x, b, z)
    requires forall i :: 0 <= i < |slots| ==> slots[i].flush == Finish
    ensures var r := EncodeAll(EncoderCodec(k, s.wrap), EncHandle(s, false), rest, slots);
            r.status == StreamEnd ==> r.used == if Closed(k, s) then 0 else Clamp(|rest|)
    decreases |slots|
  {
    hide Wrote, Encoded, CompressorKeeps, EncInWindow, EncodeOffer, Closed, Eager;
    if slots != [] {
      var r := EncodeOffer(EncoderCodec(k, s.wrap), EncHandle(s, false), rest, slots[0]);
      var b' := EncodeSlot(k, s, x, b, z, rest, slots[0]);
      if r.status.IsProgress() {
        FinishTakesTheClamp(k, r.next.s, x + rest[..r.used], b', z + r.out, rest[r.used..], slots[1..]);
        assert r.used == 0 ==> rest[0..] == rest;
      } else if r.status == StreamEnd {
        OverIsClosed(k, r.next.s);
      }
    }
  }

  /** So all of the input is taken exactly when no FINISH call of the run is
      offered more than 2^31 - 1 bytes. */
  lemma {:induction false} ModerateIsExact<C(!new), E(!new)>(k: Compressor<C, E>, s: Enc<C>, x: seq<byte>, b: seq<byte>, z: seq<byte>,
                                                             rest: seq<byte>, slots: seq<Slot>)
    requires CompressorKeeps(k) && Eager(k) && EncInWindow(EncoderCodec(k, s.wrap)) && Wrote(k, s, x, b, z)
    requires Steady(slots, true) && !Closed(k, s)
    ensures var c := EncoderCodec(k, s.wrap);
            var r := EncodeAll(c, EncHandle(s, false), rest, slots);
            r.status == StreamEnd ==> (r.used == |rest| <==> Moderate(c, EncHandle(s, false), rest, slots))
    decreases |slots|
  {
    hide Wrote, Encoded, CompressorKeeps, EncInWindow, EncodeOffer, Closed, Eager;
    if slots != [] {
      var c := EncoderCodec(k, s.wrap);
      var r := EncodeOffer(c, EncHandle(s, false), rest, slots[0]);
      if slots[0].flush == Finish {
        FinishTakesTheClamp(k, s, x, b, z, rest, slots);
        if |rest| <= CLAMP {
          AllModerate(c, EncHandle(s, false), rest, slots);
        }
      } else {
        var b' := EncodeSlot(k, s, x, b, z, rest, slots[0]);
        if r.status.IsProgress() {
          ModerateIsExact(k, r.next.s, x + rest[..r.used], b', z + r.out, rest[r.used..], slots[1..]);
        } else if r.status == StreamEnd {
          OverIsClosed(k, r.next.s);
        }
      }
    }
  }

  lemma {:induction false} AllModerate<S(!new)>(c: EncCodec<S>, e: EncHandle<S>, rest: seq<byte>, slots: seq<Slot>)
    requires EncInWindow(c) && |rest| <= CLAMP
    ensures Moderate(c, e, rest, slots)
    decreases |slots|
  {
    if slots != [] {
      var r := EncodeOffer(c, e, rest, slots[0]);
      if r.status.IsProgress() {
        AllModerate(c, r.next, rest[r.used..], slots[1..]);
      }
    }
  }

  lemma OverWrote<C, E>(k: Compressor<C, E>, s: Enc<C>, x: seq<byte>, b: seq<byte>, z: seq<byte>)
    requires Wrote(k, s, x, b, z) && s.place == Done
    ensures IsDeflate(k.g, k.x, b, x) && z == Stream(s.wrap, s.level, x, b)
  {
  }

  // ---- One stream ----------------------------------------------------------------------

  lemma FreshWrote<C(!new), E(!new)>(k: Compressor<C, E>, wrap: Wrap, level: int)
    requires CompressorKeeps(k)
    ensures Wrote(k, FreshEnc(k, wrap, level), [], [], [])
  {
    var s := FreshEnc(k, wrap, level);
    assert k.made(k.start(s.level), [], []) && !k.shut(k.start(s.level));
    assert Adler32(1, []) == 1 && Crc32(0, []) == 0;
    assert HeaderFor(wrap, s.level)[..0] == [];
  }

  /** What a fresh encoder's finished run has put out, FINISH not having been
      said with more than 2^31 - 1 bytes left. */
  ghost predicate Produced<C(!new), E(!new)>(k: Compressor<C, E>, wrap: Wrap, level: int,
                                             x: seq<byte>, slots: seq<Slot>, z: seq<byte>)
    requires EncInWindow(EncoderCodec(k, wrap))
  {
    var c, e := EncoderCodec(k, wrap), EncHandle(FreshEnc(k, wrap, level), false);
    var r := EncodeAll(c, e, x, slots);
    r.status == StreamEnd && r.out == z && Moderate(c, e, x, slots)
  }

  lemma ProducedIsStream<C(!new), E(!new)>(k: Compressor<C, E>, wrap: Wrap, level: int, x: seq<byte>, slots: seq<Slot>, z: seq<byte>)
    returns (b: seq<byte>)
    requires CompressorKeeps(k) && EncInWindow(EncoderCodec(k, wrap)) && Produced(k, wrap, level, x, slots, z)
    ensures Encoded(k, wrap, FreshEnc(k, wrap, level).level, x, b, z)
  {
    hide Wrote, Encoded, CompressorKeeps, EncInWindow, EncodeOffer, IsDeflate, Moderate;
    var s := FreshEnc(k, wrap, level);
    FreshWrote(k, wrap, level);
    FreshIsOpen(k, wrap, level);
    b := EncodeWrites(k, s, [], [], [], x, slots);
    assert [] + x[..|x|] == x && [] + z == z;
  }

  lemma FreshIsOpen<C(!new), E(!new)>(k: Compressor<C, E>, wrap: Wrap, level: int)
    requires CompressorKeeps(k)
    ensures var s := FreshEnc(k, wrap, level); !Closed(k, s) && s.wrap == wrap
  {
    var s := FreshEnc(k, wrap, level);
    assert k.made(k.start(s.level), [], []) && !k.shut(k.start(s.level));
  }

  /** The whole-buffer reading of each wrapper. */
  ghost function WholeDecode<E>(g: Engine<E>, x: EngineSem<E>, wrap: Wrap, concat: bool, s: seq<byte>): (o: Outcome) {
    match wrap
    case Gzip => Gunzip(g, x, s, concat)
    case Zlib => Unzlib(g, x, s)
    case Raw =>
      var i := x.inf(g.start, s);
      if !i.InfEnd? || i.used > |s| then NotEnded(i)
      else Complete(i.out, i.used, s[i.used..])
  }

  lemma WholeDecodeIsRest<E>(g: Engine<E>, x: EngineSem<E>, wrap: Wrap, concat: bool, reject: bool, s: seq<byte>)
    ensures Rest(g, x, DeflateDecoder.Fresh(g, wrap, concat, reject), s) == WholeDecode(g, x, wrap, concat, s)
  {
    var d := DeflateDecoder.Fresh(g, wrap, concat, reject);
    match wrap
    case Gzip => GunzipIsRest(g, x, d, s, concat);
    case Zlib => UnzlibIsRest(g, x, d, s);
    case Raw =>
  }

  /** A run of the decoder for `wrap` over `s`, from its creation. */
  ghost function Decoding<E(!new)>(g: Engine<E>, wrap: Wrap, opts: DecOpts, s: seq<byte>, slots: seq<Slot>): (r: RunResult<State<E>>)
    requires InWindow(DecoderCodec(g, wrap))
    ensures r.used <= |s|
  {
    RunAll(DecoderCodec(g, wrap), Driver.Fresh(DeflateDecoder.Fresh(g, wrap, opts.concat, opts.reject), opts), s, slots)
  }

  /** The run minds what the decoder asks: FINISH to the end once said, and
      then no more than 2^31 - 1 bytes left. */
  ghost predicate Minds<E(!new)>(g: Engine<E>, wrap: Wrap, opts: DecOpts, s: seq<byte>, slots: seq<Slot>)
    requires InWindow(DecoderCodec(g, wrap))
  {
    Driver.Proper(DecoderCodec(g, wrap), DEFLATE_ASKS,
                  Driver.Fresh(DeflateDecoder.Fresh(g, wrap, opts.concat, opts.reject), opts), START, s, slots)
  }

  /** On an input no longer than that, every caller that says FINISH to the
      end does. */
  lemma SteadyMinds<E(!new)>(g: Engine<E>, wrap: Wrap, opts: DecOpts, s: seq<byte>, slots: seq<Slot>)
    requires InWindow(DecoderCodec(g, wrap)) && Steady(slots, true) && |s| <= CLAMP
    ensures Minds(g, wrap, opts, s, slots)
  {
    SteadyIsProper(DecoderCodec(g, wrap), DEFLATE_ASKS,
                   Driver.Fresh(DeflateDecoder.Fresh(g, wrap, opts.concat, opts.reject), opts), START, s, slots);
  }

  lemma DecoderInWindow<E(!new)>(g: Engine<E>, wrap: Wrap)
    ensures InWindow(DecoderCodec(g, wrap))
  {
    hide Process;
    forall d: State<E>, w: seq<byte>, room: nat, f: Flush ensures Inside(DecoderCodec(g, wrap), d, w, room, f) { }
  }

  /** Any run, under any limits, comes to the whole-buffer decoder's outcome. */
  lemma DecodeVerdict<E(!new)>(g: Engine<E>, x: EngineSem<E>, wrap: Wrap, opts: DecOpts, s: seq<byte>, slots: seq<Slot>)
    requires EngineKeeps(g, x) && InWindow(DecoderCodec(g, wrap)) && Minds(g, wrap, opts, s, slots)
    requires !WholeDecode(g, x, wrap, opts.concat, s).Open?
    ensures var o, r := WholeDecode(g, x, wrap, opts.concat, s), Decoding(g, wrap, opts, s, slots);
            && Consistent(r.out, o)
            && (!r.status.IsProgress() ==>
                  EndsWell(o, opts, DecoderPolicy(wrap, opts.concat, opts.reject), r.status, r.out, r.used))
  {
    hide EngineKeeps, Keeps, InWindow, WholeDecode, Rest, Inv, EndsWell, RunAll, RunTo, Driver.Proper, Late;
    var c, sem, pol := DecoderCodec(g, wrap), DecoderSem(g, x, wrap, opts.concat, opts.reject), DecoderPolicy(wrap, opts.concat, opts.reject);
    DecoderKeeps(g, x, wrap, opts.concat, opts.reject);
    WholeDecodeIsRest(g, x, wrap, opts.concat, opts.reject, s);
    var d := DeflateDecoder.Fresh(g, wrap, opts.concat, opts.reject);
    FreshRunVerdict(c, sem, pol, d, opts, s, slots);
  }

  /** Main theorem, decoding. Any run over any bytes, in any windows, with any
      room and FINISH with the last bytes or after them, comes to the end the
      whole-buffer decoder comes to: a complete stream delivers all of its
      output; one that is wrong or cut short a prefix of what is good of it. */
  lemma DecodeInAnyWindows<E(!new)>(g: Engine<E>, x: EngineSem<E>, wrap: Wrap, opts: DecOpts, s: seq<byte>, slots: seq<Slot>)
    requires EngineKeeps(g, x) && InWindow(DecoderCodec(g, wrap)) && Minds(g, wrap, opts, s, slots)
    requires Ceiling(opts) == None && opts.maxRatio == 0
    ensures var o, r := WholeDecode(g, x, wrap, opts.concat, s), Decoding(g, wrap, opts, s, slots);
            if r.status.IsProgress() then Consistent(r.out, o)
            else PlainEnd(o, opts.reject, DecoderPolicy(wrap, opts.concat, opts.reject), r.status, r.out, r.used)
  {
    hide EngineKeeps, InWindow, WholeDecode, EndsWell, PlainEnd, RunAll, Driver.Proper, Ceiling;
    var o, r := WholeDecode(g, x, wrap, opts.concat, s), Decoding(g, wrap, opts, s, slots);
    if o.Open? {
      NothingSaid(o, opts.reject, DecoderPolicy(wrap, opts.concat, opts.reject), r.status, r.out, r.used);
    } else {
      DecodeVerdict(g, x, wrap, opts, s, slots);
      if !r.status.IsProgress() {
        EndsPlainly(o, opts, DecoderPolicy(wrap, opts.concat, opts.reject), r.status, r.out, r.used);
      }
    }
  }

  lemma NothingSaid(o: Outcome, reject: bool, pol: Policy, st: Status, done: seq<byte>, used: nat)
    requires o.Open?
    ensures PlainEnd(o, reject, pol, st, done, used) && Consistent(done, o)
  {
  }

  // ---- Round trips -----------------------------------------------------------------------

  /** One stream, and bytes after it, read back. */
  lemma StreamDecodes<C, E>(k: Compressor<C, E>, wrap: Wrap, level: int, x: seq<byte>, b: seq<byte>, z: seq<byte>, t: seq<byte>)
    requires Encoded(k, wrap, level, x, b, z) && wrap != Gzip
    ensures WholeDecode(k.g, k.x, wrap, false, z + t) == Complete(x, |z|, t)
  {
    hide Adler32, CheckZlib, ToBe32, Be32, IsZlibHeader;
    var h, u := HeaderFor(wrap, level), TrailerOf(wrap, x);
    var s := z + t;
    assert s == h + (b + (u + t));
    if wrap == Zlib {
      ZlibHeaderIsAccepted(level);
      assert s[0] == h[0] && s[1] == h[1] && s[2..] == b + (u + t) && s[..2] == [s[0], s[1]];
      CheckZlibIsGrammar(s[0], s[1]);
      OneKindOfZlib(s[0], s[1]);
      assert k.x.inf(k.g.start, b + (u + t)) == InfEnd(x, |b|);
      assert s[2 + |b|..2 + |b| + 4] == u;
    } else {
      assert k.x.inf(k.g.start, b + t) == InfEnd(x, |b|);
      assert s == b + t;
    }
  }

  lemma GzipStreamIsMember<C, E>(k: Compressor<C, E>, level: int, x: seq<byte>, b: seq<byte>, z: seq<byte>) returns (m: Member)
    requires Encoded(k, Gzip, level, x, b, z)
    ensures IsMember(k.g, k.x, m) && m.data == x && Bytes(m) == z
  {
    hide Crc32, IsDeflate, H.Print;
    var f := H.WrittenIsPrint();
    m := Member(f, b, x);
  }

  /** Payloads xs, each encoded on its own in its own windows, as zs. */
  ghost predicate AllProduced<C(!new), E(!new)>(k: Compressor<C, E>, level: int, xs: seq<seq<byte>>, ess: seq<seq<Slot>>, zs: seq<seq<byte>>)
    requires EncInWindow(EncoderCodec(k, Gzip))
    decreases |xs|
  {
    && |xs| == |ess| == |zs|
    && (xs != [] ==> Produced(k, Gzip, level, xs[0], ess[0], zs[0]) && AllProduced(k, level, xs[1..], ess[1..], zs[1..]))
  }

  lemma {:induction false} ProducedAreMembers<C(!new), E(!new)>(k: Compressor<C, E>, level: int, xs: seq<seq<byte>>, ess: seq<seq<Slot>>, zs: seq<seq<byte>>)
    returns (ms: seq<Member>)
    requires CompressorKeeps(k) && EncInWindow(EncoderCodec(k, Gzip)) && AllProduced(k, level, xs, ess, zs)
    ensures AreMembers(k.g, k.x, ms) && File(k.g, k.x, ms) == Concat(zs) && Data(ms) == Concat(xs) && |ms| == |xs|
    decreases |xs|
  {
    hide Produced, Encoded, CompressorKeeps, EncInWindow, IsMember, Bytes, FreshEnc;
    if xs == [] {
      ms := [];
    } else {
      var b := ProducedIsStream(k, Gzip, level, xs[0], ess[0], zs[0]);
      var m := GzipStreamIsMember(k, FreshEnc(k, Gzip, level).level, xs[0], b, zs[0]);
      var more := ProducedAreMembers(k, level, xs[1..], ess[1..], zs[1..]);
      ms := [m] + more;
      assert ms[1..] == more;
    }
  }

  /** Main theorem, round trip. Payloads encoded one by one as gzip, whatever
      the windows, put end to end and decoded with concatenation on, in any
      other windows, with trailing bytes refused: the payloads come back, the
      stream ends, and every byte is consumed. */
  lemma GzipRoundTrip<C(!new), E(!new)>(k: Compressor<C, E>, level: int, xs: seq<seq<byte>>, ess: seq<seq<Slot>>, zs: seq<seq<byte>>,
                                        opts: DecOpts, slots: seq<Slot>)
    requires CompressorKeeps(k) && EngineKeeps(k.g, k.x)
    requires EncInWindow(EncoderCodec(k, Gzip)) && InWindow(DecoderCodec(k.g, Gzip))
    requires xs != [] && AllProduced(k, level, xs, ess, zs)
    requires opts.concat && opts.reject && Ceiling(opts) == None && opts.maxRatio == 0
    requires Minds(k.g, Gzip, opts, Concat(zs), slots)
    ensures var r := Decoding(k.g, Gzip, opts, Concat(zs), slots);
            if r.status.IsProgress() then r.out <= Concat(xs)
            else r.status == StreamEnd && r.out == Concat(xs) && r.used == |Concat(zs)|
  {
    hide CompressorKeeps, EngineKeeps, EncInWindow, AllProduced, InWindow, RunAll, Gunzip, Minds, Decoding;
    var ms := ProducedAreMembers(k, level, xs, ess, zs);
    assert Concat(zs) + [] == Concat(zs);
    FileDecodes(k.g, k.x, ms, []);
    DecodeInAnyWindows(k.g, k.x, Gzip, opts, Concat(zs), slots);
  }

  /** Likewise one zlib or raw stream, whether or not trailing bytes are refused
      or concatenation asked for. */
  lemma SingleRoundTrip<C(!new), E(!new)>(k: Compressor<C, E>, wrap: Wrap, level: int, x: seq<byte>, es: seq<Slot>, z: seq<byte>,
                                          opts: DecOpts, slots: seq<Slot>)
    requires CompressorKeeps(k) && EngineKeeps(k.g, k.x) && wrap != Gzip
    requires EncInWindow(EncoderCodec(k, wrap)) && InWindow(DecoderCodec(k.g, wrap))
    requires Produced(k, wrap, level, x, es, z)
    requires Ceiling(opts) == None && opts.maxRatio == 0
    requires Minds(k.g, wrap, opts, z, slots)
    ensures var r := Decoding(k.g, wrap, opts, z, slots);
            if r.status.IsProgress() then r.out <= x
            else r.status == StreamEnd && r.out == x && r.used == |z|
  {
    hide CompressorKeeps, EngineKeeps, EncInWindow, InWindow, RunAll, WholeDecode, Produced, Encoded, FreshEnc, Minds, Decoding;
    var b := ProducedIsStream(k, wrap, level, x, es, z);
    assert z + [] == z;
    StreamDecodes(k, wrap, FreshEnc(k, wrap, level).level, x, b, z, []);
    ConcatIsForGzip(k.g, k.x, wrap, opts.concat, z);
    DecodeInAnyWindows(k.g, k.x, wrap, opts, z, slots);
  }

  lemma ConcatIsForGzip<E>(g: Engine<E>, x: EngineSem<E>, wrap: Wrap, concat: bool, s: seq<byte>)
    requires wrap != Gzip
    ensures WholeDecode(g, x, wrap, concat, s) == WholeDecode(g, x, wrap, false, s)
  {
  }
}
