/** zu_compress_bound for the DEFLATE family (src/codec_deflate.c) and the
    one-shot encoder (src/zu_stream.c) that relies on it. */
module DeflateBound {
  import opened Zu
  import opened Sizes
  import opened Codecs
  import opened Driver
  import opened EncodeDriver
  import opened Checksum
  import opened Inflate
  import opened DeflateDecoder
  import opened DeflateEncoder
  import opened Rfc1952
  import opened GzipRoundTrip

  /** zu_int_deflate_bound: n + n/64 + 64 + wrapper, or no answer. */
  function Bound(n: size_t, wrapper: size_t): (r: Option<size_t>) {
    match Add(n, n / 64)
    case None => None
    case Some(total) => if 64 + wrapper > SIZE_MAX then None else Add(total, 64 + wrapper)
  }

  function WrapperLen(wrap: Wrap): (n: size_t) {
    match wrap
    case Raw => 0
    case Zlib => 6
    case Gzip => 18
  }

  /** Stored blocks: five bytes for every 65535, and for the last. */
  function StoredSize(n: nat): (m: nat) {
    n + 5 * (n / 65535 + 1)
  }

  /** There is a bound exactly when the sum fits, and it is the sum. */
  lemma BoundIsExact(n: size_t, wrap: Wrap)
    ensures var sum := n + n / 64 + 64 + (match wrap case Raw => 0 case Zlib => 2 + 4 case Gzip => 10 + 8);
            Bound(n, WrapperLen(wrap)) == if sum <= 0xFFFF_FFFF_FFFF_FFFF then Some(sum) else None
  {
  }

  /** The bound leaves at least a byte over what stored blocks can need, so
      an encoder never finds its window full before it has ended. */
  lemma BoundLeavesAByte(n: size_t, wrap: Wrap)
    requires Bound(n, WrapperLen(wrap)).Some?
    ensures Bound(n, WrapperLen(wrap)).value > StoredSize(n) + WrapperLen(wrap)
  {
    var q := n / 65535;
    assert n >= 65535 * q && n / 64 >= 1023 * q;
  }

  // ---- The engine -------------------------------------------------------------------

  /** `fits(c, n, m, j)`: asked only to finish an input of n bytes, the engine
      in state `c` has taken m of them and written j, within the stored size. */
  ghost predicate Expands<C, E>(k: Compressor<C, E>, fits: (C, nat, nat, nat) -> bool,
                                c: C, n: nat, m: nat, j: nat, w: seq<byte>, room: nat) {
    fits(c, n, m, j) && room > 0 && m + |w| == n ==>
      var t := k.step(c, w, room, MzFinish);
      && !t.mz.MzError? && j + |t.out| <= StoredSize(n)
      && (t.mz == MzOk ==> fits(t.next, n, m + t.used, j + |t.out|))
  }

  ghost predicate ExpandsLittle<C(!new), E(!new)>(k: Compressor<C, E>, fits: (C, nat, nat, nat) -> bool) {
    && (forall level: int, n: nat :: fits(k.start(level), n, 0, 0))
    && forall c: C, n: nat, m: nat, j: nat, w: seq<byte>, room: nat :: Expands(k, fits, c, n, m, j, w, room)
  }

  // ---- What is still to come -----------------------------------------------------------

  /** Output still possible in state `s` of an input of n bytes of which m are
      taken: header, body and trailer bytes not written yet, all of them less
      than `total`. */
  ghost predicate Within<C, E>(k: Compressor<C, E>, fits: (C, nat, nat, nat) -> bool, s: Enc<C>,
                               n: nat, m: nat, total: nat) {
    match s.place
    case Header =>
      && m == 0 && s.hdrPos <= |s.hdr| && fits(s.c, n, 0, 0)
      && total > |s.hdr| - s.hdrPos + StoredSize(n) + TailLen(s.wrap)
    case Body => exists j: nat :: fits(s.c, n, m, j) && total + j > StoredSize(n) + TailLen(s.wrap)
    case Trailer => s.tailPos <= |s.tail| && total > |s.tail| - s.tailPos
    case _ => true
  }

  predicate Unfinished<C>(s: Enc<C>) {
    s.place == Header || s.place == Body || s.place == Trailer
  }

  /** A FINISH call over all that is left ends the stream, or fills its room and
      leaves no more to come than before, less what it wrote. */
  lemma {:induction false} FinishCall<C(!new), E(!new)>(k: Compressor<C, E>, fits: (C, nat, nat, nat) -> bool, s: Enc<C>,
                                                        x: seq<byte>, b: seq<byte>, z: seq<byte>,
                                                        n: nat, m: nat, w: seq<byte>, room: nat, total: nat)
    requires CompressorKeeps(k) && ExpandsLittle(k, fits) && Wrote(k, s, x, b, z)
    requires n <= CLAMP && m + |w| == n && Within(k, fits, s, n, m, total)
    ensures var r := EncProcess(k, s, w, room, Finish);
            || r.status == StreamEnd
            || (r.status == NeedOutput && |r.out| == room <= total && Within(k, fits, r.next, n, m + r.used, total - room) && Unfinished(r.next))
    decreases |w| + room, EncRank(s)
  {
    hide CompressorKeeps, ExpandsLittle, Wrote, EncTurn, EncRank, Within;
    var i := EncTurn(k, s, w, room, Finish);
    EncTurnMoves(k, s, w, room, Finish);
    var b' := EncTurnWrites(k, s, x, b, z, w, room, Finish);
    FinishTurn(k, fits, s, x, b, z, n, m, w, room, total);
    if i.Go? {
      FinishCall(k, fits, i.next, x + w[..i.used], b', z + i.out, n, m + i.used, w[i.used..], room - |i.out|, total - |i.out|);
    }
  }

  /** What one turn of such a call leads to. */
  ghost predicate Finishing<C, E>(k: Compressor<C, E>, fits: (C, nat, nat, nat) -> bool, i: Iter<Enc<C>>, s: Enc<C>,
                                  n: nat, m: nat, w: seq<byte>, room: nat, total: nat) {
    match i
    case Stop(r) =>
      || r.status == StreamEnd
      || (r.status == NeedOutput && r.used == 0 && r.out == [] && room == 0 && r.next == s && Unfinished(s))
    case Go(next, used, out) =>
      used <= |w| && |out| <= room && |out| <= total && Within(k, fits, next, n, m + used, total - |out|)
  }

  lemma FinishTurn<C(!new), E(!new)>(k: Compressor<C, E>, fits: (C, nat, nat, nat) -> bool, s: Enc<C>,
                                     x: seq<byte>, b: seq<byte>, z: seq<byte>,
                                     n: nat, m: nat, w: seq<byte>, room: nat, total: nat)
    requires CompressorKeeps(k) && ExpandsLittle(k, fits) && Wrote(k, s, x, b, z)
    requires n <= CLAMP && m + |w| == n && Within(k, fits, s, n, m, total)
    ensures Finishing(k, fits, EncTurn(k, s, w, room, Finish), s, n, m, w, room, total)
  {
    hide IsDeflate, ChecksumUpdate, TrailerFor, StoredSize;
    if s.place == Body && room > 0 {
      var j: nat :| fits(s.c, n, m, j) && total + j > StoredSize(n) + TailLen(s.wrap);
      BodyFinishes(k, fits, s, x, b, z, n, m, j, w, room, total);
    } else if s.place == Header && s.hdrPos == |s.hdr| {
      assert fits(s.c, n, 0, 0) && total + 0 > StoredSize(n) + TailLen(s.wrap);
    }
  }

  lemma BodyFinishes<C(!new), E(!new)>(k: Compressor<C, E>, fits: (C, nat, nat, nat) -> bool, s: Enc<C>,
                                       x: seq<byte>, b: seq<byte>, z: seq<byte>,
                                       n: nat, m: nat, j: nat, w: seq<byte>, room: nat, total: nat)
    requires CompressorKeeps(k) && ExpandsLittle(k, fits) && Wrote(k, s, x, b, z) && s.place == Body
    requires n <= CLAMP && m + |w| == n && fits(s.c, n, m, j) && total + j > StoredSize(n) + TailLen(s.wrap) && room > 0
    ensures Finishing(k, fits, EncTurn(k, s, w, room, Finish), s, n, m, w, room, total)
  {
    hide IsDeflate, ChecksumUpdate, TrailerFor, StoredSize;
    FitsWithin(k, fits, s.c, n, m, j, w);
    var w1, room1 := w[..Clamp(|w|)], Clamp(room);
    assert w1 == w && room1 > 0;
    assert CompressKeeps(k, s.c, x, b, w, room1, MzFinish);
    assert Expands(k, fits, s.c, n, m, j, w, room1);
    var t := k.step(s.c, w, room1, MzFinish);
    if t.mz == MzOk {
      assert fits(t.next, n, m + t.used, j + |t.out|);
      assert total - |t.out| + (j + |t.out|) > StoredSize(n) + TailLen(s.wrap);
    }
  }

  /** What has been written is within the stored size. */
  lemma FitsWithin<C(!new), E(!new)>(k: Compressor<C, E>, fits: (C, nat, nat, nat) -> bool, c: C, n: nat, m: nat, j: nat, w: seq<byte>)
    requires ExpandsLittle(k, fits) && fits(c, n, m, j) && m + |w| == n
    ensures j <= StoredSize(n)
  {
    assert Expands(k, fits, c, n, m, j, w, 1);
  }

  /** Nothing is left of the room only when the stream is over. */
  lemma NoneLeft<C(!new), E(!new)>(k: Compressor<C, E>, fits: (C, nat, nat, nat) -> bool, s: Enc<C>, n: nat, m: nat)
    requires ExpandsLittle(k, fits) && m <= n && Within(k, fits, s, n, m, 0)
    ensures !Unfinished(s)
  {
    if s.place == Body {
      var j: nat :| fits(s.c, n, m, j) && 0 + j > StoredSize(n) + TailLen(s.wrap);
      FitsWithin(k, fits, s.c, n, m, j, seq(n - m, _ => 0));
    }
  }

  // ---- Runs ------------------------------------------------------------------------------

  /** Room for the header, the stored size and the trailer, and a byte. */
  lemma FreshWithin<C(!new), E(!new)>(k: Compressor<C, E>, fits: (C, nat, nat, nat) -> bool, wrap: Wrap, level: int, n: nat, total: nat)
    requires ExpandsLittle(k, fits) && total > StoredSize(n) + WrapperLen(wrap)
    ensures Within(k, fits, FreshEnc(k, wrap, level), n, 0, total)
  {
    hide StoredSize;
    var s := FreshEnc(k, wrap, level);
    assert fits(k.start(s.level), n, 0, 0);
    if wrap == Raw {
      assert fits(s.c, n, 0, 0) && total + 0 > StoredSize(n) + TailLen(wrap);
    }
  }

  /** Told to finish, with that much room in all, the run ends. */
  lemma {:induction false} FinishRunEnds<C(!new), E(!new)>(k: Compressor<C, E>, fits: (C, nat, nat, nat) -> bool, s: Enc<C>,
                                                           x: seq<byte>, b: seq<byte>, z: seq<byte>,
                                                           n: nat, m: nat, rest: seq<byte>, slots: seq<Slot>, total: nat)
    requires CompressorKeeps(k) && ExpandsLittle(k, fits) && Wrote(k, s, x, b, z) && EncInWindow(EncoderCodec(k, s.wrap))
    requires n <= CLAMP && m + |rest| == n && Within(k, fits, s, n, m, total) && Unfinished(s)
    requires (forall i :: 0 <= i < |slots| ==> slots[i].flush == Finish) && Rooms(slots) >= total
    ensures EncodeAll(EncoderCodec(k, s.wrap), EncHandle(s, false), rest, slots).status == StreamEnd
    decreases |slots|
  {
    hide CompressorKeeps, ExpandsLittle, Wrote, EncProcess, Within, EncInWindow, TakesAll, Encoded;
    if slots == [] {
      NoneLeft(k, fits, s, n, m);
    } else {
      var r := EncodeOffer(EncoderCodec(k, s.wrap), EncHandle(s, false), rest, slots[0]);
      assert rest[..|rest|] == rest;
      FinishCall(k, fits, s, x, b, z, n, m, rest, slots[0].room, total);
      var b' := EncodeSlot(k, s, x, b, z, rest, slots[0]);
      if r.status.IsProgress() {
        FinishRunEnds(k, fits, r.next.s, x + rest[..r.used], b', z + r.out, n, m + r.used, rest[r.used..], slots[1..], total - slots[0].room);
      }
    }
  }

  /** Main theorem, liveness. Over an engine that expands little, FINISH calls
      with more room in all than header, stored size and trailer end the
      stream: the wrapper around a DEFLATE stream of all the input. */
  lemma DeflateEncodeEnds<C(!new), E(!new)>(k: Compressor<C, E>, fits: (C, nat, nat, nat) -> bool, wrap: Wrap, level: int,
                                            src: seq<byte>, slots: seq<Slot>) returns (b: seq<byte>)
    requires CompressorKeeps(k) && ExpandsLittle(k, fits) && EncInWindow(EncoderCodec(k, wrap)) && |src| <= CLAMP
    requires (forall i :: 0 <= i < |slots| ==> slots[i].flush == Finish) && Rooms(slots) > StoredSize(|src|) + WrapperLen(wrap)
    ensures var s := FreshEnc(k, wrap, level);
            var r := EncodeAll(EncoderCodec(k, wrap), EncHandle(s, false), src, slots);
            r.status == StreamEnd && r.used == |src| && Encoded(k, wrap, s.level, src, b, r.out)
  {
    hide CompressorKeeps, ExpandsLittle, Wrote, Within, EncInWindow, Encoded, EncodeAll, StoredSize;
    var s, none: seq<byte> := FreshEnc(k, wrap, level), [];
    FreshIsOpen(k, wrap, level);
    FreshWithin(k, fits, wrap, level, |src|, Rooms(slots));
    FinishRunEnds(k, fits, s, none, none, none, |src|, 0, src, slots, Rooms(slots));
    AllModerate(EncoderCodec(k, wrap), EncHandle(s, false), src, slots);
    b := EncodeWrites(k, s, none, none, none, src, slots);
    var r := EncodeAll(EncoderCodec(k, wrap), EncHandle(s, false), src, slots);
    assert src[..|src|] == src && none + src == src && none + r.out == r.out;
  }

  lemma FreshIsOpen<C(!new), E(!new)>(k: Compressor<C, E>, wrap: Wrap, level: int)
    requires CompressorKeeps(k)
    ensures var s := FreshEnc(k, wrap, level); Wrote(k, s, [], [], []) && Unfinished(s) && s.wrap == wrap && !Closed(k, s)
  {
    FreshWrote(k, wrap, level);
  }

  // ---- One shot ---------------------------------------------------------------------

  datatype Shot<+S> = Shot(e: EncHandle<S>, status: Status, out: seq<byte>, used: nat)

  /** zu_int_one_shot, encoding. */
  function OneShot<S(!new)>(c: EncCodec<S>, e: EncHandle<S>, w: seq<byte>, cap: nat): (r: Shot<S>)
    requires EncInWindow(c)
    decreases |w| + cap
  {
    assert EncInside(c, e.s, w, cap, Finish);
    var r := EncodeCall(c, e, w, cap, Finish);
    if r.status == StreamEnd then Shot(r.next, Ok, r.out, r.used)
    else if !r.status.IsProgress() then Shot(r.next, r.status, r.out, r.used)
    else if r.status == NeedOutput && |r.out| == cap then Shot(r.next, ErrOutputLimit, r.out, r.used)
    else if r.out == [] && r.used == 0 then Shot(r.next, ErrInternal, r.out, r.used)
    else
      var n := OneShot(c, r.next, w[r.used..], cap - |r.out|);
      Shot(n.e, n.status, r.out + n.out, r.used + n.used)
  }

  /** Main theorem. A buffer of zu_compress_bound bytes always suffices: the
      one-shot encoder answers ZU_OK for raw, zlib and gzip, at every level,
      and has written the whole stream for all of its input. */
  lemma BoundSuffices<C(!new), E(!new)>(k: Compressor<C, E>, fits: (C, nat, nat, nat) -> bool, wrap: Wrap, level: int, src: seq<byte>, cap: nat)
    returns (b: seq<byte>)
    requires CompressorKeeps(k) && ExpandsLittle(k, fits) && EncInWindow(EncoderCodec(k, wrap))
    requires |src| <= CLAMP && Bound(|src|, WrapperLen(wrap)).Some? && cap >= Bound(|src|, WrapperLen(wrap)).value
    ensures var s := FreshEnc(k, wrap, level);
            var r := OneShot(EncoderCodec(k, wrap), EncHandle(s, false), src, cap);
            r.status == Ok && r.used == |src| && Encoded(k, wrap, s.level, src, b, r.out)
  {
    BoundLeavesAByte(|src|, wrap);
    hide CompressorKeeps, ExpandsLittle, EncInWindow, Encoded, StoredSize, EncProcess, Bound;
    var slot := Slot(0, cap, Finish);
    assert Rooms([slot]) == cap by { assert [slot][1..] == []; }
    b := DeflateEncodeEnds(k, fits, wrap, level, src, [slot]);
    OneSlotShot(EncoderCodec(k, wrap), EncHandle(FreshEnc(k, wrap, level), false), src, cap);
  }

  /** A run of one FINISH call that ends is the one-shot encoder's. */
  lemma OneSlotShot<S(!new)>(c: EncCodec<S>, e: EncHandle<S>, w: seq<byte>, cap: nat)
    requires EncInWindow(c) && EncodeAll(c, e, w, [Slot(0, cap, Finish)]).status == StreamEnd
    ensures var r, n := OneShot(c, e, w, cap), EncodeAll(c, e, w, [Slot(0, cap, Finish)]);
            r.status == Ok && r.used == n.used && r.out == n.out
  {
    hide EncInWindow;
    assert w[..|w|] == w && [Slot(0, cap, Finish)][1..] == [];
  }
}
