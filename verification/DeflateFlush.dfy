/** FLUSH of the DEFLATE encoders. mz_deflate() does not say when a sync flush is
    complete, and the call asks it again for as long as it writes; so what FLUSH
    promises is a matter of the room that is left. */
module DeflateFlush {
  import opened Zu
  import opened Codecs
  import opened Driver
  import opened EncodeDriver
  import opened Inflate
  import opened DeflateDecoder
  import opened DeflateEncoder
  import opened Rfc1952
  import opened GzipRoundTrip
  import H = GzipHeader

  /** `b` is as much of a DEFLATE stream as inflates to `x`. */
  ghost predicate Shows<C, E>(k: Compressor<C, E>, x: seq<byte>, b: seq<byte>) {
    k.x.inf(k.g.start, b) == InfCut(x)
  }

  /** Sync flushing. idle(c): nothing that is written waits for room. What leaves
      room leaves nothing waiting; begun with nothing waiting, and having taken
      its window, it shows all that was given; it stands still only if that is
      shown already; and what shows all that was given still does when more is
      flushed. */
  ghost predicate Syncs<C, E>(k: Compressor<C, E>, idle: C -> bool, c: C, x: seq<byte>, z: seq<byte>, w: seq<byte>, room: nat) {
    k.made(c, x, z) && !k.shut(c) && room > 0 ==>
      var t := k.step(c, w, room, MzSyncFlush);
      t.mz == MzOk ==>
        && (|t.out| < room ==> idle(t.next))
        && (idle(c) && t.used == |w| && |t.out| < room ==> Shows(k, x + w, z + t.out))
        && (t.used == 0 && t.out == [] ==> Shows(k, x, z))
        && (w == [] && Shows(k, x, z) ==> Shows(k, x, z + t.out))
  }

  ghost predicate SyncKeeps<C(!new), E>(k: Compressor<C, E>, idle: C -> bool) {
    forall c: C, x: seq<byte>, z: seq<byte>, w: seq<byte>, room: nat :: Syncs(k, idle, c, x, z, w, room)
  }

  /** There is room for the flush: some turn of the call leaves room, and so does
      the next, which has taken all of the window. `left`: the turn before left
      room. */
  predicate FlushFits<C, E>(k: Compressor<C, E>, s: Enc<C>, w: seq<byte>, room: nat, left: bool)
    decreases |w| + room, EncRank(s)
  {
    var i := EncTurn(k, s, w, room, FlushNow);
    i.Go? && var leaves := s.place == Body && |i.out| < Clamp(room);
    (leaves && left && i.used == |w|) || FlushFits(k, i.next, w[i.used..], room - |i.out|, leaves)
  }

  /** Taken `x` and not told to finish; with `left`, nothing waits. */
  ghost predicate OpenAt<C, E>(k: Compressor<C, E>, idle: C -> bool, s: Enc<C>, x: seq<byte>, b: seq<byte>, z: seq<byte>, left: bool) {
    Wrote(k, s, x, b, z) && !Closed(k, s) && (left ==> s.place == Body && idle(s.c))
  }

  /** One turn: where it goes on, or stands still. */
  ghost predicate TurnFlushes<C, E>(k: Compressor<C, E>, idle: C -> bool, s: Enc<C>, i: Iter<Enc<C>>, x: seq<byte>, b: seq<byte>,
                                    z: seq<byte>, w: seq<byte>, room: nat, left: bool, b': seq<byte>) {
    match i
    case Go(next, used, out) =>
      && used <= |w| && |out| <= room && (s.place == Body ==> next.place == Body)
      && var leaves := s.place == Body && |out| < Clamp(room);
         && OpenAt(k, idle, next, x + w[..used], b', z + out, leaves)
         && (leaves && left && used == |w| ==> Shows(k, x + w, b'))
         && (w == [] && Shows(k, x, b) ==> Shows(k, x, b'))
    case Stop(r) =>
      r.status.IsError() || (r.used == 0 && r.out == [] && b' == b && r.next.place == s.place && OpenAt(k, idle, r.next, x, b, z, false)
                             && (r.status == NeedInput ==> w == [] && r.next.place == Body && Shows(k, x, b)))
  }

  lemma HeaderFlushes<C(!new), E(!new)>(k: Compressor<C, E>, idle: C -> bool, s: Enc<C>, x: seq<byte>, b: seq<byte>, z: seq<byte>,
                                        w: seq<byte>, room: nat, left: bool)
    requires OpenAt(k, idle, s, x, b, z, left) && s.place == Header
    ensures TurnFlushes(k, idle, s, EncTurn(k, s, w, room, FlushNow), x, b, z, w, room, left, b)
  {
    HeaderWrites(k, s, x, b, z, w, room, FlushNow);
    assert x + w[..0] == x;
    hide Wrote, Shows;
  }

  lemma BodyFlushes<C(!new), E(!new)>(k: Compressor<C, E>, idle: C -> bool, s: Enc<C>, x: seq<byte>, b: seq<byte>, z: seq<byte>,
                                      w: seq<byte>, room: nat, left: bool) returns (b': seq<byte>)
    requires CompressorKeeps(k) && SyncKeeps(k, idle) && OpenAt(k, idle, s, x, b, z, left) && s.place == Body
    ensures TurnFlushes(k, idle, s, EncTurn(k, s, w, room, FlushNow), x, b, z, w, room, left, b')
  {
    b' := b;
    var w1, room1 := w[..Clamp(|w|)], Clamp(room);
    var t := Press(k, s.c, w1, room1, MzSyncFlush);
    if room > 0 {
      assert CompressKeeps(k, s.c, x, b, w1, room1, MzSyncFlush) && Syncs(k, idle, s.c, x, b, w1, room1);
      hide CompressorKeeps, SyncKeeps, IsDeflate, TrailerFor, ChecksumUpdate, Shows, ChecksumInit, HeaderFor;
      if t.mz == MzOk {
        assert w1[..t.used] == w[..t.used] && (t.used == |w| ==> w1 == w && w[..t.used] == w);
        PressedWrote(k, s, x, b, z, w, t);
        b' := b + t.out;
        assert x + w[..0] == x && (t.out == [] ==> b' == b && z + t.out == z);
      }
    }
  }

  lemma TurnIsFlush<C(!new), E(!new)>(k: Compressor<C, E>, idle: C -> bool, s: Enc<C>, x: seq<byte>, b: seq<byte>, z: seq<byte>,
                                      w: seq<byte>, room: nat, left: bool) returns (b': seq<byte>)
    requires CompressorKeeps(k) && SyncKeeps(k, idle) && OpenAt(k, idle, s, x, b, z, left)
    ensures TurnFlushes(k, idle, s, EncTurn(k, s, w, room, FlushNow), x, b, z, w, room, left, b')
  {
    hide CompressorKeeps, SyncKeeps, TurnFlushes, EncTurn, Wrote;
    if s.place == Header {
      HeaderFlushes(k, idle, s, x, b, z, w, room, left);
      b' := b;
    } else {
      b' := BodyFlushes(k, idle, s, x, b, z, w, room, left);
    }
  }

  /** Once all is shown it stays so, however often the library is asked again. */
  lemma {:induction false} StaysShown<C(!new), E(!new)>(k: Compressor<C, E>, idle: C -> bool, s: Enc<C>, x: seq<byte>, b: seq<byte>,
                                                        z: seq<byte>, room: nat) returns (b': seq<byte>)
    requires CompressorKeeps(k) && SyncKeeps(k, idle) && OpenAt(k, idle, s, x, b, z, false) && s.place == Body && Shows(k, x, b)
    ensures var r := EncProcess(k, s, [], room, FlushNow);
            !r.status.IsError() ==> r.used == 0 && Wrote(k, r.next, x, b', z + r.out) && r.next.place == Body && Shows(k, x, b')
    decreases room
  {
    hide CompressorKeeps, SyncKeeps, EncTurn, Wrote, Shows, OpenAt;
    var none: seq<byte> := [];
    var i := EncTurn(k, s, none, room, FlushNow);
    EncTurnMoves(k, s, none, room, FlushNow);
    b' := TurnIsFlush(k, idle, s, x, b, z, none, room, false);
    assert x + none == x && z + none == z && none[0..] == none && none[..0] == none;
    if i.Go? {
      Weaker(k, idle, i.next, x, b', z + i.out);
      b' := StaysShown(k, idle, i.next, x, b', z + i.out, room - |i.out|);
      var r := EncProcess(k, i.next, none, room - |i.out|, FlushNow);
      assert z + i.out + r.out == z + (i.out + r.out);
    } else if !i.reply.status.IsError() {
      assert OpenAt(k, idle, i.reply.next, x, b, z, false);
      StillWrote(k, idle, i.reply.next, x, b, z);
    }
  }

  lemma StillWrote<C, E>(k: Compressor<C, E>, idle: C -> bool, s: Enc<C>, x: seq<byte>, b: seq<byte>, z: seq<byte>)
    requires OpenAt(k, idle, s, x, b, z, false)
    ensures Wrote(k, s, x, b, z)
  {
  }

  lemma Weaker<C, E>(k: Compressor<C, E>, idle: C -> bool, s: Enc<C>, x: seq<byte>, b: seq<byte>, z: seq<byte>)
    requires OpenAt(k, idle, s, x, b, z, true) || OpenAt(k, idle, s, x, b, z, false)
    ensures OpenAt(k, idle, s, x, b, z, false)
  {
  }

  /** A call of FLUSH that has room for the flush, or that asks for input, has
      taken its window, and what is out is the header and a body that inflates
      to all that was taken. */
  lemma {:induction false} FlushedShows<C(!new), E(!new)>(k: Compressor<C, E>, idle: C -> bool, s: Enc<C>, x: seq<byte>, b: seq<byte>,
                                                          z: seq<byte>, w: seq<byte>, room: nat, left: bool) returns (b': seq<byte>)
    requires CompressorKeeps(k) && SyncKeeps(k, idle) && OpenAt(k, idle, s, x, b, z, left)
    ensures var r := EncProcess(k, s, w, room, FlushNow);
            !r.status.IsError() && (r.status == NeedInput || FlushFits(k, s, w, room, left)) ==>
              r.used == |w| && Wrote(k, r.next, x + w, b', z + r.out) && r.next.place == Body && Shows(k, x + w, b')
    decreases |w| + room, EncRank(s)
  {
    hide CompressorKeeps, SyncKeeps, EncTurn, Wrote, Shows, OpenAt, EncRank;
    var i := EncTurn(k, s, w, room, FlushNow);
    EncTurnMoves(k, s, w, room, FlushNow);
    b' := TurnIsFlush(k, idle, s, x, b, z, w, room, left);
    if i.Go? {
      var v, leaves := w[i.used..], s.place == Body && |i.out| < Clamp(room);
      var r := EncProcess(k, i.next, v, room - |i.out|, FlushNow);
      assert x + w[..i.used] + v == x + w && z + i.out + r.out == z + (i.out + r.out);
      if leaves && left && i.used == |w| {
        assert v == [] && x + w[..i.used] == x + w;
        InBodyStill(k, idle, i.next, x + w, b', z + i.out);
        b' := StaysShown(k, idle, i.next, x + w, b', z + i.out, room - |i.out|);
      } else {
        b' := FlushedShows(k, idle, i.next, x + w[..i.used], b', z + i.out, v, room - |i.out|, leaves);
      }
    } else {
      assert x + [] == x && z + [] == z;
      if !i.reply.status.IsError() {
        StillWrote(k, idle, i.reply.next, x, b, z);
      }
    }
  }

  lemma InBodyStill<C, E>(k: Compressor<C, E>, idle: C -> bool, s: Enc<C>, x: seq<byte>, b: seq<byte>, z: seq<byte>)
    requires OpenAt(k, idle, s, x, b, z, true)
    ensures OpenAt(k, idle, s, x, b, z, false) && s.place == Body
  {
  }

  // ---- Read back ------------------------------------------------------------------------

  /** The wrapper's header and such a body decode to what the body shows. */
  lemma ShownDecodes<C, E>(k: Compressor<C, E>, wrap: Wrap, level: int, concat: bool, x: seq<byte>, b: seq<byte>)
    requires Shows(k, x, b)
    ensures WholeDecode(k.g, k.x, wrap, concat, HeaderFor(wrap, level) + b) == Corrupt(x, {ErrInvalidData})
  {
    hide H.Scan, IsZlibHeader, CheckZlib;
    var h := HeaderFor(wrap, level);
    var s := h + b;
    assert s[|h|..] == b;
    match wrap
    case Raw => assert s == b;
    case Gzip =>
      var f := H.WrittenIsPrint();
      H.PrintIsAccepted(f, b);
    case Zlib =>
      assert s[..2] == [h[0], h[1]];
      ZlibHeaderIsAccepted(level);
      CheckZlibIsGrammar(h[0], h[1]);
      OneKindOfZlib(h[0], h[1]);
  }

  /** Before FINISH is said, whatever the windows, a run writes the header and a
      body, and is open. */
  lemma {:induction false} RunStaysOpen<C(!new), E(!new)>(k: Compressor<C, E>, s: Enc<C>, x: seq<byte>, b: seq<byte>, z: seq<byte>,
                                                          rest: seq<byte>, slots: seq<Slot>) returns (b': seq<byte>)
    requires CompressorKeeps(k) && EncInWindow(EncoderCodec(k, s.wrap)) && Wrote(k, s, x, b, z) && !Closed(k, s)
    requires forall i :: 0 <= i < |slots| ==> slots[i].flush != Finish
    ensures var r := EncodeAll(EncoderCodec(k, s.wrap), EncHandle(s, false), rest, slots);
            r.status.IsProgress() ==>
              && Wrote(k, r.e.s, x + rest[..r.used], b', z + r.out) && !Closed(k, r.e.s) && !r.e.finished
              && r.e.s.wrap == s.wrap && r.e.s.level == s.level
    decreases |slots|
  {
    hide Wrote, CompressorKeeps, EncInWindow, EncodeOffer, Closed, Eager;
    b' := b;
    if slots == [] {
      assert x + rest[..0] == x && z + [] == z;
    } else {
      var c := EncoderCodec(k, s.wrap);
      var r := EncodeOffer(c, EncHandle(s, false), rest, slots[0]);
      b' := EncodeSlot(k, s, x, b, z, rest, slots[0]);
      if r.status.IsProgress() {
        var left := rest[r.used..];
        b' := RunStaysOpen(k, r.next.s, x + rest[..r.used], b', z + r.out, left, slots[1..]);
        var m := EncodeAll(c, r.next, left, slots[1..]);
        Regroup(x, rest, r.used, m.used, z, r.out, m.out);
      }
    }
  }

  lemma OfferIsCall<C(!new), E(!new)>(k: Compressor<C, E>, wrap: Wrap, e: EncHandle<Enc<C>>, rest: seq<byte>, w: nat, room: nat)
    requires EncInWindow(EncoderCodec(k, wrap)) && !e.finished && w <= |rest|
    ensures var r, q := EncodeOffer(EncoderCodec(k, wrap), e, rest, Slot(w, room, FlushNow)), EncProcess(k, e.s, rest[..w], room, FlushNow);
            r.status == q.status && r.used == q.used && r.out == q.out
  {
    hide EncProcess, EncInWindow;
  }

  /** The call after a run. */
  lemma FlushCallReads<C(!new), E(!new)>(k: Compressor<C, E>, idle: C -> bool, e: EncHandle<Enc<C>>, x: seq<byte>, b: seq<byte>, z: seq<byte>,
                                         concat: bool, rest: seq<byte>, w: nat, room: nat)
    requires CompressorKeeps(k) && SyncKeeps(k, idle) && EncInWindow(EncoderCodec(k, e.s.wrap)) && w <= |rest|
    requires !e.finished && Wrote(k, e.s, x, b, z) && !Closed(k, e.s)
    ensures var r := EncodeOffer(EncoderCodec(k, e.s.wrap), e, rest, Slot(w, room, FlushNow));
            !r.status.IsError() && (r.status == NeedInput || FlushFits(k, e.s, rest[..w], room, false)) ==>
              r.used == w && WholeDecode(k.g, k.x, e.s.wrap, concat, z + r.out) == Corrupt(x + rest[..w], {ErrInvalidData})
  {
    hide CompressorKeeps, SyncKeeps, EncInWindow, EncodeOffer, EncProcess, Closed, FlushFits, Shows, WholeDecode, HeaderFor, Wrote;
    OfferIsCall(k, e.s.wrap, e, rest, w, room);
    var b' := FlushedShows(k, idle, e.s, x, b, z, rest[..w], room, false);
    var r := EncProcess(k, e.s, rest[..w], room, FlushNow);
    if !r.status.IsError() && (r.status == NeedInput || FlushFits(k, e.s, rest[..w], room, false)) {
      EncProcessStays(k, e.s, rest[..w], room, FlushNow);
      BodyIsThere(k, r.next, x + rest[..w], b', z + r.out);
      ShownDecodes(k, e.s.wrap, e.s.level, concat, x + rest[..w], b');
    }
  }

  lemma BodyIsThere<C, E>(k: Compressor<C, E>, s: Enc<C>, x: seq<byte>, b: seq<byte>, z: seq<byte>)
    requires Wrote(k, s, x, b, z) && s.place == Body
    ensures z == HeaderFor(s.wrap, s.level) + b
  {
  }

  /** Main theorem, FLUSH. After any run before FINISH, a FLUSH whose call has
      room for it, or is answered by asking for input, has taken its window, and
      all that is out decodes to every byte taken. (How much of that a decode
      run delivers is DeflateCuts.CutRunDelivers.) */
  lemma FlushReads<C(!new), E(!new)>(k: Compressor<C, E>, idle: C -> bool, wrap: Wrap, level: int, concat: bool,
                                     p: seq<byte>, slots: seq<Slot>, w: nat, room: nat)
    requires CompressorKeeps(k) && SyncKeeps(k, idle) && EncInWindow(EncoderCodec(k, wrap))
    requires forall i :: 0 <= i < |slots| ==> slots[i].flush != Finish
    requires var before := Encoding(k, wrap, level, p, slots); before.status.IsProgress() && w <= |p| - before.used
    ensures var before := Encoding(k, wrap, level, p, slots);
            var window := p[before.used..][..w];
            var r := EncodeOffer(EncoderCodec(k, wrap), before.e, p[before.used..], Slot(w, room, FlushNow));
            !r.status.IsError() && (r.status == NeedInput || FlushFits(k, before.e.s, window, room, false)) ==>
              && r.used == w
              && WholeDecode(k.g, k.x, wrap, concat, before.out + r.out) == Corrupt(p[..before.used + w], {ErrInvalidData})
  {
    hide CompressorKeeps, SyncKeeps, EncInWindow, EncodeAll, EncodeOffer, FreshEnc, Closed, FlushFits, WholeDecode, Wrote;
    var s, none: seq<byte> := FreshEnc(k, wrap, level), [];
    FreshWrote(k, wrap, level);
    FreshIsOpen(k, wrap, level);
    var b := RunStaysOpen(k, s, none, none, none, p, slots);
    var before := Encoding(k, wrap, level, p, slots);
    var x, rest := p[..before.used], p[before.used..];
    assert none + x == x && none + before.out == before.out && x + rest[..w] == p[..before.used + w];
    FlushCallReads(k, idle, before.e, x, b, before.out, concat, rest, w, room);
  }

  ghost function Encoding<C(!new), E(!new)>(k: Compressor<C, E>, wrap: Wrap, level: int, p: seq<byte>, slots: seq<Slot>): (r: EncResult<Enc<C>>)
    requires EncInWindow(EncoderCodec(k, wrap))
    ensures r.used <= |p|
  {
    EncodeAll(EncoderCodec(k, wrap), EncHandle(FreshEnc(k, wrap, level), false), p, slots)
  }
}
