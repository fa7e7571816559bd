/** The encoding half of src/codec_deflate.c: wrapper header, the engine
    behind mz_deflate(), wrapper trailer. */
module DeflateEncoder {
  import opened Zu
  import opened Codecs
  import opened Checksum
  import opened Inflate
  import opened DeflateDecoder
  import opened Rfc1952
  import EncodeDriver
  import H = GzipHeader

  /** deflate_state, encoding. */
  datatype Enc<+C> = Enc(
    wrap: Wrap, place: Place, hdr: seq<byte>, hdrPos: nat, tail: seq<byte>, tailPos: nat,
    checksum: uint32, count: nat, c: C, level: int)

  /** What is known of a compressor: `made(c, x, z)` when it can be in state
      `c` having been given `x` and having written `z`; `shut(c)` when it has
      been told MZ_FINISH with all it was then shown taken, and takes no more
      whatever it is shown. It is never asked without room. It ends only under
      MZ_FINISH and shut, and then `z` is a DEFLATE stream for `x`; and it does
      not stand still while it has input or has been told to finish. */
  datatype Compressor<!C, !E> = Compressor(
    start: int -> C,
    step: (C, seq<byte>, nat, MzFlush) -> Turn<C>,
    made: (C, seq<byte>, seq<byte>) -> bool,
    shut: C -> bool,
    g: Engine<E>, x: EngineSem<E>)

  ghost predicate CompressKeeps<C, E>(k: Compressor<C, E>, c: C, x: seq<byte>, z: seq<byte>, w: seq<byte>, room: nat, f: MzFlush) {
    k.made(c, x, z) && room > 0 ==>
      var t := k.step(c, w, room, f);
      && t.used <= |w| && |t.out| <= room && (k.shut(c) ==> t.used == 0)
      && match t.mz
         case MzEnd =>
           && f == MzFinish && (!k.shut(c) ==> t.used == |w|)
           && IsDeflate(k.g, k.x, z + t.out, x + w[..t.used])
         case MzOk =>
           && k.made(t.next, x + w[..t.used], z + t.out)
           && (k.shut(c) ==> k.shut(t.next))
           && (k.shut(t.next) && !k.shut(c) ==> f == MzFinish && t.used == |w|)
           && (t.used == 0 && t.out == [] ==> w == [] && f != MzFinish)
         case MzError(status) => status.IsError()
  }

  ghost predicate CompressorKeeps<C(!new), E(!new)>(k: Compressor<C, E>) {
    && (forall level: int :: k.made(k.start(level), [], []) && !k.shut(k.start(level)))
    && forall c: C, x: seq<byte>, z: seq<byte>, w: seq<byte>, room: nat, f: MzFlush ::
         CompressKeeps(k, c, x, z, w, room, f)
  }

  /** A compressor that takes all it is shown as soon as it is to finish. */
  ghost predicate Eager<C(!new), E(!new)>(k: Compressor<C, E>) {
    forall c: C, x: seq<byte>, z: seq<byte>, w: seq<byte>, room: nat :: TakesAtOnce(k, c, x, z, w, room)
  }

  ghost predicate TakesAtOnce<C, E>(k: Compressor<C, E>, c: C, x: seq<byte>, z: seq<byte>, w: seq<byte>, room: nat) {
    k.made(c, x, z) && room > 0 && !k.shut(c) ==>
      var t := k.step(c, w, room, MzFinish);
      !t.mz.MzError? ==> t.used == |w| && (t.mz == MzOk ==> k.shut(t.next))
  }

  /** A compressor that oversteps its window is read as failing. */
  function Press<C, E>(k: Compressor<C, E>, c: C, w: seq<byte>, room: nat, f: MzFlush): (t: Turn<C>)
    ensures t.used <= |w| && |t.out| <= room
    ensures t.mz.MzError? ==> t.mz.status.IsError()
  {
    var t := k.step(c, w, room, f);
    if t.used <= |w| && |t.out| <= room && (t.mz.MzError? ==> t.mz.status.IsError()) then t
    else Turn(c, 0, [], MzError(ErrInternal))
  }

  const DEFAULT_LEVEL: int := 6

  /** zu_int_zlib_header: CMF 0x78, FLEVEL from the level, FCHECK. */
  function ZlibHeader(level: int): (h: seq<byte>)
    ensures |h| == 2
  {
    var flevel: int := if level <= 1 then 0 else if level <= 5 then 1 else if level == 6 then 2 else 3;
    var flg: int := 64 * flevel;
    var cmf: int := 0x78;
    var rem := (cmf * 256 + flg) % 31;
    [cmf, if rem != 0 then flg + (31 - rem) else flg]
  }

  /** Whatever the level, the decoder accepts the header, and sees no preset
      dictionary in it. */
  lemma ZlibHeaderIsAccepted(level: int)
    ensures CheckZlib(ZlibHeader(level)[0], ZlibHeader(level)[1]) == Ok
  {
  }

  /** It is the printed header of a 32 KiB window, without a dictionary, at the
      FLEVEL that section 2.2 of RFC 1950 names for the level: fastest to 1,
      fast to 5, the default at 6, and maximum compression above. */
  lemma ZlibHeaderIsPrint(level: int) returns (f: ZlibFields)
    ensures ZlibWellFormed(f) && PrintZlib(f) == ZlibHeader(level) && f.cinfo == 7 && !f.dict
    ensures f.flevel == 0 <==> level < 2
    ensures f.flevel == 1 <==> 2 <= level < 6
    ensures f.flevel == 2 <==> level == 6
    ensures f.flevel == 3 <==> level > 6
  {
    var z := ZlibHeader(level);
    f := ZlibFields(7, z[1] / 64, false, z[1] % 32);
  }

  function HeaderFor(wrap: Wrap, level: int): (h: seq<byte>) {
    match wrap
    case Raw => []
    case Zlib => ZlibHeader(level)
    case Gzip => H.WRITTEN_HEADER
  }

  function TrailerFor(wrap: Wrap, checksum: uint32, count: nat): (t: seq<byte>)
    ensures |t| == TailLen(wrap)
  {
    match wrap
    case Raw => []
    case Zlib => ToBe32(checksum)
    case Gzip => ToLe32(checksum) + ToLe32(count % TWO32)
  }

  /** zu_int_deflate_new for an encoder. */
  function FreshEnc<C, E>(k: Compressor<C, E>, wrap: Wrap, level: int): (s: Enc<C>) {
    var lv := if level == LEVEL_DEFAULT then DEFAULT_LEVEL else level;
    Enc(wrap, if wrap == Raw then Body else Header, HeaderFor(wrap, lv), 0, [], 0,
        ChecksumInit(wrap), 0, k.start(lv), lv)
  }

  /** zu_int_deflate_reset for an encoder: saying nothing keeps the level. */
  function ResetEnc<C, E>(k: Compressor<C, E>, s: Enc<C>, level: int): (s': Enc<C>) {
    var want := if level != LEVEL_DEFAULT then level else s.level;
    s.(level := want, c := k.start(want), checksum := ChecksumInit(s.wrap), count := 0, hdrPos := 0, tailPos := 0,
       tail := [], hdr := HeaderFor(s.wrap, want), place := if s.wrap == Raw then Body else Header)
  }

  /** From any state a reset stream is a new one at the resolved level. */
  lemma ResetEncIsFresh<C, E>(k: Compressor<C, E>, s: Enc<C>, level: int)
    requires s.level != LEVEL_DEFAULT
    ensures ResetEnc(k, s, level) == FreshEnc(k, s.wrap, if level != LEVEL_DEFAULT then level else s.level)
  {
  }

  // ---- One turn of deflate_process ------------------------------------------------

  function Pressed<C>(s: Enc<C>, t: Turn<C>, w: seq<byte>): (s': Enc<C>)
    requires t.used <= |w|
  {
    var s1 := s.(c := t.next);
    if s.wrap == Raw then s1
    else s1.(checksum := ChecksumUpdate(s.wrap, s.checksum, w[..t.used]), count := s.count + t.used)
  }

  function EncBodyTurn<C, E>(k: Compressor<C, E>, s: Enc<C>, w: seq<byte>, room: nat, f: Flush): (i: Iter<Enc<C>>) {
    if room == 0 then Stop(Reply(s, 0, [], NeedOutput))
    else
      var t := Press(k, s.c, w[..Clamp(|w|)], Clamp(room), MzFlushOf(f, true));
      var s1 := Pressed(s, t, w);
      match t.mz
      case MzEnd =>
        if s.wrap == Raw then Stop(Reply(s1.(place := Done), t.used, t.out, StreamEnd))
        else Go(s1.(place := Trailer, tail := TrailerFor(s.wrap, s1.checksum, s1.count), tailPos := 0), t.used, t.out)
      case MzError(status) => Stop(Reply(s1, t.used, t.out, status))
      case MzOk =>
        if t.used == 0 && t.out == [] then
          Stop(Reply(s1, 0, [], if w == [] then (if f != Finish then NeedInput else ErrInternal) else NeedOutput))
        else Go(s1, t.used, t.out)
  }

  function EncTurn<C, E>(k: Compressor<C, E>, s: Enc<C>, w: seq<byte>, room: nat, f: Flush): (i: Iter<Enc<C>>)
    ensures i.Stop? ==> i.reply.used <= |w| && |i.reply.out| <= room
    ensures i.Go? ==> i.used <= |w| && |i.out| <= room
    ensures i.Go? && i.used == 0 && i.out == [] ==> EncRank(i.next) < EncRank(s)
  {
    match s.place
    case Header =>
      if s.hdrPos < |s.hdr| then
        if room == 0 then Stop(Reply(s, 0, [], NeedOutput))
        else Go(s.(hdrPos := s.hdrPos + 1), 0, [s.hdr[s.hdrPos]])
      else Go(s.(place := Body), 0, [])
    case Body => EncBodyTurn(k, s, w, room, f)
    case Trailer =>
      if s.tailPos < |s.tail| then
        if room == 0 then Stop(Reply(s, 0, [], NeedOutput))
        else Go(s.(tailPos := s.tailPos + 1), 0, [s.tail[s.tailPos]])
      else Stop(Reply(s.(place := Done), 0, [], StreamEnd))
    case _ => Stop(Reply(s.(place := Done), 0, [], StreamEnd))
  }

  function EncRank<C>(s: Enc<C>): (r: nat) {
    match s.place
    case Header => 3
    case Body => 2
    case Trailer => 1
    case _ => 0
  }

  function EncProcess<C, E>(k: Compressor<C, E>, s: Enc<C>, w: seq<byte>, room: nat, f: Flush): (r: Reply<Enc<C>>)
    ensures r.used <= |w| && |r.out| <= room
    decreases |w| + room, EncRank(s)
  {
    match EncTurn(k, s, w, room, f)
    case Stop(r) => r
    case Go(next, used, out) => Ahead(out, used, EncProcess(k, next, w[used..], room - |out|, f))
  }

  // ---- What has been written so far ------------------------------------------------

  /** Taken `x`, the engine having written `b`, all told `z` has come out. */
  ghost predicate Wrote<C, E>(k: Compressor<C, E>, s: Enc<C>, x: seq<byte>, b: seq<byte>, z: seq<byte>) {
    var h := HeaderFor(s.wrap, s.level);
    match s.place
    case Header => s.wrap != Raw && s.hdr == h && s.hdrPos <= |h| && z == h[..s.hdrPos] && x == [] && b == [] && Counted(k, s, x, b) && !k.shut(s.c)
    case Body => z == h + b && Counted(k, s, x, b)
    case Trailer =>
      && s.wrap != Raw && s.tailPos <= |s.tail| && s.tail == TrailerOf(s.wrap, x)
      && IsDeflate(k.g, k.x, b, x) && z == h + b + s.tail[..s.tailPos]
    case _ => IsDeflate(k.g, k.x, b, x) && z == Stream(s.wrap, s.level, x, b)
  }

  ghost predicate Counted<C, E>(k: Compressor<C, E>, s: Enc<C>, x: seq<byte>, b: seq<byte>) {
    && k.made(s.c, x, b)
    && (s.wrap != Raw ==> s.checksum == ChecksumUpdate(s.wrap, ChecksumInit(s.wrap), x) && s.count == |x|)
  }

  function TrailerOf(wrap: Wrap, x: seq<byte>): (t: seq<byte>) {
    TrailerFor(wrap, ChecksumUpdate(wrap, ChecksumInit(wrap), x), |x|)
  }

  /** The whole stream for `x` with DEFLATE bytes `b`. */
  function Stream(wrap: Wrap, level: int, x: seq<byte>, b: seq<byte>): (z: seq<byte>) {
    HeaderFor(wrap, level) + b + TrailerOf(wrap, x)
  }

  /** A turn from `s` having written (x, b, z): where does it lead? */
  ghost predicate TurnWrites<C, E>(k: Compressor<C, E>, i: Iter<Enc<C>>, x: seq<byte>, b: seq<byte>, z: seq<byte>,
                                   w: seq<byte>, b': seq<byte>) {
    match i
    case Go(next, used, out) => used <= |w| && Wrote(k, next, x + w[..used], b', z + out)
    case Stop(r) =>
      && r.used <= |w|
      && (r.status.IsProgress() || r.status == StreamEnd ==> Wrote(k, r.next, x + w[..r.used], b', z + r.out))
  }

  lemma HeaderWrites<C, E>(k: Compressor<C, E>, s: Enc<C>, x: seq<byte>, b: seq<byte>, z: seq<byte>, w: seq<byte>, room: nat, f: Flush)
    requires Wrote(k, s, x, b, z) && s.place == Header
    ensures TurnWrites(k, EncTurn(k, s, w, room, f), x, b, z, w, b)
  {
    assert x + w[..0] == x && z + [] == z;
    var h := HeaderFor(s.wrap, s.level);
    if s.hdrPos < |h| {
      assert h[..s.hdrPos] + [h[s.hdrPos]] == h[..s.hdrPos + 1];
    } else {
      assert h[..s.hdrPos] == h == h + [];
    }
  }

  lemma TrailerWrites<C, E>(k: Compressor<C, E>, s: Enc<C>, x: seq<byte>, b: seq<byte>, z: seq<byte>, w: seq<byte>, room: nat, f: Flush)
    requires Wrote(k, s, x, b, z) && s.place != Header && s.place != Body
    ensures TurnWrites(k, EncTurn(k, s, w, room, f), x, b, z, w, b)
  {
    hide IsDeflate, TrailerFor;
    assert x + w[..0] == x && z + [] == z;
    if s.place == Trailer {
      var h := HeaderFor(s.wrap, s.level);
      if s.tailPos < |s.tail| {
        assert h + b + s.tail[..s.tailPos] + [s.tail[s.tailPos]] == h + b + s.tail[..s.tailPos + 1];
      } else {
        assert s.tail[..s.tailPos] == s.tail;
      }
    }
  }

  lemma BodyWrites<C(!new), E(!new)>(k: Compressor<C, E>, s: Enc<C>, x: seq<byte>, b: seq<byte>, z: seq<byte>,
                                     w: seq<byte>, room: nat, f: Flush) returns (b': seq<byte>)
    requires CompressorKeeps(k) && Wrote(k, s, x, b, z) && s.place == Body
    ensures TurnWrites(k, EncTurn(k, s, w, room, f), x, b, z, w, b')
  {
    b' := b;
    assert x + w[..0] == x && z + [] == z;
    if room > 0 {
      var w1 := w[..Clamp(|w|)];
      assert CompressKeeps(k, s.c, x, b, w1, Clamp(room), MzFlushOf(f, true));
      hide IsDeflate, TrailerFor, ChecksumUpdate, ChecksumInit, HeaderFor, CompressorKeeps;
      var t := Press(k, s.c, w1, Clamp(room), MzFlushOf(f, true));
      assert w1[..t.used] == w[..t.used];
      b' := b + t.out;
      assert t.used == 0 && t.out == [] ==> b' == b && z + t.out == z;
      match t.mz
      case MzOk => PressedWrote(k, s, x, b, z, w, t);
      case MzEnd => EndedWrote(k, s, x, b, z, w, t);
      case _ =>
    }
  }

  lemma PressedWrote<C, E>(k: Compressor<C, E>, s: Enc<C>, x: seq<byte>, b: seq<byte>, z: seq<byte>, w: seq<byte>, t: Turn<C>)
    requires Wrote(k, s, x, b, z) && s.place == Body && t.used <= |w| && k.made(t.next, x + w[..t.used], b + t.out)
    ensures Wrote(k, Pressed(s, t, w), x + w[..t.used], b + t.out, z + t.out)
  {
    hide IsDeflate, TrailerFor, ChecksumUpdate, ChecksumInit, HeaderFor;
    ChecksumAppend(s.wrap, ChecksumInit(s.wrap), x, w[..t.used]);
    assert HeaderFor(s.wrap, s.level) + b + t.out == HeaderFor(s.wrap, s.level) + (b + t.out);
  }

  lemma EndedWrote<C, E>(k: Compressor<C, E>, s: Enc<C>, x: seq<byte>, b: seq<byte>, z: seq<byte>, w: seq<byte>, t: Turn<C>)
    requires Wrote(k, s, x, b, z) && s.place == Body && t.used <= |w| && IsDeflate(k.g, k.x, b + t.out, x + w[..t.used])
    ensures var s1, y := Pressed(s, t, w), x + w[..t.used];
            if s.wrap == Raw then Wrote(k, s1.(place := Done), y, b + t.out, z + t.out)
            else Wrote(k, s1.(place := Trailer, tail := TrailerFor(s.wrap, s1.checksum, s1.count), tailPos := 0), y, b + t.out, z + t.out)
  {
    hide IsDeflate, TrailerFor, ChecksumUpdate, ChecksumInit, HeaderFor;
    ChecksumAppend(s.wrap, ChecksumInit(s.wrap), x, w[..t.used]);
    var h, tail := HeaderFor(s.wrap, s.level), TrailerOf(s.wrap, x + w[..t.used]);
    assert h + b + t.out == h + (b + t.out) == h + (b + t.out) + [] && tail[..0] == [];
  }

  /** A whole call: what it wrote continues what was written, and the stream
      it ends is the wrapper around a DEFLATE stream for what it took. */
  lemma {:induction false} EncProcessWrites<C(!new), E(!new)>(k: Compressor<C, E>, s: Enc<C>, x: seq<byte>, b: seq<byte>, z: seq<byte>,
                                                              w: seq<byte>, room: nat, f: Flush) returns (b': seq<byte>)
    requires CompressorKeeps(k) && Wrote(k, s, x, b, z)
    ensures TurnWrites(k, Stop(EncProcess(k, s, w, room, f)), x, b, z, w, b')
    decreases |w| + room, EncRank(s)
  {
    hide Wrote, EncTurn, CompressorKeeps, EncRank;
    var i := EncTurn(k, s, w, room, f);
    EncTurnMoves(k, s, w, room, f);
    b' := EncTurnWrites(k, s, x, b, z, w, room, f);
    if i.Go? {
      var v := w[i.used..];
      var r := EncProcess(k, i.next, v, room - |i.out|, f);
      b' := EncProcessWrites(k, i.next, x + w[..i.used], b', z + i.out, v, room - |i.out|, f);
      EncodeDriver.Regroup(x, w, i.used, r.used, z, i.out, r.out);
    }
  }

  lemma EncTurnWrites<C(!new), E(!new)>(k: Compressor<C, E>, s: Enc<C>, x: seq<byte>, b: seq<byte>, z: seq<byte>,
                                        w: seq<byte>, room: nat, f: Flush) returns (b': seq<byte>)
    requires CompressorKeeps(k) && Wrote(k, s, x, b, z)
    ensures TurnWrites(k, EncTurn(k, s, w, room, f), x, b, z, w, b')
  {
    hide TurnWrites, CompressorKeeps, EncTurn, Wrote;
    b' := b;
    if s.place == Body {
      b' := BodyWrites(k, s, x, b, z, w, room, f);
    } else if s.place == Header {
      HeaderWrites(k, s, x, b, z, w, room, f);
    } else {
      TrailerWrites(k, s, x, b, z, w, room, f);
    }
  }

  lemma EncTurnMoves<C, E>(k: Compressor<C, E>, s: Enc<C>, w: seq<byte>, room: nat, f: Flush)
    ensures var i := EncTurn(k, s, w, room, f);
            && i.Go? ==> i.used <= |w| && |i.out| <= room && (i.used == 0 && i.out == [] ==> EncRank(i.next) < EncRank(s))
  {
  }

  // ---- How much of its window a call takes -------------------------------------------

  predicate Over<C>(s: Enc<C>) {
    s.place != Header && s.place != Body
  }

  /** The engine takes no more input. */
  predicate Closed<C, E>(k: Compressor<C, E>, s: Enc<C>) {
    Over(s) || (s.place == Body && k.shut(s.c))
  }

  /** A stream is closed only under FINISH, and then with its window taken,
      provided the window fits the 31 bits it is offered in; an eager engine
      takes what fits them and is closed as soon as it is asked. */
  ghost predicate TakesAll<C(!new), E(!new)>(k: Compressor<C, E>, s: Enc<C>, next: Enc<C>, used: nat, w: seq<byte>, f: Flush) {
    && (Closed(k, s) ==> used == 0 && Closed(k, next))
    && (!Closed(k, s) && Closed(k, next) ==> f == Finish && (|w| <= CLAMP ==> used == |w|))
    && (!Closed(k, s) && f == Finish && Eager(k) ==> used == if Closed(k, next) then Clamp(|w|) else 0)
  }

  /** The rest of what a turn or a call answers with. */
  predicate AnswersWell<C>(s: Enc<C>, r: Reply<Enc<C>>, w: seq<byte>, room: nat, f: Flush) {
    && (r.status == StreamEnd ==> r.next.place == Done)
    && (r.status == NeedInput ==> r.used == |w| && f != Finish)
    && (r.status == NeedOutput ==> |r.out| == room)
    && r.status != Ok && r.next.wrap == s.wrap && r.next.level == s.level
  }

  lemma {:induction false} EncProcessTakesAll<C(!new), E(!new)>(k: Compressor<C, E>, s: Enc<C>, x: seq<byte>, b: seq<byte>, z: seq<byte>,
                                                                w: seq<byte>, room: nat, f: Flush)
    requires CompressorKeeps(k) && Wrote(k, s, x, b, z)
    ensures var r := EncProcess(k, s, w, room, f);
            && AnswersWell(s, r, w, room, f)
            && (!r.status.IsError() ==> TakesAll(k, s, r.next, r.used, w, f))
    decreases |w| + room, EncRank(s)
  {
    hide Wrote, EncTurn, CompressorKeeps, EncRank, Closed, Eager;
    var i := EncTurn(k, s, w, room, f);
    EncTurnMoves(k, s, w, room, f);
    EncTurnTakesAll(k, s, x, b, z, w, room, f);
    var b' := EncTurnWrites(k, s, x, b, z, w, room, f);
    if i.Go? {
      EncProcessTakesAll(k, i.next, x + w[..i.used], b', z + i.out, w[i.used..], room - |i.out|, f);
    }
  }

  lemma EncTurnTakesAll<C(!new), E(!new)>(k: Compressor<C, E>, s: Enc<C>, x: seq<byte>, b: seq<byte>, z: seq<byte>,
                                          w: seq<byte>, room: nat, f: Flush)
    requires CompressorKeeps(k) && Wrote(k, s, x, b, z)
    ensures match EncTurn(k, s, w, room, f)
            case Go(next, used, out) => TakesAll(k, s, next, used, w, f) && next.wrap == s.wrap && next.level == s.level
            case Stop(r) => AnswersWell(s, r, w, room, f) && (!r.status.IsError() ==> TakesAll(k, s, r.next, r.used, w, f))
  {
    hide ChecksumUpdate, TrailerFor, IsDeflate;
    if s.place == Body && room > 0 {
      BodyTakesAll(k, s, x, b, z, w, room, f);
    }
  }

  lemma BodyTakesAll<C(!new), E(!new)>(k: Compressor<C, E>, s: Enc<C>, x: seq<byte>, b: seq<byte>, z: seq<byte>,
                                       w: seq<byte>, room: nat, f: Flush)
    requires CompressorKeeps(k) && Wrote(k, s, x, b, z) && s.place == Body && room > 0
    ensures match EncTurn(k, s, w, room, f)
            case Go(next, used, out) => TakesAll(k, s, next, used, w, f) && next.wrap == s.wrap && next.level == s.level
            case Stop(r) => AnswersWell(s, r, w, room, f) && (!r.status.IsError() ==> TakesAll(k, s, r.next, r.used, w, f))
  {
    var w1, room1 := w[..Clamp(|w|)], Clamp(room);
    var t := Press(k, s.c, w1, room1, MzFlushOf(f, true));
    assert CompressKeeps(k, s.c, x, b, w1, room1, MzFlushOf(f, true));
    assert Eager(k) ==> TakesAtOnce(k, s.c, x, b, w1, room1);
    assert Presses(k, s.c, t, w1, f);
    hide *;
    PressedTakesAll(k, s, w, room, f);
  }

  lemma PressedTakesAll<C(!new), E(!new)>(k: Compressor<C, E>, s: Enc<C>, w: seq<byte>, room: nat, f: Flush)
    requires s.place == Body && room > 0
    requires Presses(k, s.c, Press(k, s.c, w[..Clamp(|w|)], Clamp(room), MzFlushOf(f, true)), w[..Clamp(|w|)], f)
    ensures match EncTurn(k, s, w, room, f)
            case Go(next, used, out) => TakesAll(k, s, next, used, w, f) && next.wrap == s.wrap && next.level == s.level
            case Stop(r) => AnswersWell(s, r, w, room, f) && (!r.status.IsError() ==> TakesAll(k, s, r.next, r.used, w, f))
  {
    hide Eager, ChecksumUpdate, TrailerFor, Press;
  }

  /** What of the contract tells how much is taken. */
  ghost predicate Presses<C(!new), E(!new)>(k: Compressor<C, E>, c: C, t: Turn<C>, w: seq<byte>, f: Flush) {
    && (k.shut(c) ==> t.used == 0)
    && (t.mz == MzEnd ==> f == Finish && (!k.shut(c) ==> t.used == |w|))
    && (t.mz == MzOk ==>
          && (k.shut(c) ==> k.shut(t.next))
          && (k.shut(t.next) && !k.shut(c) ==> f == Finish && t.used == |w|)
          && (t.used == 0 && t.out == [] ==> w == [] && f != Finish))
    && (Eager(k) && !k.shut(c) && f == Finish && !t.mz.MzError? ==> t.used == |w| && (t.mz == MzOk ==> k.shut(t.next)))
  }

  // ---- FLUSH -------------------------------------------------------------------------

  /** Every sync flush writes something, if only an empty stored block. */
  ghost predicate FlushWrites<C(!new), E>(k: Compressor<C, E>) {
    forall c: C, w: seq<byte>, room: nat :: FlushTurns(k, c, w, room)
  }

  ghost predicate FlushTurns<C, E>(k: Compressor<C, E>, c: C, w: seq<byte>, room: nat) {
    room > 0 ==>
      var t := k.step(c, w, room, MzSyncFlush);
      t.used <= |w| && |t.out| <= room && t.mz != MzEnd && (t.mz == MzOk ==> t.out != [])
  }

  /** Over such an engine FLUSH does not come to rest when the input is taken:
      it is asked again for as long as it writes, and the call answers only
      when all of its room is full. */
  lemma {:induction false} FlushFillsTheRoom<C(!new), E(!new)>(k: Compressor<C, E>, s: Enc<C>, w: seq<byte>, room: nat)
    requires FlushWrites(k) && s.place == Body
    ensures var r := EncProcess(k, s, w, room, FlushNow);
            r.status.IsError() || (r.status == NeedOutput && |r.out| == room)
    decreases room
  {
    hide EncTurn, FlushWrites;
    FlushTurnWrites(k, s, w, room);
    var i := EncTurn(k, s, w, room, FlushNow);
    if i.Go? {
      FlushFillsTheRoom(k, i.next, w[i.used..], room - |i.out|);
    }
  }

  lemma FlushTurnWrites<C(!new), E>(k: Compressor<C, E>, s: Enc<C>, w: seq<byte>, room: nat)
    requires FlushWrites(k) && s.place == Body
    ensures match EncTurn(k, s, w, room, FlushNow)
            case Go(next, used, out) => next.place == Body && used <= |w| && 0 < |out| <= room
            case Stop(r) => r.status.IsError() || (r.status == NeedOutput && r.out == [] && room == 0)
  {
    assert FlushTurns(k, s.c, w[..Clamp(|w|)], Clamp(room));
    hide ChecksumUpdate, TrailerFor;
  }

  // ---- Reset -------------------------------------------------------------------------

  /** No call changes the wrapper or the level. */
  lemma {:induction false} EncProcessStays<C, E>(k: Compressor<C, E>, s: Enc<C>, w: seq<byte>, room: nat, f: Flush)
    ensures var n := EncProcess(k, s, w, room, f).next; n.wrap == s.wrap && n.level == s.level
    decreases |w| + room, EncRank(s)
  {
    hide EncTurn, EncRank;
    EncTurnStays(k, s, w, room, f);
    EncTurnMoves(k, s, w, room, f);
    var i := EncTurn(k, s, w, room, f);
    if i.Go? {
      EncProcessStays(k, i.next, w[i.used..], room - |i.out|, f);
    }
  }

  lemma EncTurnStays<C, E>(k: Compressor<C, E>, s: Enc<C>, w: seq<byte>, room: nat, f: Flush)
    ensures var i := EncTurn(k, s, w, room, f);
            var n := if i.Stop? then i.reply.next else i.next;
            n.wrap == s.wrap && n.level == s.level
  {
    hide Press, ChecksumUpdate, TrailerFor;
  }
}
