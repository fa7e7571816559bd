/** The encoding half of lz4-frame, lz4f_encoder_process, which stages what the
    library insists on writing in one piece; and the round trip of any encoder
    of frames. */
module FrameEncoders {
  import opened Zu
  import opened Codecs
  import opened Driver
  import opened EncodeDriver
  import F = Frames
  import S = FramedStreams
  import L = Lz4Format

  /** zu_int_lz4f: input per library call, one default block. */
  const CHUNK: nat := 65536

  // ---- The stage ------------------------------------------------------------------------

  /** LZ4F_max64KB, the default block. */
  const BLOCK: nat := 65536

  /** BHSize, BFSize: a block's header, a checksum or the end mark. */
  const FIELD: nat := 4

  /** LZ4F_HEADER_SIZE_MAX. */
  const HEADER_MAX: nat := 19

  /** LZ4F_compressBound_internal, no automatic flush, no block checksums, a
      content checksum: what LZ4F_compressUpdate wants of its destination for
      n bytes with `buffered` waiting. */
  function UpdateNeeds(n: nat, buffered: nat): (cap: nat)
    requires n > 0
  {
    var full := (n + Min(buffered, BLOCK - 1)) / BLOCK;
    FIELD * full + BLOCK * full + 2 * FIELD
  }

  /** The blocks an update fills, each stored at worst as it is. */
  function Filled(n: nat, buffered: nat): (full: nat) {
    (n + buffered) / BLOCK
  }

  /** LZ4F_flush wants the waiting block, its header and a checksum. */
  function FlushNeeds(buffered: nat): (cap: nat) {
    if buffered == 0 then 0 else buffered + 2 * FIELD
  }

  /** What a flush writes, at worst. */
  function Flushing(buffered: nat): (n: nat) {
    if buffered == 0 then 0 else buffered + FIELD
  }

  /** LZ4F_compressEnd flushes, and then wants room for the end mark and the
      content checksum. */
  function EndNeeds(buffered: nat): (cap: nat) {
    buffered + 3 * FIELD
  }

  /** The stage of lz4f_encoder_new: the bound for a chunk with a block already
      buffered, or for the header. */
  function StageCap(): (cap: nat) {
    Max(UpdateNeeds(CHUNK, BLOCK - 1), HEADER_MAX)
  }

  /** It will do for every call of the library. */
  lemma StageSuffices(n: nat, buffered: nat)
    requires 0 < n <= CHUNK && buffered < BLOCK
    ensures UpdateNeeds(n, buffered) <= StageCap() && FlushNeeds(buffered) <= StageCap() && EndNeeds(buffered) <= StageCap()
    ensures HEADER_MAX <= StageCap()
  {
    assert (n + buffered) / BLOCK <= 1;
  }

  // ---- lz4-frame ------------------------------------------------------------------------

  datatype Made<+C> = Made(next: C, out: seq<byte>, error: Option<Status>)

  /** liblz4's frame compressor; the first argument of a call is the capacity of
      its destination. buffered(c): input taken and not yet compressed.
      state(c, size, x, z): begun with that declared content size, given `x`,
      having written `z`. frame(x, z): `z` is a frame of `x`. shows(x, z): `z` is
      as much of a frame as decodes to `x`. */
  datatype Lz4f<!C> = Lz4f(
    idle: C,
    begin: (nat, int, Option<nat>) -> Made<C>,
    update: (nat, C, seq<byte>) -> Made<C>,
    flush: (nat, C) -> Made<C>,
    end: (nat, C) -> Made<C>,
    buffered: C -> nat,
    state: (C, Option<nat>, seq<byte>, seq<byte>) -> bool,
    frame: (seq<byte>, seq<byte>) -> bool,
    shows: (seq<byte>, seq<byte>) -> bool)

  /** A call fails only for want of the capacity it asks for, or when the content
      turns out not to be of the declared size; less than a block is kept
      waiting, and nothing once it is flushed; and what a call writes is the blocks it completes, at worst as
      they are, with their headers, and at the end the mark and a checksum. */
  ghost predicate Lz4fKeeps<C(!new)>(k: Lz4f<C>) {
    && (forall cap: nat, level: int, size: Option<nat> :: BeginKeeps(k, cap, level, size))
    && (forall c: C, size: Option<nat>, x: seq<byte>, z: seq<byte> :: k.state(c, size, x, z) ==> k.buffered(c) < BLOCK)
    && (forall cap: nat, c: C, size: Option<nat>, x: seq<byte>, z: seq<byte> ::
          k.state(c, size, x, z) ==> CallsKeep(k, cap, c, size, x, z))
    && (forall cap: nat, c: C, size: Option<nat>, x: seq<byte>, z: seq<byte>, w: seq<byte> ::
          k.state(c, size, x, z) ==> UpdateKeeps(k, cap, c, size, x, z, w))
  }

  ghost predicate BeginKeeps<C>(k: Lz4f<C>, cap: nat, level: int, size: Option<nat>) {
    cap >= HEADER_MAX ==>
      var m := k.begin(cap, level, size);
      m.error == None && k.state(m.next, size, [], m.out) && |m.out| <= HEADER_MAX && k.buffered(m.next) == 0
  }

  ghost predicate CallsKeep<C>(k: Lz4f<C>, cap: nat, c: C, size: Option<nat>, x: seq<byte>, z: seq<byte>) {
    && (cap >= FlushNeeds(k.buffered(c)) ==>
          var m := k.flush(cap, c);
          && m.error == None && k.state(m.next, size, x, z + m.out) && k.shows(x, z + m.out)
          && |m.out| <= Flushing(k.buffered(c)) && k.buffered(m.next) == 0)
    && ((size == None || size == Some(|x|)) && cap >= EndNeeds(k.buffered(c)) ==>
          var m := k.end(cap, c);
          m.error == None && k.frame(x, z + m.out) && |m.out| <= Flushing(k.buffered(c)) + 2 * FIELD)
  }

  ghost predicate UpdateKeeps<C>(k: Lz4f<C>, cap: nat, c: C, size: Option<nat>, x: seq<byte>, z: seq<byte>, w: seq<byte>) {
    w != [] && cap >= UpdateNeeds(|w|, k.buffered(c)) ==>
      var m, full := k.update(cap, c, w), Filled(|w|, k.buffered(c));
      && m.error == None && k.state(m.next, size, x + w, z + m.out)
      && |m.out| <= (FIELD + BLOCK) * full && k.buffered(m.next) == |w| + k.buffered(c) - BLOCK * full
  }

  /** lz4_state, as far as the frame encoder uses it; `flushed` is the call's. */
  datatype Enc<+C> = Enc(started: bool, ended: bool, done: bool, stage: seq<byte>, pos: nat,
                         c: C, level: int, size: Option<nat>, flushed: bool)

  function FreshLz4f<C>(k: Lz4f<C>, level: int): (s: Enc<C>) {
    Enc(false, false, false, [], 0, k.idle, level, None, false)
  }

  /** lz4f_encoder_reset: forgets where the last frame got to. The context is
      begun anew before it is used again. */
  function ResetLz4f<C>(k: Lz4f<C>, s: Enc<C>, level: int): (s': Enc<C>) {
    s.(started := false, ended := false, done := false, stage := [], pos := 0, c := k.idle, size := None, flushed := false,
       level := if level != LEVEL_DEFAULT then level else s.level)
  }

  function Pending<C>(s: Enc<C>): (p: seq<byte>) {
    if s.pos <= |s.stage| then s.stage[s.pos..] else []
  }

  /** The library's answer goes to the stage. */
  function Staged<C>(s: Enc<C>, m: Made<C>, used: nat): (i: Iter<Enc<C>>) {
    match m.error
    case Some(st) => Stop(Reply(s.(c := m.next), 0, [], st))
    case None => Go(s.(c := m.next, stage := m.out, pos := 0), used, [])
  }

  /** One turn of lz4f_encoder_process: drain, then call the library. */
  function OneTurn<C>(k: Lz4f<C>, s: Enc<C>, w: seq<byte>, room: nat, f: Flush): (i: Iter<Enc<C>>)
    ensures i.Stop? ==> i.reply.used <= |w| && |i.reply.out| <= room
    ensures i.Go? ==> i.used <= |w| && |i.out| <= room
    ensures i.Go? && i.used == 0 && i.out == [] ==> Rank(i.next) < Rank(s)
  {
    var p, s0 := Pending(s), s.(stage := [], pos := 0);
    if |p| > room then Stop(Reply(s.(pos := s.pos + room), 0, p[..room], NeedOutput))
    else
      match CallTurn(k, s0, w, f)
      case Stop(r) => Stop(Ahead(p, 0, r))
      case Go(next, used, _) => Go(next, used, p)
  }

  /** The stage is empty: the library is called, or the turn answered. */
  function CallTurn<C>(k: Lz4f<C>, s: Enc<C>, w: seq<byte>, f: Flush): (i: Iter<Enc<C>>)
    ensures i.Stop? ==> i.reply.used <= |w| && i.reply.out == []
    ensures i.Go? ==> i.used <= |w| && i.out == []
    ensures i.Go? && i.used == 0 ==> Rank(i.next) < Rank(s)
  {
    if s.done then Stop(Reply(s, 0, [], StreamEnd))
    else if s.ended then Stop(Reply(s.(done := true), 0, [], StreamEnd))
    else if !s.started then
      var size := if f == Finish then Some(|w|) else s.size;
      Staged(s.(started := true, size := size), k.begin(StageCap(), L.Lz4Level(s.level), size), 0)
    else if w != [] then
      var take := Min(|w|, CHUNK);
      Staged(s, k.update(StageCap(), s.c, w[..take]), take)
    else if f == Finish then
      var m := k.end(StageCap(), s.c);
      Staged(s.(ended := m.error == None), m, 0)
    else if f == FlushNow && !s.flushed then Staged(s.(flushed := true), k.flush(StageCap(), s.c), 0)
    else Stop(Reply(s, 0, [], NeedInput))
  }

  function Rank<C>(s: Enc<C>): (r: nat) {
    (if s.started then 0 else 1) + (if s.ended then 0 else 1) + (if s.flushed then 0 else 1)
  }

  function Loop<C>(k: Lz4f<C>, s: Enc<C>, w: seq<byte>, room: nat, f: Flush): (r: Reply<Enc<C>>)
    ensures r.used <= |w| && |r.out| <= room
    decreases |w| + room, Rank(s)
  {
    match OneTurn(k, s, w, room, f)
    case Stop(r) => r
    case Go(next, used, out) => Ahead(out, used, Loop(k, next, w[used..], room - |out|, f))
  }

  function Lz4fProcess<C>(k: Lz4f<C>, s: Enc<C>, w: seq<byte>, room: nat, f: Flush): (r: Reply<Enc<C>>)
    ensures r.used <= |w| && |r.out| <= room
  {
    Loop(k, s.(flushed := false), w, room, f)
  }

  /** A flush after every byte is the worst: four bytes more for each. */
  function Most(n: nat): (m: nat) {
    HEADER_MAX + (1 + FIELD) * n + 2 * FIELD
  }

  /** In a frame there is still that much to come for what is waiting. */
  predicate Kept<C>(k: Lz4f<C>, c: C, taken: nat, written: nat) {
    written + (1 + FIELD) * k.buffered(c) + 2 * FIELD <= Most(taken)
  }

  predicate Small<C>(k: Lz4f<C>, s: Enc<C>, x: seq<byte>, z: seq<byte>) {
    if s.started && !s.ended then Kept(k, s.c, |x|, |z + Pending(s)|) else |z + Pending(s)| <= Most(|x|)
  }

  /** What is delivered and what is staged are what the library has written;
      a declared size is the size of the content, at every chunking. */
  predicate Wrote<C>(k: Lz4f<C>, s: Enc<C>, x: seq<byte>, z: seq<byte>, rest: seq<byte>) {
    && s.pos <= |s.stage| && (s.size.Some? ==> s.size.value == |x| + |rest|)
    && (s.done ==> s.ended && Pending(s) == []) && Small(k, s, x, z)
    && if s.ended then rest == [] && k.frame(x, z + Pending(s))
       else if s.started then k.state(s.c, s.size, x, z + Pending(s))
       else x == [] && z == [] && s.stage == [] && s.size == None
  }

  function Lz4fSem<C>(k: Lz4f<C>): (sem: EncSem<Enc<C>>) {
    EncSem((s: Enc<C>, x: seq<byte>, z: seq<byte>, rest: seq<byte>) => Wrote(k, s, x, z, rest), k.frame)
  }

  /** What a turn owes; and no turn fails. */
  ghost predicate TurnOk<C>(k: Lz4f<C>, i: Iter<Enc<C>>, x: seq<byte>, z: seq<byte>,
                            w: seq<byte>, tail: seq<byte>, room: nat, f: Flush)
  {
    match i
    case Stop(r) => EncReplyOk(Lz4fSem(k), r, x, z, w, tail, room, f) && !r.status.IsError()
    case Go(next, used, out) =>
      && used <= |w| && |out| <= room
      && Wrote(k, next, x + w[..used], z + out, w[used..] + tail)
  }

  lemma OneTurnOk<C(!new)>(k: Lz4f<C>, s: Enc<C>, x: seq<byte>, z: seq<byte>, w: seq<byte>, tail: seq<byte>, room: nat, f: Flush)
    requires Lz4fKeeps(k) && Wrote(k, s, x, z, w + tail) && (f == Finish ==> tail == [])
    ensures TurnOk(k, OneTurn(k, s, w, room, f), x, z, w, tail, room, f)
  {
    hide Lz4fKeeps, EncReplyOk, CallTurn, Wrote;
    var p, s0 := Pending(s), s.(stage := [], pos := 0);
    if |p| > room {
      DrainOk(k, s, x, z, w, tail, room, f);
    } else {
      Drained(k, s, x, z, w + tail);
      CallTurnOk(k, s0, x, z + p, w, tail, room - |p|, f);
      var i := CallTurn(k, s0, w, f);
      if i.Stop? {
        assert w[0..] == w && x + w[..0] == x;
        EncAhead(Lz4fSem(k), i.reply, x, z, p, 0, w, tail, room, f);
      } else {
        assert z + p + [] == z + p;
      }
    }
  }

  lemma DrainOk<C(!new)>(k: Lz4f<C>, s: Enc<C>, x: seq<byte>, z: seq<byte>, w: seq<byte>, tail: seq<byte>, room: nat, f: Flush)
    requires Wrote(k, s, x, z, w + tail) && |Pending(s)| > room
    ensures TurnOk(k, OneTurn(k, s, w, room, f), x, z, w, tail, room, f)
  {
    var p := Pending(s);
    assert x + w[..0] == x && w[0..] + tail == w + tail;
    assert s.stage[s.pos..][room..] == s.stage[s.pos + room..];
    assert z + p[..room] + p[room..] == z + p;
  }

  /** Delivered is as good as staged. */
  lemma Drained<C(!new)>(k: Lz4f<C>, s: Enc<C>, x: seq<byte>, z: seq<byte>, rest: seq<byte>)
    requires Wrote(k, s, x, z, rest)
    ensures Wrote(k, s.(stage := [], pos := 0), x, z + Pending(s), rest)
  {
    assert z + Pending(s) + [] == z + Pending(s);
  }

  /** What the library promises of the calls an encoder may make: none fails
      for want of stage. */
  lemma Asked<C(!new)>(k: Lz4f<C>, s: Enc<C>, x: seq<byte>, z: seq<byte>, w: seq<byte>)
    requires Lz4fKeeps(k) && s.started && k.state(s.c, s.size, x, z) && |w| <= CHUNK && Kept(k, s.c, |x|, |z|)
    ensures var f, e, u := k.flush(StageCap(), s.c), k.end(StageCap(), s.c), k.update(StageCap(), s.c, w);
            && f.error == None && k.state(f.next, s.size, x, z + f.out) && Kept(k, f.next, |x|, |z + f.out|) && k.shows(x, z + f.out)
            && (s.size == None || s.size == Some(|x|) ==>
                  e.error == None && k.frame(x, z + e.out) && |z + e.out| <= Most(|x|))
            && (w != [] ==> u.error == None && k.state(u.next, s.size, x + w, z + u.out) && Kept(k, u.next, |x + w|, |z + u.out|))
  {
    StageSuffices(if w == [] then 1 else |w|, k.buffered(s.c));
    assert CallsKeep(k, StageCap(), s.c, s.size, x, z) && UpdateKeeps(k, StageCap(), s.c, s.size, x, z, w);
    hide Lz4fKeeps, StageCap, UpdateNeeds, Filled;
  }

  lemma CallTurnOk<C(!new)>(k: Lz4f<C>, s: Enc<C>, x: seq<byte>, z: seq<byte>, w: seq<byte>, tail: seq<byte>, room: nat, f: Flush)
    requires Lz4fKeeps(k) && Wrote(k, s, x, z, w + tail) && (f == Finish ==> tail == []) && s.stage == []
    ensures TurnOk(k, CallTurn(k, s, w, f), x, z, w, tail, room, f)
  {
    hide StageCap, Kept, TurnOk, CallTurn, Lz4fKeeps, Wrote;
    Standing(k, s, x, z, w + tail);
    if s.ended {
      EndedOk(k, s, x, z, w, tail, room, f);
    } else if !s.started {
      BeginOk(k, s, w, tail, room, f);
    } else {
      Asked(k, s, x, z, w[..Min(|w|, CHUNK)]);
      if w != [] {
        UpdateOk(k, s, x, z, w, tail, room, f);
      } else {
        assert w + tail == tail;
        SpentOk(k, s, x, z, tail, room, f);
      }
    }
  }

  /** With the stage empty what is delivered is what is written. */
  lemma Standing<C>(k: Lz4f<C>, s: Enc<C>, x: seq<byte>, z: seq<byte>, rest: seq<byte>)
    requires Wrote(k, s, x, z, rest) && s.stage == []
    ensures !s.ended && s.started ==> k.state(s.c, s.size, x, z) && Kept(k, s.c, |x|, |z|)
    ensures !s.ended && !s.started ==> x == [] && z == []
  {
    hide Kept;
    assert z + [] == z;
  }

  lemma EndedOk<C(!new)>(k: Lz4f<C>, s: Enc<C>, x: seq<byte>, z: seq<byte>, w: seq<byte>, tail: seq<byte>, room: nat, f: Flush)
    requires Wrote(k, s, x, z, w + tail) && s.stage == [] && s.ended
    ensures TurnOk(k, CallTurn(k, s, w, f), x, z, w, tail, room, f)
  {
    hide StageCap, Kept;
    assert w == [] && tail == [] && x + w == x && z + [] == z;
  }

  /** The window is spent: the frame is ended, or flushed, or left as it is. */
  lemma SpentOk<C(!new)>(k: Lz4f<C>, s: Enc<C>, x: seq<byte>, z: seq<byte>, tail: seq<byte>, room: nat, f: Flush)
    requires Wrote(k, s, x, z, tail) && s.stage == [] && !s.ended && s.started && (f == Finish ==> tail == [])
    requires var u, e := k.flush(StageCap(), s.c), k.end(StageCap(), s.c);
             && u.error == None && k.state(u.next, s.size, x, z + u.out) && Kept(k, u.next, |x|, |z + u.out|)
             && (s.size == None || s.size == Some(|x|) ==> e.error == None && k.frame(x, z + e.out) && |z + e.out| <= Most(|x|))
    ensures TurnOk(k, CallTurn(k, s, [], f), x, z, [], tail, room, f)
  {
    hide StageCap, Kept;
    var w: seq<byte> := [];
    assert z + [] == z && x + w == x && w + tail == tail && w[..0] == w && w[0..] == w;
  }

  lemma UpdateOk<C(!new)>(k: Lz4f<C>, s: Enc<C>, x: seq<byte>, z: seq<byte>, w: seq<byte>, tail: seq<byte>, room: nat, f: Flush)
    requires Wrote(k, s, x, z, w + tail) && s.stage == [] && !s.ended && s.started && w != []
    requires var take := w[..Min(|w|, CHUNK)];
             var u := k.update(StageCap(), s.c, take);
             u.error == None && k.state(u.next, s.size, x + take, z + u.out) && Kept(k, u.next, |x + take|, |z + u.out|)
    ensures TurnOk(k, CallTurn(k, s, w, f), x, z, w, tail, room, f)
  {
    hide StageCap, Kept;
    assert z + [] == z;
  }

  lemma Begun<C(!new)>(k: Lz4f<C>, level: int, size: Option<nat>)
    requires Lz4fKeeps(k)
    ensures var m := k.begin(StageCap(), level, size); m.error == None && k.state(m.next, size, [], m.out) && Kept(k, m.next, 0, |m.out|)
  {
    assert BeginKeeps(k, StageCap(), level, size);
  }

  lemma BeginOk<C(!new)>(k: Lz4f<C>, s: Enc<C>, w: seq<byte>, tail: seq<byte>, room: nat, f: Flush)
    requires Lz4fKeeps(k) && Wrote(k, s, [], [], w + tail) && (f == Finish ==> tail == []) && s.stage == [] && !s.ended && !s.started
    ensures TurnOk(k, CallTurn(k, s, w, f), [], [], w, tail, room, f)
  {
    hide Lz4fKeeps, StageCap, Kept;
    var size := if f == Finish then Some(|w|) else s.size;
    Begun(k, L.Lz4Level(s.level), size);
    var m := k.begin(StageCap(), L.Lz4Level(s.level), size);
    assert [] + w[..0] == [] && w[0..] + tail == w + tail && [] + [] + m.out == m.out;
  }

  lemma OneTurnMoves<C>(k: Lz4f<C>, s: Enc<C>, w: seq<byte>, room: nat, f: Flush)
    ensures var i := OneTurn(k, s, w, room, f);
            i.Go? ==> i.used <= |w| && |i.out| <= room && (i.used == 0 && i.out == [] ==> Rank(i.next) < Rank(s))
  {
  }

  /** A whole call: the stage never loses, repeats or reorders a byte, the
      stream ends only with the stage empty, and the library never fails. */
  lemma {:induction false} LoopOk<C(!new)>(k: Lz4f<C>, s: Enc<C>, x: seq<byte>, z: seq<byte>, w: seq<byte>, tail: seq<byte>, room: nat, f: Flush)
    requires Lz4fKeeps(k) && Wrote(k, s, x, z, w + tail) && (f == Finish ==> tail == [])
    ensures TurnOk(k, Stop(Loop(k, s, w, room, f)), x, z, w, tail, room, f)
    decreases |w| + room, Rank(s)
  {
    hide Lz4fKeeps, Wrote, OneTurn, Rank;
    OneTurnOk(k, s, x, z, w, tail, room, f);
    OneTurnMoves(k, s, w, room, f);
    var i := OneTurn(k, s, w, room, f);
    if i.Go? {
      var v := w[i.used..];
      LoopOk(k, i.next, x + w[..i.used], z + i.out, v, tail, room - |i.out|, f);
      EncAhead(Lz4fSem(k), Loop(k, i.next, v, room - |i.out|, f), x, z, i.out, i.used, w, tail, room, f);
    }
  }

  /** A proper answer stays one when the turns before it are counted in. */
  lemma EncAhead<T>(sem: EncSem<T>, r: Reply<T>, x: seq<byte>, z: seq<byte>, p: seq<byte>, n: nat,
                    w: seq<byte>, tail: seq<byte>, room: nat, f: Flush)
    requires n <= |w| && |p| <= room
    requires EncReplyOk(sem, r, x + w[..n], z + p, w[n..], tail, room - |p|, f)
    ensures EncReplyOk(sem, Ahead(p, n, r), x, z, w, tail, room, f)
  {
    var v := w[n..];
    assert x + w[..n] + v == x + w && z + p + r.out == z + (p + r.out);
    assert x + w[..n] + v[..r.used] == x + w[..n + r.used] && v[r.used..] == w[n + r.used..];
  }

  // ---- FLUSH ------------------------------------------------------------------------------

  /** In a call with FLUSH: the library has been flushed, its window being
      spent. */
  predicate Showing<C>(k: Lz4f<C>, s: Enc<C>, x: seq<byte>, z: seq<byte>, w: seq<byte>) {
    s.flushed ==> w == [] && s.started && k.shows(x, z + Pending(s))
  }

  lemma OneTurnShows<C(!new)>(k: Lz4f<C>, s: Enc<C>, x: seq<byte>, z: seq<byte>, w: seq<byte>, tail: seq<byte>, room: nat)
    requires Lz4fKeeps(k) && Wrote(k, s, x, z, w + tail) && Showing(k, s, x, z, w)
    ensures match OneTurn(k, s, w, room, FlushNow)
            case Stop(r) => r.status == NeedInput ==> k.shows(x + w, z + r.out)
            case Go(next, used, out) => used <= |w| && Showing(k, next, x + w[..used], z + out, w[used..])
  {
    hide Lz4fKeeps, CallTurn, Wrote, Showing;
    var p, s0 := Pending(s), s.(stage := [], pos := 0);
    if |p| <= room {
      Drained(k, s, x, z, w + tail);
      DrainedShows(k, s, x, z, w);
      CallTurnShows(k, s0, x, z + p, w, tail);
      assert p + [] == p && z + p + [] == z + p;
    }
  }

  lemma DrainedShows<C>(k: Lz4f<C>, s: Enc<C>, x: seq<byte>, z: seq<byte>, w: seq<byte>)
    requires Showing(k, s, x, z, w)
    ensures Showing(k, s.(stage := [], pos := 0), x, z + Pending(s), w)
  {
    assert z + Pending(s) + [] == z + Pending(s);
  }

  lemma CallTurnShows<C(!new)>(k: Lz4f<C>, s: Enc<C>, x: seq<byte>, z: seq<byte>, w: seq<byte>, tail: seq<byte>)
    requires Lz4fKeeps(k) && Wrote(k, s, x, z, w + tail) && Showing(k, s, x, z, w) && s.stage == []
    ensures match CallTurn(k, s, w, FlushNow)
            case Stop(r) => r.status == NeedInput ==> k.shows(x + w, z)
            case Go(next, used, _) => used <= |w| && Showing(k, next, x + w[..used], z, w[used..])
  {
    hide Lz4fKeeps, StageCap, Kept, Wrote;
    Standing(k, s, x, z, w + tail);
    assert z + [] == z && x + w[..0] == x && w[0..] == w && (w == [] ==> x + w == x);
    if !s.ended && s.started {
      Asked(k, s, x, z, w[..Min(|w|, CHUNK)]);
    } else if !s.ended {
      Begun(k, L.Lz4Level(s.level), s.size);
    }
  }

  lemma {:induction false} LoopShows<C(!new)>(k: Lz4f<C>, s: Enc<C>, x: seq<byte>, z: seq<byte>, w: seq<byte>, tail: seq<byte>, room: nat)
    requires Lz4fKeeps(k) && Wrote(k, s, x, z, w + tail) && Showing(k, s, x, z, w)
    ensures var r := Loop(k, s, w, room, FlushNow); r.status == NeedInput ==> k.shows(x + w, z + r.out)
    decreases |w| + room, Rank(s)
  {
    hide Lz4fKeeps, Wrote, OneTurn, Rank, Showing;
    OneTurnOk(k, s, x, z, w, tail, room, FlushNow);
    OneTurnMoves(k, s, w, room, FlushNow);
    OneTurnShows(k, s, x, z, w, tail, room);
    var i := OneTurn(k, s, w, room, FlushNow);
    if i.Go? {
      var v := w[i.used..];
      LoopShows(k, i.next, x + w[..i.used], z + i.out, v, tail, room - |i.out|);
      var r := Loop(k, i.next, v, room - |i.out|, FlushNow);
      assert x + w[..i.used] + v == x + w && z + i.out + r.out == z + (i.out + r.out);
    }
  }

  /** FLUSH, answered by asking for input, has put out all that the library
      writes when it is flushed, after all of the window. */
  lemma Lz4fFlushesShow<C(!new)>(k: Lz4f<C>)
    requires Lz4fKeeps(k)
    ensures FlushesShow(Lz4fCodec(k), Lz4fSem(k), k.shows)
  {
    hide Lz4fKeeps, Loop;
    var c, sem := Lz4fCodec(k), Lz4fSem(k);
    forall s: Enc<C>, x: seq<byte>, z: seq<byte>, w: seq<byte>, tail: seq<byte>, room: nat
      ensures FlushShows(c, sem, k.shows, s, x, z, w, tail, room)
    {
      if sem.wrote(s, x, z, w + tail) {
        LoopShows(k, s.(flushed := false), x, z, w, tail, room);
      }
    }
  }

  function Lz4fCodec<C>(k: Lz4f<C>): (c: EncCodec<Enc<C>>) {
    EncCodec((level: int) => FreshLz4f(k, level),
             (s: Enc<C>, w: seq<byte>, room: nat, f: Flush) => Lz4fProcess(k, s, w, room, f), true,
             Some((s: Enc<C>, level: int) => ResetLz4f(k, s, level)), Levels(-65536, 12, 1))
  }

  /** The staged encoder keeps the promise, and is never seen to fail. */
  lemma Lz4fEncoderKeeps<C(!new)>(k: Lz4f<C>, level: int, rest: seq<byte>)
    requires Lz4fKeeps(k)
    ensures EncInWindow(Lz4fCodec(k)) && EncKeeps(Lz4fCodec(k), Lz4fSem(k)) && NeverFails(Lz4fCodec(k), Lz4fSem(k))
    ensures Lz4fSem(k).wrote(FreshLz4f(k, level), [], [], rest)
  {
    hide Lz4fKeeps, EncReplyOk, Loop;
    var c, sem := Lz4fCodec(k), Lz4fSem(k);
    forall s: Enc<C>, x: seq<byte>, z: seq<byte>, w: seq<byte>, tail: seq<byte>, room: nat, f: Flush
      ensures EncStepOk(c, sem, s, x, z, w, tail, room, f) && CallSucceeds(c, sem, s, x, z, w, tail, room, f)
    {
      if sem.wrote(s, x, z, w + tail) && (f == Finish ==> tail == []) {
        LoopOk(k, s.(flushed := false), x, z, w, tail, room, f);
      }
    }
    forall s: Enc<C>, w: seq<byte>, room: nat, f: Flush ensures EncInside(c, s, w, room, f) {
      var r := Lz4fProcess(k, s, w, room, f);
    }
  }

  /** However it is flushed, no frame takes more. */
  lemma MostIsMost<C(!new)>(k: Lz4f<C>, p: seq<byte>)
    ensures Within(Lz4fSem(k), p, Most(|p|))
  {
    forall s: Enc<C>, x: seq<byte>, z: seq<byte>, rest: seq<byte> | Lz4fSem(k).wrote(s, x, z, rest) && x + rest == p
      ensures |z| <= Most(|p|)
    {
      assert |x| <= |p| && Small(k, s, x, z);
    }
  }

  /** Liveness. Told to finish, with more room in all than that, the encoder ends
      with a frame of all the input. */
  lemma Lz4fEncodeEnds<C(!new)>(k: Lz4f<C>, level: int, p: seq<byte>, slots: seq<Slot>)
    requires Lz4fKeeps(k) && EncInWindow(Lz4fCodec(k))
    requires (forall i :: 0 <= i < |slots| ==> slots[i].flush == Finish) && Rooms(slots) > Most(|p|)
    ensures var r := EncodeAll(Lz4fCodec(k), EncHandle(FreshLz4f(k, level), false), p, slots);
            r.status == StreamEnd && r.used == |p| && k.frame(p, r.out)
  {
    hide Lz4fKeeps, EncInWindow, EncKeeps, NeverFails, Within, Wrote, EncodeAll, Most;
    var none: seq<byte> := [];
    Lz4fEncoderKeeps(k, level, p);
    MostIsMost(k, p);
    assert none + p == p;
    EnoughRoomEnds(Lz4fCodec(k), Lz4fSem(k), FreshLz4f(k, level), none, none, p, slots, Most(|p|));
    var out := EncodeAll(Lz4fCodec(k), EncHandle(FreshLz4f(k, level), false), p, slots).out;
    assert none + out == out;
  }

  lemma {:induction false} LoopStays<C>(k: Lz4f<C>, s: Enc<C>, w: seq<byte>, room: nat, f: Flush)
    ensures Loop(k, s, w, room, f).next.level == s.level
    decreases |w| + room, Rank(s)
  {
    hide OneTurn, Rank;
    OneTurnMoves(k, s, w, room, f);
    OneTurnStays(k, s, w, room, f);
    var i := OneTurn(k, s, w, room, f);
    if i.Go? {
      LoopStays(k, i.next, w[i.used..], room - |i.out|, f);
    }
  }

  lemma OneTurnStays<C>(k: Lz4f<C>, s: Enc<C>, w: seq<byte>, room: nat, f: Flush)
    ensures var i := OneTurn(k, s, w, room, f); (if i.Stop? then i.reply.next else i.next).level == s.level
  {
    hide StageCap;
  }

  /** From any state a run can lead to, errors included, a reset is fresh at
      the level given, or else at the last. */
  lemma Lz4fResetsClean<C(!new)>(k: Lz4f<C>)
    ensures EncResetsClean(Lz4fCodec(k), (s: Enc<C>) => true, (s: Enc<C>) => s.level)
  {
    hide Loop;
    var c, own, at := Lz4fCodec(k), (s: Enc<C>) => true, (s: Enc<C>) => s.level;
    forall s: Enc<C>, w: seq<byte>, room: nat, f: Flush ensures EncStaysOwn(c, own, at, s, w, room, f) {
      LoopStays(k, s.(flushed := false), w, room, f);
    }
  }

  // ---- The declared size -------------------------------------------------------------------

  lemma {:induction false} LoopDeclares<C>(k: Lz4f<C>, s: Enc<C>, w: seq<byte>, room: nat, f: Flush)
    requires s.started
    ensures Loop(k, s, w, room, f).next.size == s.size
    decreases |w| + room, Rank(s)
  {
    hide OneTurn, Rank;
    OneTurnMoves(k, s, w, room, f);
    TurnDeclares(k, s, w, room, f);
    var i := OneTurn(k, s, w, room, f);
    if i.Go? {
      LoopDeclares(k, i.next, w[i.used..], room - |i.out|, f);
    }
  }

  lemma TurnDeclares<C>(k: Lz4f<C>, s: Enc<C>, w: seq<byte>, room: nat, f: Flush)
    requires s.started
    ensures match OneTurn(k, s, w, room, f)
            case Stop(r) => r.next.size == s.size
            case Go(next, _, _) => next.size == s.size && next.started
  {
    hide StageCap;
  }

  /** A frame that is begun by FINISH declares all of the window to be its
      content; begun otherwise it declares nothing. */
  lemma FirstCallDeclares<C>(k: Lz4f<C>, level: int, w: seq<byte>, room: nat, f: Flush)
    ensures Lz4fProcess(k, FreshLz4f(k, level), w, room, f).next.size == if f == Finish then Some(|w|) else None
  {
    hide StageCap, Loop;
    var s := FreshLz4f(k, level);
    var i := OneTurn(k, s, w, room, f);
    FirstTurn(k, s, w, room, f);
    if i.Go? {
      LoopDeclares(k, i.next, w[i.used..], room - |i.out|, f);
    }
  }

  /** A library that begins its frames otherwise at other levels. */
  ghost predicate AlikeAt<C>(k: Lz4f<C>, other: Lz4f<C>, level: int) {
    && other == k.(begin := other.begin)
    && forall cap: nat, size: Option<nat> :: other.begin(cap, level, size) == k.begin(cap, level, size)
  }

  /** The library is asked for the level of the stream, which is 1 if none was
      asked for, and for no other. */
  lemma {:induction false} OnlyItsLevel<C(!new)>(k: Lz4f<C>, other: Lz4f<C>, s: Enc<C>, w: seq<byte>, room: nat, f: Flush)
    requires AlikeAt(k, other, if s.level == LEVEL_DEFAULT then 1 else s.level)
    ensures Loop(k, s, w, room, f) == Loop(other, s, w, room, f)
    decreases |w| + room, Rank(s)
  {
    hide OneTurn, Rank;
    OneTurnMoves(k, s, w, room, f);
    TurnsAlike(k, other, s, w, room, f);
    OneTurnStays(k, s, w, room, f);
    FirstTurn(k, s, w, room, f);
    FirstTurn(other, s, w, room, f);
    hide Loop, AlikeAt;
    var i := OneTurn(k, s, w, room, f);
    if i.Go? {
      OnlyItsLevel(k, other, i.next, w[i.used..], room - |i.out|, f);
    }
  }

  lemma TurnsAlike<C(!new)>(k: Lz4f<C>, other: Lz4f<C>, s: Enc<C>, w: seq<byte>, room: nat, f: Flush)
    requires AlikeAt(k, other, if s.level == LEVEL_DEFAULT then 1 else s.level)
    ensures OneTurn(k, s, w, room, f) == OneTurn(other, s, w, room, f)
  {
    hide StageCap;
  }

  /** The levels from liblz4's fastest to its best. */
  lemma Lz4fAdvertises<C>(k: Lz4f<C>, level: int)
    ensures LevelOk(Lz4fCodec(k).levels, level) <==> level == LEVEL_DEFAULT || -65536 <= level <= 12
    ensures Lz4fCodec(k).canFlush
  {
  }

  lemma FirstTurn<C>(k: Lz4f<C>, s: Enc<C>, w: seq<byte>, room: nat, f: Flush)
    ensures Loop(k, s, w, room, f) ==
            match OneTurn(k, s, w, room, f)
            case Stop(r) => r
            case Go(next, used, out) => Ahead(out, used, Loop(k, next, w[used..], room - |out|, f))
  {
  }

  // ---- Flushed frames read back -------------------------------------------------------------

  /** What shows `p` is, to a decoder with concatenation on, a stream that ends
      after `p` or is cut short there. */
  ghost predicate ShownReadBack<D>(shows: (seq<byte>, seq<byte>) -> bool, lib: F.Lib<D>, x: F.LibSem<D>, kind: F.Kind) {
    forall p: seq<byte>, z: seq<byte> :: shows(p, z) ==>
      var o := S.Unframe(lib, x, kind, 0, z, true); (o.Complete? || o.Cut?) && o.out == p
  }

  /** Main theorem, FLUSH. After any run, in any windows, where a FLUSH is
      answered by asking for input, a decode run over what is out so far, in any
      other windows, that comes to an end has delivered every byte taken. */
  lemma FlushedReads<T(!new), D(!new)>(c: EncCodec<T>, sem: EncSem<T>, shows: (seq<byte>, seq<byte>) -> bool, start: T,
                                       lib: F.Lib<D>, x: F.LibSem<D>, kind: F.Kind,
                                       p: seq<byte>, slots: seq<Slot>, slot: Slot, opts: DecOpts, back: seq<Slot>)
    requires EncInWindow(c) && EncKeeps(c, sem) && FlushesShow(c, sem, shows) && sem.wrote(start, [], [], p)
    requires F.LibKeeps(lib, x, kind) && ShownReadBack(shows, lib, x, kind) && InWindow(F.FramedCodec(lib, kind))
    requires AsksAfterFlush(c, start, p, slots, slot)
    requires opts == DecOpts(0, 0, opts.reject, true, false, 0)
    requires S.Minds(lib, kind, opts, EncodeAll(c, EncHandle(start, false), p, slots + [slot]).out, back)
    ensures var r := EncodeAll(c, EncHandle(start, false), p, slots + [slot]);
            var d := S.Run(lib, kind, opts, r.out, back);
            if d.status.IsProgress() then d.out <= p[..r.used] else d.out == p[..r.used]
  {
    hide EncInWindow, EncKeeps, FlushesShow, F.LibKeeps, InWindow, S.Minds, S.Run, S.Unframe, S.Lone, EncodeAll, AsksAfterFlush;
    FlushedShows(c, sem, shows, start, p, slots, slot);
    var r := EncodeAll(c, EncHandle(start, false), p, slots + [slot]);
    S.FramedLimits(lib, x, kind, opts, r.out, back);
  }

  // ---- Round trip -------------------------------------------------------------------------

  /** Each payload encoded on its own, in its own windows, to the end. */
  ghost predicate AllProduced<T(!new)>(c: EncCodec<T>, start: T, xs: seq<seq<byte>>, ess: seq<seq<Slot>>, zs: seq<seq<byte>>)
    requires EncInWindow(c)
  {
    && |xs| == |ess| == |zs|
    && forall i :: 0 <= i < |xs| ==>
         var r := EncodeAll(c, EncHandle(start, false), xs[i], ess[i]); r.status == StreamEnd && r.out == zs[i]
  }

  /** `z` is frames end to end whose data is `p` end to end, with windows that
      max_output m admits. */
  ghost predicate AreFrames<D>(lib: F.Lib<D>, x: F.LibSem<D>, kind: F.Kind, m: uint64, p: seq<byte>, z: seq<byte>) {
    exists fs: seq<S.Framed> ::
      fs != [] && (forall i :: 0 <= i < |fs| ==> S.IsFrame(lib, x, kind, m, fs[i])) && S.Bytes(fs) == z && S.Data(fs) == p
  }

  /** Every finished stream of this encoder is frames of its input. */
  ghost predicate MakesFrames<T, D>(sem: EncSem<T>, lib: F.Lib<D>, x: F.LibSem<D>, kind: F.Kind, m: uint64) {
    forall p: seq<byte>, z: seq<byte> :: sem.whole(p, z) ==> AreFrames(lib, x, kind, m, p, z)
  }

  lemma OneIsFrames<D>(lib: F.Lib<D>, x: F.LibSem<D>, kind: F.Kind, m: uint64, p: seq<byte>, z: seq<byte>)
    requires S.IsFrame(lib, x, kind, m, S.Framed(z, p))
    ensures AreFrames(lib, x, kind, m, p, z)
  {
    var fs := [S.Framed(z, p)];
    var none: seq<S.Framed> := [];
    assert fs[1..] == none && S.Bytes(none) == [] && S.Data(none) == [];
    assert z + [] == z && p + [] == p;
  }

  /** Frames end to end after frames end to end. */
  lemma {:induction false} FramesAppend(fs: seq<S.Framed>, gs: seq<S.Framed>)
    ensures S.Bytes(fs + gs) == S.Bytes(fs) + S.Bytes(gs) && S.Data(fs + gs) == S.Data(fs) + S.Data(gs)
    decreases |fs|
  {
    if fs == [] {
      assert fs + gs == gs;
    } else {
      assert (fs + gs)[1..] == fs[1..] + gs;
      FramesAppend(fs[1..], gs);
    }
  }

  lemma AreMoreFrames<D>(lib: F.Lib<D>, x: F.LibSem<D>, kind: F.Kind, m: uint64, p: seq<byte>, z: seq<byte>, q: seq<byte>, y: seq<byte>)
    requires AreFrames(lib, x, kind, m, p, z) && AreFrames(lib, x, kind, m, q, y)
    ensures AreFrames(lib, x, kind, m, p + q, z + y)
  {
    hide S.IsFrame;
    var fs: seq<S.Framed> :|
      fs != [] && (forall i :: 0 <= i < |fs| ==> S.IsFrame(lib, x, kind, m, fs[i])) && S.Bytes(fs) == z && S.Data(fs) == p;
    var gs: seq<S.Framed> :|
      gs != [] && (forall i :: 0 <= i < |gs| ==> S.IsFrame(lib, x, kind, m, gs[i])) && S.Bytes(gs) == y && S.Data(gs) == q;
    Appended(lib, x, kind, m, fs, gs);
  }

  lemma Appended<D>(lib: F.Lib<D>, x: F.LibSem<D>, kind: F.Kind, m: uint64, fs: seq<S.Framed>, gs: seq<S.Framed>)
    requires fs != [] && forall i :: 0 <= i < |fs| ==> S.IsFrame(lib, x, kind, m, fs[i])
    requires forall i :: 0 <= i < |gs| ==> S.IsFrame(lib, x, kind, m, gs[i])
    ensures AreFrames(lib, x, kind, m, S.Data(fs) + S.Data(gs), S.Bytes(fs) + S.Bytes(gs))
  {
    hide S.IsFrame;
    FramesAppend(fs, gs);
    var both := fs + gs;
    AllAppended((f: S.Framed) => S.IsFrame(lib, x, kind, m, f), fs, gs);
    assert both != [] && forall i :: 0 <= i < |both| ==> S.IsFrame(lib, x, kind, m, both[i]);
  }

  lemma AllAppended<T>(ok: T -> bool, a: seq<T>, b: seq<T>)
    requires (forall i :: 0 <= i < |a| ==> ok(a[i])) && forall i :: 0 <= i < |b| ==> ok(b[i])
    ensures forall i :: 0 <= i < |a + b| ==> ok((a + b)[i])
  {
  }

  lemma {:induction false} ProducedAreFrames<T(!new), D(!new)>(c: EncCodec<T>, sem: EncSem<T>, start: T,
                                                               lib: F.Lib<D>, x: F.LibSem<D>, kind: F.Kind, m: uint64,
                                                               xs: seq<seq<byte>>, ess: seq<seq<Slot>>, zs: seq<seq<byte>>)
    requires EncInWindow(c) && EncKeeps(c, sem) && (forall p: seq<byte> :: sem.wrote(start, [], [], p))
    requires MakesFrames(sem, lib, x, kind, m) && AllProduced(c, start, xs, ess, zs) && xs != []
    ensures AreFrames(lib, x, kind, m, Concat(xs), Concat(zs))
    decreases |xs|
  {
    hide EncInWindow, EncKeeps, AreFrames;
    var none: seq<byte> := [];
    EncodeAllWhole(c, sem, start, none, none, xs[0], ess[0]);
    assert none + xs[0] == xs[0] && none + zs[0] == zs[0];
    if xs[1..] == [] {
      assert zs[1..] == [] && xs[0] + none == xs[0] && zs[0] + none == zs[0];
    } else {
      ProducedAreFrames(c, sem, start, lib, x, kind, m, xs[1..], ess[1..], zs[1..]);
      AreMoreFrames(lib, x, kind, m, xs[0], zs[0], Concat(xs[1..]), Concat(zs[1..]));
    }
  }

  /** Main theorem, round trip. Payloads encoded one by one, in any windows,
      put end to end and decoded with concatenation on, in any other windows,
      under any limits that admit them and with trailing bytes refused: the
      payloads come back, the stream ends, every byte is consumed. */
  lemma FramesRoundTrip<T(!new), D(!new)>(c: EncCodec<T>, sem: EncSem<T>, start: T,
                                          lib: F.Lib<D>, x: F.LibSem<D>, kind: F.Kind,
                                          xs: seq<seq<byte>>, ess: seq<seq<Slot>>, zs: seq<seq<byte>>,
                                          opts: DecOpts, slots: seq<Slot>)
    requires EncInWindow(c) && EncKeeps(c, sem) && (forall p: seq<byte> :: sem.wrote(start, [], [], p))
    requires F.LibKeeps(lib, x, kind) && MakesFrames(sem, lib, x, kind, opts.maxOutput)
    requires xs != [] && AllProduced(c, start, xs, ess, zs)
    requires opts.concat && opts.reject && opts.maxRatio == 0 && Fits(opts, |Concat(xs)|)
    requires opts.hasExpected ==> opts.expected == |Concat(xs)|
    requires InWindow(F.FramedCodec(lib, kind)) && S.Minds(lib, kind, opts, Concat(zs), slots)
    ensures var r := S.Run(lib, kind, opts, Concat(zs), slots);
            if r.status.IsProgress() then r.out <= Concat(xs)
            else r.status == StreamEnd && r.out == Concat(xs) && r.used == |Concat(zs)|
  {
    hide EncInWindow, EncKeeps, F.LibKeeps, MakesFrames, AllProduced, InWindow, S.IsFrame, S.Run, S.Minds;
    ProducedAreFrames(c, sem, start, lib, x, kind, opts.maxOutput, xs, ess, zs);
    var fs: seq<S.Framed> :|
      && fs != [] && (forall i :: 0 <= i < |fs| ==> S.IsFrame(lib, x, kind, opts.maxOutput, fs[i]))
      && S.Bytes(fs) == Concat(zs) && S.Data(fs) == Concat(xs);
    S.FileReads(lib, x, kind, fs, opts, slots);
  }
}
