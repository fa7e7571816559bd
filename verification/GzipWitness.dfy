/** The contracts assumed of the DEFLATE engines are met, both of them at once,
    by engines that use stored blocks only. */
module GzipWitness {
  import opened Zu
  import opened Codecs
  import opened Driver
  import opened EncodeDriver
  import opened Inflate
  import opened MzInflate
  import opened DeflateDecoder
  import opened DeflateEncoder
  import opened Rfc1952
  import opened GzipRoundTrip
  import opened StoredBlocks
  import opened DeflateBound
  import opened DeflateFlush

  lemma StoredIsSelfDelimiting()
    ensures SelfDelimiting(StoredEngine, StoredSem)
  {
    forall s: seq<byte> {:trigger StoredSem.inf(StoredEngine.start, s)} | StoredSem.inf(StoredEngine.start, s).InfEnd?
      ensures IsDeflate(StoredEngine, StoredSem, s[..StoredSem.inf(StoredEngine.start, s).used], StoredSem.inf(StoredEngine.start, s).out)
    {
      var i := Residual(Head([]), s);
      var z := s[..i.used];
      StartRemains(s);
      forall t: seq<byte> {:trigger z + t} ensures StoredSem.inf(StoredEngine.start, z + t) == InfEnd(i.out, |z|) {
        ResidualStops(Head([]), s, t);
        ResidualUsed(Head([]), s);
        StartRemains(z + t);
      }
    }
  }

  /** Behind mz_inflate() a stream amounts to what it does without. */
  lemma StartRemains(s: seq<byte>)
    ensures StoredSem.inf(StoredEngine.start, s) == Residual(Head([]), s)
  {
    PrependInfNothing(Residual(Head([]), s));
  }

  lemma ResidualUsed(s: St, z: seq<byte>)
    ensures Residual(s, z).InfEnd? ==> Residual(s, z).used <= |z|
  {
  }

  /** Has stored `done` and gathered `buf` since, `out` waiting for room; or is
      handing out the last of a finished stream. */
  datatype Press = Gather(done: seq<byte>, buf: seq<byte>, out: seq<byte>) | Drain(x: seq<byte>, left: seq<byte>)

  const START: Press := Gather([], [], [])

  function PressStep(p: Press, w: seq<byte>, room: nat, f: MzFlush): (t: Turn<Press>)
    ensures t.used <= |w| && |t.out| <= room
  {
    match p
    case Gather(done, buf, out) =>
      if f == MzFinish then Emit(done + buf + w, |w|, out + Store(buf + w), room)
      else if f == MzSyncFlush && (w != [] || out == []) then Pass(done + buf + w, [], out + OpenStore(buf + w), |w|, room)
      else Pass(done, buf + w, out, |w|, room)
    case Drain(x, left) =>
      if f != MzFinish then Turn(p, 0, [], MzError(ErrInvalidData)) else Emit(x, 0, left, room)
  }

  function Emit(x: seq<byte>, used: nat, left: seq<byte>, room: nat): (t: Turn<Press>)
    ensures t.used == used && |t.out| <= room
  {
    var n := Min(|left|, room);
    Turn(Drain(x, left[n..]), used, left[..n], if n == |left| then MzEnd else MzOk)
  }

  function Pass(done: seq<byte>, buf: seq<byte>, out: seq<byte>, used: nat, room: nat): (t: Turn<Press>)
    ensures t.used == used && |t.out| <= room
  {
    var n := Min(|out|, room);
    Turn(Gather(done, buf, out[n..]), used, out[..n], MzOk)
  }

  /** `z` is the beginning of a stream, `done` of it. */
  ghost predicate Leads(z: seq<byte>, done: seq<byte>) {
    forall t: seq<byte> {:trigger z + t} :: Residual(Head([]), z + t) == PrependInf(done, |z|, Residual(Head([]), t))
  }

  ghost predicate Made(p: Press, x: seq<byte>, z: seq<byte>) {
    match p
    case Gather(done, buf, out) => x == done + buf && Leads(z + out, done)
    case Drain(y, left) => x == y && left != [] && IsDeflate(StoredEngine, StoredSem, z + left, x)
  }

  ghost function StoredCompressor(): (k: Compressor<Press, Mz<St>>) {
    Compressor((level: int) => START,
               (p: Press, w: seq<byte>, room: nat, f: MzFlush) => PressStep(p, w, room, f),
               (p: Press, x: seq<byte>, z: seq<byte>) => Made(p, x, z),
               (p: Press) => p.Drain?,
               StoredEngine, StoredSem)
  }

  lemma NothingLeads()
    ensures Leads([], [])
  {
    forall t: seq<byte> {:trigger [] + t} ensures Residual(Head([]), [] + t) == PrependInf([], 0, Residual(Head([]), t)) {
      assert [] + t == t;
      PrependInfNothing(Residual(Head([]), t));
    }
  }

  lemma LeadsOn(z: seq<byte>, done: seq<byte>, data: seq<byte>)
    requires Leads(z, done)
    ensures Leads(z + OpenStore(data), done + data)
  {
    hide Residual, OpenStore;
    var b := OpenStore(data);
    forall t: seq<byte> {:trigger z + b + t}
      ensures Residual(Head([]), z + b + t) == PrependInf(done + data, |z + b|, Residual(Head([]), t))
    {
      assert z + b + t == z + (b + t);
      OpenStoreInflates(data, t);
      PrependInfTwice(done, |z|, data, |b|, Residual(Head([]), t));
    }
  }

  lemma EndsThere(z: seq<byte>, done: seq<byte>, data: seq<byte>)
    requires Leads(z, done)
    ensures IsDeflate(StoredEngine, StoredSem, z + Store(data), done + data) && Store(data) != []
  {
    StoreIsLonger(data);
    hide Residual, Store, StoredSem, StoredEngine;
    var b := Store(data);
    forall t: seq<byte> {:trigger z + b + t} ensures StoredSem.inf(StoredEngine.start, z + b + t) == InfEnd(done + data, |z + b|) {
      assert z + b + t == z + (b + t);
      StoreInflates(data, t);
      StartRemains(z + b + t);
    }
  }

  lemma EmitKeeps(x: seq<byte>, z: seq<byte>, used: nat, left: seq<byte>, room: nat)
    requires IsDeflate(StoredEngine, StoredSem, z + left, x) && room > 0 && left != []
    ensures var t := Emit(x, used, left, room);
            if t.mz == MzEnd then IsDeflate(StoredEngine, StoredSem, z + t.out, x)
            else t.mz == MzOk && t.next.Drain? && Made(t.next, x, z + t.out) && t.out != []
  {
    hide IsDeflate;
    var n := Min(|left|, room);
    assert z + left[..n] + left[n..] == z + left;
    assert n == |left| ==> left[..n] == left;
  }

  lemma PassKeeps(done: seq<byte>, buf: seq<byte>, out: seq<byte>, z: seq<byte>, used: nat, room: nat)
    requires Leads(z + out, done)
    ensures var t := Pass(done, buf, out, used, room);
            t.mz == MzOk && t.next.Gather? && Made(t.next, done + buf, z + t.out) && (|t.out| < room ==> t.out == out && t.next == Gather(done, buf, []))
  {
    hide Leads;
    var n := Min(|out|, room);
    assert z + out[..n] + out[n..] == z + out;
  }

  lemma GatherKeeps(p: Press, x: seq<byte>, z: seq<byte>, w: seq<byte>, room: nat, f: MzFlush)
    requires p.Gather? && Made(p, x, z) && room > 0
    ensures CompressKeeps(StoredCompressor(), p, x, z, w, room, f)
  {
    hide Store, OpenStore, IsDeflate, Emit, Leads, Pass;
    var data := p.buf + w;
    assert w[..|w|] == w && p.done + p.buf + w == p.done + data && p.done + data + [] == p.done + data;
    if f == MzFinish {
      EndsThere(z + p.out, p.done, data);
      assert z + p.out + Store(data) == z + (p.out + Store(data));
      EmitKeeps(x + w, z, |w|, p.out + Store(data), room);
    } else if f == MzSyncFlush && (w != [] || p.out == []) {
      LeadsOn(z + p.out, p.done, data);
      assert z + p.out + OpenStore(data) == z + (p.out + OpenStore(data));
      PassKeeps(p.done + data, [], p.out + OpenStore(data), z, |w|, room);
      SomethingPasses(p.done + data, p.out + OpenStore(data), |w|, room) by { OpenStoreIsThere(data); }
    } else {
      PassKeeps(p.done, data, p.out, z, |w|, room);
    }
  }

  lemma OpenStoreIsThere(data: seq<byte>)
    ensures |OpenStore(data)| >= 5
  {
  }

  lemma SomethingPasses(done: seq<byte>, out: seq<byte>, used: nat, room: nat)
    requires out != [] && room > 0
    ensures Pass(done, [], out, used, room).out != []
  {
  }

  lemma DrainKeeps(x: seq<byte>, left: seq<byte>, z: seq<byte>, w: seq<byte>, room: nat, f: MzFlush)
    requires room > 0 && Made(Drain(x, left), x, z)
    ensures CompressKeeps(StoredCompressor(), Drain(x, left), x, z, w, room, f)
  {
    hide IsDeflate, Emit;
    assert x + w[..0] == x;
    EmitKeeps(x, z, 0, left, room);
  }

  lemma StoredCompressorKeeps()
    ensures CompressorKeeps(StoredCompressor())
  {
    var k := StoredCompressor();
    NothingLeads();
    var none: seq<byte> := [];
    assert none + none == none;
    forall p: Press, x: seq<byte>, z: seq<byte>, w: seq<byte>, room: nat, f: MzFlush
      ensures CompressKeeps(k, p, x, z, w, room, f)
    {
      hide IsDeflate, Leads, PressStep;
      if Made(p, x, z) && room > 0 {
        match p
        case Gather(_, _, _) => GatherKeeps(p, x, z, w, room, f);
        case Drain(_, left) => DrainKeeps(x, left, z, w, room, f);
      }
    }
  }

  // ---- FLUSH ---------------------------------------------------------------------------

  /** Nothing written waits for room. */
  predicate Idle(p: Press) {
    p.Gather? && p.out == []
  }

  lemma LeadsShows(z: seq<byte>, done: seq<byte>)
    requires Leads(z, done)
    ensures Residual(Head([]), z) == InfCut(done)
  {
    var none: seq<byte> := [];
    assert z + none == z && done + none == done;
  }

  /** Of what is still to come nothing more shows, if all there is shows. */
  lemma NothingMoreShows(x: seq<byte>, z: seq<byte>, out: seq<byte>, n: nat, done: seq<byte>)
    requires Residual(Head([]), z) == InfCut(x) && Leads(z + out, done) && done <= x && n <= |out|
    ensures Residual(Head([]), z + out[..n]) == InfCut(x)
  {
    LeadsShows(z + out, done);
    hide Residual, Leads;
    assert z + out == z + out[..n] + out[n..];
    ResidualGrows(Head([]), z + out[..n], out[n..]);
    ResidualGrows(Head([]), z, out[..n]);
  }

  lemma ShowsIs(x: seq<byte>, b: seq<byte>)
    ensures Shows(StoredCompressor(), x, b) <==> Residual(Head([]), b) == InfCut(x)
  {
    StartRemains(b);
  }

  lemma GatherSyncs(p: Press, x: seq<byte>, z: seq<byte>, w: seq<byte>, room: nat)
    requires p.Gather? && Made(p, x, z) && room > 0
    ensures Syncs(StoredCompressor(), Idle, p, x, z, w, room)
  {
    hide Store, OpenStore, IsDeflate, Leads, Residual, Shows;
    var data := p.buf + w;
    var anew := w != [] || p.out == [];
    var done, out := if anew then p.done + data else p.done, if anew then p.out + OpenStore(data) else p.out;
    assert p.done + p.buf + w == p.done + data && z + p.out + OpenStore(data) == z + (p.out + OpenStore(data));
    OpenStoreIsThere(data);
    if anew {
      LeadsOn(z + p.out, p.done, data);
    }
    var n := Min(|out|, room);
    assert |out[..n]| < room ==> out[..n] == out;
    if |out[..n]| < room {
      LeadsShows(z + out, done);
      ShowsIs(done, z + out);
    }
    ShowsIs(x, z);
    ShowsIs(x, z + out[..n]);
    if w == [] && Residual(Head([]), z) == InfCut(x) {
      NothingMoreShows(x, z, out, n, done);
    }
  }

  /** What is assumed of sync flushing can be met too, by a compressor that
      writes something at each: DeflateFlush.FlushReads is about something, */
  lemma StoredSyncKeeps()
    ensures SyncKeeps(StoredCompressor(), Idle) && FlushWrites(StoredCompressor())
  {
    forall p: Press, x: seq<byte>, z: seq<byte>, w: seq<byte>, room: nat
      ensures Syncs(StoredCompressor(), Idle, p, x, z, w, room)
    {
      hide IsDeflate, Leads, PressStep, Shows;
      if p.Gather? && Made(p, x, z) && room > 0 {
        GatherSyncs(p, x, z, w, room);
      }
    }
    forall p: Press, w: seq<byte>, room: nat ensures FlushTurns(StoredCompressor(), p, w, room) {
      if p.Gather? {
        OpenStoreIsThere(p.buf + w);
      }
      hide OpenStore, Store;
    }
  }

  /** and so is its condition: there is room for the flush of a window when there
      is room for it in stored blocks, and for an empty block after them, and
      more. */
  lemma StoredFlushFits(s: Enc<Press>, w: seq<byte>, room: nat)
    requires s.place == Body && Idle(s.c) && |w| <= CLAMP && |OpenStore(s.c.buf + w)| + 5 < room <= CLAMP
    ensures FlushFits(StoredCompressor(), s, w, room, false)
  {
    var p, none: seq<byte> := s.c, [];
    var first := p.out + OpenStore(p.buf + w);
    OpenStoreIsThere(p.buf + w);
    assert OpenStore(none + none) == OpenStore(none) && |OpenStore(none)| == 5;
    hide OpenStore, ChecksumUpdate, TrailerFor;
    assert w[..|w|] == w && first[..|first|] == first && first[|first|..] == none && w[|w|..] == none && none[..0] == none;
    var i := EncTurn(StoredCompressor(), s, w, room, FlushNow);
    assert i.Go? && i.used == |w| && i.out == first && i.next.place == Body && i.next.c == Gather(p.done + p.buf + w, none, none);
    EmptyFlush(i.next, room - |first|);
  }

  /** With nothing to flush an empty block is written all the same. */
  lemma EmptyFlush(s: Enc<Press>, room: nat)
    requires s.place == Body && Idle(s.c) && s.c.buf == [] && 5 < room <= CLAMP
    ensures FlushFits(StoredCompressor(), s, [], room, true)
  {
    var none: seq<byte> := [];
    assert none + none == none && |OpenStore(none)| == 5 && OpenStore(none)[..5] == OpenStore(none) && none + OpenStore(none) == OpenStore(none);
    hide OpenStore, ChecksumUpdate, TrailerFor;
    assert none[..0] == none;
  }

  lemma {:induction false} StoreIsSmall(x: seq<byte>)
    ensures |Store(x)| <= StoredSize(|x|)
    decreases |x|
  {
    if |x| > 0xFFFF {
      StoreIsSmall(x[0xFFFF..]);
      assert (|x| - 65535) / 65535 == |x| / 65535 - 1;
    }
  }

  /** So does the expansion bound. */
  lemma StoredExpandsLittle()
    ensures ExpandsLittle(StoredCompressor(),
              (p: Press, n: nat, m: nat, j: nat) =>
                match p
                case Gather(done, buf, out) => done == [] && out == [] && |buf| == m && j == 0
                case Drain(x, left) => m == n && left != [] && j + |left| <= StoredSize(n))
  {
    hide Store, StoredSize;
    forall x: seq<byte> ensures |Store(x)| <= StoredSize(|x|) { StoreIsSmall(x); }
    forall x: seq<byte> ensures Store(x) != [] { StoreIsLonger(x); }
  }

  // ---- A one-shot call that drops input ------------------------------------------------

  /** This compressor takes what it is shown as soon as it is to finish. */
  lemma StoredIsEager()
    ensures Eager(StoredCompressor())
  {
    forall p: Press, x: seq<byte>, z: seq<byte>, w: seq<byte>, room: nat ensures TakesAtOnce(StoredCompressor(), p, x, z, w, room) {
      hide Store;
    }
  }

  /** What is left of a stream goes out in one FINISH turn that has the room,
      whatever input there is. */
  lemma DrainEnds(s: Enc<Press>, x: seq<byte>, left: seq<byte>, w: seq<byte>, room: nat)
    requires s.wrap == Raw && s.place == Body && s.c == Drain(x, left) && 0 < |left| <= Clamp(room)
    ensures var r := EncProcess(StoredCompressor(), s, w, room, Finish);
            r.status == StreamEnd && r.used == 0 && r.out == left
  {
    assert left[..|left|] == left;
  }

  /** The 2^31 - 1 of EncodeWrites is no artefact. Offered more than that under
      FINISH, an engine that ends on what it is shown ends the stream there:
      zu_compress_one answers ZU_OK, and what it has written is a stream of
      the first 2^31 - 1 bytes only. */
  lemma OneShotStopsAtTheClamp(level: int, w: seq<byte>, cap: nat)
    requires |w| > 0x7FFF_FFFF && cap >= StoredSize(CLAMP)
    ensures EncInWindow(EncoderCodec(StoredCompressor(), Raw))
    ensures var r := OneShot(EncoderCodec(StoredCompressor(), Raw), EncHandle(FreshEnc(StoredCompressor(), Raw, level), false), w, cap);
            && r.status == Ok && r.used == 0x7FFF_FFFF < |w|
            && WholeDecode(StoredEngine, StoredSem, Raw, false, r.out) == Complete(w[..CLAMP], |r.out|, [])
  {
    hide Store, EncInWindow, EncProcess;
    var k := StoredCompressor();
    EncoderInWindow(k, Raw);
    var s, x := FreshEnc(k, Raw, level), w[..CLAMP];
    assert [] + x == x;
    StoreIsSmall(x);
    StoreInflates(x, []);
    assert Store(x) + [] == Store(x);
    StartRemains(Store(x));
    FinishTakesAndWrites(s, w, cap, x);
    var r := EncProcess(k, s, w, cap, Finish);
    assert Store(x)[|Store(x)|..] == [];
  }

  lemma FinishTakesAndWrites(s: Enc<Press>, w: seq<byte>, room: nat, x: seq<byte>)
    requires s.wrap == Raw && s.place == Body && s.c == START && |w| > CLAMP && x == w[..CLAMP]
    requires 0 < |Store(x)| <= StoredSize(CLAMP) <= room
    ensures var r := EncProcess(StoredCompressor(), s, w, room, Finish);
            r.status == StreamEnd && r.used == CLAMP && r.out == Store(x)
  {
    hide Store;
    var z, n := Store(x), Min(|Store(x)|, Clamp(room));
    assert [] + x == x && z[..|z|] == z && z[..n] + z[n..] == z;
    var i := EncTurn(StoredCompressor(), s, w, room, Finish);
    if i.Go? {
      DrainEnds(i.next, x, z[n..], w[CLAMP..], room - n);
    }
  }
}
