/** The decoding half of src/codec_deflate.c: deflate-raw, zlib and gzip over
    one engine, with the wrapper's header, trailer and member probe streamed
    a byte at a time. */
module DeflateDecoder {
  import opened Zu
  import opened Codecs
  import opened Checksum
  import opened Inflate
  import H = GzipHeader

  datatype Wrap = Raw | Zlib | Gzip

  datatype Place = Header | Body | Trailer | MemberEnd | Done

  /** deflate_state, decoding. `hdr` and `tail` are the bytes of those arrays
      that are in use. */
  datatype State<+E> = State(
    wrap: Wrap, place: Place, gz: H.Header, hdr: seq<byte>, tail: seq<byte>,
    checksum: uint32, count: nat, e: E, called: bool, probe: bool,
    concat: bool, reject: bool)

  const CLAMP: int := 0x7FFF_FFFF

  function Clamp(n: nat): (r: nat) {
    if n > CLAMP then CLAMP else n
  }

  function ChecksumInit(wrap: Wrap): (c: uint32) {
    if wrap == Gzip then 0 else 1
  }

  function ChecksumUpdate(wrap: Wrap, v: uint32, s: seq<byte>): (c: uint32) {
    if wrap == Gzip then Crc32(v, s) else Adler32(v, s)
  }

  lemma ChecksumAppend(wrap: Wrap, v: uint32, s: seq<byte>, t: seq<byte>)
    ensures ChecksumUpdate(wrap, ChecksumUpdate(wrap, v, s), t) == ChecksumUpdate(wrap, v, s + t)
  {
    Crc32Append(v, s, t);
    Adler32Append(v, s, t);
  }

  function TailLen(wrap: Wrap): (n: nat) {
    match wrap
    case Raw => 0
    case Zlib => 4
    case Gzip => 8
  }

  /** zu_int_deflate_new for a decoder. */
  function Fresh<E>(g: Engine<E>, wrap: Wrap, concat: bool, reject: bool): (d: State<E>) {
    State(wrap, if wrap == Raw then Body else Header, H.Init, [], [],
          ChecksumInit(wrap), 0, g.start, false, false, concat, reject)
  }

  /** zu_int_deflate_reset for a decoder: field by field, as the code does. */
  function Reset<E>(g: Engine<E>, d: State<E>): (d': State<E>) {
    var d1 := d.(e := g.start, called := false, checksum := ChecksumInit(d.wrap), count := 0,
                 hdr := [], tail := [], probe := false);
    match d.wrap
    case Zlib => d1.(place := Header)
    case Gzip => d1.(place := Header, gz := H.Init)
    case Raw => d1.(place := Body)
  }

  /** A reset leaves nothing of the stream behind, whatever state it was in. */
  lemma ResetIsFresh<E>(g: Engine<E>, d: State<E>)
    requires d.wrap != Gzip ==> d.gz == H.Init
    ensures Reset(g, d) == Fresh(g, d.wrap, d.concat, d.reject)
  {
  }

  /** zu_int_zlib_check_header. */
  function CheckZlib(cmf: byte, flg: byte): (st: Status)
    ensures st == Ok || st.IsError()
  {
    if cmf % 16 != 8 then ErrInvalidData
    else if cmf / 16 > 7 then ErrInvalidData
    else if (256 * cmf as int + flg) % 31 != 0 then ErrInvalidData
    else if flg / 32 % 2 == 1 then ErrUnsupported
    else Ok
  }

  /** Does the trailer agree with what was decoded? */
  predicate TrailerAgrees<E>(d: State<E>)
    requires |d.tail| == TailLen(d.wrap)
  {
    match d.wrap
    case Raw => true
    case Zlib => Be32(d.tail) == d.checksum
    case Gzip => Le32(d.tail[..4]) == d.checksum && Le32(d.tail[4..]) == d.count % TWO32
  }

  // ---- One turn of deflate_process -------------------------------------------

  function ShortStatus(f: Flush): (st: Status) {
    if f == Finish then ErrTruncated else NeedInput
  }

  function HeaderTurn<E>(d: State<E>, w: seq<byte>, f: Flush): (i: Iter<State<E>>) {
    if d.wrap == Gzip then
      if w == [] then Stop(Reply(d, 0, [], ShortStatus(f)))
      else
        var fed := H.Feed(d.gz, w[0]);
        var d1 := d.(gz := fed.h);
        if fed.status != Ok then Stop(Reply(d1, 1, [], fed.status))
        else Go(if fed.done then d1.(place := Body) else d1, 1, [])
    else if |d.hdr| < 2 then
      if w == [] then Stop(Reply(d, 0, [], ShortStatus(f)))
      else Go(d.(hdr := d.hdr + [w[0]]), 1, [])
    else
      var st := CheckZlib(d.hdr[0], d.hdr[1]);
      if st != Ok then Stop(Reply(d, 0, [], st)) else Go(d.(place := Body), 0, [])
  }

  function MzFlushOf(f: Flush, called: bool): (m: MzFlush)
    ensures m == MzFinish ==> called
  {
    match f
    case Run => MzNoFlush
    case FlushNow => MzSyncFlush
    case Finish => if called then MzFinish else MzSyncFlush
  }

  function Inflated<E>(d: State<E>, t: Turn<E>): (d': State<E>) {
    var d1 := d.(e := t.next, called := true);
    if d.wrap == Raw then d1
    else d1.(checksum := ChecksumUpdate(d.wrap, d.checksum, t.out), count := d.count + |t.out|)
  }

  function BodyTurn<E>(g: Engine<E>, d: State<E>, w: seq<byte>, room: nat, f: Flush): (i: Iter<State<E>>) {
    var t := AskBody(g, d, w, room, f);
    var d1 := Inflated(d, t);
    match t.mz
    case MzEnd =>
      if d.wrap == Raw then Stop(Reply(d1.(place := Done), t.used, t.out, StreamEnd))
      else Go(d1.(place := Trailer, tail := []), t.used, t.out)
    case MzError(status) => Stop(Reply(d1, t.used, t.out, status))
    case MzOk =>
      if t.used == 0 && t.out == [] then
        Stop(Reply(d1, 0, [],
                   if room == 0 then NeedOutput
                   else if w == [] then (if f != Finish then NeedInput else ErrInvalidData)
                   else NeedOutput))
      else Go(d1, t.used, t.out)
  }

  function TrailerTurn<E>(d: State<E>, w: seq<byte>, f: Flush): (i: Iter<State<E>>) {
    if |d.tail| < TailLen(d.wrap) then
      if w == [] then Stop(Reply(d, 0, [], ShortStatus(f)))
      else Go(d.(tail := d.tail + [w[0]]), 1, [])
    else if |d.tail| == TailLen(d.wrap) && TrailerAgrees(d) then Go(d.(place := MemberEnd), 0, [])
    else Stop(Reply(d, 0, [], ErrChecksum))
  }

  /** Between members: is another coming? A lone 0x1F at the end of a window
      has to be taken before that is known. */
  function MemberTurn<E>(g: Engine<E>, d: State<E>, w: seq<byte>, f: Flush): (i: Iter<State<E>>) {
    var concat := d.wrap == Gzip && d.concat;
    var done := d.(place := Done, probe := false);
    if !concat || w == [] then
      if w == [] && concat && f != Finish then Stop(Reply(d, 0, [], NeedInput))
      else Stop(Reply(done, 0, [], if d.probe && d.reject then ErrTrailing else StreamEnd))
    else if !d.probe then
      if w[0] != 0x1F then Stop(Reply(done, 0, [], StreamEnd))
      else if |w| >= 2 then
        if w[1] != 0x8B then Stop(Reply(done, 0, [], StreamEnd)) else Go(Reset(g, d), 0, [])
      else if f == Finish then Stop(Reply(done, 0, [], StreamEnd))
      else Stop(Reply(d.(probe := true), 1, [], NeedInput))
    else if w[0] != 0x8B then Stop(Reply(done, 0, [], StreamEnd))
    else
      var d1 := Reset(g, d);
      var fed := H.Feed(d1.gz, 0x1F);
      if fed.status != Ok then Stop(Reply(d1.(gz := fed.h), 0, [], fed.status))
      else Go(d1.(gz := fed.h), 0, [])
  }

  function OneTurn<E>(g: Engine<E>, d: State<E>, w: seq<byte>, room: nat, f: Flush): (i: Iter<State<E>>)
    ensures i.Stop? ==> i.reply.used <= |w| && |i.reply.out| <= room
    ensures i.Go? ==> i.used <= |w| && |i.out| <= room
    ensures i.Go? && i.used == 0 && i.out == [] ==> Rank(i.next) < Rank(d)
  {
    match d.place
    case Done => Stop(Reply(d, 0, [], StreamEnd))
    case Header => HeaderTurn(d, w, f)
    case Body => BodyTurn(g, d, w, room, f)
    case Trailer => TrailerTurn(d, w, f)
    case MemberEnd => MemberTurn(g, d, w, f)
  }

  /** Turns that move no cursor go down. */
  function Rank<E>(d: State<E>): (r: nat) {
    match d.place
    case Header => if d.wrap == Gzip then 1 else 5
    case Body => 4
    case Trailer => 3
    case MemberEnd => 2
    case Done => 0
  }

  /** deflate_process. */
  function Process<E>(g: Engine<E>, d: State<E>, w: seq<byte>, room: nat, f: Flush): (r: Reply<State<E>>)
    ensures r.used <= |w| && |r.out| <= room
    decreases |w| + room, Rank(d)
  {
    match OneTurn(g, d, w, room, f)
    case Stop(r) => r
    case Go(next, used, out) => Ahead(out, used, Process(g, next, w[used..], room - |out|, f))
  }

  // ---- What a stream amounts to -------------------------------------------------

  datatype Leap<+S> = Final(o: Outcome) | Then(next: S, used: nat, out: seq<byte>)

  /** A body that does not end within the input: it is reported as invalid,
      cut short or not. */
  function NotEnded(i: Inf): (o: Outcome)
    ensures !o.Complete?
  {
    match i
    case InfBad(out, statuses) => Corrupt(out, statuses)
    case InfCut(out) => Corrupt(out, {ErrInvalidData})
    case _ => Open
  }

  /** The outcome of the stream in state `d` when exactly `rest` is to come.
      Nothing here knows of windows, output room or FINISH. */
  function Rest<E>(g: Engine<E>, x: EngineSem<E>, d: State<E>, rest: seq<byte>): (o: Outcome)
    decreases |rest|, Rank(d)
  {
    match LeapFrom(g, x, d, rest)
    case Final(o) => o
    case Then(next, used, out) => Prepend(out, used, Rest(g, x, next, rest[used..]))
  }

  function LeapFrom<E>(g: Engine<E>, x: EngineSem<E>, d: State<E>, rest: seq<byte>): (l: Leap<State<E>>)
    ensures l.Then? ==> l.used <= |rest| && (l.used == 0 ==> Rank(l.next) < Rank(d))
  {
    match d.place
    case Done => Final(Complete([], 0, rest))
    case Header => if d.wrap == Gzip then GzipHeaderLeap(d, rest) else ZlibHeaderLeap(d, rest)
    case Body =>
      var i := x.inf(d.e, rest);
      if !i.InfEnd? || i.used > |rest| then Final(NotEnded(i))
      else if d.wrap == Raw then Final(Complete(i.out, i.used, rest[i.used..]))
      else Then(EndOfBody(d, i.out), i.used, i.out)
    case Trailer =>
      var k := Missing(d);
      if |rest| < k then Final(Cut([], ErrTruncated))
      else
        var d1 := d.(tail := d.tail + rest[..k]);
        if |d1.tail| == TailLen(d.wrap) && TrailerAgrees(d1) then Then(d1.(place := MemberEnd), k, [])
        else Final(Corrupt([], {ErrChecksum}))
    case MemberEnd =>
      if !(d.wrap == Gzip && d.concat) then Final(Complete([], 0, rest))
      else if d.probe then
        if rest == [] || rest[0] != 0x8B then Final(Complete([], -1, [0x1F] + rest))
        else Then(Probed(g, d), 0, [])
      else if rest == [] then Final(Complete([], 0, []))
      else if |rest| < 2 || rest[0] != 0x1F || rest[1] != 0x8B then Final(Complete([], 0, rest))
      else Then(Reset(g, d), 0, [])
  }

  function GzipHeaderLeap<E>(d: State<E>, rest: seq<byte>): (l: Leap<State<E>>) {
    if rest == [] then Final(Cut([], ErrTruncated))
    else
      var fed := H.Feed(d.gz, rest[0]);
      var d1 := d.(gz := fed.h);
      if fed.status != Ok then Final(Corrupt([], {fed.status}))
      else Then(if fed.done then d1.(place := Body) else d1, 1, [])
  }

  function ZlibHeaderLeap<E>(d: State<E>, rest: seq<byte>): (l: Leap<State<E>>) {
    if |d.hdr| < 2 then
      if rest == [] then Final(Cut([], ErrTruncated)) else Then(d.(hdr := d.hdr + [rest[0]]), 1, [])
    else
      var st := CheckZlib(d.hdr[0], d.hdr[1]);
      if st != Ok then Final(Corrupt([], {st})) else Then(d.(place := Body), 0, [])
  }

  function Missing<E>(d: State<E>): (n: nat) {
    if |d.tail| < TailLen(d.wrap) then TailLen(d.wrap) - |d.tail| else 0
  }

  /** The state after a whole body, `out` being what was left of it. The
      engine's own state is dropped: nothing reads it before the next reset. */
  function EndOfBody<E>(d: State<E>, out: seq<byte>): (d': State<E>) {
    d.(place := Trailer, tail := [], checksum := ChecksumUpdate(d.wrap, d.checksum, out), count := d.count + |out|)
  }

  /** A fresh member whose first magic byte is already in. */
  function Probed<E>(g: Engine<E>, d: State<E>): (d': State<E>) {
    var d1 := Reset(g, d);
    d1.(gz := H.Feed(d1.gz, 0x1F).h)
  }

  predicate Inv<E>(g: Engine<E>, x: EngineSem<E>, wrap: Wrap, concat: bool, reject: bool, d: State<E>) {
    && d.wrap == wrap && d.concat == concat && d.reject == reject
    && (d.probe ==> d.place == MemberEnd && wrap == Gzip && concat)
    && match d.place
       case Header =>
         && wrap != Raw && x.ok(d.e, false) && !d.called && !x.late(d.e)
         && (if wrap == Gzip then H.Wf(d.gz) && d.gz.stage != H.Done else |d.hdr| <= 2)
       case Body => x.ok(d.e, d.called) && (x.late(d.e) ==> d.called)
       case Trailer => wrap != Raw && |d.tail| <= TailLen(wrap)
       case MemberEnd => wrap != Raw
       case Done => false
  }

  /** The engine has been told MZ_FINISH and is still at it. */
  predicate Late<E>(x: EngineSem<E>, d: State<E>) {
    d.place == Body && x.late(d.e)
  }

  function DecoderSem<E>(g: Engine<E>, x: EngineSem<E>, wrap: Wrap, concat: bool, reject: bool): (sem: Sem<State<E>>) {
    Sem((d: State<E>) => Inv(g, x, wrap, concat, reject, d),
        (d: State<E>, rest: seq<byte>) => Rest(g, x, d, rest),
        (d: State<E>) => Late(x, d), (d: State<E>) => 0)
  }

  /** The caller says FINISH to the end once it has said it, and then has no
      more than 2^31 - 1 bytes left, which is what the engine is shown. */
  const DEFLATE_ASKS: Asks := Asks(true, Some(CLAMP), None)

  /** DEFLATE may ask for room when input is what it lacks, so it is not an
      honest codec; it sees bytes after the stream for certain only when it
      looks for another member; it may run one byte past the end,
      and that byte is a 0x1F. */
  function DecoderPolicy(wrap: Wrap, concat: bool, reject: bool): (p: Policy) {
    Policy(reject, false, wrap == Gzip && concat, 1, (p: seq<byte>) => p == [0x1F], DEFLATE_ASKS)
  }

  /** A call the decoder may be asked: what is asked of the caller, spelled out. */
  predicate Asked<E>(g: Engine<E>, x: EngineSem<E>, d: State<E>, w: seq<byte>, tail: seq<byte>, f: Flush) {
    && (f == Finish ==> tail == [] && |w| <= CLAMP) && (Late(x, d) ==> f == Finish)
    && !Rest(g, x, d, w + tail).Open?
  }

  // ---- Each turn is a step of the stream ------------------------------------------

  /** What a turn in state `d` owes. */
  ghost predicate TurnOk<E(!new)>(g: Engine<E>, x: EngineSem<E>, d: State<E>, i: Iter<State<E>>,
                                  w: seq<byte>, tail: seq<byte>, room: nat, f: Flush)
  {
    IterOk(DecoderSem(g, x, d.wrap, d.concat, d.reject), DecoderPolicy(d.wrap, d.concat, d.reject),
           Rest(g, x, d, w + tail), i, w, tail, room, f)
  }

  /** A turn that goes on is right when it is exactly the leap. */
  lemma SameLeap<E(!new)>(g: Engine<E>, x: EngineSem<E>, d: State<E>, next: State<E>, used: nat, out: seq<byte>,
                          w: seq<byte>, tail: seq<byte>, room: nat, f: Flush)
    requires LeapFrom(g, x, d, w + tail) == Then(next, used, out)
    requires Inv(g, x, d.wrap, d.concat, d.reject, next) && used <= |w| && |out| <= room
    ensures TurnOk(g, x, d, Go(next, used, out), w, tail, room, f)
  {
    hide LeapFrom, Inv;
    assert (w + tail)[used..] == w[used..] + tail;
  }

  lemma GzipHeaderTurnOk<E(!new)>(g: Engine<E>, x: EngineSem<E>, d: State<E>, w: seq<byte>, tail: seq<byte>, room: nat, f: Flush)
    requires Inv(g, x, d.wrap, d.concat, d.reject, d) && d.place == Header && d.wrap == Gzip
    requires f == Finish ==> tail == []
    ensures TurnOk(g, x, d, HeaderTurn(d, w, f), w, tail, room, f)
  {
    hide H.Feed, H.Wf;
    if w == [] {
      assert w[0..] == w;
      PrependNothing(Rest(g, x, d, w + tail));
    } else {
      assert (w + tail)[0] == w[0];
      var fed := H.Feed(d.gz, w[0]);
      H.FeedDone(d.gz, w[0]);
      H.FeedFails(d.gz, w[0]);
      if fed.status == Ok {
        H.FeedKeepsWf(d.gz, w[0]);
        var i := HeaderTurn(d, w, f);
        SameLeap(g, x, d, i.next, 1, [], w, tail, room, f);
      }
    }
  }

  lemma ZlibHeaderTurnOk<E(!new)>(g: Engine<E>, x: EngineSem<E>, d: State<E>, w: seq<byte>, tail: seq<byte>, room: nat, f: Flush)
    requires Inv(g, x, d.wrap, d.concat, d.reject, d) && d.place == Header && d.wrap == Zlib
    requires f == Finish ==> tail == []
    ensures TurnOk(g, x, d, HeaderTurn(d, w, f), w, tail, room, f)
  {
    hide CheckZlib;
    if |d.hdr| < 2 && w == [] {
      assert w[0..] == w;
      PrependNothing(Rest(g, x, d, w + tail));
    } else {
      assert w != [] ==> (w + tail)[0] == w[0];
      var i := HeaderTurn(d, w, f);
      if i.Go? {
        SameLeap(g, x, d, i.next, i.used, i.out, w, tail, room, f);
      }
    }
  }

  lemma TrailerTurnOk<E(!new)>(g: Engine<E>, x: EngineSem<E>, d: State<E>, w: seq<byte>, tail: seq<byte>, room: nat, f: Flush)
    requires Inv(g, x, d.wrap, d.concat, d.reject, d) && d.place == Trailer
    requires f == Finish ==> tail == []
    ensures TurnOk(g, x, d, TrailerTurn(d, w, f), w, tail, room, f)
  {
    hide TrailerAgrees;
    var rest := w + tail;
    if |d.tail| == TailLen(d.wrap) {
      assert d.tail + rest[..0] == d.tail;
      if TrailerAgrees(d) {
        SameLeap(g, x, d, d.(place := MemberEnd), 0, [], w, tail, room, f);
      }
    } else if w == [] {
      assert w[0..] == w;
      PrependNothing(Rest(g, x, d, rest));
    } else {
      TrailerByte(g, x, d, w[0], w[1..] + tail);
      assert rest == [w[0]] + (w[1..] + tail);
    }
  }

  /** Trailer bytes may come one at a time. */
  lemma TrailerByte<E>(g: Engine<E>, x: EngineSem<E>, d: State<E>, b: byte, t: seq<byte>)
    requires d.place == Trailer && |d.tail| < TailLen(d.wrap)
    ensures Rest(g, x, d, [b] + t) == Prepend([], 1, Rest(g, x, d.(tail := d.tail + [b]), t))
  {
    hide TrailerAgrees;
    var k, rest, d1 := Missing(d), [b] + t, d.(tail := d.tail + [b]);
    if |rest| >= k {
      var whole := d.tail + rest[..k];
      assert rest[..k] == [b] + t[..k - 1] && whole == d1.tail + t[..k - 1];
      TrailerLeaps(g, x, d, d1, rest, t, k);
      if LeapFrom(g, x, d, rest).Then? {
        var next := d.(tail := whole, place := MemberEnd);
        assert rest[k..] == t[k - 1..];
        PrependTwice([], 1, [], k - 1, Rest(g, x, next, rest[k..]));
      }
    }
  }

  lemma TrailerLeaps<E>(g: Engine<E>, x: EngineSem<E>, d: State<E>, d1: State<E>, rest: seq<byte>, t: seq<byte>, k: nat)
    requires d.place == d1.place == Trailer && d1 == d.(tail := d1.tail)
    requires k == Missing(d) == Missing(d1) + 1 && |rest| == |t| + 1 >= k
    requires d.tail + rest[..k] == d1.tail + t[..k - 1]
    ensures var next := d.(tail := d.tail + rest[..k], place := MemberEnd);
            || (LeapFrom(g, x, d, rest) == Then(next, k, []) && LeapFrom(g, x, d1, t) == Then(next, k - 1, []))
            || (LeapFrom(g, x, d, rest) == LeapFrom(g, x, d1, t) == Final(Corrupt([], {ErrChecksum})))
  {
    hide TrailerAgrees;
  }

  lemma MemberTurnOk<E(!new)>(g: Engine<E>, x: EngineSem<E>, d: State<E>, w: seq<byte>, tail: seq<byte>, room: nat, f: Flush)
    requires x.ok(g.start, false) && !x.late(g.start) && Inv(g, x, d.wrap, d.concat, d.reject, d) && d.place == MemberEnd
    requires f == Finish ==> tail == []
    ensures TurnOk(g, x, d, MemberTurn(g, d, w, f), w, tail, room, f)
  {
    hide H.Wf, H.Feed;
    var rest, i := w + tail, MemberTurn(g, d, w, f);
    H.InitIsWf();
    H.MagicStarts();
    assert w != [] ==> rest[0] == w[0];
    if i.Go? {
      SameLeap(g, x, d, i.next, 0, [], w, tail, room, f);
    } else if i.reply.used == 1 {
      assert rest == [w[0]] + tail && w[1..] + tail == tail;
      assert Reset(g, d.(probe := true)) == Reset(g, d);
      ProbeTakesAByte(g, x, d, tail);
    } else if i.reply.status == NeedInput {
      assert w[0..] == w;
      PrependNothing(Rest(g, x, d, rest));
    }
  }

  /** Taking the 0x1F early loses nothing. */
  lemma ProbeTakesAByte<E>(g: Engine<E>, x: EngineSem<E>, d: State<E>, t: seq<byte>)
    requires d.place == MemberEnd && d.wrap == Gzip && d.concat && !d.probe
    ensures Rest(g, x, d, [0x1F] + t) == Prepend([], 1, Rest(g, x, d.(probe := true), t))
  {
    hide H.Feed;
    var rest, dp := [0x1F] + t, d.(probe := true);
    assert Reset(g, dp) == Reset(g, d);
    if t != [] && t[0] == 0x8B {
      var r := Reset(g, d);
      H.MagicStarts();
      assert rest[0..] == rest && rest[1..] == t && t[0..] == t;
      PrependNothing(Rest(g, x, r, rest));
      PrependNothing(Rest(g, x, Probed(g, d), t));
      assert LeapFrom(g, x, r, rest) == Then(Probed(g, d), 1, []);
      assert Rest(g, x, d, rest) == Prepend([], 0, Rest(g, x, r, rest));
    }
  }

  /** Once the body is over its engine is not asked again before a reset. */
  lemma EngineForgotten<E>(g: Engine<E>, x: EngineSem<E>, d: State<E>, d': State<E>, rest: seq<byte>)
    requires d.place == Trailer || d.place == MemberEnd
    requires d' == d.(e := d'.e, called := d'.called)
    ensures Rest(g, x, d, rest) == Rest(g, x, d', rest)
    decreases if d.place == Trailer then 1 else 0
  {
    hide Be32, Le32, H.Feed;
    var l, l' := LeapFrom(g, x, d, rest), LeapFrom(g, x, d', rest);
    if d.place == MemberEnd {
      assert Reset(g, d) == Reset(g, d');
      assert l == l';
    } else if l.Then? {
      assert l' == Then(l.next.(e := d'.e, called := d'.called), l.used, []);
      EngineForgotten(g, x, l.next, l'.next, rest[l.used..]);
    }
  }

  lemma BodyRest<E>(g: Engine<E>, x: EngineSem<E>, d: State<E>, rest: seq<byte>)
    requires d.place == Body
    ensures var i := x.inf(d.e, rest);
            Rest(g, x, d, rest) ==
            if !i.InfEnd? || i.used > |rest| then NotEnded(i)
            else if d.wrap == Raw then Complete(i.out, i.used, rest[i.used..])
            else Prepend(i.out, i.used, Rest(g, x, EndOfBody(d, i.out), rest[i.used..]))
  {
    hide ChecksumUpdate;
  }

  /** A part of the body decoded is a part of the stream dealt with: the
      checksum and the count go on from where they are. */
  lemma BodyStep<E>(g: Engine<E>, x: EngineSem<E>, d: State<E>, t: Turn<E>, rest: seq<byte>)
    requires d.place == Body && t.used <= |rest|
    requires x.inf(d.e, rest) == PrependInf(t.out, t.used, x.inf(t.next, rest[t.used..]))
    ensures Rest(g, x, d, rest) == Prepend(t.out, t.used, Rest(g, x, Inflated(d, t), rest[t.used..]))
  {
    hide ChecksumUpdate, Rest;
    var d1, rest1 := Inflated(d, t), rest[t.used..];
    var i1 := x.inf(t.next, rest1);
    BodyRest(g, x, d, rest);
    BodyRest(g, x, d1, rest1);
    if i1.InfEnd? && i1.used <= |rest1| && d.wrap == Raw {
      assert rest1[i1.used..] == rest[t.used + i1.used..];
    } else if i1.InfEnd? && i1.used <= |rest1| {
      ChecksumAppend(d.wrap, d.checksum, t.out, i1.out);
      var n, n1 := EndOfBody(d, t.out + i1.out), EndOfBody(d1, i1.out);
      EngineForgotten(g, x, n, n1, rest1[i1.used..]);
      assert rest1[i1.used..] == rest[t.used + i1.used..];
      PrependTwice(t.out, t.used, i1.out, i1.used, Rest(g, x, n, rest1[i1.used..]));
    }
  }

  function AskBody<E>(g: Engine<E>, d: State<E>, w: seq<byte>, room: nat, f: Flush): (t: Turn<E>)
    ensures t.used <= |w| && |t.out| <= room
  {
    Ask(g, d.e, w[..Clamp(|w|)], Clamp(room), MzFlushOf(f, d.called))
  }

  /** What the engine's contract says of the call a body turn makes. */
  lemma BodyAsked<E(!new)>(g: Engine<E>, x: EngineSem<E>, d: State<E>, w: seq<byte>, tail: seq<byte>, room: nat, f: Flush)
    requires EngineKeeps(g, x) && x.ok(d.e, d.called) && (x.late(d.e) ==> d.called)
    requires d.place == Body && Asked(g, x, d, w, tail, f)
    ensures var t, rest := AskBody(g, d, w, room, f), w + tail;
            var i := x.inf(d.e, rest);
            && w[t.used..] + tail == rest[t.used..]
            && match t.mz
               case MzEnd => i == InfEnd(t.out, t.used)
               case MzError(status) =>
                 && status.IsError() && t.out == Given(i.out, Clamp(room))
                 && NotEnded(i).Corrupt? && status in NotEnded(i).statuses && !i.InfEnd?
               case MzOk =>
                 && x.ok(t.next, true) && (x.late(t.next) ==> f == Finish)
                 && i == PrependInf(t.out, t.used, x.inf(t.next, rest[t.used..]))
                 && (room > 0 && t.used == 0 && t.out == [] ==> w == [] && x.inf(t.next, []) == InfCut([]))
  {
    var k, rest, mz := Clamp(|w|), w + tail, MzFlushOf(f, d.called);
    var w1, tail1, room1 := w[..k], w[k..] + tail, Clamp(room);
    assert w1 + tail1 == rest;
    BodyRest(g, x, d, rest);
    assert StepKeeps(g, x, d.e, d.called, w1, tail1, room1, mz);
    hide EngineKeeps, Rest;
    var t := Ask(g, d.e, w1, room1, mz);
    assert w1[t.used..] + tail1 == rest[t.used..] == w[t.used..] + tail;
  }

  lemma InflatedInv<E>(g: Engine<E>, x: EngineSem<E>, d: State<E>, t: Turn<E>)
    requires Inv(g, x, d.wrap, d.concat, d.reject, d) && d.place == Body
    ensures var d1 := Inflated(d, t);
            && d1.wrap == d.wrap && d1.concat == d.concat && d1.reject == d.reject && d1.e == t.next && d1.place == Body
            && (x.ok(t.next, true) ==> Inv(g, x, d.wrap, d.concat, d.reject, d1))
            && (d.wrap != Raw ==> Inv(g, x, d.wrap, d.concat, d.reject, d1.(place := Trailer, tail := [])))
  {
    hide ChecksumUpdate;
  }

  lemma BodyMoves<E(!new)>(g: Engine<E>, x: EngineSem<E>, d: State<E>, w: seq<byte>, tail: seq<byte>, room: nat, f: Flush)
    requires EngineKeeps(g, x) && Inv(g, x, d.wrap, d.concat, d.reject, d) && d.place == Body
    requires AskBody(g, d, w, room, f).mz == MzOk && Asked(g, x, d, w, tail, f)
    ensures TurnOk(g, x, d, BodyTurn(g, d, w, room, f), w, tail, room, f)
  {
    var rest, t := w + tail, AskBody(g, d, w, room, f);
    BodyAsked(g, x, d, w, tail, room, f);
    hide ChecksumUpdate, Rest, AskBody, EngineKeeps, Inv, Inflated;
    InflatedInv(g, x, d, t);
    BodyStep(g, x, d, t, rest);
    if t.used == 0 && t.out == [] && room > 0 && f == Finish {
      assert rest == [] && rest[0..] == rest;
      BodyRest(g, x, d, rest);
    }
  }

  lemma BodyStops<E(!new)>(g: Engine<E>, x: EngineSem<E>, d: State<E>, w: seq<byte>, tail: seq<byte>, room: nat, f: Flush)
    requires EngineKeeps(g, x) && Inv(g, x, d.wrap, d.concat, d.reject, d) && d.place == Body
    requires AskBody(g, d, w, room, f).mz != MzOk && Asked(g, x, d, w, tail, f)
    ensures TurnOk(g, x, d, BodyTurn(g, d, w, room, f), w, tail, room, f)
  {
    var rest, t := w + tail, AskBody(g, d, w, room, f);
    BodyAsked(g, x, d, w, tail, room, f);
    hide ChecksumUpdate, Rest, AskBody, EngineKeeps, Inv, Inflated;
    InflatedInv(g, x, d, t);
    if t.mz == MzEnd {
      BodyEnd(g, x, d, t, rest);
    } else {
      BodyRest(g, x, d, rest);
    }
  }

  lemma BodyTurnOk<E(!new)>(g: Engine<E>, x: EngineSem<E>, d: State<E>, w: seq<byte>, tail: seq<byte>, room: nat, f: Flush)
    requires EngineKeeps(g, x) && Inv(g, x, d.wrap, d.concat, d.reject, d) && d.place == Body
    requires Asked(g, x, d, w, tail, f)
    ensures TurnOk(g, x, d, BodyTurn(g, d, w, room, f), w, tail, room, f)
  {
    hide EngineKeeps, Inv, AskBody, TurnOk, Asked;
    if AskBody(g, d, w, room, f).mz == MzOk {
      BodyMoves(g, x, d, w, tail, room, f);
    } else {
      BodyStops(g, x, d, w, tail, room, f);
    }
  }

  lemma BodyEnd<E>(g: Engine<E>, x: EngineSem<E>, d: State<E>, t: Turn<E>, rest: seq<byte>)
    requires d.place == Body && x.inf(d.e, rest) == InfEnd(t.out, t.used) && t.used <= |rest|
    ensures d.wrap == Raw ==> Rest(g, x, d, rest) == Complete(t.out, t.used, rest[t.used..])
    ensures d.wrap != Raw ==>
              Rest(g, x, d, rest) ==
                Prepend(t.out, t.used, Rest(g, x, Inflated(d, t).(place := Trailer, tail := []), rest[t.used..]))
  {
    hide ChecksumUpdate;
    if d.wrap != Raw {
      EngineForgotten(g, x, EndOfBody(d, t.out), Inflated(d, t).(place := Trailer, tail := []), rest[t.used..]);
    }
  }

  // ---- The decoder keeps the promise ---------------------------------------------

  lemma OneTurnOk<E(!new)>(g: Engine<E>, x: EngineSem<E>, d: State<E>, w: seq<byte>, tail: seq<byte>, room: nat, f: Flush)
    requires EngineKeeps(g, x) && Inv(g, x, d.wrap, d.concat, d.reject, d)
    requires Asked(g, x, d, w, tail, f)
    ensures TurnOk(g, x, d, OneTurn(g, d, w, room, f), w, tail, room, f)
  {
    hide TurnOk, EngineKeeps, Rest;
    match d.place
    case Header =>
      if d.wrap == Gzip {
        GzipHeaderTurnOk(g, x, d, w, tail, room, f);
      } else {
        ZlibHeaderTurnOk(g, x, d, w, tail, room, f);
      }
    case Body => BodyTurnOk(g, x, d, w, tail, room, f);
    case Trailer => TrailerTurnOk(g, x, d, w, tail, room, f);
    case MemberEnd =>
      StartIsOk(g, x);
      MemberTurnOk(g, x, d, w, tail, room, f);
  }

  lemma StartIsOk<E(!new)>(g: Engine<E>, x: EngineSem<E>)
    requires EngineKeeps(g, x)
    ensures x.ok(g.start, false) && !x.late(g.start)
  {
  }

  function NextOf<E>(i: Iter<State<E>>): (d: State<E>) {
    if i.Stop? then i.reply.next else i.next
  }

  /** What no turn changes: the wrapper and the options, and a parser that is
      not gzip's is never fed. Only the body's turn asks the engine. */
  ghost predicate Stays<E>(g: Engine<E>, d: State<E>, n: State<E>) {
    && n.wrap == d.wrap && n.concat == d.concat && n.reject == d.reject && (d.wrap != Gzip ==> n.gz == d.gz)
    && (d.place != Body && n.place == Body ==> d.place == Header && n.e == d.e)
  }

  lemma HeaderStays<E>(g: Engine<E>, d: State<E>, w: seq<byte>, f: Flush)
    requires d.place == Header
    ensures Stays(g, d, NextOf(HeaderTurn(d, w, f)))
  {
    hide H.Feed, CheckZlib;
  }

  lemma BodyStays<E>(g: Engine<E>, d: State<E>, w: seq<byte>, room: nat, f: Flush)
    requires d.place == Body
    ensures Stays(g, d, NextOf(BodyTurn(g, d, w, room, f)))
  {
    hide AskBody, ChecksumUpdate;
  }

  lemma TrailerStays<E>(g: Engine<E>, d: State<E>, w: seq<byte>, f: Flush)
    requires d.place == Trailer
    ensures Stays(g, d, NextOf(TrailerTurn(d, w, f)))
  {
    hide TrailerAgrees;
  }

  lemma MemberStays<E>(g: Engine<E>, d: State<E>, w: seq<byte>, f: Flush)
    requires d.place == MemberEnd
    ensures Stays(g, d, NextOf(MemberTurn(g, d, w, f)))
  {
    hide H.Feed;
  }

  lemma TurnStays<E>(g: Engine<E>, d: State<E>, w: seq<byte>, room: nat, f: Flush)
    ensures Stays(g, d, NextOf(OneTurn(g, d, w, room, f)))
  {
    hide HeaderTurn, BodyTurn, TrailerTurn, MemberTurn;
    match d.place
    case Header => HeaderStays(g, d, w, f);
    case Body => BodyStays(g, d, w, room, f);
    case Trailer => TrailerStays(g, d, w, f);
    case MemberEnd => MemberStays(g, d, w, f);
    case Done =>
  }

  /** FINISH is remembered only if it was said, turn by turn, */
  lemma TurnRemembers<E(!new)>(g: Engine<E>, x: EngineSem<E>, d: State<E>, w: seq<byte>, tail: seq<byte>, room: nat, f: Flush)
    requires EngineKeeps(g, x) && Inv(g, x, d.wrap, d.concat, d.reject, d) && Asked(g, x, d, w, tail, f)
    ensures var i := OneTurn(g, d, w, room, f);
            && Stays(g, d, NextOf(i))
            && (i.Go? || i.reply.status.IsProgress() ==> (Late(x, NextOf(i)) ==> f == Finish))
  {
    TurnStays(g, d, w, room, f);
    hide EngineKeeps, AskBody, ChecksumUpdate, Rest, HeaderTurn, TrailerTurn, MemberTurn, H.Wf;
    if d.place == Body {
      BodyAsked(g, x, d, w, tail, room, f);
    }
  }

  /** and the next turn may be asked what this one was. */
  lemma AskedAgain<E(!new)>(g: Engine<E>, x: EngineSem<E>, d: State<E>, next: State<E>, used: nat, out: seq<byte>,
                            w: seq<byte>, tail: seq<byte>, room: nat, f: Flush)
    requires Asked(g, x, d, w, tail, f) && TurnOk(g, x, d, Go(next, used, out), w, tail, room, f)
    requires Late(x, next) ==> f == Finish
    ensures Asked(g, x, next, w[used..], tail, f)
  {
  }

  /** Chunk independence, for one call: whatever the window, the room and the
      flush, the call is a step of the stream `w + tail` or ends it as that
      stream ends. */
  lemma {:induction false} ProcessOk<E(!new)>(g: Engine<E>, x: EngineSem<E>, d: State<E>,
                                              w: seq<byte>, tail: seq<byte>, room: nat, f: Flush)
    requires EngineKeeps(g, x) && Inv(g, x, d.wrap, d.concat, d.reject, d) && Asked(g, x, d, w, tail, f)
    ensures ReplyOk(DecoderSem(g, x, d.wrap, d.concat, d.reject), DecoderPolicy(d.wrap, d.concat, d.reject),
                    Rest(g, x, d, w + tail), Process(g, d, w, room, f), w, tail, room, f)
    ensures var r := Process(g, d, w, room, f); r.status.IsProgress() && Late(x, r.next) ==> f == Finish
    decreases |w| + room, Rank(d)
  {
    hide ReplyOk, EngineKeeps, Rest, OneTurn, Rank, Asked, Late;
    OneTurnOk(g, x, d, w, tail, room, f);
    OneTurnMoves(g, d, w, room, f);
    TurnRemembers(g, x, d, w, tail, room, f);
    var i := OneTurn(g, d, w, room, f);
    if i.Go? {
      AskedAgain(g, x, d, i.next, i.used, i.out, w, tail, room, f);
      ProcessOk(g, x, i.next, w[i.used..], tail, room - |i.out|, f);
      AheadOk(DecoderSem(g, x, d.wrap, d.concat, d.reject), DecoderPolicy(d.wrap, d.concat, d.reject),
              Rest(g, x, d, w + tail), i.out, i.used, Rest(g, x, i.next, w[i.used..] + tail),
              Process(g, i.next, w[i.used..], room - |i.out|, f), w, tail, room, f);
    }
  }

  lemma OneTurnMoves<E>(g: Engine<E>, d: State<E>, w: seq<byte>, room: nat, f: Flush)
    ensures var i := OneTurn(g, d, w, room, f);
            i.Go? ==> i.used <= |w| && |i.out| <= room && (i.used == 0 && i.out == [] ==> Rank(i.next) < Rank(d))
  {
  }

  function DecoderCodec<E>(g: Engine<E>, wrap: Wrap): (c: Codec<State<E>>) {
    Codec((o: DecOpts) => Fresh(g, wrap, o.concat, o.reject),
          (d: State<E>, w: seq<byte>, room: nat, f: Flush) => Process(g, d, w, room, f),
          Some((d: State<E>, o: DecOpts) => Reset(g, d.(concat := o.concat, reject := o.reject))),
          true)
  }

  lemma DecoderKeeps<E(!new)>(g: Engine<E>, x: EngineSem<E>, wrap: Wrap, concat: bool, reject: bool)
    requires EngineKeeps(g, x)
    ensures InWindow(DecoderCodec(g, wrap))
    ensures Keeps(DecoderCodec(g, wrap), DecoderSem(g, x, wrap, concat, reject), DecoderPolicy(wrap, concat, reject))
    ensures var d := Fresh(g, wrap, concat, reject); Inv(g, x, wrap, concat, reject, d) && !Late(x, d)
  {
    hide ReplyOk, EngineKeeps, Process;
    var c, sem, pol := DecoderCodec(g, wrap), DecoderSem(g, x, wrap, concat, reject), DecoderPolicy(wrap, concat, reject);
    StartIsOk(g, x);
    H.InitIsWf();
    forall d: State<E>, w: seq<byte>, tail: seq<byte>, room: nat, f: Flush
      ensures StepOk(c, sem, pol, d, w, tail, room, f)
    {
      if sem.inv(d) && Asked(g, x, d, w, tail, f) {
        ProcessOk(g, x, d, w, tail, room, f);
      }
    }
    forall d: State<E>, w: seq<byte>, room: nat, f: Flush ensures Inside(c, d, w, room, f) { }
  }

  // ---- Reset ---------------------------------------------------------------------

  /** The wrapper is the codec's, and a parser that is not gzip's is new. */
  predicate Own<E>(wrap: Wrap, d: State<E>) {
    d.wrap == wrap && (wrap != Gzip ==> d.gz == H.Init)
  }

  lemma {:induction false} ProcessStaysOwn<E>(g: Engine<E>, wrap: Wrap, d: State<E>, w: seq<byte>, room: nat, f: Flush)
    requires Own(wrap, d)
    ensures Own(wrap, Process(g, d, w, room, f).next)
    decreases |w| + room, Rank(d)
  {
    hide Process, OneTurn, Rank;
    TurnStays(g, d, w, room, f);
    OneTurnMoves(g, d, w, room, f);
    ProcessTurns(g, d, w, room, f);
    var i := OneTurn(g, d, w, room, f);
    if i.Go? {
      ProcessStaysOwn(g, wrap, i.next, w[i.used..], room - |i.out|, f);
    }
  }

  lemma ProcessTurns<E>(g: Engine<E>, d: State<E>, w: seq<byte>, room: nat, f: Flush)
    ensures var i := OneTurn(g, d, w, room, f);
            && (i.Go? ==> i.used <= |w| && |i.out| <= room)
            && Process(g, d, w, room, f) ==
            if i.Stop? then i.reply else Ahead(i.out, i.used, Process(g, i.next, w[i.used..], room - |i.out|, f))
  {
    hide OneTurn;
  }

  /** From any state a run can lead to, errors included, a reset is fresh. */
  lemma DecoderResetsClean<E(!new)>(g: Engine<E>, wrap: Wrap)
    ensures ResetsClean(DecoderCodec(g, wrap), (d: State<E>) => Own(wrap, d))
  {
    hide Process;
    var c, own := DecoderCodec(g, wrap), (d: State<E>) => Own(wrap, d);
    forall d: State<E>, w: seq<byte>, room: nat, f: Flush ensures StaysOwn(c, own, d, w, room, f) {
      if Own(wrap, d) {
        ProcessStaysOwn(g, wrap, d, w, room, f);
      }
    }
  }
}
