/** Frame readers that take their input a byte at a time: what a frame amounts
    to, byte by byte, and that reading it in windows comes to the same. */
module ByteFrames {
  import opened Zu
  import F = Frames

  /** One byte in: the state after it, the byte out, if there is one, and
      whether the frame is over. */
  datatype Bite<+S> = Bite(next: S, out: seq<byte>, over: bool)

  /** failed(s): the frame is wrong, and how; writes(s): the next byte in is a
      byte out. */
  datatype Reader<!S> = Reader(start: S, failed: S -> Option<Status>, writes: S -> bool, eat: (S, byte) -> Bite<S>)

  ghost predicate EatsWell<S>(m: Reader<S>, s: S, b: byte) {
    var e := m.eat(s, b);
    && (m.failed(s).Some? ==> m.failed(s).value.IsError() && !m.writes(s))
    && |e.out| == (if m.writes(s) then 1 else 0)
    && (e.over <==> e.next == m.start)
  }

  ghost predicate Sound<S(!new)>(m: Reader<S>) {
    && m.failed(m.start) == None && !m.writes(m.start)
    && forall s: S, b: byte :: EatsWell(m, s, b)
  }

  /** As far as the window and the room go. */
  function Stream<S>(m: Reader<S>, s: S, w: seq<byte>, room: nat): (t: F.LibTurn<S>)
    ensures t.used <= |w| && |t.out| <= room
    decreases |w|
  {
    if m.failed(s).Some? then F.LibTurn(s, 0, [], F.Fail(m.failed(s).value))
    else if w == [] || (m.writes(s) && room == 0) then F.LibTurn(s, 0, [], F.More)
    else
      var e := m.eat(s, w[0]);
      var out := if |e.out| <= room then e.out else [];
      if e.over then F.LibTurn(e.next, 1, out, F.FrameEnd)
      else
        var t := Stream(m, e.next, w[1..], room - |out|);
        F.LibTurn(t.next, 1 + t.used, out + t.out, t.code)
  }

  function Residual<S>(m: Reader<S>, s: S, rest: seq<byte>): (i: F.Frame)
    ensures i.WholeFrame? ==> 0 < i.used <= |rest|
    ensures !i.OpenFrame?
    decreases |rest|
  {
    if m.failed(s).Some? then F.BadFrame([], {m.failed(s).value})
    else if rest == [] then F.CutFrame([])
    else
      var e := m.eat(s, rest[0]);
      if e.over then F.WholeFrame(e.out, 1) else F.PrependFrame(e.out, 1, Residual(m, e.next, rest[1..]))
  }

  /** The two say the same. */
  ghost predicate Agrees<S>(m: Reader<S>, t: F.LibTurn<S>, i: F.Frame, w: seq<byte>, tail: seq<byte>)
    requires t.used <= |w|
  {
    match t.code
    case FrameEnd => i == F.WholeFrame(t.out, t.used) && t.next == m.start && t.used > 0
    case Fail(status) => status.IsError() && i.BadFrame? && status in i.statuses
    case More => i == F.PrependFrame(t.out, t.used, Residual(m, t.next, w[t.used..] + tail))
  }

  /** Where it stops with more to come: inside a frame, if it has moved, and
      for want of input or of room. */
  ghost predicate Halts<S>(m: Reader<S>, t: F.LibTurn<S>, w: seq<byte>, room: nat)
    requires t.used <= |w|
  {
    t.code == F.More ==>
      && m.failed(t.next) == None && (t.used > 0 ==> t.next != m.start)
      && (w[t.used..] == [] || (m.writes(t.next) && |t.out| == room))
  }

  /** One byte of both. */
  lemma EatsOne<S(!new)>(m: Reader<S>, s: S, w: seq<byte>, tail: seq<byte>, room: nat)
    requires Sound(m) && w != [] && m.failed(s) == None && !(m.writes(s) && room == 0)
    ensures var e, v := m.eat(s, w[0]), w[1..];
            && |e.out| <= room && (e.over <==> e.next == m.start)
            && (if e.over then
                  Stream(m, s, w, room) == F.LibTurn(m.start, 1, e.out, F.FrameEnd) && Residual(m, s, w + tail) == F.WholeFrame(e.out, 1)
                else
                  var t := Stream(m, e.next, v, room - |e.out|);
                  && Stream(m, s, w, room) == F.LibTurn(t.next, 1 + t.used, e.out + t.out, t.code)
                  && Residual(m, s, w + tail) == F.PrependFrame(e.out, 1, Residual(m, e.next, v + tail)))
  {
    assert EatsWell(m, s, w[0]);
    assert (w + tail)[0] == w[0] && (w + tail)[1..] == w[1..] + tail;
  }

  lemma StandsStill<S(!new)>(m: Reader<S>, s: S, w: seq<byte>, tail: seq<byte>, room: nat)
    requires Sound(m) && (w == [] || m.failed(s).Some? || (m.writes(s) && room == 0))
    ensures Agrees(m, Stream(m, s, w, room), Residual(m, s, w + tail), w, tail)
    ensures Halts(m, Stream(m, s, w, room), w, room)
  {
    assert w[0..] == w && EatsWell(m, s, 0);
    PrependFrameNothing(Residual(m, s, w + tail));
  }

  lemma {:induction false} StreamIsResidual<S(!new)>(m: Reader<S>, s: S, w: seq<byte>, tail: seq<byte>, room: nat)
    requires Sound(m)
    ensures Agrees(m, Stream(m, s, w, room), Residual(m, s, w + tail), w, tail)
    decreases |w|
  {
    hide Stream, Residual, Sound;
    if w == [] || m.failed(s).Some? || (m.writes(s) && room == 0) {
      StandsStill(m, s, w, tail, room);
    } else {
      var e, v := m.eat(s, w[0]), w[1..];
      EatsOne(m, s, w, tail, room);
      if !e.over {
        var t := Stream(m, e.next, v, room - |e.out|);
        StreamIsResidual(m, e.next, v, tail, room - |e.out|);
        assert v[t.used..] == w[1 + t.used..];
        PrependFrameTwice(e.out, 1, t.out, t.used, Residual(m, t.next, v[t.used..] + tail));
      }
    }
  }

  lemma {:induction false} StreamHalts<S(!new)>(m: Reader<S>, s: S, w: seq<byte>, room: nat)
    requires Sound(m)
    ensures Halts(m, Stream(m, s, w, room), w, room)
    decreases |w|
  {
    hide Stream, Residual, Sound;
    if w == [] || m.failed(s).Some? || (m.writes(s) && room == 0) {
      StandsStill(m, s, w, [], room);
    } else {
      var e, v := m.eat(s, w[0]), w[1..];
      EatsOne(m, s, w, [], room);
      if !e.over {
        var t := Stream(m, e.next, v, room - |e.out|);
        StreamHalts(m, e.next, v, room - |e.out|);
        StillHere(m, e.next, v, room - |e.out|);
        assert v[t.used..] == w[1 + t.used..];
      }
    }
  }

  /** Not having moved it is where it was; from the start it always moves. */
  lemma StillHere<S>(m: Reader<S>, s: S, w: seq<byte>, room: nat)
    ensures var t := Stream(m, s, w, room); t.used == 0 ==> t.next == s
    ensures w != [] && m.failed(s) == None && !m.writes(s) ==> Stream(m, s, w, room).used > 0
  {
  }

  lemma NothingLeft<S>(m: Reader<S>, s: S)
    ensures m.failed(s) == None ==> Residual(m, s, []) == F.CutFrame([])
  {
  }

  /** Where the next byte comes out there is more output. */
  lemma WritesMore<S(!new)>(m: Reader<S>, s: S, rest: seq<byte>)
    requires Sound(m)
    ensures m.writes(s) && rest != [] ==> var i := Residual(m, s, rest); F.MoreOutput(i) && i.out != []
  {
    if m.writes(s) && rest != [] {
      assert EatsWell(m, s, rest[0]);
    }
  }

  /** So reading in windows is a step of the frame (Frames.StepKeeps), from any
      state and for any reader. */
  lemma ReaderSteps<S(!new)>(m: Reader<S>, s: S, w: seq<byte>, tail: seq<byte>, room: nat)
    requires Sound(m)
    ensures var t, i := Stream(m, s, w, room), Residual(m, s, w + tail);
            && (s == m.start && w != [] ==> t.used > 0)
            && match t.code
               case FrameEnd => i == F.WholeFrame(t.out, t.used) && t.next == m.start && t.used > 0
               case Fail(status) => status.IsError() && i.BadFrame? && status in i.statuses
               case More =>
                 var j := Residual(m, t.next, w[t.used..] + tail);
                 && i == F.PrependFrame(t.out, t.used, j) && (t.used > 0 ==> t.next != m.start) && (t.used == 0 ==> t.next == s)
                 && (t.used == 0 && t.out == [] && w != [] ==> room == 0 && F.MoreOutput(j))
                 && (w == [] ==> Residual(m, t.next, []) == F.CutFrame([]))
  {
    StreamIsResidual(m, s, w, tail, room);
    StreamHalts(m, s, w, room);
    StillHere(m, s, w, room);
    WritesMore(m, s, w + tail);
    var t := Stream(m, s, w, room);
    NothingLeft(m, t.next);
    assert w[0..] == w;
    hide Stream, Residual;
  }

  /** A stream that is wrong from here on, with nothing more to come out, stops
      there. */
  lemma BadStops<S(!new)>(m: Reader<S>, s: S, w: seq<byte>, room: nat, st: Status)
    requires Sound(m) && Residual(m, s, w) == F.BadFrame([], {st})
    ensures Stream(m, s, w, room).code == F.Fail(st)
  {
    var none: seq<byte> := [];
    assert w + none == w;
    StreamIsResidual(m, s, w, none, room);
    StreamHalts(m, s, w, room);
    var t := Stream(m, s, w, room);
    if t.code == F.More {
      assert w[t.used..] + none == w[t.used..];
      NothingLeft(m, t.next);
      WritesMore(m, t.next, w[t.used..]);
    }
  }

  /** A whole frame stays one, whatever follows it. */
  lemma {:induction false} WholeStays<S>(m: Reader<S>, s: S, w: seq<byte>, tail: seq<byte>)
    requires Residual(m, s, w).WholeFrame?
    ensures Residual(m, s, w + tail) == Residual(m, s, w)
    decreases |w|
  {
    if m.failed(s) == None && w != [] {
      assert (w + tail)[0] == w[0] && (w + tail)[1..] == w[1..] + tail;
      var e := m.eat(s, w[0]);
      if !e.over {
        WholeStays(m, e.next, w[1..], tail);
      }
    }
  }

  lemma ResidualEats<S>(m: Reader<S>, s: S, b: byte, z: seq<byte>)
    requires m.failed(s) == None
    ensures var e := m.eat(s, b);
            Residual(m, s, [b] + z) == if e.over then F.WholeFrame(e.out, 1) else F.PrependFrame(e.out, 1, Residual(m, e.next, z))
  {
    assert ([b] + z)[1..] == z;
  }

  lemma StreamEats<S>(m: Reader<S>, s: S, w: seq<byte>, room: nat)
    requires m.failed(s) == None && !m.writes(s) && w != [] && !m.eat(s, w[0]).over
    ensures var t, n := Stream(m, s, w, room), Stream(m, m.eat(s, w[0]).next, w[1..], room - if |m.eat(s, w[0]).out| <= room then |m.eat(s, w[0]).out| else 0);
            t.used == 1 + n.used && t.code == n.code
  {
  }

  lemma StreamNothing<S>(m: Reader<S>, s: S, room: nat)
    requires m.failed(s) == None
    ensures Stream(m, s, [], room) == F.LibTurn(s, 0, [], F.More)
  {
  }

  lemma PrependFrameNothing(i: F.Frame)
    ensures F.PrependFrame([], 0, i) == i
  {
  }

  lemma PrependFrameTwice(p: seq<byte>, n: nat, q: seq<byte>, m: nat, i: F.Frame)
    ensures F.PrependFrame(p, n, F.PrependFrame(q, m, i)) == F.PrependFrame(p + q, n + m, i)
  {
  }

  lemma JoinWhole(p: seq<byte>, n: nat, q: seq<byte>, m: nat)
    ensures F.PrependFrame(p, n, F.WholeFrame(q, m)) == F.WholeFrame(p + q, n + m)
    ensures p == [] ==> p + q == q
  {
  }
}
