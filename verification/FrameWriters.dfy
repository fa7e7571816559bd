/** The encoding objects of the framed codecs, updated in place: the states of
    FrameEncoders. */
module FrameWriters {
  import opened Zu
  import opened Codecs
  import opened EncodeDriver
  import E = FrameEncoders
  import L = Lz4Format
  import Z = ZstdEncoder

  /** lz4_state, encoding frames. */
  class Lz4Writer<C(!new)> {
    const k: E.Lz4f<C>
    var started: bool
    var ended: bool
    var done: bool
    var stage: seq<byte>
    var stagePos: nat
    var cctx: C
    var level: int
    var size: Option<nat>
    var flushed: bool

    function Snap(): (s: E.Enc<C>)
      reads this
    {
      E.Enc(started, ended, done, stage, stagePos, cctx, level, size, flushed)
    }

    ghost predicate Valid()
      reads this
    {
      stagePos <= |stage|
    }

    constructor (k: E.Lz4f<C>, level: int)
      ensures Valid() && this.k == k && Snap() == E.FreshLz4f(k, level)
    {
      this.k, this.level, cctx := k, level, k.idle;
      started, ended, done, stage, stagePos, size, flushed := false, false, false, [], 0, None, false;
    }

    /** lz4f_encoder_reset. */
    method Reset(level: int)
      modifies this
      ensures Valid() && Snap() == E.ResetLz4f(k, old(Snap()), level)
    {
      if level != LEVEL_DEFAULT {
        this.level := level;
      }
      size, flushed, cctx := None, false, k.idle;
      started, ended, done := false, false, false;
      stage, stagePos := [], 0;
    }

    /** zu_int_lz4_drain: true once the stage is empty. */
    method Drain(buf: Buffer) returns (empty: bool)
      requires Valid() && buf.Valid()
      modifies this`stage, this`stagePos, buf`dstPos, buf.dst
      ensures Valid()
      ensures var p, room := E.Pending(old(Snap())), old(buf.Room());
              && empty == (|p| <= room)
              && buf.Advanced(0, if empty then p else p[..room])
              && Snap() == old(Snap()).(stage := if empty then [] else old(stage), pos := if empty then 0 else old(stagePos) + room)
    {
      var pending, room := |stage| - stagePos, buf.dstSize - buf.dstPos;
      var n := if pending < room then pending else room;
      assert stage[stagePos..stagePos + n] == stage[stagePos..][..n];
      assert E.Pending(Snap())[..pending] == E.Pending(Snap());
      buf.Write(stage[stagePos..stagePos + n]);
      stagePos := stagePos + n;
      if stagePos == |stage| {
        stage, stagePos := [], 0;
        return true;
      }
      return false;
    }

    /** The library call a turn makes, the stage being empty. */
    method Call(buf: Buffer, f: Flush) returns (stop: bool, st: Status)
      requires Valid() && buf.Valid() && stage == []
      modifies this, buf`srcPos
      ensures Valid() && Did(E.CallTurn(k, old(Snap()), old(buf.Window()), f), buf, stop, st)
    {
      hide Overlay;
      OverlayNothing(buf.dst[..], buf.dstPos);
      if done {
        return true, StreamEnd;
      }
      if ended {
        done := true;
        return true, StreamEnd;
      }
      var availIn := buf.AvailIn();
      if !started {
        if f == Finish {
          size := Some(availIn);
        }
        started := true;
        stop, st := Take(k.begin(E.StageCap(), L.Lz4Level(level), size));
      } else if availIn > 0 {
        stop, st := Update(buf);
      } else if f == Finish {
        var m := k.end(E.StageCap(), cctx);
        ended := m.error == None;
        stop, st := Take(m);
      } else if f == FlushNow && !flushed {
        flushed := true;
        stop, st := Take(k.flush(E.StageCap(), cctx));
      } else {
        return true, NeedInput;
      }
    }

    /** LZ4F_compressUpdate on at most a chunk; it takes all of it. */
    method Update(buf: Buffer) returns (stop: bool, st: Status)
      requires Valid() && buf.Valid() && buf.srcPos < |buf.src|
      modifies this, buf`srcPos
      ensures Valid()
      ensures var w := old(buf.Window());
              var take := Min(|w|, E.CHUNK);
              Did(E.Staged(old(Snap()), k.update(E.StageCap(), old(cctx), w[..take]), take), buf, stop, st)
    {
      hide Overlay;
      OverlayNothing(buf.dst[..], buf.dstPos);
      var availIn := buf.AvailIn();
      var take := if availIn < E.CHUNK then availIn else E.CHUNK;
      var m := k.update(E.StageCap(), cctx, buf.Window()[..take]);
      if m.error == None {
        buf.srcPos := buf.srcPos + take;
      }
      stop, st := Take(m);
    }

    /** The library's answer goes to the stage. */
    method Take(m: E.Made<C>) returns (stop: bool, st: Status)
      requires Valid()
      modifies this`cctx, this`stage, this`stagePos
      ensures Valid()
      ensures match E.Staged(old(Snap()), m, 0)
              case Stop(r) => stop && st == r.status && Snap() == r.next
              case Go(next, _, _) => !stop && Snap() == next
    {
      cctx := m.next;
      if m.error.Some? {
        return true, m.error.value;
      }
      stage, stagePos := m.out, 0;
      return false, Ok;
    }

    /** One round of the loop, told against the whole call: `out` has been
        laid over the caller's bytes so far, and `o` is laid after it. */
    method Round(buf: Buffer, f: Flush, ghost dst0: seq<byte>, ghost at: nat, ghost out: seq<byte>)
      returns (stop: bool, st: Status, ghost u: nat, ghost o: seq<byte>)
      requires Valid() && buf.Valid()
      requires buf.dstPos == at + |out| && buf.dst.Length == |dst0| && buf.dst[..] == Overlay(dst0, at, out)
      modifies this, buf`srcPos, buf`dstPos, buf.dst
      ensures Valid() && buf.Valid() && buf.src == old(buf.src) && buf.dst == old(buf.dst) && buf.dstSize == old(buf.dstSize)
      ensures buf.srcPos == old(buf.srcPos) + u && buf.dstPos == old(buf.dstPos) + |o|
      ensures buf.dst[..] == Overlay(dst0, at, out + o)
      ensures var s, w, room := old(Snap()), old(buf.Window()), old(buf.Room());
              var r := E.Loop(k, s, w, room, f);
              if stop then r == Reply(Snap(), u, o, st)
              else
                && r == Ahead(o, u, E.Loop(k, Snap(), buf.Window(), buf.Room(), f))
                && (u == 0 && o == [] ==> E.Rank(Snap()) < E.Rank(s))
    {
      hide Overlay, E.Rank, E.OneTurn;
      ghost var w := buf.Window();
      ghost var i := E.OneTurn(k, Snap(), w, buf.Room(), f);
      E.OneTurnMoves(k, Snap(), w, buf.Room(), f);
      stop, st := OneTurn(buf, f);
      u, o := if i.Stop? then i.reply.used else i.used, if i.Stop? then i.reply.out else i.out;
      OverlayTwice(dst0, at, out, o);
      assert buf.Window() == w[u..];
    }

    method OneTurn(buf: Buffer, f: Flush) returns (stop: bool, st: Status)
      requires Valid() && buf.Valid()
      modifies this, buf`srcPos, buf`dstPos, buf.dst
      ensures Valid() && Did(E.OneTurn(k, old(Snap()), old(buf.Window()), old(buf.Room()), f), buf, stop, st)
    {
      hide Overlay, E.CallTurn;
      ghost var bytes, at, p := buf.dst[..], buf.dstPos, E.Pending(Snap());
      var empty := Drain(buf);
      if !empty {
        return true, NeedOutput;
      }
      stop, st := Call(buf, f);
      OverlayTwice(bytes, at, p, []);
      assert p + [] == p;
    }

    /** lz4f_encoder_process. */
    method Process(buf: Buffer, f: Flush) returns (st: Status)
      requires Valid() && buf.Valid()
      modifies this, buf`srcPos, buf`dstPos, buf.dst
      ensures Valid()
      ensures var r := E.Lz4fProcess(k, old(Snap()), old(buf.Window()), old(buf.Room()), f);
              Snap() == r.next && st == r.status && buf.Advanced(r.used, r.out)
    {
      hide Overlay, E.Rank, E.Loop;
      flushed := false;
      ghost var goal := E.Loop(k, Snap(), buf.Window(), buf.Room(), f);
      ghost var used: nat, out: seq<byte> := 0, [];
      ghost var src, dst, size, s0, d0, bytes := buf.src, buf.dst, buf.dstSize, buf.srcPos, buf.dstPos, buf.dst[..];
      OverlayNothing(bytes, d0);
      while true
        invariant Valid() && buf.Valid() && buf.src == src && buf.dst == dst && buf.dstSize == size
        invariant buf.srcPos == s0 + used && buf.dstPos == d0 + |out| && dst[..] == Overlay(bytes, d0, out)
        invariant goal == Ahead(out, used, E.Loop(k, Snap(), buf.Window(), buf.Room(), f))
        decreases buf.AvailIn() + buf.Room(), E.Rank(Snap())
      {
        var stop;
        ghost var u, o;
        stop, st, u, o := Round(buf, f, bytes, d0, out);
        if stop {
          return;
        }
        AheadTwice(out, used, o, u, E.Loop(k, Snap(), buf.Window(), buf.Room(), f));
        used, out := used + u, out + o;
      }
    }

    twostate predicate Did(i: Iter<E.Enc<C>>, buf: Buffer, stop: bool, st: Status)
      reads this, buf, buf.dst
    {
      match i
      case Stop(r) => stop && st == r.status && Snap() == r.next && buf.Advanced(r.used, r.out)
      case Go(next, used, out) => !stop && Snap() == next && buf.Advanced(used, out)
    }
  }

  /** zstd_state, encoding. */
  class ZstdWriter<C(!new)> {
    const k: Z.Zstd<C>
    var cctx: C
    var done: bool
    var level: int

    function Snap(): (s: Z.ZEnc<C>)
      reads this
    {
      Z.ZEnc(cctx, done, level)
    }

    constructor (k: Z.Zstd<C>, level: int)
      ensures this.k == k && Snap() == Z.FreshZstd(k, level)
    {
      this.k, cctx, done, this.level := k, k.start(Z.ZLevel(level)), false, Z.ZLevel(level);
    }

    /** zstd_encoder_reset. */
    method Reset(level: int)
      modifies this
      ensures Snap() == Z.ResetZstd(k, old(Snap()), level)
    {
      if level != LEVEL_DEFAULT {
        this.level := level;
      }
      cctx, done := k.start(this.level), false;
    }

    /** One turn: a library call, and what is made of it. */
    method Turn(buf: Buffer, f: Flush) returns (stop: bool, st: Status)
      requires buf.Valid()
      modifies this, buf`srcPos, buf`dstPos, buf.dst
      ensures match Z.ZstdTurn(k, old(Snap()), old(buf.Window()), old(buf.Room()), f)
              case Stop(r) => stop && st == r.status && Snap() == r.next && buf.Advanced(r.used, r.out)
              case Go(next, used, out) => !stop && Snap() == next && buf.Advanced(used, out)
    {
      hide Overlay, Z.Press;
      OverlayNothing(buf.dst[..], buf.dstPos);
      if done {
        return true, StreamEnd;
      }
      var op, availOut := Z.OpOf(f), buf.Room();
      var t := Z.Press(k, cctx, buf.Window(), availOut, op);
      cctx := t.next;
      if t.error.Some? {
        return true, t.error.value;
      }
      buf.Write(t.out);
      buf.srcPos := buf.srcPos + t.used;
      var spent := buf.srcPos == |buf.src|;
      if op == Z.End && t.left == 0 {
        done := true;
        return true, StreamEnd;
      }
      if spent && (op == Z.Continue || t.left == 0) {
        return true, NeedInput;
      }
      if t.used == 0 && t.out == [] {
        return true, if availOut == 0 then NeedOutput else ErrInternal;
      }
      return false, Ok;
    }

    /** zstd_encoder_process. */
    method Process(buf: Buffer, f: Flush) returns (st: Status)
      requires buf.Valid()
      modifies this, buf`srcPos, buf`dstPos, buf.dst
      ensures var r := Z.ZstdProcess(k, old(Snap()), old(buf.Window()), old(buf.Room()), f);
              Snap() == r.next && st == r.status && buf.Advanced(r.used, r.out)
    {
      hide Overlay, Z.ZstdTurn;
      ghost var goal := Z.ZstdProcess(k, Snap(), buf.Window(), buf.Room(), f);
      ghost var used: nat, out: seq<byte> := 0, [];
      ghost var src, dst, size, s0, d0, bytes := buf.src, buf.dst, buf.dstSize, buf.srcPos, buf.dstPos, buf.dst[..];
      OverlayNothing(bytes, d0);
      while true
        invariant buf.Valid() && buf.src == src && buf.dst == dst && buf.dstSize == size
        invariant buf.srcPos == s0 + used && buf.dstPos == d0 + |out| && dst[..] == Overlay(bytes, d0, out)
        invariant goal == Ahead(out, used, Z.ZstdProcess(k, Snap(), buf.Window(), buf.Room(), f))
        decreases buf.AvailIn() + buf.Room()
      {
        ghost var s, w, room := Snap(), buf.Window(), buf.Room();
        ghost var i := Z.ZstdTurn(k, s, w, room, f);
        Z.ZstdTurnMoves(k, s, w, room, f);
        var stop;
        stop, st := Turn(buf, f);
        ghost var u, o := if i.Stop? then i.reply.used else i.used, if i.Stop? then i.reply.out else i.out;
        OverlayTwice(bytes, d0, out, o);
        if stop {
          return;
        }
        assert buf.Window() == w[u..];
        AheadTwice(out, used, o, u, Z.ZstdProcess(k, Snap(), buf.Window(), buf.Room(), f));
        used, out := used + u, out + o;
      }
    }
  }
}
