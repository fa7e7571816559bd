/** zu_int_frames and the decode loop of the two framed codecs
    (zstd_decoder_process, lz4f_decoder_process) as one object, updated in
    place: the states of Frames, four held bytes and one owed. */
module Framer {
  import opened Zu
  import opened Codecs
  import F = Frames

  class Decoder<D(==,!new)> {
    const lib: F.Lib<D>
    const kind: F.Kind
    const held: array<byte>
    var place: F.Place
    var nHeld: nat
    var hasOwed: bool
    var owed: byte
    var d: D
    var concat: bool
    var reject: bool
    var maxOutput: uint64

    ghost function Parts(): (s: set<object>) {
      {this, held}
    }

    ghost predicate Valid()
      reads this
    {
      held.Length == 4 && nHeld < 4
    }

    function Snap(): (s: F.State<D>)
      requires nHeld < 4 && nHeld <= held.Length
      reads this, held
    {
      F.State(place, kind, concat, reject, maxOutput, held[..nHeld], if hasOwed then Some(owed) else None, d)
    }

    /** zu_int_frames_init over a new library context. */
    constructor (lib: F.Lib<D>, kind: F.Kind, o: DecOpts)
      ensures Valid() && fresh(Parts()) && this.lib == lib && this.kind == kind
      ensures Snap() == F.Fresh(lib, kind, o.concat, o.reject, o.maxOutput)
    {
      this.lib, this.kind, concat, reject, maxOutput := lib, kind, o.concat, o.reject, o.maxOutput;
      held := new byte[4];
      place, nHeld, hasOwed, owed, d := F.Body, 0, false, 0, lib.start;
    }

    /** Reset: holding a prefix, owing a byte or inside a frame, the object
        is a new one, its window limited by the options given. */
    method Restart(o: DecOpts)
      requires Valid()
      modifies this
      ensures Valid() && Snap() == F.Fresh(lib, kind, o.concat, o.reject, o.maxOutput)
    {
      d := lib.start;
      concat, reject, maxOutput := o.concat, o.reject, o.maxOutput;
      place, nHeld, hasOwed, owed := F.Body, 0, false, 0;
    }

    /** zu_int_frames_ended. */
    method Ended()
      requires Valid()
      modifies this`place, this`nHeld
      ensures Valid() && place == F.Between && nHeld == 0
    {
      place, nHeld := F.Between, 0;
    }

    /** zu_int_frames_pay: false while the owed byte finds no room. */
    method Pay(buf: Buffer) returns (paid: bool)
      requires Valid() && buf.Valid() && buf.dst !in Parts()
      modifies this`hasOwed, buf`dstPos, buf.dst
      ensures paid == (old(hasOwed) ==> old(buf.Room()) > 0)
      ensures Valid() && hasOwed == (old(hasOwed) && !paid)
      ensures if old(hasOwed) && paid then buf.Advanced(0, old([owed])) else buf.Advanced(0, [])
    {
      OverlayNothing(buf.dst[..], buf.dstPos);
      if !hasOwed {
        return true;
      }
      if buf.dstPos == buf.dstSize {
        return false;
      }
      buf.Put(owed);
      hasOwed := false;
      return true;
    }

    /** The loop of zu_int_frames_between: the held prefix is extended a byte
        at a time by bytes that keep it one. */
    method ExtendHeld(buf: Buffer) returns (disproved: bool)
      requires Valid() && buf.Valid() && buf.dst !in Parts()
      modifies this`nHeld, held, buf`srcPos
      ensures buf.Valid() && held.Length == 4 && nHeld <= 4
      ensures var r := F.Extend(kind, old(held[..nHeld]), old(buf.Window()));
              && held[..nHeld] == r.held && disproved == r.disproved
              && buf.srcPos == old(buf.srcPos) + r.n && buf.Window() == old(buf.Window())[r.n..]
    {
      hide F.IsPrefix, F.Extend;
      ghost var goal := F.Extend(kind, held[..nHeld], buf.Window());
      ghost var w := buf.Window();
      while nHeld < 4 && buf.srcPos < |buf.src|
        invariant buf.Valid() && held.Length == 4 && nHeld <= 4
        invariant buf.src == old(buf.src) && old(buf.srcPos) <= buf.srcPos
        invariant var r := F.Extend(kind, held[..nHeld], buf.Window());
                  && goal.held == r.held && goal.disproved == r.disproved
                  && goal.n == buf.srcPos - old(buf.srcPos) + r.n
        decreases |buf.src| - buf.srcPos
      {
        ghost var was := held[..nHeld];
        F.ExtendNext(kind, was, buf.Window());
        held[nHeld] := buf.src[buf.srcPos];
        assert held[..nHeld + 1] == was + [buf.Window()[0]];
        if !F.IsPrefix(kind, held[..nHeld + 1]) {
          assert held[..nHeld] == was && buf.Window() == w[goal.n..];
          return true;
        }
        assert buf.src[buf.srcPos + 1..] == buf.Window()[1..];
        nHeld := nHeld + 1;
        buf.srcPos := buf.srcPos + 1;
      }
      F.ExtendEnds(kind, held[..nHeld], buf.Window());
      assert buf.Window() == w[goal.n..];
      return false;
    }

    method Finished(st: Status) returns (stop: bool, st': Status)
      requires Valid() || nHeld == 4
      modifies this`place, this`nHeld
      ensures stop && st' == st && place == F.Done && nHeld == 0
    {
      place, nHeld := F.Done, 0;
      return true, st;
    }

    /** zu_int_frames_between. */
    method Between(buf: Buffer, f: Flush) returns (stop: bool, st: Status)
      requires Valid() && buf.Valid() && buf.dst !in Parts() && place != F.Body
      modifies this, held, buf`srcPos
      ensures Valid() && Did(F.BetweenTurn(lib, old(Snap()), old(buf.Window()), f), buf, stop, st)
    {
      hide F.IsPrefix, F.Ask;
      OverlayNothing(buf.dst[..], buf.dstPos);
      if place == F.Done {
        return true, StreamEnd;
      }
      if !concat {
        stop, st := Finished(StreamEnd);
        return;
      }
      if nHeld == 0 {
        stop, st := NothingHeld(buf, f);
      } else {
        stop, st := PrefixHeld(buf, f);
      }
    }

    method NothingHeld(buf: Buffer, f: Flush) returns (stop: bool, st: Status)
      requires Valid() && buf.Valid() && buf.dst !in Parts() && place == F.Between && concat && nHeld == 0
      modifies this, held, buf`srcPos
      ensures Valid() && Did(F.BetweenTurn(lib, old(Snap()), old(buf.Window()), f), buf, stop, st)
    {
      hide F.IsPrefix, F.Ask;
      OverlayNothing(buf.dst[..], buf.dstPos);
      var availIn := buf.AvailIn();
      if availIn == 0 {
        if f != Finish {
          return true, NeedInput;
        }
        stop, st := Finished(StreamEnd);
        return;
      }
      var k := if availIn < 4 then availIn else 4;
      assert buf.Window()[..k] == buf.src[buf.srcPos..buf.srcPos + k];
      if !F.IsPrefix(kind, buf.src[buf.srcPos..buf.srcPos + k]) {
        stop, st := Finished(StreamEnd);
        return;
      }
      if k == 4 {
        place := F.Body;
        return false, Ok;
      }
      if f == Finish {
        stop, st := Finished(StreamEnd);
        return;
      }
      Hold(buf, k);
      return true, NeedInput;
    }

    /** The visible bytes are held here and consumed. */
    method Hold(buf: Buffer, k: nat)
      requires Valid() && buf.Valid() && nHeld == 0 && k < 4 && k <= buf.AvailIn()
      modifies this`nHeld, held, buf`srcPos
      ensures Valid() && held[..nHeld] == old(buf.Window())[..k] && buf.srcPos == old(buf.srcPos) + k
    {
      for i := 0 to k
        invariant unchanged(buf) && unchanged(this) && held[..i] == buf.Window()[..i]
      {
        held[i] := buf.src[buf.srcPos + i];
      }
      nHeld := k;
      buf.srcPos := buf.srcPos + k;
    }

    method PrefixHeld(buf: Buffer, f: Flush) returns (stop: bool, st: Status)
      requires Valid() && buf.Valid() && buf.dst !in Parts() && place == F.Between && concat && nHeld > 0
      modifies this, held, buf`srcPos
      ensures Valid() && Did(F.BetweenTurn(lib, old(Snap()), old(buf.Window()), f), buf, stop, st)
    {
      hide F.IsPrefix, F.Ask, F.Extend, F.BetweenTurn;
      OverlayNothing(buf.dst[..], buf.dstPos);
      ghost var s, w := Snap(), buf.Window();
      var disproved := ExtendHeld(buf);
      if nHeld == 4 {
        F.FedTurn(lib, s, w, f);
        assert held[..] == held[..nHeld];
        stop, st := FeedHeld();
        return;
      }
      F.UnconfirmedTurn(lib, s, w, f);
      if disproved {
        stop, st := Finished(StreamEnd);
        return;
      }
      if f != Finish {
        return true, NeedInput;
      }
      stop, st := Finished(if reject then ErrTrailing else StreamEnd);
    }

    /** zstd_feed_held, lz4f_feed_held: no room is offered. */
    method FeedHeld() returns (stop: bool, st: Status)
      requires held.Length == 4 && nHeld == 4
      modifies this`place, this`nHeld, this`d
      ensures var t := F.Ask(lib, maxOutput, old(d), old(held[..]), 0);
              && Valid() && nHeld == 0 && d == t.next
              && stop == !(t.used == 4 && t.code == F.More)
              && (stop ==> place == old(place) && st == if t.code.Fail? then t.code.status else ErrInternal)
              && (!stop ==> place == F.Body)
    {
      hide F.Ask;
      var t := F.Ask(lib, maxOutput, d, held[..], 0);
      d, nHeld := t.next, 0;
      if t.code.Fail? {
        return true, t.code.status;
      }
      if t.used != 4 || t.code != F.More {
        return true, ErrInternal;
      }
      place := F.Body;
      return false, Ok;
    }

    /** zu_int_frames_stalled, and the loop's way back to the frames. */
    method Stalled(buf: Buffer, f: Flush) returns (stop: bool, st: Status)
      requires Valid() && buf.Valid() && buf.dst !in Parts() && place == F.Body && !hasOwed
      modifies this, held, buf`srcPos
      ensures Valid() && Did(F.StallTurn(lib, old(Snap()), old(buf.Window()), old(buf.Room()), f), buf, stop, st)
    {
      hide F.Ask, F.BetweenTurn;
      OverlayNothing(buf.dst[..], buf.dstPos);
      var availIn, availOut := buf.AvailIn(), buf.Room();
      if availOut == 0 {
        if availIn > 0 {
          return true, NeedOutput;
        }
        if f != Finish {
          return true, NeedInput;
        }
        var t := F.Ask(lib, maxOutput, d, [], 1);
        assert buf.Window() == [];
        d := t.next;
        if t.code.Fail? {
          return true, t.code.status;
        }
        if t.code == F.FrameEnd {
          Ended();
        }
        if t.out != [] {
          hasOwed, owed := true, t.out[0];
          return true, NeedOutput;
        }
        if t.code == F.FrameEnd {
          stop, st := Between(buf, f);
          return;
        }
        return true, ErrTruncated;
      }
      if availIn == 0 {
        return true, if f == Finish then ErrTruncated else NeedInput;
      }
      return true, ErrInternal;
    }

    /** One library call of the loop. */
    method Body(buf: Buffer, f: Flush) returns (stop: bool, st: Status)
      requires Valid() && buf.Valid() && buf.dst !in Parts() && place == F.Body && !hasOwed
      modifies this, held, buf`srcPos, buf`dstPos, buf.dst
      ensures Valid() && Did(F.BodyTurn(lib, old(Snap()), old(buf.Window()), old(buf.Room()), f), buf, stop, st)
    {
      hide F.Ask, F.BetweenTurn, F.StallTurn, Overlay;
      OverlayNothing(buf.dst[..], buf.dstPos);
      var t := F.Ask(lib, maxOutput, d, buf.Window(), buf.Room());
      d := t.next;
      if t.code.Fail? {
        return true, t.code.status;
      }
      if t.used == 0 && t.out == [] && t.code == F.More {
        stop, st := Stalled(buf, f);
        return;
      }
      buf.Write(t.out);
      buf.srcPos := buf.srcPos + t.used;
      if t.code == F.FrameEnd {
        Ended();
      }
      return false, Ok;
    }

    method OneTurn(buf: Buffer, f: Flush) returns (stop: bool, st: Status)
      requires Valid() && buf.Valid() && buf.dst !in Parts()
      modifies this, held, buf`srcPos, buf`dstPos, buf.dst
      ensures Valid() && Did(F.OneTurn(lib, old(Snap()), old(buf.Window()), old(buf.Room()), f), buf, stop, st)
    {
      hide F.Ask, F.BetweenTurn, F.BodyTurn, Overlay;
      if hasOwed {
        var paid := Pay(buf);
        return !paid, if paid then Ok else NeedOutput;
      }
      if place != F.Body {
        stop, st := Between(buf, f);
      } else {
        stop, st := Body(buf, f);
      }
    }

    /** One round of the loop, told against the whole call. */
    method Round(buf: Buffer, f: Flush, ghost dst0: seq<byte>, ghost at: nat, ghost out: seq<byte>)
      returns (stop: bool, st: Status, ghost u: nat, ghost o: seq<byte>)
      requires Valid() && buf.Valid() && buf.dst !in Parts()
      requires buf.dstPos == at + |out| && buf.dst.Length == |dst0| && buf.dst[..] == Overlay(dst0, at, out)
      modifies this, held, buf`srcPos, buf`dstPos, buf.dst
      ensures Valid() && buf.Valid() && buf.src == old(buf.src) && buf.dst == old(buf.dst) && buf.dstSize == old(buf.dstSize)
      ensures buf.srcPos == old(buf.srcPos) + u && buf.dstPos == old(buf.dstPos) + |o|
      ensures buf.dst[..] == Overlay(dst0, at, out + o)
      ensures var s, w, room := old(Snap()), old(buf.Window()), old(buf.Room());
              var r := F.Process(lib, s, w, room, f);
              if stop then r == Reply(Snap(), u, o, st)
              else
                && r == Ahead(o, u, F.Process(lib, Snap(), buf.Window(), buf.Room(), f))
                && (u == 0 && o == [] ==> F.Rank(lib, Snap()) < F.Rank(lib, s))
    {
      hide F.OneTurn, F.Rank, Overlay;
      ghost var w := buf.Window();
      ghost var i := F.OneTurn(lib, Snap(), w, buf.Room(), f);
      F.OneTurnMoves(lib, Snap(), w, buf.Room(), f);
      stop, st := OneTurn(buf, f);
      u, o := if i.Stop? then i.reply.used else i.used, if i.Stop? then i.reply.out else i.out;
      OverlayTwice(dst0, at, out, o);
      assert buf.Window() == w[u..];
    }

    /** The decode loop. */
    method Process(buf: Buffer, f: Flush) returns (st: Status)
      requires Valid() && buf.Valid() && buf.dst !in Parts()
      modifies this, held, buf`srcPos, buf`dstPos, buf.dst
      ensures Valid()
      ensures var r := F.Process(lib, old(Snap()), old(buf.Window()), old(buf.Room()), f);
              Snap() == r.next && st == r.status && buf.Advanced(r.used, r.out)
    {
      hide F.Rank, Overlay;
      ghost var goal := F.Process(lib, Snap(), buf.Window(), buf.Room(), f);
      ghost var used: nat, out: seq<byte> := 0, [];
      ghost var src, dst, size, s0, d0, bytes := buf.src, buf.dst, buf.dstSize, buf.srcPos, buf.dstPos, buf.dst[..];
      OverlayNothing(bytes, d0);
      while true
        invariant Valid() && buf.Valid() && buf.src == src && buf.dst == dst && buf.dstSize == size
        invariant buf.srcPos == s0 + used && buf.dstPos == d0 + |out| && dst[..] == Overlay(bytes, d0, out)
        invariant goal == Ahead(out, used, F.Process(lib, Snap(), buf.Window(), buf.Room(), f))
        decreases buf.AvailIn() + buf.Room(), F.Rank(lib, Snap())
      {
        var stop;
        ghost var u, o;
        stop, st, u, o := Round(buf, f, bytes, d0, out);
        if stop {
          return;
        }
        AheadTwice(out, used, o, u, F.Process(lib, Snap(), buf.Window(), buf.Room(), f));
        used, out := used + u, out + o;
      }
    }

    /** This object and the buffer have done what turn `i` says. */
    twostate predicate Did(i: Iter<F.State<D>>, buf: Buffer, stop: bool, st: Status)
      requires nHeld < 4 && nHeld <= held.Length
      reads this, held, buf, buf.dst
    {
      match i
      case Stop(r) => stop && st == r.status && Snap() == r.next && buf.Advanced(r.used, r.out)
      case Go(next, used, out) => !stop && Snap() == next && buf.Advanced(used, out)
    }
  }
}
