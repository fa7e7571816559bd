/** deflate_state and deflate_process, encoding: the object behind the states
    of DeflateEncoder, updated in place. */
module Deflater {
  import opened Zu
  import opened Codecs
  import opened Checksum
  import opened Inflate
  import opened DeflateDecoder
  import opened DeflateEncoder
  import H = GzipHeader

  class Encoder<C(!new), E(!new)> {
    const k: Compressor<C, E>
    const wrap: Wrap
    const hdr: array<byte>
    const tail: array<byte>
    var hdrLen: nat
    var hdrPos: nat
    var tailLen: nat
    var tailPos: nat
    var place: Place
    var checksum: uint32
    var uncompressed: nat
    var mz: C
    var level: int

    ghost function Parts(): (s: set<object>) {
      {this, hdr, tail}
    }

    ghost predicate Valid()
      reads this
    {
      && hdr.Length == 10 && tail.Length == 8 && hdr != tail
      && hdrPos <= hdrLen <= 10 && tailPos <= tailLen <= 8
    }

    function Snap(): (s: Enc<C>)
      requires hdrLen <= hdr.Length && tailLen <= tail.Length
      reads this, hdr, tail
    {
      Enc(wrap, place, hdr[..hdrLen], hdrPos, tail[..tailLen], tailPos, checksum, uncompressed, mz, level)
    }

    constructor (k: Compressor<C, E>, wrap: Wrap, level: int)
      ensures Valid() && fresh(Parts()) && this.k == k && this.wrap == wrap
      ensures Snap() == FreshEnc(k, wrap, level)
    {
      var lv := if level == LEVEL_DEFAULT then DEFAULT_LEVEL else level;
      var h := HeaderFor(wrap, lv);
      this.k, this.wrap, this.level := k, wrap, lv;
      hdr, tail := new byte[10], new byte[8];
      hdrLen, hdrPos, tailLen, tailPos := |h|, 0, 0, 0;
      place := if wrap == Raw then Body else Header;
      checksum, uncompressed, mz := ChecksumInit(wrap), 0, k.start(lv);
      new;
      Store(hdr, h);
    }

    /** Bytes into the front of one of the two small arrays. */
    static method Store(a: array<byte>, s: seq<byte>)
      requires |s| <= a.Length
      modifies a
      ensures a[..|s|] == s
    {
      for i := 0 to |s|
        invariant a[..i] == s[..i]
      {
        a[i] := s[i];
      }
    }

    /** zu_int_deflate_reset: the level given, or the stream's own. */
    method Restart(level: int)
      requires Valid()
      modifies this, hdr
      ensures Valid() && Snap() == ResetEnc(k, old(Snap()), level)
    {
      var want := if level != LEVEL_DEFAULT then level else this.level;
      var h := HeaderFor(wrap, want);
      this.level, mz := want, k.start(want);
      checksum, uncompressed := ChecksumInit(wrap), 0;
      hdrLen, hdrPos, tailLen, tailPos := |h|, 0, 0, 0;
      Store(hdr, h);
      place := if wrap == Raw then Body else Header;
    }

    twostate predicate Did(i: Iter<Enc<C>>, buf: Buffer, stop: bool, st: Status)
      requires hdrLen <= hdr.Length && tailLen <= tail.Length
      reads this, hdr, tail, buf, buf.dst
    {
      match i
      case Stop(r) => stop && st == r.status && Snap() == r.next && buf.Advanced(r.used, r.out)
      case Go(next, used, out) => !stop && Snap() == next && buf.Advanced(used, out)
    }

    /** One call of the engine, and the checksum over what it took. */
    method Crank(buf: Buffer, f: Flush) returns (t: Turn<C>)
      requires Valid() && buf.Valid() && buf.dst !in Parts() && place == Body && buf.Room() > 0
      modifies this`checksum, this`uncompressed, this`mz, buf`srcPos, buf`dstPos, buf.dst
      ensures t == Press(k, old(mz), old(buf.Window())[..Clamp(|old(buf.Window())|)], Clamp(old(buf.Room())), MzFlushOf(f, true))
      ensures Valid() && Snap() == Pressed(old(Snap()), t, old(buf.Window())) && buf.Advanced(t.used, t.out)
    {
      hide ChecksumUpdate, Overlay, Press;
      var w := buf.Window();
      t := Press(k, mz, w[..Clamp(|w|)], Clamp(buf.Room()), MzFlushOf(f, true));
      mz := t.next;
      if wrap != Raw {
        checksum := ChecksumUpdate(wrap, checksum, w[..t.used]);
        uncompressed := uncompressed + t.used;
      }
      buf.Write(t.out);
      buf.srcPos := buf.srcPos + t.used;
    }

    method BodyTurn(buf: Buffer, f: Flush) returns (stop: bool, st: Status)
      requires Valid() && buf.Valid() && buf.dst !in Parts() && place == Body
      modifies this`place, this`tailPos, this`tailLen, this`checksum, this`uncompressed, this`mz,
               tail, buf`srcPos, buf`dstPos, buf.dst
      ensures Valid() && Did(EncBodyTurn(k, old(Snap()), old(buf.Window()), old(buf.Room()), f), buf, stop, st)
    {
      hide Press, Overlay, Pressed, TrailerFor;
      OverlayNothing(buf.dst[..], buf.dstPos);
      if buf.dstPos == buf.dstSize {
        return true, NeedOutput;
      }
      var t := Crank(buf, f);
      if t.mz == MzEnd {
        if wrap != Raw {
          var bytes := TrailerFor(wrap, checksum, uncompressed);
          tailLen, tailPos := |bytes|, 0;
          Store(tail, bytes);
          place := Trailer;
          return false, Ok;
        }
        place := Done;
        return true, StreamEnd;
      }
      if t.mz.MzError? {
        return true, t.mz.status;
      }
      if t.used == 0 && t.out == [] {
        if buf.srcPos == |buf.src| {
          return true, if f != Finish then NeedInput else ErrInternal;
        }
        return true, NeedOutput;
      }
      return false, Ok;
    }

    method OneTurn(buf: Buffer, f: Flush) returns (stop: bool, st: Status)
      requires Valid() && buf.Valid() && buf.dst !in Parts()
      modifies this, tail, buf`srcPos, buf`dstPos, buf.dst
      ensures Valid() && Did(EncTurn(k, old(Snap()), old(buf.Window()), old(buf.Room()), f), buf, stop, st)
    {
      hide EncBodyTurn, Overlay;
      OverlayNothing(buf.dst[..], buf.dstPos);
      if place == Header {
        if hdrPos < hdrLen {
          if buf.dstPos == buf.dstSize {
            return true, NeedOutput;
          }
          buf.Put(hdr[hdrPos]);
          hdrPos := hdrPos + 1;
          return false, Ok;
        }
        place := Body;
        return false, Ok;
      }
      if place == Body {
        stop, st := BodyTurn(buf, f);
        return;
      }
      if place == Trailer && tailPos < tailLen {
        if buf.dstPos == buf.dstSize {
          return true, NeedOutput;
        }
        buf.Put(tail[tailPos]);
        tailPos := tailPos + 1;
        return false, Ok;
      }
      place := Done;
      return true, StreamEnd;
    }

    /** One round of the loop, told against the whole call. */
    method Round(buf: Buffer, f: Flush, ghost dst0: seq<byte>, ghost at: nat, ghost out: seq<byte>)
      returns (stop: bool, st: Status, ghost u: nat, ghost o: seq<byte>)
      requires Valid() && buf.Valid() && buf.dst !in Parts()
      requires buf.dstPos == at + |out| && buf.dst.Length == |dst0| && buf.dst[..] == Overlay(dst0, at, out)
      modifies this, tail, buf`srcPos, buf`dstPos, buf.dst
      ensures Valid() && buf.Valid() && buf.src == old(buf.src) && buf.dst == old(buf.dst) && buf.dstSize == old(buf.dstSize)
      ensures buf.srcPos == old(buf.srcPos) + u && buf.dstPos == old(buf.dstPos) + |o|
      ensures buf.dst[..] == Overlay(dst0, at, out + o)
      ensures var s, w, room := old(Snap()), old(buf.Window()), old(buf.Room());
              var r := EncProcess(k, s, w, room, f);
              if stop then r == Reply(Snap(), u, o, st)
              else
                && r == Ahead(o, u, EncProcess(k, Snap(), buf.Window(), buf.Room(), f))
                && (u == 0 && o == [] ==> EncRank(Snap()) < EncRank(s))
    {
      hide EncTurn, EncRank, Overlay;
      ghost var w := buf.Window();
      ghost var i := EncTurn(k, Snap(), w, buf.Room(), f);
      EncTurnMoves(k, Snap(), w, buf.Room(), f);
      stop, st := OneTurn(buf, f);
      u, o := if i.Stop? then i.reply.used else i.used, if i.Stop? then i.reply.out else i.out;
      OverlayTwice(dst0, at, out, o);
      assert buf.Window() == w[u..];
    }

    /** deflate_process. */
    method Process(buf: Buffer, f: Flush) returns (st: Status)
      requires Valid() && buf.Valid() && buf.dst !in Parts()
      modifies this, tail, buf`srcPos, buf`dstPos, buf.dst
      ensures Valid()
      ensures var r := EncProcess(k, old(Snap()), old(buf.Window()), old(buf.Room()), f);
              Snap() == r.next && st == r.status && buf.Advanced(r.used, r.out)
    {
      hide EncRank, Overlay;
      ghost var goal := EncProcess(k, Snap(), buf.Window(), buf.Room(), f);
      ghost var used: nat, out: seq<byte> := 0, [];
      ghost var src, dst, size, s0, d0, bytes := buf.src, buf.dst, buf.dstSize, buf.srcPos, buf.dstPos, buf.dst[..];
      OverlayNothing(bytes, d0);
      while true
        invariant Valid() && buf.Valid() && buf.src == src && buf.dst == dst && buf.dstSize == size
        invariant buf.srcPos == s0 + used && buf.dstPos == d0 + |out| && dst[..] == Overlay(bytes, d0, out)
        invariant goal == Ahead(out, used, EncProcess(k, Snap(), buf.Window(), buf.Room(), f))
        decreases buf.AvailIn() + buf.Room(), EncRank(Snap())
      {
        var stop;
        ghost var u, o;
        stop, st, u, o := Round(buf, f, bytes, d0, out);
        if stop {
          return;
        }
        AheadTwice(out, used, o, u, EncProcess(k, Snap(), buf.Window(), buf.Room(), f));
        used, out := used + u, out + o;
      }
    }
  }
}
