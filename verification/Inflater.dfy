/** deflate_state and deflate_process, decoding: the object behind the states
    of DeflateDecoder, updated in place. */
module Inflater {
  import opened Zu
  import opened Codecs
  import opened Checksum
  import opened Inflate
  import opened DeflateDecoder
  import H = GzipHeader

  class Decoder<E(!new)> {
    const g: Engine<E>
    const wrap: Wrap
    const gz: H.Parser
    const hdr: array<byte>
    const tail: array<byte>
    var place: Place
    var hdrPos: nat
    var tailPos: nat
    var checksum: uint32
    var uncompressed: nat
    var mz: E
    var called: bool
    var probe: bool
    var concat: bool
    var reject: bool

    /** Everything process may write, apart from the caller's buffer. */
    ghost function Parts(): (s: set<object>) {
      {this, gz, gz.fixed, gz.hcrc, hdr, tail}
    }

    /** Always true: what a reset relies on, even after an error. */
    ghost predicate Sound()
      reads this, gz, gz.hcrc
    {
      && gz.fixed.Length == 10 && gz.hcrc.Length == 2 && gz.hcrc != gz.fixed && gz.hcrcPos <= 2
      && hdr.Length == 10 && tail.Length == 8
      && hdr != tail && hdr != gz.fixed && hdr != gz.hcrc && tail != gz.fixed && tail != gz.hcrc
      && hdrPos <= 2 && tailPos <= TailLen(wrap)
      && (wrap != Gzip ==> gz.Snap() == H.Init)
    }

    /** True from creation or reset until an error is answered. */
    ghost predicate Valid()
      reads this, gz, gz.hcrc
    {
      Sound() && (wrap == Gzip ==> gz.Valid())
    }

    /** The answers after which process may be called again. */
    predicate GoesOn(st: Status) {
      st.IsProgress() || st == StreamEnd
    }

    function Snap(): (d: State<E>)
      requires gz.hcrcPos <= gz.hcrc.Length && hdrPos <= hdr.Length && tailPos <= tail.Length
      reads this, gz, gz.hcrc, hdr, tail
    {
      State(wrap, place, gz.Snap(), hdr[..hdrPos], tail[..tailPos], checksum, uncompressed,
            mz, called, probe, concat, reject)
    }

    constructor (g: Engine<E>, wrap: Wrap, concat: bool, reject: bool)
      ensures Valid() && fresh(Parts())
      ensures this.g == g && this.wrap == wrap && gz.Snap() == H.Init
      ensures Snap() == Fresh(g, wrap, concat, reject)
    {
      this.g, this.wrap, this.concat, this.reject := g, wrap, concat, reject;
      gz := new H.Parser();
      hdr, tail := new byte[10], new byte[8];
      place := if wrap == Raw then Body else Header;
      hdrPos, tailPos, checksum, uncompressed := 0, 0, ChecksumInit(wrap), 0;
      mz, called, probe := g.start, false, false;
    }

    /** deflate_decoder_reset: from any state at all, mid-header, mid-probe,
        mid-trailer or after an error, the object is a new one. */
    method Restart(concat: bool, reject: bool)
      requires Sound()
      modifies this, gz
      ensures Valid() && Snap() == Fresh(g, wrap, concat, reject)
    {
      hide H.Wf;
      Rewind(concat, reject);
      if wrap == Gzip {
        gz.Reinit();
      }
    }

    /** Everything but the header parser. */
    method Rewind(concat: bool, reject: bool)
      requires Sound()
      modifies this
      ensures Sound() && Snap() == Fresh(g, wrap, concat, reject).(gz := gz.Snap())
    {
      hide H.Wf, ChecksumInit, H.Init;
      ghost var parser := gz.Snap();
      mz, called := g.start, false;
      this.concat, this.reject := concat, reject;
      checksum, uncompressed, hdrPos, tailPos, probe := ChecksumInit(wrap), 0, 0, 0, false;
      place := if wrap == Raw then Body else Header;
      assert gz.Snap() == parser;
    }

    /** One byte of gzip header. */
    method GzipHeaderTurn(buf: Buffer, f: Flush) returns (stop: bool, st: Status)
      requires Valid() && buf.Valid() && buf.dst !in Parts() && place == Header && wrap == Gzip
      modifies this`place, gz, gz.fixed, gz.hcrc, buf`srcPos
      ensures Sound() && Did(HeaderTurn(old(Snap()), old(buf.Window()), f), buf, stop, st)
    {
      hide H.Feed, H.Wf;
      OverlayNothing(buf.dst[..], buf.dstPos);
      if buf.srcPos == |buf.src| {
        return true, ShortStatus(f);
      }
      var b := buf.Get();
      H.FeedFails(gz.Snap(), b);
      var hs, done := gz.FeedByte(b);
      if hs != Ok {
        return true, hs;
      }
      if done {
        place := Body;
      }
      return false, Ok;
    }

    /** One byte of zlib header, or the check of both. */
    method ZlibHeaderTurn(buf: Buffer, f: Flush) returns (stop: bool, st: Status)
      requires Valid() && buf.Valid() && buf.dst !in Parts() && place == Header && wrap != Gzip
      modifies this`place, this`hdrPos, hdr, buf`srcPos
      ensures Sound() && Did(HeaderTurn(old(Snap()), old(buf.Window()), f), buf, stop, st)
    {
      hide CheckZlib, H.Wf;
      OverlayNothing(buf.dst[..], buf.dstPos);
      if hdrPos < 2 {
        if buf.srcPos == |buf.src| {
          return true, ShortStatus(f);
        }
        var b := buf.Get();
        ghost var was := hdr[..hdrPos];
        hdr[hdrPos] := b;
        hdrPos := hdrPos + 1;
        assert hdr[..hdrPos] == was + [b];
        return false, Ok;
      }
      var hs := CheckZlib(hdr[0], hdr[1]);
      if hs != Ok {
        return true, hs;
      }
      place := Body;
      return false, Ok;
    }

    /** One call of the engine, and the checksum over what it wrote. */
    method Crank(buf: Buffer, f: Flush) returns (t: Turn<E>)
      requires Valid() && buf.Valid() && buf.dst !in Parts() && place == Body
      modifies this`checksum, this`uncompressed, this`mz, this`called, buf`srcPos, buf`dstPos, buf.dst
      ensures t == AskBody(g, old(Snap()), old(buf.Window()), old(buf.Room()), f)
      ensures Valid() && Snap() == Inflated(old(Snap()), t) && buf.Advanced(t.used, t.out)
    {
      hide ChecksumUpdate, AskBody, Overlay, H.Wf;
      t := AskBody(g, Snap(), buf.Window(), buf.Room(), f);
      Absorb(t);
      buf.Write(t.out);
      buf.srcPos := buf.srcPos + t.used;
    }

    method Absorb(t: Turn<E>)
      requires Valid()
      modifies this`checksum, this`uncompressed, this`mz, this`called
      ensures Valid() && Snap() == Inflated(old(Snap()), t)
    {
      hide ChecksumUpdate, H.Wf;
      mz, called := t.next, true;
      if wrap != Raw {
        checksum := ChecksumUpdate(wrap, checksum, t.out);
        uncompressed := uncompressed + |t.out|;
      }
    }

    method BodyTurn(buf: Buffer, f: Flush) returns (stop: bool, st: Status)
      requires Valid() && buf.Valid() && buf.dst !in Parts() && place == Body
      modifies this`place, this`tailPos, this`checksum, this`uncompressed, this`mz, this`called,
               buf`srcPos, buf`dstPos, buf.dst
      ensures Sound() && Did(DeflateDecoder.BodyTurn(g, old(Snap()), old(buf.Window()), old(buf.Room()), f), buf, stop, st)
    {
      hide Inflated, AskBody, Overlay, H.Wf;
      var availIn, availOut := buf.AvailIn(), buf.Room();
      var t := Crank(buf, f);
      if t.mz == MzEnd {
        if wrap != Raw {
          tailPos := 0;
          place := Trailer;
          return false, Ok;
        }
        place := Done;
        return true, StreamEnd;
      }
      if t.mz.MzError? {
        return true, t.mz.status;
      }
      if t.used == 0 && t.out == [] {
        if availOut == 0 {
          return true, NeedOutput;
        }
        if buf.srcPos == |buf.src| {
          return true, if f != Finish then NeedInput else ErrInvalidData;
        }
        return true, NeedOutput;
      }
      return false, Ok;
    }

    /** One byte of trailer, or its check. */
    method TrailerTurn(buf: Buffer, f: Flush) returns (stop: bool, st: Status)
      requires Valid() && buf.Valid() && buf.dst !in Parts() && place == Trailer
      modifies this`place, this`tailPos, tail, buf`srcPos
      ensures Sound() && Did(DeflateDecoder.TrailerTurn(old(Snap()), old(buf.Window()), f), buf, stop, st)
    {
      hide Be32, Le32, H.Wf;
      OverlayNothing(buf.dst[..], buf.dstPos);
      if tailPos < TailLen(wrap) {
        if buf.srcPos == |buf.src| {
          return true, ShortStatus(f);
        }
        var b := buf.Get();
        ghost var was := tail[..tailPos];
        tail[tailPos] := b;
        tailPos := tailPos + 1;
        assert tail[..tailPos] == was + [b];
        return false, Ok;
      }
      assert wrap == Gzip ==> tail[..tailPos][..4] == tail[..4] && tail[..tailPos][4..] == tail[4..8];
      if wrap == Zlib {
        if Be32(tail[..4]) != checksum {
          return true, ErrChecksum;
        }
      } else if wrap == Gzip {
        if Le32(tail[..4]) != checksum {
          return true, ErrChecksum;
        }
        if Le32(tail[4..8]) != uncompressed % TWO32 {
          return true, ErrChecksum;
        }
      }
      place := MemberEnd;
      return false, Ok;
    }

    /** Between members: no more, or none to be looked for. */
    method MemberTurn(buf: Buffer, f: Flush) returns (stop: bool, st: Status)
      requires Valid() && buf.Valid() && buf.dst !in Parts() && place == MemberEnd
      modifies this, gz, gz.fixed, gz.hcrc, buf`srcPos
      ensures Sound() && Did(DeflateDecoder.MemberTurn(g, old(Snap()), old(buf.Window()), f), buf, stop, st)
    {
      hide H.Feed, H.Wf, Reset;
      OverlayNothing(buf.dst[..], buf.dstPos);
      var more := wrap == Gzip && concat;
      if !more || buf.srcPos == |buf.src| {
        if buf.srcPos == |buf.src| && more && f != Finish {
          return true, NeedInput;
        }
        place := Done;
        if probe {
          probe := false;
          return true, if reject then ErrTrailing else StreamEnd;
        }
        return true, StreamEnd;
      }
      if probe {
        stop, st := SecondMagicByte(buf, f);
      } else {
        stop, st := FirstMagicByte(buf, f);
      }
    }

    /** Bytes remain and none is held. */
    method FirstMagicByte(buf: Buffer, f: Flush) returns (stop: bool, st: Status)
      requires Valid() && buf.Valid() && buf.dst !in Parts() && place == MemberEnd
      requires wrap == Gzip && concat && !probe && buf.srcPos < |buf.src|
      modifies this, gz, gz.fixed, gz.hcrc, buf`srcPos
      ensures Sound() && Did(DeflateDecoder.MemberTurn(g, old(Snap()), old(buf.Window()), f), buf, stop, st)
    {
      hide H.Feed, H.Wf, Reset, Fresh;
      OverlayNothing(buf.dst[..], buf.dstPos);
      if buf.src[buf.srcPos] != 0x1F {
        place := Done;
        return true, StreamEnd;
      }
      if buf.AvailIn() >= 2 {
        if buf.src[buf.srcPos + 1] != 0x8B {
          place := Done;
          return true, StreamEnd;
        }
        ResetIsFresh(g, Snap());
        Restart(concat, reject);
        return false, Ok;
      }
      if f == Finish {
        place := Done;
        return true, StreamEnd;
      }
      buf.srcPos := buf.srcPos + 1;
      probe := true;
      return true, NeedInput;
    }

    /** A 0x1F is held from an earlier buffer. */
    method SecondMagicByte(buf: Buffer, f: Flush) returns (stop: bool, st: Status)
      requires Valid() && buf.Valid() && buf.dst !in Parts() && place == MemberEnd
      requires wrap == Gzip && concat && probe && buf.srcPos < |buf.src|
      modifies this, gz, gz.fixed, gz.hcrc, buf`srcPos
      ensures Sound() && Did(DeflateDecoder.MemberTurn(g, old(Snap()), old(buf.Window()), f), buf, stop, st)
    {
      hide H.Feed, H.Wf, Reset, Fresh;
      OverlayNothing(buf.dst[..], buf.dstPos);
      if buf.src[buf.srcPos] != 0x8B {
        place, probe := Done, false;
        return true, StreamEnd;
      }
      ResetIsFresh(g, Snap());
      st := NextMember();
      return st != Ok, st;
    }

    /** Start over, with the magic byte held back. */
    method NextMember() returns (st: Status)
      requires Valid() && wrap == Gzip
      modifies this, gz, gz.fixed, gz.hcrc
      ensures Sound()
      ensures var d1 := Fresh(g, wrap, old(concat), old(reject));
              var fed := H.Feed(d1.gz, 0x1F);
              st == fed.status && (st == Ok || st.IsError()) && (st == Ok ==> Valid()) && Snap() == d1.(gz := fed.h)
    {
      hide H.Feed, H.Wf, Fresh;
      Restart(concat, reject);
      H.FeedFails(gz.Snap(), 0x1F);
      var hs, done := gz.FeedByte(0x1F);
      return hs;
    }

    method OneTurn(buf: Buffer, f: Flush) returns (stop: bool, st: Status)
      requires Valid() && buf.Valid() && buf.dst !in Parts()
      modifies Parts(), buf`srcPos, buf`dstPos, buf.dst
      ensures Sound() && Did(DeflateDecoder.OneTurn(g, old(Snap()), old(buf.Window()), old(buf.Room()), f), buf, stop, st)
    {
      hide HeaderTurn, DeflateDecoder.BodyTurn, DeflateDecoder.TrailerTurn, DeflateDecoder.MemberTurn, H.Wf;
      OverlayNothing(buf.dst[..], buf.dstPos);
      match place
      case Done => return true, StreamEnd;
      case Header =>
        if wrap == Gzip {
          stop, st := GzipHeaderTurn(buf, f);
        } else {
          stop, st := ZlibHeaderTurn(buf, f);
        }
      case Body => stop, st := BodyTurn(buf, f);
      case Trailer => stop, st := TrailerTurn(buf, f);
      case MemberEnd => stop, st := MemberTurn(buf, f);
    }

    /** One round of the loop, told against the whole call: `out` has been
        laid over the caller's bytes so far, and `o` is laid after it. */
    method Round(buf: Buffer, f: Flush, ghost dst0: seq<byte>, ghost at: nat, ghost out: seq<byte>)
      returns (stop: bool, st: Status, ghost u: nat, ghost o: seq<byte>)
      requires Valid() && buf.Valid() && buf.dst !in Parts()
      requires buf.dstPos == at + |out| && buf.dst.Length == |dst0| && buf.dst[..] == Overlay(dst0, at, out)
      modifies Parts(), buf`srcPos, buf`dstPos, buf.dst
      ensures Sound() && buf.Valid() && buf.src == old(buf.src) && buf.dst == old(buf.dst) && buf.dstSize == old(buf.dstSize)
      ensures buf.srcPos == old(buf.srcPos) + u && buf.dstPos == old(buf.dstPos) + |o|
      ensures buf.dst[..] == Overlay(dst0, at, out + o)
      ensures var d, w, room := old(Snap()), old(buf.Window()), old(buf.Room());
              var r := DeflateDecoder.Process(g, d, w, room, f);
              if stop then r == Reply(Snap(), u, o, st) && (GoesOn(st) ==> Valid())
              else
                && Valid() && r == Ahead(o, u, DeflateDecoder.Process(g, Snap(), buf.Window(), buf.Room(), f))
                && (u == 0 && o == [] ==> Rank(Snap()) < Rank(d))
    {
      hide DeflateDecoder.OneTurn, Rank, Overlay, H.Wf;
      ghost var w := buf.Window();
      ghost var i := DeflateDecoder.OneTurn(g, Snap(), w, buf.Room(), f);
      OneTurnMoves(g, Snap(), w, buf.Room(), f);
      stop, st := OneTurn(buf, f);
      u, o := if i.Stop? then i.reply.used else i.used, if i.Stop? then i.reply.out else i.out;
      OverlayTwice(dst0, at, out, o);
      assert buf.Window() == w[u..];
    }

    /** deflate_process. */
    method Process(buf: Buffer, f: Flush) returns (st: Status)
      requires Valid() && buf.Valid() && buf.dst !in Parts()
      modifies Parts(), buf`srcPos, buf`dstPos, buf.dst
      ensures Sound() && (GoesOn(st) ==> Valid())
      ensures var r := DeflateDecoder.Process(g, old(Snap()), old(buf.Window()), old(buf.Room()), f);
              Snap() == r.next && st == r.status && buf.Advanced(r.used, r.out)
    {
      hide Rank, Overlay, H.Wf;
      ghost var goal := DeflateDecoder.Process(g, Snap(), buf.Window(), buf.Room(), f);
      ghost var used: nat, out: seq<byte> := 0, [];
      ghost var src, dst, size, s0, d0, bytes := buf.src, buf.dst, buf.dstSize, buf.srcPos, buf.dstPos, buf.dst[..];
      OverlayNothing(bytes, d0);
      while true
        invariant Valid() && buf.Valid() && buf.src == src && buf.dst == dst && buf.dstSize == size
        invariant buf.srcPos == s0 + used && buf.dstPos == d0 + |out| && dst[..] == Overlay(bytes, d0, out)
        invariant goal == Ahead(out, used, DeflateDecoder.Process(g, Snap(), buf.Window(), buf.Room(), f))
        decreases buf.AvailIn() + buf.Room(), Rank(Snap())
      {
        var stop;
        ghost var u, o;
        stop, st, u, o := Round(buf, f, bytes, d0, out);
        if stop {
          return;
        }
        AheadTwice(out, used, o, u, DeflateDecoder.Process(g, Snap(), buf.Window(), buf.Room(), f));
        used, out := used + u, out + o;
      }
    }

    /** This object and the buffer have done what turn `i` says. */
    twostate predicate Did(i: Iter<State<E>>, buf: Buffer, stop: bool, st: Status)
      requires gz.hcrcPos <= gz.hcrc.Length && hdrPos <= hdr.Length && tailPos <= tail.Length
      reads this, gz, gz.hcrc, hdr, tail, buf, buf.dst
    {
      match i
      case Stop(r) => stop && st == r.status && Snap() == r.next && buf.Advanced(r.used, r.out) && (GoesOn(st) ==> Valid())
      case Go(next, used, out) => !stop && Valid() && Snap() == next && buf.Advanced(used, out)
    }
  }
}
