/** Two codecs without state: identity (src/codec_identity.c) and the
    third-party xor5a (tools/zukomptest/src/codec_xor.c). Both are honest. */
module Bytewise {
  import opened Zu
  import opened Codecs
  import opened Driver

  function Same(b: byte): (r: byte) {
    b
  }

  type nibble = x: int | 0 <= x < 16

  /** n ^ 5 and n ^ 0xA, for each n. */
  const FIVE: seq<nibble> := [5, 4, 7, 6, 1, 0, 3, 2, 13, 12, 15, 14, 9, 8, 11, 10]
  const TEN: seq<nibble> := [10, 11, 8, 9, 14, 15, 12, 13, 2, 3, 0, 1, 6, 7, 4, 5]

  /** b ^ 0x5A. */
  function Xor5A(b: byte): (r: byte) {
    var h: int, l: int := FIVE[b / 16], TEN[b % 16];
    16 * h + l
  }

  /** Exclusive or, bit by bit. */
  function BitXor(a: nat, b: nat): (r: nat)
    decreases a + b
  {
    if a == 0 && b == 0 then 0 else (a + b) % 2 + 2 * BitXor(a / 2, b / 2)
  }

  lemma FiveIsXor(n: nibble)
    ensures FIVE[n] == BitXor(n, 5)
  {
    assert BitXor(0, 5) == 5 && BitXor(1, 5) == 4 && BitXor(2, 5) == 7 && BitXor(3, 5) == 6;
    assert BitXor(4, 5) == 1 && BitXor(5, 5) == 0 && BitXor(6, 5) == 3 && BitXor(7, 5) == 2;
    assert BitXor(8, 5) == 13 && BitXor(9, 5) == 12 && BitXor(10, 5) == 15 && BitXor(11, 5) == 14;
    assert BitXor(12, 5) == 9 && BitXor(13, 5) == 8 && BitXor(14, 5) == 11 && BitXor(15, 5) == 10;
  }

  lemma TenIsXor(n: nibble)
    ensures TEN[n] == BitXor(n, 10)
  {
    assert BitXor(0, 10) == 10 && BitXor(1, 10) == 11 && BitXor(2, 10) == 8 && BitXor(3, 10) == 9;
    assert BitXor(4, 10) == 14 && BitXor(5, 10) == 15 && BitXor(6, 10) == 12 && BitXor(7, 10) == 13;
    assert BitXor(8, 10) == 2 && BitXor(9, 10) == 3 && BitXor(10, 10) == 0 && BitXor(11, 10) == 1;
    assert BitXor(12, 10) == 6 && BitXor(13, 10) == 7 && BitXor(14, 10) == 4 && BitXor(15, 10) == 5;
  }

  lemma ByTwo(h: nat, l: nat, c: nat, d: nat)
    requires l < 2 && d < 2
    ensures BitXor(2 * h + l, 2 * c + d) == 2 * BitXor(h, c) + BitXor(l, d)
  {
    assert (2 * h + l) / 2 == h && (2 * c + d) / 2 == c;
    assert BitXor(l / 2, d / 2) == 0;
  }

  lemma ByFour(h: nat, l: nat, c: nat, d: nat)
    requires l < 4 && d < 4
    ensures BitXor(4 * h + l, 4 * c + d) == 4 * BitXor(h, c) + BitXor(l, d)
  {
    hide BitXor;
    ByTwo(2 * h + l / 2, l % 2, 2 * c + d / 2, d % 2);
    ByTwo(h, l / 2, c, d / 2);
    ByTwo(l / 2, l % 2, d / 2, d % 2);
  }

  /** Nibble by nibble. */
  lemma BySixteen(h: nat, l: nat, c: nat, d: nat)
    requires l < 16 && d < 16
    ensures BitXor(16 * h + l, 16 * c + d) == 16 * BitXor(h, c) + BitXor(l, d)
  {
    hide BitXor;
    ByFour(4 * h + l / 4, l % 4, 4 * c + d / 4, d % 4);
    ByFour(h, l / 4, c, d / 4);
    ByFour(l / 4, l % 4, d / 4, d % 4);
  }

  /** It is the exclusive or with 0x5A. */
  lemma XorIsBitwise(b: byte)
    ensures Xor5A(b) == BitXor(b, 0x5A)
  {
    var h, l: nibble := b / 16, b % 16;
    FiveIsXor(h);
    TenIsXor(l);
    hide BitXor, FIVE, TEN;
    BySixteen(h, l, 5, 10);
  }

  lemma {:induction false} BitXorTwice(a: nat, m: nat)
    ensures BitXor(BitXor(a, m), m) == a
    decreases a + m
  {
    if a != 0 || m != 0 {
      var x, c := BitXor(a / 2, m / 2), BitXor(a, m);
      BitXorTwice(a / 2, m / 2);
      LastBit(a, m);
      LastBit(c, m);
      hide BitXor;
      SameParity(a, m, c, x);
    }
  }

  lemma SameParity(a: nat, m: nat, c: nat, x: nat)
    requires c == (a + m) % 2 + 2 * x
    ensures c / 2 == x && (c + m) % 2 == a % 2
  {
  }

  lemma LastBit(a: nat, b: nat)
    ensures BitXor(a, b) == (a + b) % 2 + 2 * BitXor(a / 2, b / 2)
  {
  }

  function Map(g: byte -> byte, s: seq<byte>): (r: seq<byte>)
    ensures |r| == |s|
  {
    seq(|s|, i requires 0 <= i < |s| => g(s[i]))
  }

  /** Transforms as much as both windows allow, then says what stopped it. */
  function Transform(g: byte -> byte, s: (), w: seq<byte>, room: nat, f: Flush): (r: Reply<()>)
    ensures r.used == |r.out| == Min(|w|, room)
  {
    var n := Min(|w|, room);
    Reply((), n, Map(g, w[..n]),
          if n < |w| then NeedOutput else if f == Finish then StreamEnd else NeedInput)
  }

  function BytewiseCodec(g: byte -> byte): (c: Codec<()>) {
    Codec((o: DecOpts) => (),
          (s: (), w: seq<byte>, room: nat, f: Flush) => Transform(g, s, w, room, f),
          Some((s: (), o: DecOpts) => ()),
          true)
  }

  /** A stream is whatever the caller says it is, and never has a tail. */
  function BytewiseSem(g: byte -> byte): (sem: Sem<()>) {
    Sem((s: ()) => true, (s: (), rest: seq<byte>) => Complete(Map(g, rest), |rest|, []),
        (s: ()) => false, (s: ()) => 0)
  }

  const BytewisePolicy: bool -> Policy := (reject: bool) => Policy(reject, true, true, 0, NEVER_LONE, NOTHING_ASKED)

  lemma BytewiseKeeps(g: byte -> byte, reject: bool)
    ensures InWindow(BytewiseCodec(g)) && ResetsClean(BytewiseCodec(g), (s: ()) => true)
    ensures Keeps(BytewiseCodec(g), BytewiseSem(g), BytewisePolicy(reject))
  {
    var c, sem := BytewiseCodec(g), BytewiseSem(g);
    forall s: (), w: seq<byte>, tail: seq<byte>, room: nat, f: Flush
      ensures StepOk(c, sem, BytewisePolicy(reject), s, w, tail, room, f)
    {
      var n := Min(|w|, room);
      if f == Finish ==> tail == [] {
        assert Map(g, w + tail) == Map(g, w[..n]) + Map(g, w[n..] + tail);
        assert f == Finish && n == |w| ==> w + tail == w[..n];
      }
    }
    forall s: (), w: seq<byte>, room: nat, f: Flush ensures Inside(c, s, w, room, f) { }
  }

  lemma XorInvolution(b: byte)
    ensures Xor5A(Xor5A(b)) == b
  {
    hide Xor5A;
    XorIsBitwise(b);
    XorIsBitwise(Xor5A(b));
    BitXorTwice(b, 0x5A);
  }

  lemma SameIsIdentity(s: seq<byte>)
    ensures Map(Same, s) == s
  {
    forall i | 0 <= i < |s| ensures Map(Same, s)[i] == s[i] {
      assert Same(s[i]) == s[i];
    }
  }

  /** Either codec, driven in any windows, delivers the transform of its input
      and nothing else; so a second pass of xor5a, in any other windows,
      restores it. */
  lemma XorRoundTrip(opts: DecOpts, input: seq<byte>, there: seq<Slot>, back: seq<Slot>)
    requires Ceiling(opts) == None && opts.maxRatio == 0
    ensures var c := BytewiseCodec(Xor5A);
            InWindow(c) &&
            var r := RunAll(c, Fresh((), opts), input, there);
            r.status == StreamEnd ==>
              var r' := RunAll(c, Fresh((), opts), r.out, back);
              if r'.status.IsProgress() then r'.out <= input else r'.status == StreamEnd && r'.out == input
  {
    var c, sem, pol := BytewiseCodec(Xor5A), BytewiseSem(Xor5A), BytewisePolicy(opts.reject);
    BytewiseKeeps(Xor5A, opts.reject);
    AnythingIsProper(c, Fresh((), opts), START, input, there);
    FreshRunVerdict(c, sem, pol, (), opts, input, there);
    var r := RunAll(c, Fresh((), opts), input, there);
    if r.status == StreamEnd {
      AnythingIsProper(c, Fresh((), opts), START, r.out, back);
      FreshRunVerdict(c, sem, pol, (), opts, r.out, back);
      forall i | 0 <= i < |input| ensures Xor5A(Xor5A(input[i])) == input[i] {
        XorInvolution(input[i]);
      }
      assert Map(Xor5A, Map(Xor5A, input)) == input;
    }
  }

  /** identity_process: one copy of both windows' common length. */
  method IdentityProcess(buf: Buffer, f: Flush) returns (st: Status)
    requires buf.Valid()
    modifies buf`srcPos, buf`dstPos, buf.dst
    ensures var r := Transform(Same, (), old(buf.Window()), old(buf.Room()), f);
            st == r.status && buf.Advanced(r.used, r.out)
  {
    var availIn, availOut := buf.AvailIn(), buf.Room();
    var n := Min(availIn, availOut);
    SameIsIdentity(buf.Window()[..n]);
    if n > 0 {
      buf.Write(buf.Window()[..n]);
      buf.srcPos := buf.srcPos + n;
      availIn, availOut := availIn - n, availOut - n;
    } else {
      OverlayNothing(buf.dst[..], buf.dstPos);
    }
    if availIn > 0 {
      return NeedOutput;
    }
    return if f == Finish then StreamEnd else NeedInput;
  }

  /** xor5a_process: one byte at a time, then both cursors at once. */
  method Xor5AProcess(buf: Buffer, f: Flush) returns (st: Status)
    requires buf.Valid()
    modifies buf`srcPos, buf`dstPos, buf.dst
    ensures var r := Transform(Xor5A, (), old(buf.Window()), old(buf.Room()), f);
            st == r.status && buf.Advanced(r.used, r.out)
  {
    hide Xor5A, Overlay;
    var availIn, availOut := buf.AvailIn(), buf.Room();
    var n := Min(availIn, availOut);
    ghost var out := Map(Xor5A, buf.Window()[..n]);
    ghost var bytes := buf.dst[..];
    OverlayNothing(bytes, buf.dstPos);
    for i := 0 to n
      invariant unchanged(buf)
      invariant buf.dst[..] == Overlay(bytes, buf.dstPos, out[..i])
    {
      ghost var was, at := buf.dst[..], buf.dstPos + i;
      OverlayNext(bytes, buf.dstPos, out[..i], out[i]);
      assert out[..i] + [out[i]] == out[..i + 1];
      buf.dst[buf.dstPos + i] := Xor5A(buf.src[buf.srcPos + i]);
      assert buf.dst[..] == was[at := out[i]];
    }
    assert out[..n] == out;
    buf.srcPos, buf.dstPos := buf.srcPos + n, buf.dstPos + n;
    if availIn > n {
      return NeedOutput;
    }
    return if f == Finish then StreamEnd else NeedInput;
  }
}
