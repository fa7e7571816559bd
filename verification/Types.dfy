/** Vocabulary shared by every module: bytes, machine sizes, statuses, options
    and the caller's buffer, as declared in inst/include/zukomp.h. */
module Zu {

  type byte = x: int | 0 <= x < 256

  const TWO32: int := 0x1_0000_0000
  const TWO64: int := 0x1_0000_0000_0000_0000
  const SIZE_MAX: int := TWO64 - 1
  const INT_MAX: int := 0x7FFF_FFFF

  type uint16 = x: int | 0 <= x < 0x1_0000
  type uint32 = x: int | 0 <= x < 0x1_0000_0000
  type uint64 = x: int | 0 <= x < 0x1_0000_0000_0000_0000
  type size_t = uint64

  datatype Option<+T> = None | Some(value: T)

  /** zu_status. The first four are progress reports, the rest are errors. */
  datatype Status =
    | Ok | NeedInput | NeedOutput | StreamEnd
    | ErrInvalidArgument | ErrUnsupported | ErrInvalidData | ErrTruncated
    | ErrChecksum | ErrTrailing | ErrMemory | ErrOutputLimit | ErrRatioLimit | ErrInternal
  {
    predicate IsError() {
      !Ok? && !NeedInput? && !NeedOutput? && !StreamEnd?
    }

    /** The statuses after which a caller goes on with the same stream. */
    predicate IsProgress() {
      Ok? || NeedInput? || NeedOutput?
    }
  }

  datatype Flush = Run | FlushNow | Finish

  /** zu_decoder_opts, with the flag bits spelled out as fields. */
  datatype DecOpts = DecOpts(
    maxOutput: uint64, maxRatio: uint32,
    reject: bool, concat: bool,
    hasExpected: bool, expected: uint64)

  /** ZU_LEVEL_DEFAULT. */
  const LEVEL_DEFAULT: int := -0x8000_0000

  function Min(a: int, b: int): (m: int) {
    if a < b then a else b
  }

  function Max(a: int, b: int): (m: int) {
    if a < b then b else a
  }

  /** zu_buffer: a read-only source and a destination array, each with a size
      and a cursor. A callee advances the cursors and writes dst between
      dstPos and dstSize; it touches nothing else. */
  class Buffer {
    var src: seq<byte>
    var srcPos: nat
    var dst: array<byte>
    var dstSize: nat
    var dstPos: nat

    constructor (src: seq<byte>, dst: array<byte>, dstSize: nat)
      requires dstSize <= dst.Length
      ensures this.src == src && this.srcPos == 0
      ensures this.dst == dst && this.dstSize == dstSize && this.dstPos == 0
    {
      this.src, this.srcPos := src, 0;
      this.dst, this.dstSize, this.dstPos := dst, dstSize, 0;
    }

    ghost predicate Valid()
      reads this
    {
      srcPos <= |src| && dstPos <= dstSize <= dst.Length
    }

    /** The input offered and not yet consumed. */
    function Window(): (w: seq<byte>)
      requires srcPos <= |src|
      reads this
    {
      src[srcPos..]
    }

    function AvailIn(): (n: nat)
      requires srcPos <= |src|
      reads this
    {
      |src| - srcPos
    }

    function Room(): (n: nat)
      requires dstPos <= dstSize
      reads this
    {
      dstSize - dstPos
    }

    /** What a callee leaves behind: cursors moved by `used` and |out|, exactly
        `out` written from the old dstPos on, every other byte as it was. */
    twostate predicate Advanced(used: nat, new out: seq<byte>)
      reads this, dst
    {
      && old(Valid()) && Valid()
      && src == old(src) && dst == old(dst) && dstSize == old(dstSize)
      && srcPos == old(srcPos) + used
      && dstPos == old(dstPos) + |out|
      && dst[..] == Overlay(old(dst[..]), old(dstPos), out)
    }

    /** One byte into the window, as `buf->dst[buf->dst_pos++] = b`. */
    method Put(b: byte)
      requires Valid() && dstPos < dstSize
      modifies this`dstPos, dst
      ensures Advanced(0, [b])
    {
      dst[dstPos] := b;
      dstPos := dstPos + 1;
    }

    /** The byte at the source cursor, as `buf->src[buf->src_pos++]`. */
    method Get() returns (b: byte)
      requires Valid() && srcPos < |src|
      modifies this`srcPos
      ensures b == old(src[srcPos]) && Advanced(1, [])
    {
      b := src[srcPos];
      srcPos := srcPos + 1;
    }

    /** Writes `data` at the cursor and advances it, as memcpy does. */
    method Write(data: seq<byte>)
      requires Valid() && |data| <= Room()
      modifies this`dstPos, dst
      ensures Advanced(0, data)
    {
      hide Overlay;
      ghost var bytes := dst[..];
      OverlayNothing(bytes, dstPos);
      for i := 0 to |data|
        invariant dstPos == old(dstPos)
        invariant dst[..] == Overlay(bytes, dstPos, data[..i])
      {
        ghost var was, at := dst[..], dstPos + i;
        OverlayNext(bytes, dstPos, data[..i], data[i]);
        assert data[..i] + [data[i]] == data[..i + 1];
        dst[dstPos + i] := data[i];
        assert dst[..] == was[at := data[i]];
      }
      dstPos := dstPos + |data|;
      assert data[..|data|] == data;
    }
  }

  /** `s` with `out` laid over it from position `at`. */
  ghost function Overlay(s: seq<byte>, at: nat, out: seq<byte>): (r: seq<byte>)
    requires at + |out| <= |s|
    ensures |r| == |s|
  {
    s[..at] + out + s[at + |out|..]
  }

  lemma OverlayPrefix(s: seq<byte>, at: nat, out: seq<byte>)
    requires at + |out| <= |s|
    ensures Overlay(s, at, out)[..at + |out|] == s[..at] + out
  {
  }

  lemma OverlayNothing(s: seq<byte>, at: nat)
    requires at <= |s|
    ensures Overlay(s, at, []) == s
  {
  }

  lemma OverlayNext(s: seq<byte>, at: nat, out: seq<byte>, b: byte)
    requires at + |out| < |s|
    ensures Overlay(s, at, out)[at + |out| := b] == Overlay(s, at, out + [b])
  {
  }

  /** Two writes, one after the other, are one write of both. */
  lemma OverlayTwice(s: seq<byte>, at: nat, a: seq<byte>, b: seq<byte>)
    requires at + |a| + |b| <= |s|
    ensures Overlay(Overlay(s, at, a), at + |a|, b) == Overlay(s, at, a + b)
  {
  }
}
