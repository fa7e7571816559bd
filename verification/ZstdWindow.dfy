/** The zstd decoder's window ceiling (zu_int_zstd_window in src/codec_zstd.c):
    memory a frame may claim before any output exists. */
module ZstdWindow {
  import opened Zu
  import H = Huffman

  const LOG_FLOOR: nat := 23
  const LOG_DEFAULT: nat := 27

  /** zu_int_ceil_log2: the least exponent that reaches `n`, or 63. */
  method CeilLog2(n: uint64) returns (b: nat)
    requires n >= 1
    ensures b == CeilLog(n)
    ensures b <= 63 && (b < 63 ==> H.Pow2(b) >= n) && (b > 0 ==> H.Pow2(b - 1) < n)
  {
    b := 0;
    while b < 63 && H.Pow2(b) < n
      invariant b <= 63 && (b > 0 ==> H.Pow2(b - 1) < n)
      invariant CeilLogFrom(0, n) == CeilLogFrom(b, n)
    {
      b := b + 1;
    }
  }

  function CeilLogFrom(b: nat, n: uint64): (r: nat)
    requires b <= 63
    ensures b <= r <= 63
    decreases 63 - b
  {
    if b == 63 || H.Pow2(b) >= n then b else CeilLogFrom(b + 1, n)
  }

  function CeilLog(n: uint64): (r: nat)
    ensures r <= 63
  {
    CeilLogFrom(0, n)
  }

  /** The ceiling on a frame's window, as a power of two. */
  function WindowLog(maxOutput: uint64): (w: nat) {
    if maxOutput == 0 then LOG_DEFAULT
    else Min(Max(CeilLog(maxOutput), LOG_FLOOR), LOG_DEFAULT)
  }

  lemma {:induction false} CeilLogIs(b: nat, n: uint64, w: nat)
    requires b <= w <= 63 && (b > 0 ==> H.Pow2(b - 1) < n)
    ensures CeilLogFrom(b, n) <= w <==> (w == 63 || H.Pow2(w) >= n)
    decreases 63 - b
  {
    if b < 63 && H.Pow2(b) < n && b < w {
      CeilLogIs(b + 1, n, w);
    } else if b < w && H.Pow2(b) >= n {
      Grows(b, w);
    }
  }

  lemma {:induction false} Grows(a: nat, b: nat)
    requires a <= b
    ensures H.Pow2(a) <= H.Pow2(b)
    decreases b
  {
    if a < b {
      Grows(a, b - 1);
    }
  }

  /** A window of 2^w bytes is admitted exactly when the default decoder admits
      it and either it is of no more than 8 MiB or half of it is still less
      than max_output. */
  lemma WindowAdmits(maxOutput: uint64, w: nat)
    requires maxOutput > 0 && w <= 63
    ensures w <= WindowLog(maxOutput) <==> w <= 27 && (w <= 23 || H.Pow2(w - 1) < maxOutput)
    ensures w <= WindowLog(0) <==> w <= 27
  {
    if w > 0 {
      CeilLogIs(0, maxOutput, w - 1);
    }
  }

  /** So the whole of an output within the limit always fits the window, up to
      the default. */
  lemma OutputFitsWindow(maxOutput: uint64)
    requires 0 < maxOutput <= H.Pow2(LOG_DEFAULT)
    ensures maxOutput <= H.Pow2(WindowLog(maxOutput))
  {
    var c := CeilLog(maxOutput);
    CeilLogIs(0, maxOutput, LOG_DEFAULT);
    CeilLogIs(0, maxOutput, c);
    Grows(c, Max(c, LOG_FLOOR));
  }
}
