/** Canonical Huffman codes and bit packing, as tools/make-malformed.R builds
    its DEFLATE vectors (sections 3.1.1, 3.2.2 and 3.2.6 of RFC 1951). */
module Huffman {
  import opened Zu

  type bit = x: int | 0 <= x < 2

  function Pow2(n: nat): (p: nat)
    ensures p > 0
  {
    if n == 0 then 1 else 2 * Pow2(n - 1)
  }

  // ---- Codes from lengths ------------------------------------------------------------------

  /** How many symbols have length `l`; length 0 means the symbol is unused. */
  function Count(lens: seq<nat>, l: nat): (n: nat)
    ensures n <= |lens|
  {
    if lens == [] then 0
    else
      var last := |lens| - 1;
      Count(lens[..last], l) + if lens[last] == l then 1 else 0
  }

  function Held(lens: seq<nat>, b: nat): (n: nat) {
    if b == 0 then 0 else Count(lens, b)
  }

  /** The first code of length `b`. */
  function First(lens: seq<nat>, b: nat): (c: nat) {
    if b == 0 then 0 else 2 * (First(lens, b - 1) + Held(lens, b - 1))
  }

  function Code(lens: seq<nat>, s: nat): (c: nat)
    requires s < |lens|
  {
    First(lens, lens[s]) + Count(lens[..s], lens[s])
  }

  function MaxLen(lens: seq<nat>): (m: nat)
    ensures forall i :: 0 <= i < |lens| ==> lens[i] <= m
  {
    if lens == [] then 0
    else
      var last := |lens| - 1;
      var m := MaxLen(lens[..last]);
      assert forall i :: 0 <= i < last ==> lens[i] == lens[..last][i];
      Max(m, lens[last])
  }

  const INTEGER_MAX := 0x7fff_ffff

  /** No value that canon computes passes R's integers; `ShortIsNarrow` and
      `FittingIsNarrow` say which lengths are so. */
  ghost predicate Narrow(lens: seq<nat>) {
    forall b :: 0 <= b <= MaxLen(lens) ==> Used(lens, b) <= INTEGER_MAX
  }

  /** bitwShiftL(x, 1): within 32 bits. */
  function ShiftLeft(x: nat): (r: nat) {
    2 * x % 0x1_0000_0000
  }

  /** canon: counts the lengths, finds the first code of each, and hands the
      codes out in symbol order. */
  method Canon(lens: seq<nat>) returns (out: seq<nat>)
    ensures |out| == |lens|
    ensures Narrow(lens) ==> forall s :: 0 <= s < |lens| ==> out[s] == if lens[s] > 0 then Code(lens, s) else 0
  {
    hide First, Held, Narrow;
    var m := MaxLen(lens);
    var bl := CountLengths(lens, m);
    var nx := FirstCodes(lens, bl, m);
    out := [];
    for s := 0 to |lens|
      invariant |nx| == m + 1 && |out| == s
      invariant Narrow(lens) ==> forall l :: 0 < l <= m ==> nx[l] == First(lens, l) + Count(lens[..s], l)
      invariant Narrow(lens) ==> forall t :: 0 <= t < s ==> out[t] == if lens[t] > 0 then Code(lens, t) else 0
    {
      CountNext(lens, s);
      var l := lens[s];
      if l > 0 {
        out := out + [nx[l]];
        nx := nx[l := nx[l] + 1];
      } else {
        out := out + [0];
      }
    }
  }

  lemma CountNext(lens: seq<nat>, s: nat)
    requires s < |lens|
    ensures forall l :: Count(lens[..s + 1], l) == Count(lens[..s], l) + if lens[s] == l then 1 else 0
  {
    assert lens[..s + 1][..s] == lens[..s];
  }

  method FirstCodes(lens: seq<nat>, bl: seq<nat>, m: nat) returns (nx: seq<nat>)
    requires |bl| == m + 1 && forall l :: 0 <= l <= m ==> bl[l] == Held(lens, l)
    requires m == MaxLen(lens)
    ensures |nx| == m + 1
    ensures Narrow(lens) ==> forall l :: 0 < l <= m ==> nx[l] == First(lens, l)
  {
    hide First, Held;
    nx := seq(m + 1, _ => 0);
    var code := 0;
    FirstNone(lens);
    for b := 1 to m + 1
      invariant |nx| == m + 1
      invariant Narrow(lens) ==> code == First(lens, b - 1)
      invariant Narrow(lens) ==> forall l :: 0 < l < b ==> nx[l] == First(lens, l)
    {
      FirstNext(lens, b);
      if Narrow(lens) {
        NarrowAt(lens, b - 1);
      }
      code := ShiftLeft(code + bl[b - 1]);
      nx := nx[b := code];
    }
  }

  lemma FirstNone(lens: seq<nat>)
    ensures First(lens, 0) == 0
  {
  }

  lemma FirstNext(lens: seq<nat>, b: nat)
    requires b > 0
    ensures First(lens, b) == 2 * (First(lens, b - 1) + Held(lens, b - 1))
  {
  }

  method CountLengths(lens: seq<nat>, m: nat) returns (bl: seq<nat>)
    requires forall i :: 0 <= i < |lens| ==> lens[i] <= m
    ensures |bl| == m + 1
    ensures forall l :: 0 <= l <= m ==> bl[l] == Held(lens, l)
  {
    bl := seq(m + 1, _ => 0);
    for i := 0 to |lens|
      invariant |bl| == m + 1 && forall l :: 0 <= l <= m ==> bl[l] == Held(lens[..i], l)
    {
      CountNext(lens, i);
      if lens[i] > 0 {
        bl := bl[lens[i] := bl[lens[i]] + 1];
      }
    }
    assert lens[..|lens|] == lens;
  }

  // ---- Codes fit and do not begin one another ------------------------------------------------

  /** The share of all codes of length `m` that the symbols take up: 2 to the
      power of `m` is all there is. */
  function Kraft(lens: seq<nat>, m: nat): (k: nat) {
    if lens == [] then 0
    else
      var last := |lens| - 1;
      Kraft(lens[..last], m) + if 0 < lens[last] <= m then Pow2(m - lens[last]) else 0
  }

  predicate OverSubscribed(lens: seq<nat>) {
    Kraft(lens, MaxLen(lens)) > Pow2(MaxLen(lens))
  }

  function Used(lens: seq<nat>, b: nat): (n: nat) {
    First(lens, b) + Held(lens, b)
  }

  /** The codes given out up to length `b` are that share. */
  lemma {:induction false} UsedIsKraft(lens: seq<nat>, b: nat)
    ensures Used(lens, b) == Kraft(lens, b)
    decreases |lens|
  {
    if lens == [] {
      NothingUsed(b);
    } else {
      var last := |lens| - 1;
      UsedIsKraft(lens[..last], b);
      OneMore(lens[..last], lens[last], b);
      assert lens[..last] + [lens[last]] == lens;
    }
  }

  lemma {:induction false} NothingUsed(b: nat)
    ensures Used([], b) == 0
    decreases b
  {
    if b > 0 {
      NothingUsed(b - 1);
    }
  }

  lemma {:induction false} OneMore(lens: seq<nat>, l: nat, b: nat)
    ensures Used(lens + [l], b) == Used(lens, b) + if 0 < l <= b then Pow2(b - l) else 0
    decreases b
  {
    assert (lens + [l])[..|lens|] == lens;
    if b > 0 {
      OneMore(lens, l, b - 1);
    }
  }

  lemma {:induction false} KraftIsBounded(lens: seq<nat>, b: nat)
    ensures Kraft(lens, b) <= |lens| * Pow2(b)
  {
    if lens != [] {
      var last := |lens| - 1;
      KraftIsBounded(lens[..last], b);
      if 0 < lens[last] <= b {
        Pow2Grows(b - lens[last], b);
      }
      assert Kraft(lens, b) <= Kraft(lens[..last], b) + Pow2(b);
      OneMoreTimes(last, Pow2(b));
    }
  }

  lemma OneMoreTimes(n: nat, p: nat)
    ensures n * p + p == (n + 1) * p
  {
  }

  lemma {:induction false} Pow2Grows(a: nat, b: nat)
    requires a <= b
    ensures Pow2(a) <= Pow2(b)
    decreases b
  {
    if a < b {
      Pow2Grows(a, b - 1);
    }
  }

  lemma Powers()
    ensures Pow2(15) == 0x8000 && Pow2(30) == 0x4000_0000
  {
    assert Pow2(5) == 32;
    assert Pow2(10) == 32 * Pow2(5);
    assert Pow2(15) == 32 * Pow2(10);
    assert Pow2(20) == 32 * Pow2(15);
    assert Pow2(25) == 32 * Pow2(20);
    assert Pow2(30) == 32 * Pow2(25);
  }

  lemma NarrowAt(lens: seq<nat>, b: nat)
    requires Narrow(lens) && b <= MaxLen(lens)
    ensures First(lens, b) + Held(lens, b) <= INTEGER_MAX
  {
    assert Used(lens, b) <= INTEGER_MAX;
  }

  /** Lengths of at most 15 bits, as all of DEFLATE's are, over-subscribed or
      not. */
  lemma ShortIsNarrow(lens: seq<nat>)
    requires MaxLen(lens) <= 15 && |lens| < 0x1_0000
    ensures Narrow(lens)
  {
    forall b | 0 <= b <= MaxLen(lens) ensures Used(lens, b) <= INTEGER_MAX {
      UsedIsKraft(lens, b);
      KraftIsBounded(lens, b);
      Pow2Grows(b, 15);
      Powers();
      assert |lens| * Pow2(b) <= 0xffff * 0x8000;
    }
  }

  /** Lengths of up to 30 bits whose codes fit. */
  lemma FittingIsNarrow(lens: seq<nat>)
    requires MaxLen(lens) <= 30 && !OverSubscribed(lens)
    ensures Narrow(lens)
  {
    var m := MaxLen(lens);
    UsedIsKraft(lens, m);
    forall b | 0 <= b <= m ensures Used(lens, b) <= INTEGER_MAX {
      FitsBelow(lens, b, m);
      Pow2Grows(b, 30);
      Powers();
    }
  }

  /** `c` without its last `k` bits. */
  function Shift(c: nat, k: nat): (r: nat)
    decreases k
  {
    if k == 0 then c else Shift(c / 2, k - 1)
  }

  /** A code of length `b`, cut to `a` bits, is past all codes of that length. */
  lemma {:induction false} UsedGrows(lens: seq<nat>, a: nat, b: nat, c: nat)
    requires a < b && First(lens, b) <= c
    ensures Used(lens, a) <= Shift(c, b - a)
    decreases b
  {
    if a + 1 < b {
      UsedGrows(lens, a, b - 1, c / 2);
    }
  }

  lemma {:induction false} CountGrows(lens: seq<nat>, s: nat, t: nat, l: nat)
    requires s <= t <= |lens|
    ensures Count(lens[..s], l) <= Count(lens[..t], l)
    ensures s < t && lens[s] == l ==> Count(lens[..s], l) < Count(lens[..t], l)
    decreases t
  {
    if s < t {
      assert lens[..t][..t - 1] == lens[..t - 1];
      CountGrows(lens, s, t - 1, l);
    }
  }

  lemma CodeIsUsed(lens: seq<nat>, s: nat)
    requires s < |lens| && lens[s] > 0
    ensures First(lens, lens[s]) <= Code(lens, s) < Used(lens, lens[s])
  {
    CountGrows(lens, s, |lens|, lens[s]);
    assert lens[..|lens|] == lens;
  }

  /** Codes fit their lengths exactly when the lengths are not
      over-subscribed. */
  lemma CodesFit(lens: seq<nat>)
    ensures (forall s :: 0 <= s < |lens| && lens[s] > 0 ==> Code(lens, s) < Pow2(lens[s])) <==> !OverSubscribed(lens)
  {
    var m := MaxLen(lens);
    UsedIsKraft(lens, m);
    if !OverSubscribed(lens) {
      forall s | 0 <= s < |lens| && lens[s] > 0 ensures Code(lens, s) < Pow2(lens[s]) {
        FitsBelow(lens, lens[s], m);
        CodeIsUsed(lens, s);
      }
    } else {
      var s := LastOf(lens, m);
      assert Code(lens, s) == Used(lens, m) - 1;
    }
  }

  lemma {:induction false} FitsBelow(lens: seq<nat>, l: nat, m: nat)
    requires l <= m && Used(lens, m) <= Pow2(m)
    ensures Used(lens, l) <= Pow2(l)
    decreases m - l
  {
    if l < m {
      FitsBelow(lens, l + 1, m);
    }
  }

  /** The last symbol of the greatest length has the last code. */
  lemma {:induction false} LastOf(lens: seq<nat>, l: nat) returns (s: nat)
    requires OverSubscribed(lens) && l == MaxLen(lens)
    ensures s < |lens| && lens[s] == l > 0 && Code(lens, s) == Used(lens, l) - 1
  {
    if l == 0 {
      NoLengths(lens);
      assert false;
    }
    MaxIsThere(lens);
    s := LastWith(lens, l);
  }

  lemma {:induction false} NoLengths(lens: seq<nat>)
    requires MaxLen(lens) == 0
    ensures Kraft(lens, 0) == 0
  {
    if lens != [] {
      NoLengths(lens[..|lens| - 1]);
    }
  }

  lemma {:induction false} MaxIsThere(lens: seq<nat>)
    ensures MaxLen(lens) > 0 ==> Count(lens, MaxLen(lens)) > 0
  {
    if lens != [] {
      MaxIsThere(lens[..|lens| - 1]);
    }
  }

  lemma {:induction false} LastWith(lens: seq<nat>, l: nat) returns (s: nat)
    requires Count(lens, l) > 0
    ensures s < |lens| && lens[s] == l && Count(lens[..s], l) == Count(lens, l) - 1
  {
    var last := |lens| - 1;
    if lens[last] == l {
      s := last;
    } else {
      s := LastWith(lens[..last], l);
      assert lens[..last][..s] == lens[..s];
    }
  }

  /** No code begins another, whether or not they fit. */
  lemma PrefixFree(lens: seq<nat>, s: nat, t: nat)
    requires s < |lens| && t < |lens| && s != t && 0 < lens[s] <= lens[t]
    ensures Shift(Code(lens, t), lens[t] - lens[s]) != Code(lens, s)
  {
    hide First, Used, Count;
    var a, b := lens[s], lens[t];
    CodeIsUsed(lens, s);
    CodeIsUsed(lens, t);
    if a < b {
      UsedGrows(lens, a, b, Code(lens, t));
    } else if s < t {
      CountGrows(lens, s, t, a);
    } else {
      CountGrows(lens, t, s, a);
    }
  }

  // ---- Bits --------------------------------------------------------------------------------

  /** bw_code: `n` bits of `code`, most significant first. */
  function CodeBits(code: nat, n: nat): (w: seq<bit>)
    ensures |w| == n
  {
    if n == 0 then [] else CodeBits(code / 2, n - 1) + [code % 2]
  }

  /** bw_bits: `n` bits of `value`, least significant first. */
  function ValueBits(value: nat, n: nat): (w: seq<bit>)
    ensures |w| == n
  {
    if n == 0 then [] else [value % 2] + ValueBits(value / 2, n - 1)
  }

  /** The bit either loop appends at each place. */
  lemma {:induction false} BitsAre(v: nat, n: nat, k: nat)
    requires k < n
    ensures ValueBits(v, n)[k] == Shift(v, k) % 2
    ensures CodeBits(v, n)[n - 1 - k] == Shift(v, k) % 2
    decreases n
  {
    if k > 0 {
      BitsAre(v / 2, n - 1, k - 1);
    }
  }

  /** Bits read most significant first, and least significant first. */
  function ReadCode(w: seq<bit>): (c: nat)
    ensures c < Pow2(|w|)
  {
    if w == [] then 0 else 2 * ReadCode(w[..|w| - 1]) + w[|w| - 1]
  }

  function ReadValue(w: seq<bit>): (v: nat)
    ensures v < Pow2(|w|)
  {
    if w == [] then 0 else w[0] + 2 * ReadValue(w[1..])
  }

  lemma {:induction false} CodeReadsBack(code: nat, n: nat)
    requires code < Pow2(n)
    ensures ReadCode(CodeBits(code, n)) == code
    decreases n
  {
    if n > 0 {
      CodeReadsBack(code / 2, n - 1);
      assert CodeBits(code, n)[..n - 1] == CodeBits(code / 2, n - 1);
    }
  }

  lemma {:induction false} ValueReadsBack(value: nat, n: nat)
    requires value < Pow2(n)
    ensures ReadValue(ValueBits(value, n)) == value
    decreases n
  {
    if n > 0 {
      ValueReadsBack(value / 2, n - 1);
    }
  }

  /** The first bits of a code are the code shifted down. */
  lemma {:induction false} CodePrefix(code: nat, n: nat, k: nat)
    requires k <= n
    ensures CodeBits(code, n)[..k] == CodeBits(Shift(code, n - k), k)
    decreases n
  {
    if k < n {
      CodePrefix(code / 2, n - 1, k);
      assert CodeBits(code, n)[..k] == CodeBits(code / 2, n - 1)[..k];
    }
  }

  lemma {:induction false} ShiftFits(c: nat, n: nat, k: nat)
    requires k <= n && c < Pow2(n)
    ensures Shift(c, k) < Pow2(n - k)
    decreases k
  {
    if k > 0 {
      ShiftFits(c / 2, n - 1, k - 1);
    }
  }

  // ---- Symbol streams ------------------------------------------------------------------------

  function SymbolBits(lens: seq<nat>, s: nat): (w: seq<bit>)
    requires s < |lens|
  {
    CodeBits(Code(lens, s), lens[s])
  }

  predicate Writable(lens: seq<nat>, syms: seq<nat>) {
    forall i :: 0 <= i < |syms| ==> syms[i] < |lens| && lens[syms[i]] > 0
  }

  function Written(lens: seq<nat>, syms: seq<nat>): (w: seq<bit>)
    requires Writable(lens, syms)
  {
    if syms == [] then [] else SymbolBits(lens, syms[0]) + Written(lens, syms[1..])
  }

  /** No symbol's bits begin another's. */
  lemma BitsPrefixFree(lens: seq<nat>, s: nat, t: nat)
    requires !OverSubscribed(lens)
    requires s < |lens| && t < |lens| && lens[s] > 0 && lens[t] > 0
    requires SymbolBits(lens, s) <= SymbolBits(lens, t)
    ensures s == t
  {
    if s != t {
      var a, b, c, d := lens[s], lens[t], Code(lens, s), Code(lens, t);
      PrefixFree(lens, s, t);
      CodesFit(lens);
      PrefixIsShift(c, a, d, b);
    }
  }

  /** A code's bits begin another's only if it is what the other begins with. */
  lemma PrefixIsShift(c: nat, a: nat, d: nat, b: nat)
    requires a <= b && c < Pow2(a) && d < Pow2(b) && CodeBits(c, a) <= CodeBits(d, b)
    ensures Shift(d, b - a) == c
  {
    hide CodeBits, Shift, ReadCode;
    CodePrefix(d, b, a);
    assert CodeBits(c, a) == CodeBits(d, b)[..a];
    ShiftFits(d, b, b - a);
    CodeReadsBack(c, a);
    CodeReadsBack(Shift(d, b - a), a);
  }

  /** Main theorem. A stream of symbols reads back in one way only: of two
      streams of as many symbols that begin the same bits, both are the same,
      and so is what comes after. */
  lemma {:induction false} ReadsBackUniquely(lens: seq<nat>, a: seq<nat>, b: seq<nat>, x: seq<bit>, y: seq<bit>)
    requires !OverSubscribed(lens) && Writable(lens, a) && Writable(lens, b) && |a| == |b|
    requires Written(lens, a) + x == Written(lens, b) + y
    ensures a == b && x == y
    decreases |a|
  {
    hide OverSubscribed, SymbolBits;
    if a == [] {
      assert [] + x == x && [] + y == y;
    } else {
      var p, q := SymbolBits(lens, a[0]), SymbolBits(lens, b[0]);
      var u, v := Written(lens, a[1..]) + x, Written(lens, b[1..]) + y;
      assert p + u == q + v by {
        assert Written(lens, a) + x == p + u && Written(lens, b) + y == q + v;
      }
      if |p| <= |q| {
        assert (p + u)[..|p|] == p && (q + v)[..|p|] == q[..|p|];
        BitsPrefixFree(lens, a[0], b[0]);
      } else {
        assert (q + v)[..|q|] == q && (p + u)[..|q|] == p[..|q|];
        BitsPrefixFree(lens, b[0], a[0]);
      }
      assert (p + u)[|p|..] == u && (q + v)[|q|..] == v;
      ReadsBackUniquely(lens, a[1..], b[1..], x, y);
      assert a == [a[0]] + a[1..] && b == [b[0]] + b[1..];
    }
  }

  // ---- Bytes ---------------------------------------------------------------------------------

  /** bw_align. */
  function Align(w: seq<bit>): (a: seq<bit>)
    ensures |a| % 8 == 0 && w <= a && |a| < |w| + 8
  {
    if |w| % 8 == 0 then w else w + seq(8 - |w| % 8, _ => 0)
  }

  /** bw_raw: eight bits to a byte, the first the least significant. */
  function Pack(w: seq<bit>): (b: seq<byte>)
    requires |w| % 8 == 0
  {
    if w == [] then []
    else
      assert Pow2(8) == 256 by { assert Pow2(2) == 4 && Pow2(4) == 16 && Pow2(6) == 64; }
      [ReadValue(w[..8])] + Pack(w[8..])
  }

  function Raw(w: seq<bit>): (b: seq<byte>) {
    Pack(Align(w))
  }

  function Unpack(b: seq<byte>): (w: seq<bit>) {
    if b == [] then [] else ValueBits(b[0], 8) + Unpack(b[1..])
  }

  lemma {:induction false} ValueBitsOfRead(w: seq<bit>)
    ensures ValueBits(ReadValue(w), |w|) == w
  {
    if w != [] {
      ValueBitsOfRead(w[1..]);
    }
  }

  lemma {:induction false} PackReadsBack(w: seq<bit>)
    requires |w| % 8 == 0
    ensures Unpack(Pack(w)) == w
  {
    if w != [] {
      ValueBitsOfRead(w[..8]);
      PackReadsBack(w[8..]);
      assert Pack(w)[1..] == Pack(w[8..]);
      assert w == w[..8] + w[8..];
    }
  }

  /** Whatever was written comes back from the bytes, with fewer than eight
      bits of padding behind it. */
  lemma RawReadsBack(w: seq<bit>)
    ensures Unpack(Raw(w)) == Align(w)
  {
    PackReadsBack(Align(w));
  }

  /** So a symbol stream behind any header, written most significant bit first
      and packed least significant bit first, reads back in one way. */
  lemma BytesReadBack(lens: seq<nat>, head: seq<bit>, a: seq<nat>, b: seq<nat>, y: seq<bit>)
    requires !OverSubscribed(lens) && Writable(lens, a) && Writable(lens, b) && |a| == |b|
    requires Unpack(Raw(head + Written(lens, a))) == head + (Written(lens, b) + y)
    ensures a == b && |y| < 8
  {
    hide OverSubscribed, Align, Raw, Unpack, Written;
    var w := head + Written(lens, a);
    RawReadsBack(w);
    AlignPads(w);
    var x := Align(w)[|w|..];
    assert w + x == Align(w);
    Peeled(head, Written(lens, a), x, Written(lens, b) + y);
    ReadsBackUniquely(lens, a, b, x, y);
  }

  lemma Peeled(head: seq<bit>, u: seq<bit>, x: seq<bit>, v: seq<bit>)
    requires head + u + x == head + v
    ensures u + x == v
  {
    assert head + u + x == head + (u + x);
    assert (head + (u + x))[|head|..] == u + x && (head + v)[|head|..] == v;
  }

  lemma AlignPads(w: seq<bit>)
    ensures w <= Align(w) && |Align(w)| < |w| + 8
  {
  }

  // ---- The fixed code ------------------------------------------------------------------------

  function Repeat(n: nat, l: nat): (s: seq<nat>)
    ensures |s| == n && forall i :: 0 <= i < n ==> s[i] == l
  {
    seq(n, _ => l)
  }

  /** The lengths of section 3.2.6 of RFC 1951. */
  function FixedLens(): (lens: seq<nat>)
    ensures |lens| == 288
  {
    Repeat(144, 8) + Repeat(112, 9) + Repeat(24, 7) + Repeat(8, 8)
  }

  datatype FixedCode = FixedCode(code: nat, len: nat)

  /** fixed_sym. */
  function FixedSym(sym: nat): (c: FixedCode)
    requires sym < 288
  {
    if sym <= 143 then FixedCode(0x30 + sym, 8)
    else if sym <= 255 then FixedCode(0x190 + (sym - 144), 9)
    else if sym <= 279 then FixedCode(sym - 256, 7)
    else FixedCode(0xC0 + (sym - 280), 8)
  }

  lemma {:induction false} CountUpTo(lens: seq<nat>, i: nat, j: nat, v: nat, l: nat)
    requires i <= j <= |lens| && forall k :: i <= k < j ==> lens[k] == v
    ensures Count(lens[..j], l) == Count(lens[..i], l) + if v == l then j - i else 0
    decreases j
  {
    if i < j {
      CountUpTo(lens, i, j - 1, v, l);
      assert lens[..j][..j - 1] == lens[..j - 1];
    }
  }

  /** How many of the first `j` lengths are `l`. */
  lemma FixedCount(j: nat, l: nat)
    requires j <= 288
    ensures var lens := FixedLens();
            Count(lens[..j], l) ==
              (if l == 8 then Min(j, 144) + Max(0, j - 280) else 0)
              + (if l == 9 then Max(0, Min(j, 256) - 144) else 0)
              + (if l == 7 then Max(0, Min(j, 280) - 256) else 0)
  {
    var lens := FixedLens();
    CountUpTo(lens, 0, Min(j, 144), 8, l);
    if j > 144 {
      CountUpTo(lens, 144, Min(j, 256), 9, l);
    }
    if j > 256 {
      CountUpTo(lens, 256, Min(j, 280), 7, l);
    }
    if j > 280 {
      CountUpTo(lens, 280, j, 8, l);
    }
  }

  lemma {:induction false} NoShortCodes(b: nat)
    requires b <= 7
    ensures First(FixedLens(), b) == 0
    decreases b
  {
    if b > 0 {
      NoShortCodes(b - 1);
      FixedCount(288, b - 1);
      assert FixedLens()[..288] == FixedLens();
    }
  }

  /** The table fixed_sym writes by hand is the canonical code of those
      lengths. */
  lemma FixedIsCanonical(sym: nat)
    requires sym < 288
    ensures FixedSym(sym) == FixedCode(Code(FixedLens(), sym), FixedLens()[sym])
  {
    var lens := FixedLens();
    assert lens[..288] == lens;
    NoShortCodes(7);
    FixedCount(288, 7);
    FixedCount(288, 8);
    FixedFirsts();
    FixedCount(sym, lens[sym]);
  }

  lemma FixedFirsts()
    ensures First(FixedLens(), 8) == 0x30 && First(FixedLens(), 9) == 0x190 && First(FixedLens(), 7) == 0
  {
    var lens := FixedLens();
    assert lens[..288] == lens;
    hide FixedLens, Count;
    NoShortCodes(7);
    FixedCount(288, 7);
    FixedCount(288, 8);
  }
}
