/** The LZ4 block format, and what is assumed of liblz4's block functions. */
module Lz4Format {
  import opened Zu
  import opened Lz77

  const MAX_INPUT: int := 0x7E00_0000

  /** zu_int_lz4_level. */
  function Lz4Level(level: int): (lv: int) {
    if level == LEVEL_DEFAULT then 1 else level
  }

  // ---- The format ----------------------------------------------------------------------

  /** A length read from the input, and how many bytes it took. */
  datatype Length = Length(value: nat, used: nat)

  /** Bytes of 255 go on, any other is the last. */
  function ExtraLength(b: seq<byte>): (r: Option<Length>)
    ensures r.Some? ==> 0 < r.value.used <= |b| && r.value.value <= 255 * r.value.used
    decreases |b|
  {
    if b == [] then None
    else if b[0] < 255 then Some(Length(b[0], 1))
    else
      match ExtraLength(b[1..])
      case None => None
      case Some(l) => Some(Length(255 + l.value, 1 + l.used))
  }

  /** A token's nibble, and the bytes that follow it when it is full. */
  function FieldLength(nibble: nat, b: seq<byte>): (r: Option<Length>)
    requires nibble < 16
    ensures r.Some? ==> r.value.used <= |b| && r.value.value <= 15 + 255 * r.value.used
  {
    if nibble < 15 then Some(Length(nibble, 0))
    else
      match ExtraLength(b)
      case None => None
      case Some(l) => Some(Length(15 + l.value, l.used))
  }

  /** The next sequence of a block: literals to its end; or literals and a
      match of `len` bytes from `dist` back, `left` bytes having been unread
      before its offset and `rest` after it. */
  datatype Sequence = Last(lits: seq<byte>) | More(lits: seq<byte>, left: nat, dist: nat, len: nat, rest: seq<byte>) | Bad

  function Parse(b: seq<byte>): (q: Sequence)
    ensures q.Last? ==> |q.lits| < |b|
    ensures q.More? ==>
              && |q.lits| + q.left < |b| && |q.rest| + 2 <= q.left && 4 <= q.len
              && q.len <= 19 + 255 * (q.left - 2 - |q.rest|)
              && (q.len < 19 ==> |q.rest| + 2 == q.left)
  {
    if b == [] then Bad
    else
      match FieldLength(b[0] / 16, b[1..])
      case None => Bad
      case Some(lit) =>
        var i := 1 + lit.used;
        var j := i + lit.value;
        if j > |b| then Bad
        else if j == |b| then Last(b[i..j])
        else if j + 2 > |b| then Bad
        else
          match FieldLength(b[0] % 16, b[j + 2..])
          case None => Bad
          case Some(m) => More(b[i..j], |b| - j, b[j] + 256 * (b[j + 1] as int), m.value + 4, b[j + 2 + m.used..])
  }

  /** A match: a distance of 0, which the format has no meaning for, is read
      by liblz4 as zeros. */
  function Repeated(h: seq<byte>, dist: nat, n: nat): (r: seq<byte>)
    requires dist <= |h|
    ensures |r| == |h| + n
  {
    if dist == 0 then h + seq(n, i => 0) else Copied(h, dist, n)
  }

  lemma NothingRepeats(h: seq<byte>, n: nat)
    ensures forall i :: |h| <= i < |h| + n ==> Repeated(h, 0, n)[i] == 0
  {
  }

  // ---- The format, printed -----------------------------------------------------------------

  /** A length in the token, and the bytes after it for one of 15 and more. */
  function PrintExtra(n: nat): (b: seq<byte>)
    ensures 255 * (|b| - 1) <= n
  {
    if n < 255 then [n] else [255] + PrintExtra(n - 255)
  }

  function PrintField(n: nat): (b: seq<byte>) {
    if n < 15 then [] else PrintExtra(n - 15)
  }

  function Token(lits: nat, len: nat): (b: byte) {
    16 * Min(lits, 15) + Min(len, 15)
  }

  /** Literals and a match of `len` bytes from `dist` back; and literals alone,
      which end the block. */
  function PrintSequence(lits: seq<byte>, dist: uint16, len: nat): (b: seq<byte>)
    requires len >= 4
  {
    [Token(|lits|, len - 4)] + PrintField(|lits|) + lits + [dist % 256, dist / 256] + PrintField(len - 4)
  }

  function PrintLast(lits: seq<byte>, low: nat): (b: seq<byte>)
    requires low < 16
  {
    [Token(|lits|, low)] + PrintField(|lits|) + lits
  }

  lemma {:induction false} ExtraReads(n: nat, t: seq<byte>)
    ensures ExtraLength(PrintExtra(n) + t) == Some(Length(n, |PrintExtra(n)|))
    decreases n
  {
    if n >= 255 {
      assert (PrintExtra(n) + t)[1..] == PrintExtra(n - 255) + t;
      ExtraReads(n - 255, t);
    }
  }

  lemma FieldReads(n: nat, t: seq<byte>)
    ensures FieldLength(Min(n, 15), PrintField(n) + t) == Some(Length(n, |PrintField(n)|))
  {
    if n >= 15 {
      ExtraReads(n - 15, t);
    }
  }

  lemma {:induction false} ExtraIsPrint(b: seq<byte>)
    requires ExtraLength(b).Some?
    ensures var l := ExtraLength(b).value; l.used <= |b| && b[..l.used] == PrintExtra(l.value)
    decreases |b|
  {
    if b[0] == 255 {
      ExtraIsPrint(b[1..]);
      var l := ExtraLength(b).value;
      assert b[..l.used] == [b[0]] + b[1..][..l.used - 1];
    }
  }

  lemma FieldIsPrint(nibble: nat, b: seq<byte>)
    requires nibble < 16 && FieldLength(nibble, b).Some?
    ensures var l := FieldLength(nibble, b).value; b[..l.used] == PrintField(l.value) && nibble == Min(l.value, 15)
  {
    if nibble == 15 {
      ExtraIsPrint(b);
    }
  }

  lemma TokenIs(lits: nat, len: nat)
    ensures Token(lits, len) / 16 == Min(lits, 15) && Token(lits, len) % 16 == Min(len, 15)
  {
  }

  lemma SequenceShape(lits: seq<byte>, dist: uint16, len: nat, rest: seq<byte>)
    requires len >= 4
    ensures var b, f, m := PrintSequence(lits, dist, len) + rest, PrintField(|lits|), PrintField(len - 4);
            var i := 1 + |f|;
            var j := i + |lits|;
            && |b| >= j + 2 && b[0] == Token(|lits|, len - 4) && b[i..j] == lits && b[j] == dist % 256 && b[j + 1] == dist / 256
            && b[1..] == f + b[i..] && b[j + 2..] == m + rest && (m + rest)[|m|..] == rest && b[j + 2 + |m|..] == rest
  {
    hide PrintField, Token;
  }

  /** A printed sequence parses as itself, whatever follows, */
  lemma SequenceReads(lits: seq<byte>, dist: uint16, len: nat, rest: seq<byte>)
    requires len >= 4
    ensures var q := Parse(PrintSequence(lits, dist, len) + rest);
            q.More? && q.lits == lits && q.dist == dist && q.len == len && q.rest == rest
  {
    SequenceShape(lits, dist, len, rest);
    hide PrintField, FieldLength, Token, PrintSequence, Parse;
    var b, f, m := PrintSequence(lits, dist, len) + rest, PrintField(|lits|), PrintField(len - 4);
    TokenIs(|lits|, len - 4);
    FieldReads(|lits|, b[1 + |f|..]);
    FieldReads(len - 4, rest);
    ParsesSo(b, Length(|lits|, |f|), Length(len - 4, |m|));
  }

  lemma ParsesSo(b: seq<byte>, lit: Length, m: Length)
    requires b != [] && FieldLength(b[0] / 16, b[1..]) == Some(lit)
    requires var j := 1 + lit.used + lit.value; j + 2 <= |b| && FieldLength(b[0] % 16, b[j + 2..]) == Some(m)
    ensures var j := 1 + lit.used + lit.value;
            Parse(b) == More(b[1 + lit.used..j], |b| - j, b[j] + 256 * (b[j + 1] as int), m.value + 4, b[j + 2 + m.used..])
  {
    hide FieldLength;
  }

  lemma LastReads(lits: seq<byte>, low: nat)
    requires low < 16
    ensures Parse(PrintLast(lits, low)) == Last(lits)
  {
    hide PrintField, FieldLength, Token;
    var b, f := PrintLast(lits, low), PrintField(|lits|);
    TokenIs(|lits|, low);
    assert b[1..] == f + lits && b[1 + |f|..] == lits;
    FieldReads(|lits|, lits);
  }

  /** and what parses is what is printed so. */
  lemma ParsedIsPrint(b: seq<byte>)
    ensures match Parse(b)
            case More(lits, _, dist, len, rest) => dist < 0x1_0000 && b == PrintSequence(lits, dist, len) + rest
            case Last(lits) => exists low: nat :: low < 16 && b == PrintLast(lits, low)
            case Bad => true
  {
    hide PrintField, FieldLength, Token;
    if b != [] && FieldLength(b[0] / 16, b[1..]).Some? {
      FieldIsPrint(b[0] / 16, b[1..]);
      var lit := FieldLength(b[0] / 16, b[1..]).value;
      var i := 1 + lit.used;
      var j := i + lit.value;
      if j == |b| {
        TokenIs(lit.value, b[0] % 16);
        TokenOf(b[0], lit.value, b[0] % 16);
        assert b == [b[0]] + b[1..][..lit.used] + b[i..j] && |b[i..j]| == lit.value;
        assert b == PrintLast(b[i..j], b[0] % 16);
      } else if j + 2 <= |b| && FieldLength(b[0] % 16, b[j + 2..]).Some? {
        FieldIsPrint(b[0] % 16, b[j + 2..]);
        var m := FieldLength(b[0] % 16, b[j + 2..]).value;
        TokenOf(b[0], lit.value, m.value);
        assert b == [b[0]] + b[1..][..lit.used] + b[i..j] + [b[j], b[j + 1]] + b[j + 2..][..m.used] + b[j + 2 + m.used..];
      }
    }
  }

  lemma TokenOf(b: byte, lits: nat, len: nat)
    requires b / 16 == Min(lits, 15) && b % 16 == Min(len, 15)
    ensures Token(lits, len) == b
  {
  }

  /** Sequences to the end of the block, `out` having been decoded before
      them; the last one stops after its literals. */
  function Expand(b: seq<byte>, out: seq<byte>): (r: Option<seq<byte>>)
    decreases |b|
  {
    match Parse(b)
    case Bad => None
    case Last(lits) => Some(out + lits)
    case More(lits, _, dist, len, rest) =>
      var h := out + lits;
      if dist > |h| then None else Expand(rest, Repeated(h, dist, len))
  }

  /** One input byte yields at most 255 bytes of output, and none is undone. */
  lemma {:induction false} ExpandIsBounded(b: seq<byte>, out: seq<byte>)
    requires Expand(b, out).Some?
    ensures |out| <= |Expand(b, out).value| <= |out| + 255 * |b|
    decreases |b|
  {
    hide Parse, Repeated;
    var q := Parse(b);
    if q.More? {
      ExpandIsBounded(q.rest, Repeated(out + q.lits, q.dist, q.len));
    }
  }

  // ---- How a block has to end --------------------------------------------------------

  const MFLIMIT: nat := 12
  const LAST_LITERALS: nat := 5

  /** Every match of a block of `n` bytes starts at least twelve bytes before
      its end, and stops at least five before. */
  predicate Spares(b: seq<byte>, out: seq<byte>, n: nat)
    decreases |b|
  {
    var q := Parse(b);
    q.More? ==>
      var h := out + q.lits;
      && q.dist <= |h| && |h| + MFLIMIT <= n && |h| + q.len + LAST_LITERALS <= n
      && Spares(q.rest, Repeated(h, q.dist, q.len), n)
  }

  /** The format's rules on how a block ends, which every LZ4 compressor keeps.
      A decoder may write past a match as far as they leave room, and so may
      refuse a block that breaks them, when its room is tight. */
  predicate WellEnded(z: seq<byte>) {
    var d := Expand(z, []);
    d.Some? && Spares(z, [], |d.value|) && (d.value == [] ==> z == [0])
  }

  // ---- The library ---------------------------------------------------------------------

  /** liblz4's block functions. */
  datatype Lib = Lib(
    safe: (seq<byte>, nat) -> Option<seq<byte>>,
    partial: (seq<byte>, nat) -> Option<seq<byte>>,
    compress: (int, seq<byte>) -> seq<byte>)

  /** LZ4_compressBound. */
  function CompressBound(n: nat): (b: nat)
    ensures n <= MAX_INPUT ==> n < b <= INT_MAX
  {
    if n > MAX_INPUT then 0 else n + n / 255 + 16
  }

  /** Whatever LZ4_decompress_safe answers is what the block expands to, within
      the capacity; of a block that ends as it should it answers whenever the
      capacity will do, and LZ4_decompress_safe_partial fills its target when
      there is more. What LZ4_compress_* writes fits the bound, ends as it
      should and decodes to what it was given. */
  ghost predicate LibKeeps(l: Lib) {
    && (forall z: seq<byte>, cap: nat :: |z| <= MAX_INPUT && cap <= INT_MAX ==> DecodesSafely(l, z, cap))
    && (forall level: int, x: seq<byte> :: |x| <= MAX_INPUT ==> CompressesWell(l, level, x))
  }

  ghost predicate DecodesSafely(l: Lib, z: seq<byte>, cap: nat) {
    var d, r, p := Expand(z, []), l.safe(z, cap), l.partial(z, cap);
    && (r.Some? ==> r == d && |r.value| <= cap)
    && (WellEnded(z) ==> if |d.value| <= cap then r == d else p.Some? && |p.value| == cap)
  }

  ghost predicate CompressesWell(l: Lib, level: int, x: seq<byte>) {
    var z := l.compress(level, x);
    0 < |z| <= CompressBound(|x|) && WellEnded(z) && Expand(z, []) == Some(x)
  }

  // ---- A library that meets it -----------------------------------------------------------

  /** A run of literals, as one block. */
  function Literals(x: seq<byte>): (z: seq<byte>) {
    PrintLast(x, 0)
  }

  lemma LiteralsExpand(x: seq<byte>)
    ensures Expand(Literals(x), []) == Some(x) && WellEnded(Literals(x))
  {
    LastReads(x, 0);
    hide *;
    NoLiterals(x);
    LastExpands(Literals(x), x);
  }

  lemma NoLiterals(x: seq<byte>)
    ensures Literals(x) == PrintLast(x, 0) && (x == [] ==> Literals(x) == [0])
  {
  }

  lemma LastExpands(z: seq<byte>, x: seq<byte>)
    requires Parse(z) == Last(x) && (x == [] ==> z == [0])
    ensures Expand(z, []) == Some(x) && WellEnded(z)
  {
    hide Parse;
    assert [] + x == x;
  }

  /** liblz4's safe decode loop: sequences into `cap` bytes of room, of which
      |out| are written. Close to either end only the last run of literals is
      taken, a match has to stop five bytes before the end of the room, and a
      long match length four before the end of the input. */
  function Strict(b: seq<byte>, out: seq<byte>, cap: nat): (r: Option<seq<byte>>)
    decreases |b|
  {
    match Parse(b)
    case Bad => None
    case Last(lits) => if |out + lits| <= cap then Some(out + lits) else None
    case More(lits, left, dist, len, rest) =>
      var h := out + lits;
      if |h| + MFLIMIT > cap || left < 3 + LAST_LITERALS then None
      else if len >= 19 && |rest| < LAST_LITERALS - 1 then None
      else if dist > |h| || |h| + len + LAST_LITERALS > cap then None
      else Strict(rest, Repeated(h, dist, len), cap)
  }

  /** LZ4_decompress_safe. */
  function Safe(z: seq<byte>, cap: nat): (r: Option<seq<byte>>) {
    if cap == 0 then (if z == [0] then Some([]) else None) else Strict(z, [], cap)
  }

  lemma {:induction false} StrictExpands(b: seq<byte>, out: seq<byte>, cap: nat)
    requires Strict(b, out, cap).Some?
    ensures Strict(b, out, cap) == Expand(b, out) && |Expand(b, out).value| <= cap
    decreases |b|
  {
    hide Parse, Repeated;
    var q := Parse(b);
    if q.More? {
      StrictExpands(q.rest, Repeated(out + q.lits, q.dist, q.len), cap);
    }
  }

  /** Five bytes of literals at the end are six bytes of block. */
  lemma {:induction false} SparesLeavesInput(b: seq<byte>, out: seq<byte>, n: nat)
    requires Expand(b, out).Some? && |Expand(b, out).value| == n && Spares(b, out, n) && |out| + LAST_LITERALS <= n
    ensures |b| >= 6
    decreases |b|
  {
    hide Repeated;
    var q := Parse(b);
    if q.More? {
      SparesLeavesInput(q.rest, Repeated(out + q.lits, q.dist, q.len), n);
    }
  }

  /** In room of exactly its size or more, a block that spares its end is
      decoded; */
  lemma {:induction false} SparesDecodes(b: seq<byte>, out: seq<byte>, n: nat, cap: nat)
    requires Expand(b, out).Some? && |Expand(b, out).value| == n <= cap && Spares(b, out, n)
    ensures Strict(b, out, cap) == Expand(b, out)
    decreases |b|
  {
    hide Parse, Repeated;
    var q := Parse(b);
    if q.More? {
      var h := Repeated(out + q.lits, q.dist, q.len);
      SparesLeavesInput(q.rest, h, n);
      SparesDecodes(q.rest, h, n, cap);
    }
  }

  /** in room of exactly its size, no other is. */
  lemma {:induction false} DecodedSpares(b: seq<byte>, out: seq<byte>, n: nat)
    requires Expand(b, out).Some? && |Expand(b, out).value| == n && Strict(b, out, n).Some?
    ensures Spares(b, out, n)
    decreases |b|
  {
    hide Parse, Repeated;
    var q := Parse(b);
    if q.More? {
      DecodedSpares(q.rest, Repeated(out + q.lits, q.dist, q.len), n);
    }
  }

  /** The exact condition: given room of just its size, liblz4's loop decodes a
      block if and only if the block ends as it should. */
  lemma ExactRoom(z: seq<byte>)
    requires Expand(z, []).Some?
    ensures Safe(z, |Expand(z, []).value|).Some? <==> WellEnded(z)
  {
    var n := |Expand(z, []).value|;
    if n > 0 && Spares(z, [], n) {
      SparesDecodes(z, [], n, n);
    } else if n > 0 && Strict(z, [], n).Some? {
      DecodedSpares(z, [], n);
    } else if z == [0] {
      assert Parse(z) == Last([]);
    }
  }

  /** As much of a block as there is room for. */
  function Partial(z: seq<byte>, cap: nat): (r: Option<seq<byte>>) {
    match Expand(z, [])
    case None => None
    case Some(d) => Some(d[..Min(cap, |d|)])
  }

  /** That loop, and literals for compression. */
  const StrictLib: Lib := Lib(
    (z: seq<byte>, cap: nat) => Safe(z, cap),
    (z: seq<byte>, cap: nat) => Partial(z, cap),
    (level: int, x: seq<byte>) => Literals(x))

  /** The contract assumed of the library can be met. */
  lemma StrictLibKeeps()
    ensures LibKeeps(StrictLib)
  {
    forall z: seq<byte>, cap: nat ensures DecodesSafely(StrictLib, z, cap) {
      StrictDecodesSafely(z, cap);
    }
    forall level: int, x: seq<byte> | |x| <= MAX_INPUT ensures CompressesWell(StrictLib, level, x) {
      LiteralsExpand(x);
    }
  }

  lemma StrictDecodesSafely(z: seq<byte>, cap: nat)
    ensures DecodesSafely(StrictLib, z, cap)
  {
    hide Parse;
    if cap > 0 && Strict(z, [], cap).Some? {
      StrictExpands(z, [], cap);
    }
    EmptyExpands();
    if WellEnded(z) && cap > 0 && |Expand(z, []).value| <= cap {
      SparesDecodes(z, [], |Expand(z, []).value|, cap);
    }
  }

  lemma EmptyExpands()
    ensures Expand([0], []) == Some([])
  {
  }

  // ---- A block that ends too soon --------------------------------------------------------

  /** One literal repeated by a match of four, and five literals: ten bytes, the
      match starting at the second. */
  function Tight(a: byte, t: seq<byte>): (z: seq<byte>)
    requires |t| == 5
  {
    [0x10, a, 1, 0, 0x50] + t
  }

  lemma TightParses(a: byte, t: seq<byte>)
    requires |t| == 5
    ensures Parse(Tight(a, t)) == More([a], 8, 1, 4, [0x50] + t)
  {
    var z := Tight(a, t);
    assert z[1..2] == [a] && z[4..] == [0x50] + t;
  }

  lemma LastParses(t: seq<byte>)
    requires |t| == 5
    ensures Parse([0x50] + t) == Last(t)
  {
    assert ([0x50] + t)[1..6] == t;
  }

  lemma FourRepeats(a: byte)
    ensures Repeated([] + [a], 1, 4) == [a, a, a, a, a]
  {
    assert [] + [a] == [a] && [a] + [a] == [a, a] && [a, a] + [a] == [a, a, a];
    assert [a, a, a] + [a] == [a, a, a, a] && [a, a, a, a] + [a] == [a, a, a, a, a];
    assert Copied([a, a, a], 1, 2) == Copied([a, a, a, a], 1, 1) == Copied([a, a, a, a, a], 1, 0);
  }

  /** It is a block of ten bytes; it is decoded into plenty of room, and into
      room for ten bytes it is not. */
  lemma TightNeedsRoom(a: byte, t: seq<byte>, cap: nat)
    requires |t| == 5
    ensures Expand(Tight(a, t), []) == Some([a, a, a, a, a] + t) && !WellEnded(Tight(a, t))
    ensures Safe(Tight(a, t), cap) == if cap >= 13 then Some([a, a, a, a, a] + t) else None
  {
    hide Parse, Repeated;
    TightParses(a, t);
    LastParses(t);
    FourRepeats(a);
    var h: seq<byte> := [a, a, a, a, a];
    assert Expand([0x50] + t, h) == Some(h + t) && |h + t| == 10;
    assert Strict([0x50] + t, h, cap) == if cap >= 10 then Some(h + t) else None;
  }
}
