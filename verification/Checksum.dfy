/** CRC-32 and Adler-32 as folds over bytes, with miniz's calling convention:
    the value passed in and out of a call is the finished checksum so far. */
module Checksum {
  import opened Zu

  /** One bit of the CRC-32 register, polynomial of section 8 of RFC 1952. */
  function CrcBit(c: bv32): bv32 {
    if c & 1 == 1 then (c >> 1) ^ 0xEDB88320 else c >> 1
  }

  function CrcBits(c: bv32, n: nat): bv32
    decreases n
  {
    if n == 0 then c else CrcBits(CrcBit(c), n - 1)
  }

  function CrcByte(c: uint32, b: byte): (r: uint32) {
    CrcBits((c as bv32) ^ (b as bv32), 8) as int
  }

  function CrcFold(c: uint32, s: seq<byte>): (r: uint32)
    decreases |s|
  {
    if s == [] then c else CrcFold(CrcByte(c, s[0]), s[1..])
  }

  function Invert(c: uint32): (r: uint32) {
    0xFFFF_FFFF - c
  }

  /** mz_crc32(v, s, |s|): the register is inverted on the way in and out. */
  function Crc32(v: uint32, s: seq<byte>): (r: uint32) {
    Invert(CrcFold(Invert(v), s))
  }

  /** One byte of Adler-32 (section 8.2 of RFC 1950), halves packed as b:a. */
  function AdlerByte(v: uint32, x: byte): (r: uint32) {
    var a := (v % 0x1_0000 + x) % 65521;
    var b := (v / 0x1_0000 + a) % 65521;
    b * 0x1_0000 + a
  }

  function Adler32(v: uint32, s: seq<byte>): (r: uint32)
    decreases |s|
  {
    if s == [] then v else Adler32(AdlerByte(v, s[0]), s[1..])
  }

  lemma {:induction false} CrcFoldAppend(c: uint32, s: seq<byte>, t: seq<byte>)
    ensures CrcFold(c, s + t) == CrcFold(CrcFold(c, s), t)
    decreases |s|
  {
    hide CrcByte;
    if s == [] {
      assert s + t == t;
    } else {
      assert (s + t)[1..] == s[1..] + t;
      CrcFoldAppend(CrcByte(c, s[0]), s[1..], t);
    }
  }

  /** Updating chunk by chunk is checksumming the whole. */
  lemma Crc32Append(v: uint32, s: seq<byte>, t: seq<byte>)
    ensures Crc32(Crc32(v, s), t) == Crc32(v, s + t)
  {
    CrcFoldAppend(Invert(v), s, t);
  }

  lemma {:induction false} Adler32Append(v: uint32, s: seq<byte>, t: seq<byte>)
    ensures Adler32(Adler32(v, s), t) == Adler32(v, s + t)
    decreases |s|
  {
    hide AdlerByte;
    if s == [] {
      assert s + t == t;
    } else {
      assert (s + t)[1..] == s[1..] + t;
      Adler32Append(AdlerByte(v, s[0]), s[1..], t);
    }
  }

  // ---- Check values ------------------------------------------------------------

  /** "123456789", as everywhere. */
  const DIGITS: seq<byte> := [0x31, 0x32, 0x33, 0x34, 0x35, 0x36, 0x37, 0x38, 0x39]

  lemma DigitBits0()
    ensures CrcBits(0xFFFFFFCE, 8) == 0x7C231048
    ensures CrcBits(0x7C23107A, 8) == 0xB0ACBB32
    ensures CrcBits(0xB0ACBB01, 8) == 0x77B79C2D
  {
  }

  lemma DigitBits1()
    ensures CrcBits(0x77B79C19, 8) == 0x641C1F5C
    ensures CrcBits(0x641C1F69, 8) == 0x340AC5E3
    ensures CrcBits(0x340AC5D5, 8) == 0xF68D2C9E
  {
  }

  lemma DigitBits2()
    ensures CrcBits(0xF68D2CA9, 8) == 0xAFFC9660
    ensures CrcBits(0xAFFC9658, 8) == 0x651F2550
    ensures CrcBits(0x651F2569, 8) == 0x340BC6D9
  {
  }

  lemma DigitBytes0()
    ensures CrcByte(0xFFFFFFFF, 0x31) == 0x7C231048
    ensures CrcByte(0x7C231048, 0x32) == 0xB0ACBB32
    ensures CrcByte(0xB0ACBB32, 0x33) == 0x77B79C2D
  {
    DigitBits0();
    hide CrcBits;
    assert (0xFFFFFFFF as bv32) ^ (0x31 as bv32) == 0xFFFFFFCE && (0x7C231048 as bv32) as int == 0x7C231048;
    assert (0x7C231048 as bv32) ^ (0x32 as bv32) == 0x7C23107A && (0xB0ACBB32 as bv32) as int == 0xB0ACBB32;
    assert (0xB0ACBB32 as bv32) ^ (0x33 as bv32) == 0xB0ACBB01 && (0x77B79C2D as bv32) as int == 0x77B79C2D;
  }

  lemma DigitBytes1()
    ensures CrcByte(0x77B79C2D, 0x34) == 0x641C1F5C
    ensures CrcByte(0x641C1F5C, 0x35) == 0x340AC5E3
    ensures CrcByte(0x340AC5E3, 0x36) == 0xF68D2C9E
  {
    DigitBits1();
    hide CrcBits;
    assert (0x77B79C2D as bv32) ^ (0x34 as bv32) == 0x77B79C19 && (0x641C1F5C as bv32) as int == 0x641C1F5C;
    assert (0x641C1F5C as bv32) ^ (0x35 as bv32) == 0x641C1F69 && (0x340AC5E3 as bv32) as int == 0x340AC5E3;
    assert (0x340AC5E3 as bv32) ^ (0x36 as bv32) == 0x340AC5D5 && (0xF68D2C9E as bv32) as int == 0xF68D2C9E;
  }

  lemma DigitBytes2()
    ensures CrcByte(0xF68D2C9E, 0x37) == 0xAFFC9660
    ensures CrcByte(0xAFFC9660, 0x38) == 0x651F2550
    ensures CrcByte(0x651F2550, 0x39) == 0x340BC6D9
  {
    DigitBits2();
    hide CrcBits;
    assert (0xF68D2C9E as bv32) ^ (0x37 as bv32) == 0xF68D2CA9 && (0xAFFC9660 as bv32) as int == 0xAFFC9660;
    assert (0xAFFC9660 as bv32) ^ (0x38 as bv32) == 0xAFFC9658 && (0x651F2550 as bv32) as int == 0x651F2550;
    assert (0x651F2550 as bv32) ^ (0x39 as bv32) == 0x651F2569 && (0x340BC6D9 as bv32) as int == 0x340BC6D9;
  }

  lemma FoldNext(c: uint32, i: nat, next: uint32)
    requires i < |DIGITS| && CrcByte(c, DIGITS[i]) == next
    ensures CrcFold(c, DIGITS[i..]) == CrcFold(next, DIGITS[i + 1..])
  {
    hide CrcByte;
    assert DIGITS[i..][0] == DIGITS[i] && DIGITS[i..][1..] == DIGITS[i + 1..];
  }

  /** The check value of CRC-32 as RFC 1952 defines it. */
  lemma Crc32CheckValue()
    ensures Crc32(0, DIGITS) == 0xCBF4_3926
  {
    DigitBytes0();
    DigitBytes1();
    DigitBytes2();
    hide CrcByte, CrcFold;
    FoldNext(0xFFFFFFFF, 0, 0x7C231048);
    FoldNext(0x7C231048, 1, 0xB0ACBB32);
    FoldNext(0xB0ACBB32, 2, 0x77B79C2D);
    FoldNext(0x77B79C2D, 3, 0x641C1F5C);
    FoldNext(0x641C1F5C, 4, 0x340AC5E3);
    FoldNext(0x340AC5E3, 5, 0xF68D2C9E);
    FoldNext(0xF68D2C9E, 6, 0xAFFC9660);
    FoldNext(0xAFFC9660, 7, 0x651F2550);
    FoldNext(0x651F2550, 8, 0x340BC6D9);
    assert DIGITS[0..] == DIGITS && CrcFold(0x340BC6D9, DIGITS[9..]) == 0x340BC6D9 by { FoldDone(0x340BC6D9); }
  }

  lemma FoldDone(c: uint32)
    ensures CrcFold(c, DIGITS[9..]) == c
  {
  }

  /** One and the bytes added up, and the sums after each of them. */
  function Total(s: seq<byte>): (n: nat) {
    if s == [] then 1 else Total(s[..|s| - 1]) + s[|s| - 1]
  }

  function Totals(s: seq<byte>): (n: nat) {
    if s == [] then 0 else Totals(s[..|s| - 1]) + Total(s)
  }

  /** Adler-32 is the two sums of section 8.2 of RFC 1950, modulo the largest
      prime below 65536. */
  lemma {:induction false} Adler32IsSums(s: seq<byte>)
    ensures Adler32(1, s) == 0x1_0000 * (Totals(s) % 65521) + Total(s) % 65521
    decreases |s|
  {
    hide AdlerByte;
    if s != [] {
      var p, x := s[..|s| - 1], s[|s| - 1];
      Adler32IsSums(p);
      assert p + [x] == s && [x][1..] == [];
      Adler32Append(1, p, [x]);
      var none: seq<byte> := [];
      assert Adler32(AdlerByte(Adler32(1, p), x), none) == AdlerByte(Adler32(1, p), x);
      AdlerSums(Total(p), Totals(p), x);
    }
  }

  lemma AdlerSums(a: nat, b: nat, x: byte)
    ensures AdlerByte(0x1_0000 * (b % 65521) + a % 65521, x) == 0x1_0000 * ((b + (a + x)) % 65521) + (a + x) % 65521
  {
    var v := 0x1_0000 * (b % 65521) + a % 65521;
    assert v % 0x1_0000 == a % 65521 && v / 0x1_0000 == b % 65521;
    assert (a % 65521 + x) % 65521 == (a + x) % 65521;
    assert (b % 65521 + (a + x) % 65521) % 65521 == (b + (a + x)) % 65521;
  }

  // ---- Little- and big-endian fields --------------------------------------

  function Le16(s: seq<byte>): (r: uint16)
    requires |s| == 2
  {
    var a: int, b: int := s[0], s[1];
    a + 256 * b
  }

  function Le32(s: seq<byte>): (r: uint32)
    requires |s| == 4
  {
    var a: int, b: int, c: int, d: int := s[0], s[1], s[2], s[3];
    a + 256 * (b + 256 * (c + 256 * d))
  }

  function Be32(s: seq<byte>): (r: uint32)
    requires |s| == 4
  {
    Le32([s[3], s[2], s[1], s[0]])
  }

  function ToLe16(n: uint16): (s: seq<byte>)
    ensures |s| == 2 && Le16(s) == n
  {
    [n % 256, n / 256]
  }

  function ToLe32(n: uint32): (s: seq<byte>)
    ensures |s| == 4 && Le32(s) == n
  {
    var n1: int := n / 256;
    var n2 := n1 / 256;
    [n % 256, n1 % 256, n2 % 256, n2 / 256]
  }

  function ToBe32(n: uint32): (s: seq<byte>)
    ensures |s| == 4 && Be32(s) == n
  {
    var s := ToLe32(n);
    [s[3], s[2], s[1], s[0]]
  }

  /** Least significant byte first, and most significant byte first. */
  lemma FieldsArePositional(s: seq<byte>)
    requires |s| == 4
    ensures Le32(s) == s[0] as int + 0x100 * s[1] as int + 0x1_0000 * s[2] as int + 0x100_0000 * s[3] as int
    ensures Be32(s) == 0x100_0000 * s[0] as int + 0x1_0000 * s[1] as int + 0x100 * s[2] as int + s[3] as int
  {
  }

  lemma LastDigit(a: byte, p: nat, b: byte, q: nat)
    requires a + 256 * p == b + 256 * q
    ensures a == b && p == q
  {
  }

  /** A value has only one field. */
  lemma FieldsAreUnique(s: seq<byte>, t: seq<byte>)
    requires |s| == |t| == 4
    ensures Le32(s) == Le32(t) ==> s == t
    ensures Be32(s) == Be32(t) ==> s == t
  {
    if Le32(s) == Le32(t) {
      LeUnique(s, t);
    }
    if Be32(s) == Be32(t) {
      LeUnique([s[3], s[2], s[1], s[0]], [t[3], t[2], t[1], t[0]]);
    }
  }

  lemma LeUnique(s: seq<byte>, t: seq<byte>)
    requires |s| == |t| == 4 && Le32(s) == Le32(t)
    ensures s[0] == t[0] && s[1] == t[1] && s[2] == t[2] && s[3] == t[3]
    ensures s == t
  {
    var c: int, d: int := s[2], s[3];
    var c': int, d': int := t[2], t[3];
    var b: int, b': int := s[1], t[1];
    LastDigit(s[0], b + 256 * (c + 256 * d), t[0], b' + 256 * (c' + 256 * d'));
    LastDigit(s[1], c + 256 * d, t[1], c' + 256 * d');
    LastDigit(s[2], d, t[2], d');
  }
}
