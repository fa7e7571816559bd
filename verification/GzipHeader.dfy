/** The gzip header parser, src/zu_gzip.c, fed one byte at a time, and the
    header grammar of section 2.3 of RFC 1952 that it refines. */
module GzipHeader {
  import opened Zu
  import opened Checksum

  const MAX_FIELD: int := 65535
  const HEADER_LEN: int := 10

  datatype Stage = Fixed | ExtraLen | Extra | Name | Comment | Hcrc | Done

  /** zu_int_gzip_header, as far as it is ever read again. */
  datatype Header = Header(
    stage: Stage, fixedPos: nat, flg: byte, xlen: nat, xlenPos: nat, xpos: nat,
    fieldLen: nat, hcrc: seq<byte>, crc: uint32)

  const Init: Header := Header(Fixed, 0, 0, 0, 0, 0, 0, [], 0)

  predicate HasHcrc(flg: byte) { flg / 2 % 2 == 1 }
  predicate HasExtra(flg: byte) { flg / 4 % 2 == 1 }
  predicate HasName(flg: byte) { flg / 8 % 2 == 1 }
  predicate HasComment(flg: byte) { flg / 16 % 2 == 1 }

  function AfterComment(flg: byte): (s: Stage) {
    if HasHcrc(flg) then Hcrc else Done
  }

  function AfterName(flg: byte): (s: Stage) {
    if HasComment(flg) then Comment else AfterComment(flg)
  }

  function AfterExtra(flg: byte): (s: Stage) {
    if HasName(flg) then Name else AfterName(flg)
  }

  function AfterFixed(flg: byte): (s: Stage) {
    if HasExtra(flg) then ExtraLen else AfterExtra(flg)
  }

  /** What byte number `pos` of the fixed part may be: the magic, the method,
      and no reserved flag bit. */
  predicate FixedOk(pos: nat, b: byte) {
    && (pos == 0 ==> b == 0x1F)
    && (pos == 1 ==> b == 0x8B)
    && (pos == 2 ==> b == 8)
    && (pos == 3 ==> b < 0x20)
  }

  datatype Fed = Fed(h: Header, status: Status, done: bool)

  function MoveTo(h: Header, stage: Stage): (r: Fed) {
    Fed(h.(stage := stage), Ok, stage == Done)
  }

  /** zu_int_gzip_header_feed. */
  function Feed(h: Header, b: byte): (r: Fed) {
    match h.stage
    case Hcrc => FeedHcrc(h, b)
    case Fixed => FeedFixed(Hashed(h, b), b)
    case Done => Fed(Hashed(h, b), ErrInternal, false)
    case _ => FeedVariable(Hashed(h, b), b)
  }

  /** The checksum covers every byte before FHCRC itself. */
  function Hashed(h: Header, b: byte): (r: Header) {
    h.(crc := Crc32(h.crc, [b]))
  }

  function FeedFixed(h: Header, b: byte): (r: Fed) {
    var h1 := h.(fixedPos := h.fixedPos + 1);
    if !FixedOk(h.fixedPos, b) then Fed(h1, ErrInvalidData, false)
    else
      var h2 := if h.fixedPos == 3 then h1.(flg := b) else h1;
      if h2.fixedPos < HEADER_LEN then Fed(h2, Ok, false) else MoveTo(h2, AfterFixed(h2.flg))
  }

  function FeedVariable(h: Header, b: byte): (r: Fed) {
    match h.stage
    case ExtraLen =>
      var h1 := h.(xlen := h.xlen + (if h.xlenPos == 0 then b else 256 * b as int), xlenPos := h.xlenPos + 1);
      if h1.xlenPos < 2 then Fed(h1, Ok, false)
      else MoveTo(h1, if h1.xlen > 0 then Extra else AfterExtra(h1.flg))
    case Extra =>
      var h1 := h.(xpos := h.xpos + 1);
      if h1.xpos < h1.xlen then Fed(h1, Ok, false) else MoveTo(h1, AfterExtra(h1.flg))
    case Name => FeedText(h, b, AfterName(h.flg))
    case _ => FeedText(h, b, AfterComment(h.flg))
  }

  function FeedHcrc(h: Header, b: byte): (r: Fed) {
    var h1 := h.(hcrc := h.hcrc + [b]);
    if |h1.hcrc| < 2 then Fed(h1, Ok, false)
    else if |h1.hcrc| == 2 && Le16(h1.hcrc) == h1.crc % 0x1_0000 then MoveTo(h1, Done)
    else Fed(h1, ErrChecksum, false)
  }

  /** FNAME and FCOMMENT: up to a zero byte, discarded, capped. */
  function FeedText(h: Header, b: byte, next: Stage): (r: Fed) {
    if b == 0 then MoveTo(h.(fieldLen := 0), next)
    else
      var h := h.(fieldLen := h.fieldLen + 1);
      Fed(h, if h.fieldLen > MAX_FIELD then ErrInvalidData else Ok, false)
  }

  /** States between bytes. */
  predicate Wf(h: Header) {
    match h.stage
    case Fixed => h.fixedPos < HEADER_LEN && h.xlen == h.xlenPos == h.xpos == h.fieldLen == |h.hcrc| == 0
    case ExtraLen => h.xlenPos < 2 && h.xlen < 256 && (h.xlenPos == 0 ==> h.xlen == 0) && h.xpos == h.fieldLen == |h.hcrc| == 0
    case Extra => h.xpos < h.xlen < 0x1_0000 && h.fieldLen == |h.hcrc| == 0
    case Name => h.fieldLen <= MAX_FIELD && |h.hcrc| == 0
    case Comment => h.fieldLen <= MAX_FIELD && |h.hcrc| == 0
    case Hcrc => |h.hcrc| < 2
    case Done => true
  }

  lemma FeedKeepsWf(h: Header, b: byte)
    requires Wf(h) && Feed(h, b).status == Ok
    ensures Wf(Feed(h, b).h)
  {
    hide Crc32;
  }

  lemma FeedDone(h: Header, b: byte)
    ensures Feed(h, b).status == Ok ==> Feed(h, b).done == (Feed(h, b).h.stage == Done)
    requires h.stage != Done
  {
    hide Crc32;
  }

  lemma FeedFails(h: Header, b: byte)
    ensures Feed(h, b).status == Ok || Feed(h, b).status in {ErrInvalidData, ErrChecksum, ErrInternal}
  {
    hide Crc32;
  }

  lemma InitIsWf()
    ensures Wf(Init)
  {
  }

  /** The first magic byte leaves the parser waiting for the second. */
  lemma MagicStarts()
    ensures Feed(Init, 0x1F).status == Ok && !Feed(Init, 0x1F).done
    ensures Wf(Feed(Init, 0x1F).h) && Feed(Init, 0x1F).h.stage != Done
  {
    hide Crc32;
  }

  // ---- A header byte by byte ------------------------------------------------

  /** Feeding a whole sequence: it may run out inside the header, end it
      before index `n`, or fail at index `n`. */
  datatype Scanned = More(h: Header) | Ended(n: nat) | Bad(n: nat, status: Status)

  function Later(k: nat, r: Scanned): (r': Scanned) {
    match r
    case More(_) => r
    case Ended(n) => Ended(k + n)
    case Bad(n, status) => Bad(k + n, status)
  }

  function Scan(h: Header, s: seq<byte>): (r: Scanned)
    ensures r.Ended? ==> 0 < r.n <= |s|
    decreases |s|
  {
    if s == [] then More(h)
    else
      var f := Feed(h, s[0]);
      if f.status != Ok then Bad(0, f.status)
      else if f.done then Ended(1)
      else Later(1, Scan(f.h, s[1..]))
  }

  /** The parser in stage h.stage, which may be the end. */
  function Enter(h: Header, s: seq<byte>): (r: Scanned) {
    if h.stage == Done then Ended(0) else Scan(h, s)
  }

  lemma {:induction false} ScanAppend(h: Header, s: seq<byte>, t: seq<byte>)
    ensures Scan(h, s + t) == if Scan(h, s).More? then Later(|s|, Scan(Scan(h, s).h, t)) else Scan(h, s)
    decreases |s|
  {
    hide Feed;
    if s == [] {
      assert s + t == t;
    } else {
      assert (s + t)[1..] == s[1..] + t;
      ScanAppend(Feed(h, s[0]).h, s[1..], t);
    }
  }

  lemma {:induction false} ScanKeepsWf(h: Header, s: seq<byte>)
    requires Wf(h) && Scan(h, s).More?
    ensures Wf(Scan(h, s).h)
    decreases |s|
  {
    hide Feed, Wf;
    if s != [] {
      FeedKeepsWf(h, s[0]);
      ScanKeepsWf(Feed(h, s[0]).h, s[1..]);
    }
  }

  // ---- The grammar ------------------------------------------------------------

  /** A header as section 2.3 describes it. `info` is MTIME, XFL and OS. */
  datatype Fields = Fields(
    text: bool, info: seq<byte>,
    extra: Option<seq<byte>>, name: Option<seq<byte>>, comment: Option<seq<byte>>, hcrc: bool)

  predicate Text(o: Option<seq<byte>>) {
    o.Some? ==> |o.value| <= 65535 && 0 !in o.value
  }

  predicate WellFormed(f: Fields) {
    && |f.info| == 6
    && (f.extra.Some? ==> |f.extra.value| <= 65535)
    && Text(f.name) && Text(f.comment)
  }

  function Flag(set_: bool, bit: byte): (b: byte) {
    if set_ then bit else 0
  }

  function Flags(f: Fields): (b: byte)
    ensures HasHcrc(b) == f.hcrc && HasExtra(b) == f.extra.Some?
    ensures HasName(b) == f.name.Some? && HasComment(b) == f.comment.Some? && b < 0x20
  {
    Flag(f.text, 1) + Flag(f.hcrc, 2) + Flag(f.extra.Some?, 4) + Flag(f.name.Some?, 8) + Flag(f.comment.Some?, 16)
  }

  function PrintFixed(f: Fields): (s: seq<byte>) {
    [0x1F, 0x8B, 8, Flags(f)] + f.info
  }

  function PrintExtra(o: Option<seq<byte>>): (s: seq<byte>)
    requires o.Some? ==> |o.value| <= 65535
  {
    match o
    case None => []
    case Some(data) => ToLe16(|data|) + data
  }

  function PrintText(o: Option<seq<byte>>): (s: seq<byte>) {
    match o
    case None => []
    case Some(data) => data + [0]
  }

  function PrintBody(f: Fields): (s: seq<byte>)
    requires WellFormed(f)
  {
    PrintFixed(f) + PrintExtra(f.extra) + PrintText(f.name) + PrintText(f.comment)
  }

  /** Every byte of the header, FHCRC over all that precede it. */
  function Print(f: Fields): (s: seq<byte>)
    requires WellFormed(f)
  {
    PrintBody(f) + if f.hcrc then ToLe16(Crc32(0, PrintBody(f)) % 0x1_0000) else []
  }

  // ---- Field by field -----------------------------------------------------------

  /** `h2` is where `h` gets to by feeding exactly `p`, field boundaries at
      both ends: whatever follows is handled from there. */
  ghost predicate Reaches(h: Header, p: seq<byte>, h2: Header) {
    && h2.crc == Crc32(h.crc, p)
    && h2.fieldLen == 0 && h2.hcrc == []
    && forall t: seq<byte> {:trigger Enter(h2, t)} :: Enter(h, p + t) == Later(|p|, Enter(h2, t))
  }

  lemma ReachesSelf(h: Header)
    requires h.fieldLen == 0 && h.hcrc == []
    ensures Reaches(h, [], h)
  {
    assert Crc32(h.crc, []) == h.crc;
    forall t: seq<byte> ensures Enter(h, [] + t) == Later(0, Enter(h, t)) {
      assert [] + t == t;
    }
  }

  lemma ReachesThrough(h: Header, p: seq<byte>, h2: Header, q: seq<byte>, h3: Header)
    requires Reaches(h, p, h2) && Reaches(h2, q, h3)
    ensures Reaches(h, p + q, h3)
  {
    hide Crc32, Enter;
    Crc32Append(h.crc, p, q);
    forall t: seq<byte> ensures Enter(h, p + q + t) == Later(|p + q|, Enter(h3, t)) {
      assert p + q + t == p + (q + t);
      assert Enter(h2, q + t) == Later(|q|, Enter(h3, t));
    }
  }

  /** One byte that does not end the header, then the rest. */
  lemma ScanByte(h: Header, b: byte, t: seq<byte>)
    requires h.stage != Done && Feed(h, b).status == Ok
    ensures Enter(h, [b] + t) == Later(1, Enter(Feed(h, b).h, t))
  {
    hide Crc32;
    assert ([b] + t)[1..] == t;
    assert Feed(h, b).done == (Feed(h, b).h.stage == Done);
  }

  lemma {:induction false} TextReaches(h: Header, data: seq<byte>) returns (h2: Header)
    requires h.stage == Name || h.stage == Comment
    requires 0 !in data && h.fieldLen + |data| <= MAX_FIELD && h.hcrc == []
    ensures h2.stage == (if h.stage == Name then AfterName(h.flg) else AfterComment(h.flg)) && h2.flg == h.flg
    ensures Reaches(h, data + [0], h2)
    decreases |data|
  {
    hide Crc32;
    if data == [] {
      h2 := Feed(h, 0).h;
      assert [] + [0] == [0];
      forall t: seq<byte> ensures Enter(h, [0] + t) == Later(1, Enter(h2, t)) { ScanByte(h, 0, t); }
    } else {
      var b, p := data[0], data[1..] + [0];
      var h1 := Feed(h, b).h;
      h2 := TextReaches(h1, data[1..]);
      Crc32Append(h.crc, [b], p);
      assert data + [0] == [b] + p;
      forall t: seq<byte> ensures Enter(h, data + [0] + t) == Later(|data| + 1, Enter(h2, t)) {
        assert data + [0] + t == [b] + (p + t);
        ScanByte(h, b, p + t);
        assert Enter(h1, p + t) == Later(|p|, Enter(h2, t));
      }
    }
  }

  lemma {:induction false} ExtraReaches(h: Header, data: seq<byte>) returns (h2: Header)
    requires h.stage == Extra && |data| > 0 && h.xpos + |data| == h.xlen && h.fieldLen == 0 && h.hcrc == []
    ensures h2.stage == AfterExtra(h.flg) && h2.flg == h.flg && Reaches(h, data, h2)
    decreases |data|
  {
    hide Crc32, Reaches;
    var b, p := data[0], data[1..];
    ExtraByte(h, b);
    ByteReaches(h, b);
    h2 := Feed(h, b).h;
    assert data == [b] + p && (p == [] ==> data == [b]);
    if p != [] {
      h2 := ExtraReaches(Feed(h, b).h, p);
      ReachesThrough(h, [b], Feed(h, b).h, p, h2);
    }
  }

  lemma ExtraByte(h: Header, b: byte)
    requires h.stage == Extra && h.xpos < h.xlen && h.fieldLen == 0 && h.hcrc == []
    ensures var r := Feed(h, b);
            && r.status == Ok && r.h.fieldLen == 0 && r.h.hcrc == [] && r.h.flg == h.flg
            && (if h.xpos + 1 < h.xlen then r.h.stage == Extra && r.h.xpos == h.xpos + 1 && r.h.xlen == h.xlen
                else r.h.stage == AfterExtra(h.flg))
  {
    hide Crc32;
  }

  lemma ByteReaches(h: Header, b: byte)
    requires h.stage != Done && h.stage != Hcrc && Feed(h, b).status == Ok
    requires Feed(h, b).h.fieldLen == 0 && h.hcrc == []
    ensures Reaches(h, [b], Feed(h, b).h)
  {
    hide Crc32;
    forall t: seq<byte> ensures Enter(h, [b] + t) == Later(1, Enter(Feed(h, b).h, t)) { ScanByte(h, b, t); }
  }

  lemma {:induction false} FixedReaches(h: Header, s: seq<byte>) returns (h2: Header)
    requires h.stage == Fixed && Wf(h) && |s| == HEADER_LEN - h.fixedPos
    requires forall i {:trigger s[i]} :: 0 <= i < |s| ==> FixedOk(h.fixedPos + i, s[i])
    ensures h2.flg == (if h.fixedPos <= 3 then s[3 - h.fixedPos] else h.flg) && h2.stage == AfterFixed(h2.flg)
    ensures h2.xlen == h2.xlenPos == h2.xpos == 0
    ensures Reaches(h, s, h2)
    decreases |s|
  {
    hide Crc32, Reaches;
    var b, p := s[0], s[1..];
    assert s == [b] + p && FixedOk(h.fixedPos, b);
    var h1 := Feed(h, b).h;
    ByteReaches(h, b);
    if p == [] {
      h2 := h1;
      assert s == [b];
    } else {
      forall i {:trigger p[i]} | 0 <= i < |p| ensures FixedOk(h1.fixedPos + i, p[i]) { assert p[i] == s[i + 1]; }
      h2 := FixedReaches(h1, p);
      ReachesThrough(h, [b], h1, p, h2);
    }
  }

  lemma ExtraFieldReaches(h: Header, o: Option<seq<byte>>) returns (h2: Header)
    requires o.Some? == HasExtra(h.flg) && (o.Some? ==> |o.value| <= 65535)
    requires h.stage == AfterFixed(h.flg) && h.xlen == h.xlenPos == h.xpos == h.fieldLen == 0 && h.hcrc == []
    ensures h2.stage == AfterExtra(h.flg) && h2.flg == h.flg && Reaches(h, PrintExtra(o), h2)
  {
    hide Crc32, Reaches;
    match o
    case None =>
      h2 := h;
      ReachesSelf(h);
    case Some(data) =>
      var n := ToLe16(|data|);
      ByteReaches(h, n[0]);
      var h1 := Feed(h, n[0]).h;
      ByteReaches(h1, n[1]);
      var hx := Feed(h1, n[1]).h;
      ReachesThrough(h, [n[0]], h1, [n[1]], hx);
      assert [n[0]] + [n[1]] == n && hx.xlen == |data|;
      if data == [] {
        h2 := hx;
        assert n + data == n;
      } else {
        h2 := ExtraReaches(hx, data);
        ReachesThrough(h, n, hx, data, h2);
      }
  }

  lemma TextFieldReaches(h: Header, o: Option<seq<byte>>, here: Stage, next: Stage) returns (h2: Header)
    requires (here == Name && next == AfterName(h.flg)) || (here == Comment && next == AfterComment(h.flg))
    requires Text(o) && h.stage == (if o.Some? then here else next) && h.fieldLen == 0 && h.hcrc == []
    ensures h2.stage == next && h2.flg == h.flg && Reaches(h, PrintText(o), h2)
  {
    hide Crc32, Reaches;
    match o
    case None =>
      h2 := h;
      ReachesSelf(h);
    case Some(data) =>
      h2 := TextReaches(h, data);
  }

  /** Everything up to FHCRC. */
  lemma BodyReaches(f: Fields) returns (h2: Header)
    requires WellFormed(f)
    ensures h2.stage == (if f.hcrc then Hcrc else Done) && h2.flg == Flags(f)
    ensures Reaches(Init, PrintBody(f), h2)
  {
    hide Crc32, Reaches, Flags;
    var p1, p2, p3, p4 := PrintFixed(f), PrintExtra(f.extra), PrintText(f.name), PrintText(f.comment);
    var h1 := FixedReaches(Init, p1);
    assert h1.flg == Flags(f);
    ReachedClean(Init, p1, h1);
    var he := ExtraFieldReaches(h1, f.extra);
    ReachedClean(h1, p2, he);
    var hn := TextFieldReaches(he, f.name, Name, AfterName(he.flg));
    ReachedClean(he, p3, hn);
    h2 := TextFieldReaches(hn, f.comment, Comment, AfterComment(hn.flg));
    ReachesThrough(Init, p1, h1, p2, he);
    ReachesThrough(Init, p1 + p2, he, p3, hn);
    ReachesThrough(Init, p1 + p2 + p3, hn, p4, h2);
  }

  lemma ReachedClean(h: Header, p: seq<byte>, h2: Header)
    requires Reaches(h, p, h2)
    ensures h2.fieldLen == 0 && h2.hcrc == [] && h2.crc == Crc32(h.crc, p)
    ensures forall t: seq<byte> {:trigger Enter(h2, t)} :: Enter(h, p + t) == Later(|p|, Enter(h2, t))
  {
  }

  /** Any header the grammar allows, whatever its optional fields, is accepted
      at its very last byte, with its FHCRC checked, whatever follows it. */
  lemma PrintIsAccepted(f: Fields, tail: seq<byte>)
    requires WellFormed(f)
    ensures Scan(Init, Print(f) + tail) == Ended(|Print(f)|)
  {
    hide Crc32, Reaches, PrintBody, Flags;
    var body := PrintBody(f);
    var h := BodyReaches(f);
    ReachedClean(Init, body, h);
    if f.hcrc {
      var sum := ToLe16(h.crc % 0x1_0000);
      HcrcScan(h, sum + tail);
      assert Print(f) + tail == body + (sum + tail);
      assert Enter(Init, body + (sum + tail)) == Later(|body|, Enter(h, sum + tail));
    } else {
      assert Print(f) + tail == body + tail;
      assert Enter(Init, body + tail) == Later(|body|, Enter(h, tail));
    }
  }

  /** FHCRC: two bytes, judged together. */
  lemma HcrcScan(h: Header, s: seq<byte>)
    requires h.stage == Hcrc && h.hcrc == []
    ensures |s| >= 2 && s[..2] == ToLe16(h.crc % 0x1_0000) ==> Scan(h, s) == Ended(2)
    ensures |s| >= 2 && s[..2] != ToLe16(h.crc % 0x1_0000) ==> Scan(h, s) == Bad(1, ErrChecksum)
    ensures |s| < 2 ==> Scan(h, s).More?
  {
    hide Crc32, ToLe16, Le16;
    if |s| >= 2 {
      var pair := [s[0], s[1]];
      assert s[..2] == pair;
      Le16IsUnique(pair, h.crc % 0x1_0000);
      HcrcPair(h, s[0], s[1], s[2..]);
      assert s == [s[0]] + ([s[1]] + s[2..]);
    } else if |s| == 1 {
      assert s[1..] == [];
    }
  }

  lemma Le16IsUnique(s: seq<byte>, n: uint16)
    requires |s| == 2
    ensures Le16(s) == n <==> s == ToLe16(n)
  {
    if Le16(s) == n {
      LastDigit(s[0], s[1], n % 256, n / 256);
    }
  }

  lemma HcrcPair(h: Header, a: byte, b: byte, t: seq<byte>)
    requires h.stage == Hcrc && h.hcrc == []
    ensures Scan(h, [a] + ([b] + t)) ==
            if Le16([a, b]) == h.crc % 0x1_0000 then Ended(2) else Bad(1, ErrChecksum)
  {
    hide Crc32, Le16;
    ScanByte(h, a, [b] + t);
    var h1 := Feed(h, a).h;
    assert h1.hcrc + [b] == [a, b];
    assert Scan(h1, [b] + t) == if Le16([a, b]) == h.crc % 0x1_0000 then Ended(1) else Bad(0, ErrChecksum);
  }

  // ---- And nothing else -----------------------------------------------------------

  lemma {:induction false} FixedEnds(h: Header, s: seq<byte>)
    requires h.stage == Fixed && Wf(h) && Scan(h, s).Ended?
    ensures |s| >= HEADER_LEN - h.fixedPos
    ensures forall i {:trigger s[i]} :: 0 <= i < HEADER_LEN - h.fixedPos ==> FixedOk(h.fixedPos + i, s[i])
    decreases |s|
  {
    hide Crc32;
    var h1, p := Feed(h, s[0]).h, s[1..];
    FeedKeepsWf(h, s[0]);
    if h.fixedPos + 1 < HEADER_LEN {
      FixedEnds(h1, p);
      forall i {:trigger s[i]} | 0 <= i < HEADER_LEN - h.fixedPos ensures FixedOk(h.fixedPos + i, s[i]) {
        if i > 0 {
          assert p[i - 1] == s[i];
        }
      }
    }
  }

  lemma {:induction false} ExtraEnds(h: Header, s: seq<byte>)
    requires h.stage == Extra && Wf(h) && Scan(h, s).Ended?
    ensures |s| >= h.xlen - h.xpos
    decreases |s|
  {
    hide Crc32;
    FeedKeepsWf(h, s[0]);
    if h.xpos + 1 < h.xlen {
      ExtraEnds(Feed(h, s[0]).h, s[1..]);
    }
  }

  lemma ExtraFieldEnds(h: Header, s: seq<byte>) returns (o: Option<seq<byte>>, t: seq<byte>)
    requires h.stage == AfterFixed(h.flg) && h.xlen == h.xlenPos == h.xpos == h.fieldLen == 0 && h.hcrc == []
    requires Enter(h, s).Ended?
    ensures o.Some? == HasExtra(h.flg) && (o.Some? ==> |o.value| <= 65535) && s == PrintExtra(o) + t
  {
    hide Crc32;
    if !HasExtra(h.flg) {
      o, t := None, s;
      assert [] + s == s;
    } else {
      FeedKeepsWf(h, s[0]);
      var h1, p := Feed(h, s[0]).h, s[1..];
      FeedKeepsWf(h1, p[0]);
      var h2 := Feed(h1, p[0]).h;
      assert p[1..] == s[2..] && p[0] == s[1];
      var n := s[0] + 256 * s[1] as int;
      assert h2.xlen == n && Enter(h1, p).Ended? && Enter(h2, p[1..]).Ended?;
      if n > 0 {
        ExtraEnds(h2, s[2..]);
      }
      o, t := Some(s[2..2 + n]), s[2 + n..];
      Le16IsUnique([s[0], s[1]], n);
      assert s == [s[0], s[1]] + s[2..2 + n] + s[2 + n..];
    }
  }

  lemma {:induction false} TextEnds(h: Header, s: seq<byte>) returns (data: seq<byte>, t: seq<byte>)
    requires (h.stage == Name || h.stage == Comment) && Wf(h) && Scan(h, s).Ended?
    ensures s == data + [0] + t && 0 !in data && h.fieldLen + |data| <= MAX_FIELD
    decreases |s|
  {
    hide Crc32;
    if s[0] == 0 {
      data, t := [], s[1..];
    } else {
      FeedKeepsWf(h, s[0]);
      var d;
      d, t := TextEnds(Feed(h, s[0]).h, s[1..]);
      data := [s[0]] + d;
      assert s == [s[0]] + s[1..];
      assert s == data + [0] + t;
    }
  }

  lemma TextFieldEnds(h: Header, s: seq<byte>, here: Stage, next: Stage) returns (o: Option<seq<byte>>, t: seq<byte>)
    requires (here == Name && next == AfterName(h.flg)) || (here == Comment && next == AfterComment(h.flg))
    requires h.stage == here || h.stage == next
    requires h.fieldLen == 0 && h.hcrc == [] && Enter(h, s).Ended?
    ensures o.Some? == (h.stage == here) && Text(o) && s == PrintText(o) + t
  {
    if h.stage != here {
      o, t := None, s;
      assert [] + s == s;
    } else {
      var data;
      data, t := TextEnds(h, s);
      o := Some(data);
    }
  }

  /** The optional fields, in order. */
  lemma OptionalEnds(h: Header, s: seq<byte>)
    returns (e: Option<seq<byte>>, n: Option<seq<byte>>, c: Option<seq<byte>>, rest: seq<byte>)
    requires h.stage == AfterFixed(h.flg) && h.xlen == h.xlenPos == h.xpos == h.fieldLen == 0 && h.hcrc == []
    requires Enter(h, s).Ended?
    ensures e.Some? == HasExtra(h.flg) && (e.Some? ==> |e.value| <= 65535)
    ensures n.Some? == HasName(h.flg) && c.Some? == HasComment(h.flg) && Text(n) && Text(c)
    ensures s == PrintExtra(e) + PrintText(n) + PrintText(c) + rest
  {
    hide Crc32, Reaches, Feed, HasName, HasComment, HasExtra, HasHcrc, PrintText, PrintExtra;
    var s2, s3;
    e, s2 := ExtraFieldEnds(h, s);
    var h2 := ExtraFieldReaches(h, e);
    ReachedClean(h, PrintExtra(e), h2);
    assert Enter(h2, s2).Ended?;
    n, s3 := TextFieldEnds(h2, s2, Name, AfterName(h2.flg));
    var h3 := TextFieldReaches(h2, n, Name, AfterName(h2.flg));
    ReachedClean(h2, PrintText(n), h3);
    assert Enter(h3, s3).Ended?;
    c, rest := TextFieldEnds(h3, s3, Comment, AfterComment(h3.flg));
    assert s == PrintExtra(e) + (PrintText(n) + (PrintText(c) + rest));
  }

  lemma BodyEnds(s: seq<byte>) returns (f: Fields, rest: seq<byte>)
    requires Scan(Init, s).Ended?
    ensures WellFormed(f) && s == PrintBody(f) + rest
  {
    hide Crc32, Reaches, Feed, HasName, HasComment, HasExtra, HasHcrc, Flags, PrintText, PrintExtra;
    FixedEnds(Init, s);
    var p, s1 := s[..HEADER_LEN], s[HEADER_LEN..];
    assert s == p + s1;
    var h1 := FixedReaches(Init, p);
    ReachedClean(Init, p, h1);
    assert Enter(h1, s1).Ended?;
    var e, n, c, s4 := OptionalEnds(h1, s1);
    f, rest := Fields(p[3] % 2 == 1, p[4..], e, n, c, HasHcrc(p[3])), s4;
    FlagsRoundTrip(p[3], f);
    assert FixedOk(0, s[0]) && FixedOk(1, s[1]) && FixedOk(2, s[2]);
    assert p == PrintFixed(f);
    assert s == PrintBody(f) + rest;
  }

  /** What is accepted is a header of the grammar, to the byte. */
  lemma AcceptedIsPrint(s: seq<byte>) returns (f: Fields, tail: seq<byte>)
    requires Scan(Init, s).Ended?
    ensures WellFormed(f) && s == Print(f) + tail && Scan(Init, s) == Ended(|Print(f)|)
  {
    hide Crc32, Reaches, Feed, PrintBody, Flags;
    f, tail := BodyEnds(s);
    var body := PrintBody(f);
    var h := BodyReaches(f);
    ReachedClean(Init, body, h);
    assert Enter(Init, s) == Later(|body|, Enter(h, tail));
    if f.hcrc {
      HcrcScan(h, tail);
      assert tail == tail[..2] + tail[2..];
      tail := tail[2..];
      assert s == Print(f) + tail;
    } else {
      assert Print(f) == body;
    }
  }

  lemma FlagsRoundTrip(b: byte, f: Fields)
    requires b < 0x20 && f.text == (b % 2 == 1) && f.hcrc == HasHcrc(b)
    requires f.extra.Some? == HasExtra(b) && f.name.Some? == HasName(b) && f.comment.Some? == HasComment(b)
    ensures Flags(f) == b
  {
  }

  // ---- Errors come at the offending byte ----------------------------------------

  /** The one mistake noticed late: a wrong first FHCRC byte waits for the second. */
  predicate Doomed(h: Header) {
    h.stage == Hcrc && |h.hcrc| == 1 && h.hcrc[0] != h.crc % 256
  }

  function Rank(stage: Stage): (r: nat) {
    match stage
    case Fixed => 6 case ExtraLen => 5 case Extra => 4 case Name => 3 case Comment => 2 case Hcrc => 1 case Done => 0
  }

  /** Bytes left in the field being read, when it is read out the short way. */
  function FieldLeft(h: Header): (r: nat)
    requires Wf(h)
  {
    match h.stage
    case Fixed => HEADER_LEN - h.fixedPos
    case ExtraLen => 2 - h.xlenPos
    case Extra => h.xlen - h.xpos
    case Hcrc => 2 - |h.hcrc|
    case _ => 1
  }

  /** A byte that keeps a header going. */
  function GoodByte(h: Header): (b: byte)
    requires Wf(h)
  {
    match h.stage
    case Fixed => if h.fixedPos == 0 then 0x1F else if h.fixedPos == 1 then 0x8B else if h.fixedPos == 2 then 8 else 0
    case Hcrc => if h.hcrc == [] then h.crc % 256 else h.crc % 0x1_0000 / 256
    case _ => 0
  }

  lemma GoodByteIsGood(h: Header)
    requires Wf(h) && h.stage != Done && !Doomed(h)
    ensures var f := Feed(h, GoodByte(h));
            && f.status == Ok && Wf(f.h) && !Doomed(f.h) && f.done == (f.h.stage == Done)
            && (Rank(f.h.stage) < Rank(h.stage) || (f.h.stage == h.stage && FieldLeft(f.h) < FieldLeft(h)))
  {
    hide Crc32;
    var b := GoodByte(h);
    FeedGood(h);
    FeedKeepsWf(h, b);
  }

  lemma FeedGood(h: Header)
    requires Wf(h) && h.stage != Done && !Doomed(h)
    ensures Feed(h, GoodByte(h)).status == Ok
  {
    hide Crc32;
    if h.stage == Hcrc {
      HcrcGood(h);
    }
  }

  lemma HcrcGood(h: Header)
    requires Wf(h) && h.stage == Hcrc && !Doomed(h)
    ensures Feed(h, GoodByte(h)).status == Ok
  {
    hide Crc32;
    if |h.hcrc| == 1 {
      var pair := h.hcrc + [GoodByte(h)];
      LowHalf(h.crc);
      assert Le16(pair) == h.crc % 0x1_0000;
    }
  }

  lemma LowHalf(c: uint32)
    ensures c % 256 + 256 * (c % 0x1_0000 / 256) == c % 0x1_0000
  {
    var l := c % 0x1_0000;
    assert c == l + 256 * (256 * (c / 0x1_0000));
    assert c % 256 == l % 256;
  }

  lemma {:induction false} Completable(h: Header) returns (t: seq<byte>)
    requires Wf(h) && h.stage != Done && !Doomed(h)
    ensures Scan(h, t) == Ended(|t|)
    decreases Rank(h.stage), FieldLeft(h)
  {
    hide Feed, Wf, Doomed, GoodByte;
    GoodByteIsGood(h);
    var b := GoodByte(h);
    var f := Feed(h, b);
    if f.done {
      t := [b];
    } else {
      var u := Completable(f.h);
      t := [b] + u;
      assert t[1..] == u;
    }
  }

  /** Bytes the parser has swallowed without complaint are the beginning of
      some header, unless the first FHCRC byte was already wrong; */
  lemma SwallowedIsViable(s: seq<byte>)
    requires Scan(Init, s).More?
    ensures (exists f :: WellFormed(f) && s < Print(f)) <==> !Doomed(Scan(Init, s).h)
  {
    hide Feed, Wf, Doomed, Print, WellFormed;
    var h := Scan(Init, s).h;
    ScanMoreNotDone(Init, s);
    InitIsWf();
    ScanKeepsWf(Init, s);
    if !Doomed(h) {
      var t := Completable(h);
      ScanAppend(Init, s, t);
      var f, tail := AcceptedIsPrint(s + t);
      assert s + t == Print(f);
      assert s < Print(f);
    } else {
      forall f | WellFormed(f) && s < Print(f) ensures false {
        var t := Print(f)[|s|..];
        assert Print(f) + [] == Print(f) == s + t;
        PrintIsAccepted(f, []);
        ScanAppend(Init, s, t);
        DoomedFails(h, t);
      }
    }
  }

  /** and a byte the parser refuses begins no header at all. */
  lemma RefusedIsNotViable(s: seq<byte>, f: Fields)
    requires Scan(Init, s).Bad? && WellFormed(f)
    ensures !(s <= Print(f))
  {
    hide Feed;
    if s <= Print(f) {
      var t := Print(f)[|s|..];
      assert Print(f) + [] == Print(f) == s + t;
      PrintIsAccepted(f, []);
      ScanAppend(Init, s, t);
    }
  }

  lemma DoomedFails(h: Header, t: seq<byte>)
    requires Doomed(h)
    ensures !Scan(h, t).Ended?
  {
    if t != [] {
      DoomedFeed(h, t[0]);
      hide Feed, Doomed;
    }
  }

  lemma DoomedFeed(h: Header, b: byte)
    requires Doomed(h)
    ensures Feed(h, b).status == ErrChecksum
  {
    var pair := h.hcrc + [b];
    assert pair == [h.hcrc[0], b];
    LowByte(h.hcrc[0], b, h.crc);
    hide Crc32;
  }

  lemma LowByte(a: byte, b: byte, n: nat)
    ensures Le16([a, b]) == n % 0x1_0000 ==> a == n % 256
  {
    assert n % 0x1_0000 % 256 == n % 256;
  }

  lemma {:induction false} ScanMoreNotDone(h: Header, s: seq<byte>)
    requires h.stage != Done && Scan(h, s).More?
    ensures Scan(h, s).h.stage != Done
    decreases |s|
  {
    hide Crc32;
    if s != [] {
      ScanMoreNotDone(Feed(h, s[0]).h, s[1..]);
    }
  }

  /** No header is the beginning of another. */
  lemma HeadersArePrefixFree(f: Fields, g: Fields)
    requires WellFormed(f) && WellFormed(g) && Print(f) <= Print(g)
    ensures Print(f) == Print(g)
  {
    hide Print, WellFormed;
    var t := Print(g)[|Print(f)|..];
    assert Print(g) == Print(f) + t && Print(g) + [] == Print(g);
    PrintIsAccepted(f, t);
    PrintIsAccepted(g, []);
  }

  // ---- The parser ---------------------------------------------------------------

  /** zu_int_gzip_header. Its two arrays are indexed only inside their bounds. */
  class Parser {
    var stage: Stage
    const fixed: array<byte>
    var fixedPos: nat
    var flg: byte
    var xlen: nat
    var xlenPos: nat
    var xpos: nat
    var fieldLen: nat
    const hcrc: array<byte>
    var hcrcPos: nat
    var crc: uint32

    ghost predicate Valid()
      reads this, hcrc
    {
      && fixed.Length == HEADER_LEN && hcrc.Length == 2 && hcrc != fixed
      && hcrcPos <= 2 && Wf(Snap())
    }

    function Snap(): (h: Header)
      requires hcrcPos <= hcrc.Length
      reads this, hcrc
    {
      Header(stage, fixedPos, flg, xlen, xlenPos, xpos, fieldLen, hcrc[..hcrcPos], crc)
    }

    constructor ()
      ensures Valid() && Snap() == Init && fresh(fixed) && fresh(hcrc)
    {
      fixed, hcrc := new byte[HEADER_LEN], new byte[2];
      stage, fixedPos, flg, xlen, xlenPos, xpos, fieldLen, hcrcPos, crc := Fixed, 0, 0, 0, 0, 0, 0, 0, 0;
    }

    /** zu_int_gzip_header_init on a parser in use, in whatever state. */
    method Reinit()
      requires fixed.Length == HEADER_LEN && hcrc.Length == 2 && hcrc != fixed
      modifies this
      ensures Valid() && Snap() == Init
    {
      stage, fixedPos, flg, xlen, xlenPos, xpos, fieldLen, hcrcPos, crc := Fixed, 0, 0, 0, 0, 0, 0, 0, 0;
    }

    /** zu_int_gzip_header_feed. */
    method FeedByte(b: byte) returns (st: Status, done: bool)
      requires Valid()
      modifies this, fixed, hcrc
      ensures hcrcPos <= 2
      ensures var f := Feed(old(Snap()), b);
              Snap() == f.h && st == f.status && done == f.done && (st == Ok ==> Valid())
    {
      hide Crc32, FeedFixed, FeedVariable, FeedHcrc;
      if Feed(Snap(), b).status == Ok {
        FeedKeepsWf(Snap(), b);
      }
      if stage == Hcrc {
        st, done := TakeHcrc(b);
        return;
      }
      crc := Crc32(crc, [b]);
      if stage == Fixed {
        st, done := TakeFixed(b);
      } else if stage == Done {
        st, done := ErrInternal, false;
      } else {
        st, done := TakeVariable(b);
      }
    }

    method TakeFixed(b: byte) returns (st: Status, done: bool)
      requires stage == Fixed && fixedPos < fixed.Length == HEADER_LEN && hcrcPos <= hcrc.Length && hcrc != fixed
      modifies this`stage, this`fixedPos, this`flg, fixed
      ensures var f := FeedFixed(old(Snap()), b); Snap() == f.h && st == f.status && done == f.done
    {
      hide AfterFixed;
      fixed[fixedPos] := b;
      fixedPos := fixedPos + 1;
      if fixedPos == 1 && b != 0x1F {
        return ErrInvalidData, false;
      }
      if fixedPos == 2 && b != 0x8B {
        return ErrInvalidData, false;
      }
      if fixedPos == 3 && b != 8 {
        return ErrInvalidData, false;
      }
      if fixedPos == 4 {
        if b >= 0x20 {
          return ErrInvalidData, false;
        }
        flg := b;
      }
      if fixedPos < HEADER_LEN {
        return Ok, false;
      }
      stage := AfterFixed(flg);
      return Ok, stage == Done;
    }

    method TakeVariable(b: byte) returns (st: Status, done: bool)
      requires stage == ExtraLen || stage == Extra || stage == Name || stage == Comment
      requires hcrcPos <= hcrc.Length
      modifies this`stage, this`xlen, this`xlenPos, this`xpos, this`fieldLen
      ensures var f := FeedVariable(old(Snap()), b); Snap() == f.h && st == f.status && done == f.done
    {
      hide AfterExtra, AfterName, AfterComment;
      if stage == ExtraLen {
        xlen := xlen + (if xlenPos == 0 then b else 256 * b as int);
        xlenPos := xlenPos + 1;
        if xlenPos < 2 {
          return Ok, false;
        }
        stage := if xlen > 0 then Extra else AfterExtra(flg);
      } else if stage == Extra {
        xpos := xpos + 1;
        if xpos < xlen {
          return Ok, false;
        }
        stage := AfterExtra(flg);
      } else {
        if b != 0 {
          fieldLen := fieldLen + 1;
          return if fieldLen > MAX_FIELD then ErrInvalidData else Ok, false;
        }
        fieldLen := 0;
        stage := if stage == Name then AfterName(flg) else AfterComment(flg);
      }
      return Ok, stage == Done;
    }

    method TakeHcrc(b: byte) returns (st: Status, done: bool)
      requires stage == Hcrc && hcrcPos < hcrc.Length == 2
      modifies this`stage, this`hcrcPos, hcrc
      ensures hcrcPos <= 2
      ensures var f := FeedHcrc(old(Snap()), b); Snap() == f.h && st == f.status && done == f.done
    {
      ghost var was := hcrc[..hcrcPos];
      hcrc[hcrcPos] := b;
      hcrcPos := hcrcPos + 1;
      assert hcrc[..hcrcPos] == was + [b];
      if hcrcPos < 2 {
        return Ok, false;
      }
      assert hcrc[..hcrcPos] == hcrc[..];
      if Le16(hcrc[..]) != crc % 0x1_0000 {
        return ErrChecksum, false;
      }
      stage := Done;
      return Ok, true;
    }
  }

  /** zu_int_gzip_write_header: ten bytes, always the same. */
  const WRITTEN_HEADER: seq<byte> := [0x1F, 0x8B, 8, 0, 0, 0, 0, 0, 0, 255]

  /** It is the printed form of a header with no optional field. */
  lemma WrittenIsPrint() returns (f: Fields)
    ensures WellFormed(f) && Print(f) == WRITTEN_HEADER
    ensures f == Fields(false, [0, 0, 0, 0, 0, 255], None, None, None, false)
  {
    f := Fields(false, [0, 0, 0, 0, 0, 255], None, None, None, false);
    assert Flags(f) == 0;
  }
}
