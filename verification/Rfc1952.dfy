/** Whole-buffer readings of gzip (section 2.2 of RFC 1952) and zlib (section
    2.2 of RFC 1950), and that the streaming decoder computes them. */
module Rfc1952 {
  import opened Zu
  import opened Codecs
  import opened Checksum
  import opened Inflate
  import opened DeflateDecoder
  import H = GzipHeader

  /** The member at the start of `s`: its data and its end, or what is wrong. */
  datatype FirstMember = WholeMember(data: seq<byte>, end: nat) | NoMember(why: Outcome)

  function ReadMember<E>(g: Engine<E>, x: EngineSem<E>, s: seq<byte>): (m: FirstMember)
    ensures if m.WholeMember? then 0 < m.end <= |s| else !m.why.Complete?
  {
    match H.Scan(H.Init, s)
    case More(_) => NoMember(Cut([], ErrTruncated))
    case Bad(_, status) => NoMember(Corrupt([], {status}))
    case Ended(n) =>
      var i := x.inf(g.start, s[n..]);
      if !i.InfEnd? || n + i.used > |s| then NoMember(NotEnded(i))
      else
        var k := n + i.used;
        if k + 8 > |s| then NoMember(Cut(i.out, ErrTruncated))
        else if Le32(s[k..k + 4]) != Crc32(0, i.out) then NoMember(Corrupt(i.out, {ErrChecksum}))
        else if Le32(s[k + 4..k + 8]) != |i.out| % TWO32 then NoMember(Corrupt(i.out, {ErrChecksum}))
        else WholeMember(i.out, k + 8)
  }

  /** Decoding a gzip file held in memory: members one after the other, each a
      header, a DEFLATE stream, CRC-32 and ISIZE, for as long as the magic is
      found where a member ends. */
  function Gunzip<E>(g: Engine<E>, x: EngineSem<E>, s: seq<byte>, concat: bool): (o: Outcome)
    decreases |s|
  {
    match ReadMember(g, x, s)
    case NoMember(why) => why
    case WholeMember(data, end) =>
      if concat && IsMagic(s[end..]) then Prepend(data, end, Gunzip(g, x, s[end..], concat))
      else Complete(data, end, s[end..])
  }

  predicate IsMagic(s: seq<byte>) {
    |s| >= 2 && s[0] == 0x1F && s[1] == 0x8B
  }

  // ---- The streaming decoder computes it -----------------------------------------

  lemma {:induction false} HeaderRest<E>(g: Engine<E>, x: EngineSem<E>, d: State<E>, s: seq<byte>) returns (gz: H.Header)
    requires d.wrap == Gzip && d.place == Header && d.gz.stage != H.Done
    ensures match H.Scan(d.gz, s)
            case More(_) => Rest(g, x, d, s) == Cut([], ErrTruncated)
            case Bad(_, status) => Rest(g, x, d, s) == Corrupt([], {status})
            case Ended(n) => Rest(g, x, d, s) == Prepend([], n, Rest(g, x, d.(place := Body, gz := gz), s[n..]))
    decreases |s|
  {
    hide H.Feed, Rest, Prepend;
    gz := d.gz;
    HeaderByteRest(g, x, d, s);
    var none: seq<byte> := [];
    assert none + none == none;
    if s != [] {
      var fed := H.Feed(d.gz, s[0]);
      H.FeedDone(d.gz, s[0]);
      if fed.status == Ok {
        if fed.done {
          gz := fed.h;
        } else {
          gz := HeaderRest(g, x, d.(gz := fed.h), s[1..]);
          var r := H.Scan(fed.h, s[1..]);
          if r.Ended? {
            assert s[1..][r.n..] == s[1 + r.n..];
            PrependTwice([], 1, [], r.n, Rest(g, x, d.(place := Body, gz := gz), s[1 + r.n..]));
          }
        }
      }
    }
  }

  lemma HeaderByteRest<E>(g: Engine<E>, x: EngineSem<E>, d: State<E>, s: seq<byte>)
    requires d.wrap == Gzip && d.place == Header
    ensures Rest(g, x, d, s) ==
            if s == [] then Cut([], ErrTruncated)
            else
              var fed := H.Feed(d.gz, s[0]);
              if fed.status != Ok then Corrupt([], {fed.status})
              else Prepend([], 1, Rest(g, x, if fed.done then d.(place := Body, gz := fed.h) else d.(gz := fed.h), s[1..]))
    ensures Prepend([], 1, Cut([], ErrTruncated)) == Cut([], ErrTruncated)
    ensures forall st: Status :: Prepend([], 1, Corrupt([], {st})) == Corrupt([], {st})
  {
    hide H.Feed;
  }

  /** A member's body and trailer. */
  lemma BodyRest<E>(g: Engine<E>, x: EngineSem<E>, d: State<E>, s: seq<byte>)
    requires d.wrap == Gzip && d.place == Body && d.e == g.start && d.checksum == 0 && d.count == 0
    ensures var i := x.inf(g.start, s);
            Rest(g, x, d, s) ==
            if !i.InfEnd? || i.used > |s| then NotEnded(i)
            else if i.used + 8 > |s| then Cut(i.out, ErrTruncated)
            else if Le32(s[i.used..i.used + 4]) != Crc32(0, i.out) then Corrupt(i.out, {ErrChecksum})
            else if Le32(s[i.used + 4..i.used + 8]) != |i.out| % TWO32 then Corrupt(i.out, {ErrChecksum})
            else Prepend(i.out, i.used + 8,
                         Rest(g, x, EndOfBody(d, i.out).(place := MemberEnd, tail := s[i.used..i.used + 8]), s[i.used + 8..]))
  {
    hide Le32, Crc32;
    var i := x.inf(g.start, s);
    if i.InfEnd? && i.used <= |s| {
      var d1, t := EndOfBody(d, i.out), s[i.used..];
      assert Rest(g, x, d, s) == Prepend(i.out, i.used, Rest(g, x, d1, t));
      TrailerRest(g, x, d1, t);
      assert i.out + [] == i.out;
      if |t| >= 8 {
        assert t[..4] == s[i.used..i.used + 4] && t[4..8] == s[i.used + 4..i.used + 8];
        assert t[..8] == s[i.used..i.used + 8] && t[8..] == s[i.used + 8..];
        PrependTwice(i.out, i.used, [], 8, Rest(g, x, d1.(place := MemberEnd, tail := t[..8]), t[8..]));
      }
    }
  }

  lemma TrailerRest<E>(g: Engine<E>, x: EngineSem<E>, d: State<E>, t: seq<byte>)
    requires d.wrap == Gzip && d.place == Trailer && d.tail == []
    ensures Rest(g, x, d, t) ==
            if |t| < 8 then Cut([], ErrTruncated)
            else if Le32(t[..4]) != d.checksum || Le32(t[4..8]) != d.count % TWO32 then Corrupt([], {ErrChecksum})
            else Prepend([], 8, Rest(g, x, d.(place := MemberEnd, tail := t[..8]), t[8..]))
  {
    hide Le32;
    if |t| >= 8 {
      assert [] + t[..8] == t[..8] && t[..8][..4] == t[..4] && t[..8][4..] == t[4..8];
    }
  }

  lemma SliceOfTail(s: seq<byte>, n: nat, i: nat, j: nat)
    requires i <= j && n + j <= |s|
    ensures s[n..][i..j] == s[n + i..n + j]
  {
  }

  /** A whole member: header, body and trailer; `d2` is the state after it. */
  lemma WholeMemberRest<E>(g: Engine<E>, x: EngineSem<E>, d: State<E>, s: seq<byte>) returns (d2: State<E>)
    requires d.wrap == Gzip && d.place == Header && d.gz == H.Init && d.e == g.start
    requires d.checksum == 0 && d.count == 0 && !d.probe
    ensures d2.wrap == Gzip && d2.place == MemberEnd && d2.concat == d.concat && d2.reject == d.reject && !d2.probe
    ensures var m := ReadMember(g, x, s);
            Rest(g, x, d, s) ==
            if m.NoMember? then m.why else Prepend(m.data, m.end, Rest(g, x, d2, s[m.end..]))
  {
    hide Le32, Crc32, H.Feed, Rest;
    var gz := HeaderRest(g, x, d, s);
    var r := H.Scan(H.Init, s);
    d2 := d.(place := MemberEnd);
    if r.Ended? {
      var d1, t := d.(place := Body, gz := gz), s[r.n..];
      BodyRest(g, x, d1, t);
      var i := x.inf(g.start, t);
      if i.InfEnd? && i.used + 8 <= |t| {
        var k, m := i.used, r.n + i.used + 8;
        SliceOfTail(s, r.n, k, k + 4);
        SliceOfTail(s, r.n, k + 4, k + 8);
        SliceOfTail(s, r.n, k + 8, |t|);
        d2 := EndOfBody(d1, i.out).(place := MemberEnd, tail := t[k..k + 8]);
        PrependTwice([], r.n, i.out, k + 8, Rest(g, x, d2, s[m..]));
        assert [] + i.out == i.out;
      }
    }
  }

  /** The decoder's residual semantics, from the start, is the whole-buffer
      decoder: with ProcessOk, every run in every windows computes it. */
  lemma {:induction false} GunzipIsRest<E>(g: Engine<E>, x: EngineSem<E>, d: State<E>, s: seq<byte>, concat: bool)
    requires d.wrap == Gzip && d.place == Header && d.gz == H.Init && d.e == g.start
    requires d.checksum == 0 && d.count == 0 && d.concat == concat && !d.probe
    ensures Rest(g, x, d, s) == Gunzip(g, x, s, concat)
    decreases |s|
  {
    hide Rest, ReadMember;
    var d2 := WholeMemberRest(g, x, d, s);
    var m := ReadMember(g, x, s);
    if m.WholeMember? {
      MemberRest(g, x, d2, s[m.end..]);
      if concat && IsMagic(s[m.end..]) {
        GunzipIsRest(g, x, Reset(g, d2), s[m.end..], concat);
      }
    }
  }

  lemma MemberRest<E>(g: Engine<E>, x: EngineSem<E>, d: State<E>, s: seq<byte>)
    requires d.wrap == Gzip && d.place == MemberEnd && !d.probe
    ensures Rest(g, x, d, s) ==
            if d.concat && IsMagic(s) then Rest(g, x, Reset(g, d), s) else Complete([], 0, s)
  {
    hide H.Feed;
    assert s[0..] == s;
    PrependNothing(Rest(g, x, Reset(g, d), s));
  }

  // ---- Files of members ---------------------------------------------------------------

  /** `body` is a DEFLATE stream for `data`, whatever follows it. */
  ghost predicate IsDeflate<E>(g: Engine<E>, x: EngineSem<E>, body: seq<byte>, data: seq<byte>) {
    forall t: seq<byte> {:trigger body + t} :: x.inf(g.start, body + t) == InfEnd(data, |body|)
  }

  /** DEFLATE marks its own end: what follows does not matter. */
  ghost predicate SelfDelimiting<E(!new)>(g: Engine<E>, x: EngineSem<E>) {
    forall s: seq<byte> {:trigger x.inf(g.start, s)} ::
      x.inf(g.start, s).InfEnd? ==>
        x.inf(g.start, s).used <= |s| && IsDeflate(g, x, s[..x.inf(g.start, s).used], x.inf(g.start, s).out)
  }

  datatype Member = Member(fields: H.Fields, body: seq<byte>, data: seq<byte>)

  ghost predicate IsMember<E>(g: Engine<E>, x: EngineSem<E>, m: Member) {
    H.WellFormed(m.fields) && IsDeflate(g, x, m.body, m.data)
  }

  function GzipTrailer(data: seq<byte>): (s: seq<byte>)
    ensures |s| == 8
  {
    ToLe32(Crc32(0, data)) + ToLe32(|data| % TWO32)
  }

  function Bytes(m: Member): (s: seq<byte>)
    requires H.WellFormed(m.fields)
  {
    H.Print(m.fields) + m.body + GzipTrailer(m.data)
  }

  ghost predicate AreMembers<E>(g: Engine<E>, x: EngineSem<E>, ms: seq<Member>) {
    ms != [] ==> IsMember(g, x, ms[0]) && AreMembers(g, x, ms[1..])
  }

  ghost function File<E>(g: Engine<E>, x: EngineSem<E>, ms: seq<Member>): (s: seq<byte>)
    requires AreMembers(g, x, ms)
  {
    if ms == [] then [] else Bytes(ms[0]) + File(g, x, ms[1..])
  }

  function Data(ms: seq<Member>): (s: seq<byte>) {
    if ms == [] then [] else ms[0].data + Data(ms[1..])
  }

  lemma BytesHaveMagic(m: Member)
    requires H.WellFormed(m.fields)
    ensures |Bytes(m)| >= 2 && Bytes(m)[0] == 0x1F && Bytes(m)[1] == 0x8B
  {
    hide Crc32, H.Flags;
    assert H.PrintFixed(m.fields)[..2] == [0x1F, 0x8B];
    assert H.Print(m.fields)[..2] == [0x1F, 0x8B];
    assert Bytes(m)[..2] == [0x1F, 0x8B];
  }

  /** One member, then whatever comes. */
  lemma MemberDecodes<E>(g: Engine<E>, x: EngineSem<E>, m: Member, t: seq<byte>, concat: bool)
    requires IsMember(g, x, m)
    ensures var n := |Bytes(m)|;
            Gunzip(g, x, Bytes(m) + t, concat) ==
            if concat && IsMagic(t) then Prepend(m.data, n, Gunzip(g, x, t, concat)) else Complete(m.data, n, t)
  {
    hide H.Print, H.Scan, Le32, Crc32, H.WellFormed;
    var h, z := H.Print(m.fields), GzipTrailer(m.data);
    var s, n, k := Bytes(m) + t, |H.Print(m.fields)|, |H.Print(m.fields)| + |m.body|;
    assert s == h + (m.body + (z + t));
    H.PrintIsAccepted(m.fields, m.body + (z + t));
    assert s[n..] == m.body + (z + t);
    assert x.inf(g.start, s[n..]) == InfEnd(m.data, |m.body|);
    assert s[k..] == z + t;
    assert s[k..k + 4] == z[..4] == ToLe32(Crc32(0, m.data));
    assert s[k + 4..k + 8] == z[4..] == ToLe32(|m.data| % TWO32);
    assert s[k + 8..] == t;
  }

  /** A file of members, and any bytes after it that do not start another,
      decodes to the members' data and ends where the last member does. */
  lemma {:induction false} FileDecodes<E>(g: Engine<E>, x: EngineSem<E>, ms: seq<Member>, junk: seq<byte>)
    requires ms != [] && AreMembers(g, x, ms) && !IsMagic(junk)
    ensures Gunzip(g, x, File(g, x, ms) + junk, true) == Complete(Data(ms), |File(g, x, ms)|, junk)
    decreases |ms|
  {
    hide Bytes, Gunzip;
    var m, more := ms[0], ms[1..];
    var t := File(g, x, more) + junk;
    assert File(g, x, ms) + junk == Bytes(m) + t;
    MemberDecodes(g, x, m, t, true);
    if more == [] {
      assert t == junk && m.data + [] == m.data;
    } else {
      BytesHaveMagic(more[0]);
      assert IsMagic(t);
      FileDecodes(g, x, more, junk);
    }
  }

  /** And what decodes to the end is such a file. */
  lemma {:induction false} DecodedIsFile<E(!new)>(g: Engine<E>, x: EngineSem<E>, s: seq<byte>) returns (ms: seq<Member>)
    requires SelfDelimiting(g, x) && Gunzip(g, x, s, true).Complete?
    ensures var o := Gunzip(g, x, s, true);
            && ms != [] && AreMembers(g, x, ms)
            && 0 <= o.used <= |s| && s[..o.used] == File(g, x, ms) && o.out == Data(ms)
            && !IsMagic(s[o.used..]) && o.after == s[o.used..]
    decreases |s|
  {
    hide Bytes, Gunzip, SelfDelimiting, ReadMember;
    GunzipReads(g, x, s, true);
    var m, k := FirstIsMember(g, x, s);
    var t := s[k..];
    assert s == s[..k] + t;
    MemberDecodes(g, x, m, t, true);
    if IsMagic(t) {
      ms := DecodedIsFile(g, x, t);
      var o := Gunzip(g, x, t, true);
      var more := ms;
      ms := [m] + more;
      assert ms[1..] == more;
      assert s[..k + o.used] == s[..k] + t[..o.used] && s[k + o.used..] == t[o.used..];
    } else {
      ms := [m];
      assert ms[1..] == [] && Bytes(m) + [] == Bytes(m);
      assert m.data + [] == m.data && Data([]) == [];
    }
  }

  lemma GunzipReads<E>(g: Engine<E>, x: EngineSem<E>, s: seq<byte>, concat: bool)
    requires Gunzip(g, x, s, concat).Complete?
    ensures ReadMember(g, x, s).WholeMember?
  {
  }

  lemma FirstIsMember<E(!new)>(g: Engine<E>, x: EngineSem<E>, s: seq<byte>) returns (m: Member, k: nat)
    requires SelfDelimiting(g, x) && ReadMember(g, x, s).WholeMember?
    ensures IsMember(g, x, m) && 0 < k <= |s| && s[..k] == Bytes(m)
  {
    hide H.Scan, H.Print, H.WellFormed, Crc32, Le32, ToLe32, Bytes;
    var n := H.Scan(H.Init, s).n;
    var f, after := H.AcceptedIsPrint(s);
    var i := x.inf(g.start, s[n..]);
    k := n + i.used + 8;
    m := Member(f, s[n..k - 8], i.out);
    assert s[n..][..i.used] == s[n..k - 8];
    MemberBytes(s, m, n, k - 8);
  }

  lemma MemberBytes(s: seq<byte>, m: Member, n: nat, k: nat)
    requires H.WellFormed(m.fields) && n <= k <= k + 8 <= |s|
    requires H.Print(m.fields) <= s && n == |H.Print(m.fields)| && m.body == s[n..k]
    requires Le32(s[k..k + 4]) == Crc32(0, m.data) && Le32(s[k + 4..k + 8]) == |m.data| % TWO32
    ensures s[..k + 8] == Bytes(m)
  {
    hide H.Print, Crc32, ToLe32, Le32, H.WellFormed;
    FieldsAreUnique(s[k..k + 4], ToLe32(Crc32(0, m.data)));
    FieldsAreUnique(s[k + 4..k + 8], ToLe32(|m.data| % TWO32));
    assert s[..k + 8] == s[..n] + s[n..k] + (s[k..k + 4] + s[k + 4..k + 8]);
  }

  // ---- zlib ---------------------------------------------------------------------------

  /** A header as section 2.2 of RFC 1950 describes it: CM is 8, CINFO at most 7,
      and FCHECK makes the two bytes, CMF first, a multiple of 31. */
  datatype ZlibFields = ZlibFields(cinfo: nat, flevel: nat, dict: bool, fcheck: nat)

  predicate ZlibWellFormed(h: ZlibFields) {
    && h.cinfo <= 7 && h.flevel < 4 && h.fcheck < 32
    && var z := PrintZlib(h); (256 * (z[0] as int) + z[1]) % 31 == 0
  }

  function PrintZlib(h: ZlibFields): (z: seq<byte>)
    requires h.cinfo <= 7 && h.flevel < 4 && h.fcheck < 32
    ensures |z| == 2
  {
    [8 + 16 * h.cinfo, h.fcheck + 32 * (if h.dict then 1 else 0) + 64 * h.flevel]
  }

  ghost predicate IsZlibHeader(z: seq<byte>, dict: bool) {
    exists h: ZlibFields :: ZlibWellFormed(h) && h.dict == dict && PrintZlib(h) == z
  }

  /** For each of the 65536 pairs: accepted are the printed headers without a
      preset dictionary; those with one are unsupported; all others invalid. */
  lemma CheckZlibIsGrammar(cmf: byte, flg: byte)
    ensures CheckZlib(cmf, flg) ==
            if IsZlibHeader([cmf, flg], false) then Ok else if IsZlibHeader([cmf, flg], true) then ErrUnsupported else ErrInvalidData
  {
    var h := ZlibFields(cmf / 16, flg / 64, flg / 32 % 2 == 1, flg % 32);
    if cmf % 16 == 8 && cmf / 16 <= 7 {
      assert PrintZlib(h) == [cmf, flg];
    }
    if CheckZlib(cmf, flg) == Ok || CheckZlib(cmf, flg) == ErrUnsupported {
      assert ZlibWellFormed(h) && PrintZlib(h) == [cmf, flg];
    }
    forall f: ZlibFields | ZlibWellFormed(f) && PrintZlib(f) == [cmf, flg] ensures f == h && CheckZlib(cmf, flg) != ErrInvalidData {
      ZlibFieldsOf(f, cmf, flg);
    }
  }

  /** The fields are in the bytes. */
  lemma ZlibFieldsOf(f: ZlibFields, cmf: byte, flg: byte)
    requires ZlibWellFormed(f) && PrintZlib(f) == [cmf, flg]
    ensures f == ZlibFields(cmf / 16, flg / 64, flg / 32 % 2 == 1, flg % 32) && cmf % 16 == 8 && (256 * cmf as int + flg) % 31 == 0
  {
    assert cmf == PrintZlib(f)[0] && flg == PrintZlib(f)[1];
  }

  /** A zlib stream held in memory: two header bytes, a DEFLATE stream, Adler-32. */
  ghost function Unzlib<E>(g: Engine<E>, x: EngineSem<E>, s: seq<byte>): (o: Outcome) {
    if |s| < 2 then Cut([], ErrTruncated)
    else if IsZlibHeader(s[..2], true) then Corrupt([], {ErrUnsupported})
    else if !IsZlibHeader(s[..2], false) then Corrupt([], {ErrInvalidData})
    else
      var i := x.inf(g.start, s[2..]);
      if !i.InfEnd? || 2 + i.used > |s| then NotEnded(i)
      else
        var k := 2 + i.used;
        if k + 4 > |s| then Cut(i.out, ErrTruncated)
        else if Be32(s[k..k + 4]) != Adler32(1, i.out) then Corrupt(i.out, {ErrChecksum})
        else Complete(i.out, k + 4, s[k + 4..])
  }

  /** No pair of bytes is a header both with a dictionary and without. */
  lemma OneKindOfZlib(cmf: byte, flg: byte)
    ensures !(IsZlibHeader([cmf, flg], false) && IsZlibHeader([cmf, flg], true))
  {
    forall f: ZlibFields | ZlibWellFormed(f) && PrintZlib(f) == [cmf, flg] ensures f.dict == (flg / 32 % 2 == 1) {
      ZlibFieldsOf(f, cmf, flg);
    }
  }

  lemma UnzlibIsRest<E>(g: Engine<E>, x: EngineSem<E>, d: State<E>, s: seq<byte>)
    requires d.wrap == Zlib && d.place == Header && d.hdr == [] && d.e == g.start && d.checksum == 1
    ensures Rest(g, x, d, s) == Unzlib(g, x, s)
  {
    hide Be32, Adler32, CheckZlib, IsZlibHeader;
    ZlibHeaderRest(g, x, d, s);
    if |s| >= 2 {
      assert s[..2] == [s[0], s[1]];
      CheckZlibIsGrammar(s[0], s[1]);
      OneKindOfZlib(s[0], s[1]);
    }
    if |s| >= 2 && CheckZlib(s[0], s[1]) == Ok {
      var d1, t := d.(hdr := [s[0], s[1]], place := Body), s[2..];
      var i := x.inf(g.start, t);
      if i.InfEnd? && i.used <= |t| {
        var k := 2 + i.used;
        ZlibTrailerRest(g, x, EndOfBody(d1, i.out), t[i.used..]);
        assert t[i.used..] == s[k..];
        PrependTwice([], 2, i.out, i.used, Rest(g, x, EndOfBody(d1, i.out), s[k..]));
        assert [] + i.out == i.out && i.out + [] == i.out;
        if k + 4 <= |s| {
          assert s[k..][..4] == s[k..k + 4];
        }
      }
    }
  }

  lemma ZlibHeaderRest<E>(g: Engine<E>, x: EngineSem<E>, d: State<E>, s: seq<byte>)
    requires d.wrap == Zlib && d.place == Header && d.hdr == []
    ensures Rest(g, x, d, s) ==
            if |s| < 2 then Cut([], ErrTruncated)
            else if CheckZlib(s[0], s[1]) != Ok then Corrupt([], {CheckZlib(s[0], s[1])})
            else Prepend([], 2, Rest(g, x, d.(hdr := [s[0], s[1]], place := Body), s[2..]))
  {
    hide CheckZlib;
    if s != [] {
      var d1 := d.(hdr := [] + [s[0]]);
      assert Rest(g, x, d, s) == Prepend([], 1, Rest(g, x, d1, s[1..]));
      if |s| >= 2 {
        var d2, t := d1.(hdr := d1.hdr + [s[1]]), s[2..];
        assert s[1..][0] == s[1] && s[1..][1..] == t && d2.hdr == [s[0], s[1]];
        assert Rest(g, x, d1, s[1..]) == Prepend([], 1, Rest(g, x, d2, t));
        PrependTwice([], 1, [], 1, Rest(g, x, d2, t));
        if CheckZlib(s[0], s[1]) == Ok {
          assert t[0..] == t;
          PrependNothing(Rest(g, x, d2.(place := Body), t));
        }
      }
    }
  }

  lemma ZlibTrailerRest<E>(g: Engine<E>, x: EngineSem<E>, d: State<E>, t: seq<byte>)
    requires d.wrap == Zlib && d.place == Trailer && d.tail == []
    ensures Rest(g, x, d, t) ==
            if |t| < 4 then Cut([], ErrTruncated)
            else if Be32(t[..4]) != d.checksum then Corrupt([], {ErrChecksum})
            else Complete([], 4, t[4..])
  {
    hide Be32;
    if |t| >= 4 {
      assert [] + t[..4] == t[..4];
    }
  }
}
