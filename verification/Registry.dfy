/** The codec registry (src/zu_registry.c): registration, lookup by name and by
    HTTP token, and detection. */
module Registry {
  import opened Zu

  const NONE: uint32 := 0
  const VENDOR_BASE: uint32 := 1024
  const CAP: nat := 32

  datatype Decl = Decl(codec: uint32, name: string, token: Option<string>)

  /** The names this build knows about, compiled in or not. */
  const DECLARED: seq<Decl> := [
    Decl(1, "identity", Some("identity")), Decl(2, "deflate-raw", None), Decl(3, "zlib", Some("deflate")),
    Decl(4, "gzip", Some("gzip")), Decl(16, "brotli", Some("br")), Decl(17, "zstd", Some("zstd")),
    Decl(18, "lz4-frame", None), Decl(19, "lz4-block", None), Decl(20, "snappy-frame", None), Decl(21, "snappy-raw", None)]

  /** zu_codec_vtable: what registration, lookup and detection look at.
      `complete`: each direction it claims has its functions. */
  datatype Vtable = Vtable(
    codec: uint32, name: Option<string>, token: Option<string>, hasSource: bool, longEnough: bool, complete: bool,
    magic: seq<byte>, magicOffset: size_t, sniff: Option<seq<byte> -> bool>)

  // ---- Case -------------------------------------------------------------------------------

  function LowerChar(c: char): (l: char) {
    if 'A' <= c <= 'Z' then ((c as int) + 32) as char else c
  }

  function Lower(s: string): (l: string)
    ensures |l| == |s|
  {
    if s == [] then [] else [LowerChar(s[0])] + Lower(s[1..])
  }

  /** zu_int_ieq: one character of each at a time, to the end of both. */
  method Ieq(a: string, b: string) returns (same: bool)
    ensures same == (Lower(a) == Lower(b))
  {
    var i := 0;
    assert a[0..] == a && b[0..] == b;
    while i < |a| && i < |b|
      invariant i <= |a| && i <= |b|
      invariant Lower(a) == Lower(b) <==> Lower(a[i..]) == Lower(b[i..])
    {
      assert a[i..][0] == a[i] && b[i..][0] == b[i] && a[i..][1..] == a[i + 1..] && b[i..][1..] == b[i + 1..];
      Peel(a[i..], b[i..]);
      if LowerChar(a[i]) != LowerChar(b[i]) {
        return false;
      }
      i := i + 1;
    }
    assert |Lower(a[i..])| == |a| - i && |Lower(b[i..])| == |b| - i;
    return i == |a| && i == |b|;
  }

  lemma Peel(a: string, b: string)
    requires a != [] && b != []
    ensures Lower(a) == Lower(b) <==> LowerChar(a[0]) == LowerChar(b[0]) && Lower(a[1..]) == Lower(b[1..])
  {
    assert Lower(a)[0] == LowerChar(a[0]) && Lower(a)[1..] == Lower(a[1..]);
    assert Lower(b)[0] == LowerChar(b[0]) && Lower(b)[1..] == Lower(b[1..]);
  }

  predicate SameToken(a: Option<string>, b: Option<string>) {
    a.Some? && b.Some? && Lower(a.value) == Lower(b.value)
  }

  /** The same letter of the alphabet, in either case. */
  predicate SameLetter(c: char, d: char) {
    exists k: nat :: k < 26 && Letter(k, c) && Letter(k, d)
  }

  predicate Letter(k: nat, c: char) {
    c as int == 'A' as int + k || c as int == 'a' as int + k
  }

  lemma LowerIsCaseless(c: char, d: char)
    ensures LowerChar(c) == LowerChar(d) <==> c == d || SameLetter(c, d)
  {
    if c != d && LowerChar(c) == LowerChar(d) {
      var k := LowerChar(c) as int - 'a' as int;
      assert Letter(k, c) && Letter(k, d);
    }
  }

  lemma {:induction false} LowerAt(s: string, i: nat)
    requires i < |s|
    ensures Lower(s)[i] == LowerChar(s[i])
  {
    if i > 0 {
      LowerAt(s[1..], i - 1);
    }
  }

  /** Two tokens are the same exactly when they are equally long and each two
      characters are equal, or the same letter. */
  lemma SameTokenIsCaseless(a: string, b: string)
    ensures SameToken(Some(a), Some(b)) <==>
            |a| == |b| && forall i :: 0 <= i < |a| ==> a[i] == b[i] || SameLetter(a[i], b[i])
  {
    hide LowerChar, SameLetter;
    forall i | 0 <= i < |a| ensures Lower(a)[i] == LowerChar(a[i]) {
      LowerAt(a, i);
    }
    forall i | 0 <= i < |b| ensures Lower(b)[i] == LowerChar(b[i]) {
      LowerAt(b, i);
    }
    hide Lower;
    forall i | 0 <= i < |a| && i < |b| ensures LowerChar(a[i]) == LowerChar(b[i]) <==> a[i] == b[i] || SameLetter(a[i], b[i]) {
      LowerIsCaseless(a[i], b[i]);
    }
    if |a| == |b| && forall i :: 0 <= i < |a| ==> a[i] == b[i] || SameLetter(a[i], b[i]) {
      assert Lower(a) == Lower(b);
    }
  }

  // ---- Registration ------------------------------------------------------------------------

  /** Clashes with a declared identity: that of its own id, or another's. */
  predicate AgreesWith(v: Vtable, d: Decl) {
    && (d.codec == v.codec ==> v.name == Some(d.name))
    && (d.codec != v.codec ==> v.name != Some(d.name) && !SameToken(d.token, v.token))
  }

  predicate IsDeclared(codec: uint32) {
    exists i :: 0 <= i < |DECLARED| && DECLARED[i].codec == codec
  }

  /** An identity zukomp has declared, under its own name, or a vendor's. */
  predicate GoodIdentity(v: Vtable) {
    && v.codec != NONE && (IsDeclared(v.codec) || v.codec >= VENDOR_BASE)
    && forall i :: 0 <= i < |DECLARED| ==> AgreesWith(v, DECLARED[i])
  }

  predicate Distinct(a: Vtable, b: Vtable) {
    a.codec != b.codec && a.name != b.name && !SameToken(a.token, b.token)
  }

  /** What the registry never breaks. */
  predicate Sound(t: seq<Vtable>) {
    && |t| <= CAP
    && (forall i :: 0 <= i < |t| ==> t[i].name.Some? && GoodIdentity(t[i]))
    && forall i, j :: 0 <= i < j < |t| ==> Distinct(t[i], t[j])
  }

  predicate Welcome(t: seq<Vtable>, v: Vtable) {
    && v.name.Some? && v.hasSource && v.longEnough && v.complete
    && GoodIdentity(v) && forall i :: 0 <= i < |t| ==> Distinct(t[i], v)
  }

  function Outcome(t: seq<Vtable>, v: Vtable): (st: Status) {
    if !Welcome(t, v) then ErrInvalidArgument else if |t| >= CAP then ErrMemory else Ok
  }

  // ---- Lookup ------------------------------------------------------------------------------

  function FindId(t: seq<Vtable>, codec: uint32): (r: Option<Vtable>) {
    if codec == NONE || t == [] then None
    else if t[0].codec == codec then Some(t[0]) else FindId(t[1..], codec)
  }

  /** First match wins, declared names before registered ones. */
  function DeclaredName(ds: seq<Decl>, name: string): (c: uint32) {
    if ds == [] then NONE else if ds[0].name == name then ds[0].codec else DeclaredName(ds[1..], name)
  }

  function RegisteredName(t: seq<Vtable>, name: string): (c: uint32) {
    if t == [] then NONE else if t[0].name == Some(name) then t[0].codec else RegisteredName(t[1..], name)
  }

  function LookupName(t: seq<Vtable>, name: string): (c: uint32) {
    var d := DeclaredName(DECLARED, name);
    if d != NONE then d else RegisteredName(t, name)
  }

  function DeclaredToken(ds: seq<Decl>, token: string): (c: uint32) {
    if ds == [] then NONE else if SameToken(ds[0].token, Some(token)) then ds[0].codec else DeclaredToken(ds[1..], token)
  }

  function RegisteredToken(t: seq<Vtable>, token: string): (c: uint32) {
    if t == [] then NONE else if SameToken(t[0].token, Some(token)) then t[0].codec else RegisteredToken(t[1..], token)
  }

  function LookupToken(t: seq<Vtable>, token: string): (c: uint32) {
    var d := DeclaredToken(DECLARED, token);
    if d != NONE then d else RegisteredToken(t, token)
  }

  lemma {:induction false} DeclaredNameIs(ds: seq<Decl>, name: string, v: Vtable)
    requires v.name == Some(name) && forall i :: 0 <= i < |ds| ==> AgreesWith(v, ds[i])
    ensures var c := DeclaredName(ds, name); c == NONE || c == v.codec
  {
    if ds != [] && ds[0].name != name {
      DeclaredNameIs(ds[1..], name, v);
    }
  }

  lemma {:induction false} RegisteredNameIs(t: seq<Vtable>, k: nat, name: string)
    requires k < |t| && t[k].name == Some(name) && forall i, j :: 0 <= i < j < |t| ==> Distinct(t[i], t[j])
    ensures RegisteredName(t, name) == t[k].codec
  {
    if k > 0 {
      assert Distinct(t[0], t[k]);
      RegisteredNameIs(t[1..], k - 1, name);
    }
  }

  lemma {:induction false} DeclaredTokenIs(ds: seq<Decl>, token: string, v: Vtable)
    requires SameToken(v.token, Some(token)) && forall i :: 0 <= i < |ds| ==> AgreesWith(v, ds[i])
    ensures var c := DeclaredToken(ds, token); c == NONE || c == v.codec
  {
    if ds != [] && !SameToken(ds[0].token, Some(token)) {
      DeclaredTokenIs(ds[1..], token, v);
    }
  }

  lemma {:induction false} RegisteredTokenIs(t: seq<Vtable>, k: nat, token: string)
    requires k < |t| && SameToken(t[k].token, Some(token)) && forall i, j :: 0 <= i < j < |t| ==> Distinct(t[i], t[j])
    ensures RegisteredToken(t, token) == t[k].codec
  {
    if k > 0 {
      assert Distinct(t[0], t[k]);
      RegisteredTokenIs(t[1..], k - 1, token);
    }
  }

  /** What soundness says of one codec and of any two. */
  lemma Members(t: seq<Vtable>, k: nat)
    requires Sound(t) && k < |t|
    ensures t[k].name.Some? && t[k].codec != NONE
    ensures forall i :: 0 <= i < |DECLARED| ==> AgreesWith(t[k], DECLARED[i])
    ensures forall i, j :: 0 <= i < j < |t| ==> Distinct(t[i], t[j])
  {
    assert GoodIdentity(t[k]);
  }

  /** Main theorem, lookup. A registered codec is found under its name, under
      its token in any letter case, and by its id, wherever it stands. */
  lemma RegisteredIsFound(t: seq<Vtable>, k: nat, token: string)
    requires Sound(t) && k < |t|
    ensures LookupName(t, t[k].name.value) == t[k].codec
    ensures SameToken(t[k].token, Some(token)) ==> LookupToken(t, token) == t[k].codec
    ensures FindId(t, t[k].codec) == Some(t[k])
  {
    hide Sound, Distinct, AgreesWith, SameToken, DeclaredName, DeclaredToken, RegisteredName, RegisteredToken, FindId;
    Members(t, k);
    var name := t[k].name.value;
    DeclaredNameIs(DECLARED, name, t[k]);
    RegisteredNameIs(t, k, name);
    if SameToken(t[k].token, Some(token)) {
      DeclaredTokenIs(DECLARED, token, t[k]);
      RegisteredTokenIs(t, k, token);
    }
    FoundById(t, k);
  }

  lemma {:induction false} FoundById(t: seq<Vtable>, k: nat)
    requires k < |t| && t[k].codec != NONE && forall i, j :: 0 <= i < j < |t| ==> Distinct(t[i], t[j])
    ensures FindId(t, t[k].codec) == Some(t[k])
  {
    if k > 0 {
      assert Distinct(t[0], t[k]);
      FoundById(t[1..], k - 1);
    }
  }

  /** What is found is what is there: a name or token answered for is either
      declared or belongs to a registered codec. */
  lemma {:induction false} FoundIsThere(t: seq<Vtable>, name: string, token: string)
    ensures RegisteredName(t, name) != NONE ==>
              exists k :: 0 <= k < |t| && t[k].name == Some(name) && t[k].codec == RegisteredName(t, name)
    ensures RegisteredToken(t, token) != NONE ==>
              exists k :: 0 <= k < |t| && SameToken(t[k].token, Some(token)) && t[k].codec == RegisteredToken(t, token)
  {
    if t != [] {
      var u := t[1..];
      FoundIsThere(u, name, token);
      if t[0].name != Some(name) && RegisteredName(u, name) != NONE {
        var k :| 0 <= k < |u| && u[k].name == Some(name) && u[k].codec == RegisteredName(u, name);
        assert t[k + 1] == u[k];
      }
      if !SameToken(t[0].token, Some(token)) && RegisteredToken(u, token) != NONE {
        var k :| 0 <= k < |u| && SameToken(u[k].token, Some(token)) && u[k].codec == RegisteredToken(u, token);
        assert t[k + 1] == u[k];
      }
    }
  }

  ghost predicate SameMembers(t: seq<Vtable>, u: seq<Vtable>) {
    forall v :: v in t <==> v in u
  }

  /** The order codecs were registered in changes no lookup. */
  lemma OrderDoesNotShow(t: seq<Vtable>, u: seq<Vtable>, name: string, token: string)
    requires Sound(t) && Sound(u) && SameMembers(t, u)
    ensures LookupName(t, name) == LookupName(u, name) && LookupToken(t, token) == LookupToken(u, token)
  {
    OneWay(t, u, name, token);
    OneWay(u, t, name, token);
  }

  lemma OneWay(t: seq<Vtable>, u: seq<Vtable>, name: string, token: string)
    requires Sound(t) && Sound(u) && SameMembers(t, u)
    ensures RegisteredName(t, name) != NONE ==> RegisteredName(u, name) == RegisteredName(t, name)
    ensures RegisteredToken(t, token) != NONE ==> RegisteredToken(u, token) == RegisteredToken(t, token)
  {
    FoundIsThere(t, name, token);
    if RegisteredName(t, name) != NONE {
      var k :| 0 <= k < |t| && t[k].name == Some(name) && t[k].codec == RegisteredName(t, name);
      assert t[k] in u;
      var j :| 0 <= j < |u| && u[j] == t[k];
      RegisteredNameIs(u, j, name);
    }
    if RegisteredToken(t, token) != NONE {
      var k :| 0 <= k < |t| && SameToken(t[k].token, Some(token)) && t[k].codec == RegisteredToken(t, token);
      assert t[k] in u;
      var j :| 0 <= j < |u| && u[j] == t[k];
      RegisteredTokenIs(u, j, token);
    }
  }

  // ---- Detection ---------------------------------------------------------------------------

  predicate MagicMatches(v: Vtable, buf: seq<byte>) {
    v.magic != [] && v.magicOffset + |v.magic| <= Min(|buf|, SIZE_MAX)
    && buf[v.magicOffset..v.magicOffset + |v.magic|] == v.magic
  }

  /** `k` is the first of those whose matching magic is longest. */
  predicate LongestMagic(t: seq<Vtable>, buf: seq<byte>, k: nat) {
    && k < |t| && MagicMatches(t[k], buf)
    && forall i :: 0 <= i < |t| && MagicMatches(t[i], buf) ==>
         |t[i].magic| < |t[k].magic| || (|t[i].magic| == |t[k].magic| && k <= i)
  }

  predicate FirstSniffer(t: seq<Vtable>, buf: seq<byte>, k: nat) {
    && k < |t| && Sniffs(t[k], buf) && forall i :: 0 <= i < k ==> !Sniffs(t[i], buf)
  }

  predicate Sniffs(v: Vtable, buf: seq<byte>) {
    v.sniff.Some? && v.sniff.value(buf)
  }

  /** A magic matches where the buffer has it, at its offset. */
  lemma MagicIsThere(v: Vtable, pre: seq<byte>, post: seq<byte>, buf: seq<byte>)
    requires |buf| <= SIZE_MAX
    ensures |pre| == v.magicOffset && v.magic != [] ==> MagicMatches(v, pre + v.magic + post) || |pre + v.magic| > SIZE_MAX
    ensures MagicMatches(v, buf) ==>
              var k := v.magicOffset + |v.magic|; k <= |buf| && buf == buf[..v.magicOffset] + v.magic + buf[k..]
  {
    var b := pre + v.magic + post;
    assert b[|pre|..|pre| + |v.magic|] == v.magic;
  }

  /** Two codecs whose magics are equally long and both match: the one
      registered first answers, so here the order does show. */
  lemma EqualMagicsDependOnOrder(a: Vtable, b: Vtable, buf: seq<byte>)
    requires MagicMatches(a, buf) && MagicMatches(b, buf) && |a.magic| == |b.magic|
    ensures LongestMagic([a, b], buf, 0) && LongestMagic([b, a], buf, 0)
  {
  }

  /** Otherwise it does not: with no two equally long matches the same codec
      answers in any order. */
  lemma LongestMagicIsOne(t: seq<Vtable>, u: seq<Vtable>, buf: seq<byte>, i: nat, j: nat)
    requires SameMembers(t, u) && LongestMagic(t, buf, i) && LongestMagic(u, buf, j)
    requires forall v, w :: v in t && w in t && MagicMatches(v, buf) && MagicMatches(w, buf) && |v.magic| == |w.magic| ==> v == w
    ensures t[i] == u[j]
  {
    assert u[j] in t && t[i] in u;
    var k :| 0 <= k < |t| && t[k] == u[j];
    var l :| 0 <= l < |u| && u[l] == t[i];
  }

  // ---- The table itself ----------------------------------------------------------------------

  class Table {
    const slots: array<Vtable>
    var n: nat
    var generation: nat

    ghost predicate Valid()
      reads this, slots
    {
      slots.Length == CAP && n <= CAP && generation == n && Sound(slots[..n])
    }

    ghost function Contents(): (t: seq<Vtable>)
      requires n <= slots.Length
      reads this, slots
    {
      slots[..n]
    }

    constructor ()
      ensures Valid() && Contents() == [] && generation == 0 && fresh(slots)
    {
      slots := new Vtable[CAP](_ => Vtable(NONE, None, None, false, false, false, [], 0, None));
      n, generation := 0, 0;
    }

    /** zu_int_declared_for and the scan of the declared table. */
    method CheckDeclared(v: Vtable) returns (ok: bool)
      requires v.codec != NONE
      ensures ok == GoodIdentity(v)
    {
      var declared, i := false, 0;
      while i < |DECLARED| && !declared
        invariant i <= |DECLARED|
        invariant declared ==> i < |DECLARED| && DECLARED[i].codec == v.codec
        invariant !declared ==> forall j :: 0 <= j < i ==> DECLARED[j].codec != v.codec
        decreases |DECLARED| - i, !declared
      {
        if DECLARED[i].codec == v.codec {
          declared := true;
        } else {
          i := i + 1;
        }
      }
      if declared {
        if v.name != Some(DECLARED[i].name) {
          return false;
        }
      } else if v.codec < VENDOR_BASE {
        return false;
      }
      forall j | 0 <= j < |DECLARED| && DECLARED[j].codec == v.codec ensures v.name == Some(DECLARED[j].name) {
        DeclaredOnce(i, j);
      }
      ok := ScanDeclared(DECLARED, v);
    }

    method ScanDeclared(ds: seq<Decl>, v: Vtable) returns (ok: bool)
      requires forall j :: 0 <= j < |ds| && ds[j].codec == v.codec ==> v.name == Some(ds[j].name)
      ensures ok == forall i :: 0 <= i < |ds| ==> AgreesWith(v, ds[i])
    {
      for i := 0 to |ds|
        invariant forall j :: 0 <= j < i ==> AgreesWith(v, ds[j])
      {
        var d := ds[i];
        if v.name == Some(d.name) && d.codec != v.codec {
          return false;
        }
        if v.token.Some? && d.token.Some? && d.codec != v.codec {
          var same := Ieq(d.token.value, v.token.value);
          if same {
            return false;
          }
        }
      }
      return true;
    }

    /** No id is declared twice. */
    lemma DeclaredOnce(i: nat, j: nat)
      ensures i < |DECLARED| && j < |DECLARED| && DECLARED[i].codec == DECLARED[j].codec ==> i == j
    {
    }

    /** The scan of what is registered, once by id and once by name and token. */
    method CheckRegistered(v: Vtable) returns (ok: bool)
      requires n <= slots.Length
      ensures ok == forall i :: 0 <= i < n ==> Distinct(slots[i], v)
    {
      hide Distinct;
      ok := IdIsFree(v.codec);
      if ok {
        ok := NamesAreFree(v);
      } else {
        var i :| 0 <= i < n && slots[i].codec == v.codec;
        Clash(slots[i], v);
      }
    }

    lemma Clash(a: Vtable, b: Vtable)
      ensures a.codec == b.codec || a.name == b.name || SameToken(a.token, b.token) ==> !Distinct(a, b)
    {
    }

    method IdIsFree(codec: uint32) returns (free: bool)
      requires n <= slots.Length
      ensures free == forall i :: 0 <= i < n ==> slots[i].codec != codec
    {
      for i := 0 to n
        invariant forall j :: 0 <= j < i ==> slots[j].codec != codec
      {
        if slots[i].codec == codec {
          return false;
        }
      }
      return true;
    }

    method NamesAreFree(v: Vtable) returns (free: bool)
      requires n <= slots.Length && forall i :: 0 <= i < n ==> slots[i].codec != v.codec
      ensures free == forall i :: 0 <= i < n ==> Distinct(slots[i], v)
    {
      hide Lower;
      for i := 0 to n
        invariant forall j :: 0 <= j < i ==> Distinct(slots[j], v)
      {
        if slots[i].name == v.name {
          return false;
        }
        if v.token.Some? && slots[i].token.Some? {
          var same := Ieq(slots[i].token.value, v.token.value);
          if same {
            return false;
          }
        }
      }
      return true;
    }

    /** zu_register_codec: a rejected attempt changes nothing, an accepted one
        appends and counts. */
    method Register(v: Vtable) returns (st: Status)
      requires Valid()
      modifies this, slots
      ensures Valid() && st == Outcome(old(Contents()), v)
      ensures st == Ok ==> Contents() == old(Contents()) + [v] && generation == old(generation) + 1
      ensures st != Ok ==> unchanged(this) && unchanged(slots)
    {
      if v.name == None || !v.hasSource || !v.longEnough || v.codec == NONE || !v.complete {
        return ErrInvalidArgument;
      }
      var good := CheckDeclared(v);
      var distinct := CheckRegistered(v);
      assert forall i :: 0 <= i < n ==> Contents()[i] == slots[i];
      if !good || !distinct {
        return ErrInvalidArgument;
      }
      if n >= CAP {
        return ErrMemory;
      }
      ghost var was := Contents();
      Appended(was, v);
      slots[n] := v;
      n := n + 1;
      generation := generation + 1;
      assert Contents() == was + [v];
      return Ok;
    }

    lemma Appended(t: seq<Vtable>, v: Vtable)
      requires Sound(t) && Welcome(t, v) && |t| < CAP
      ensures Sound(t + [v])
    {
    }

    /** zu_codec_lookup. */
    method Lookup(name: string) returns (c: uint32)
      requires Valid()
      ensures c == LookupName(Contents(), name)
    {
      hide Sound;
      c := ScanNames(DECLARED, name);
      if c != NONE {
        return;
      }
      assert Contents()[0..] == Contents();
      for i := 0 to n
        invariant RegisteredName(Contents(), name) == RegisteredName(Contents()[i..], name)
      {
        if slots[i].name == Some(name) {
          return slots[i].codec;
        }
      }
      return NONE;
    }

    method ScanNames(ds: seq<Decl>, name: string) returns (c: uint32)
      ensures c == DeclaredName(ds, name)
    {
      assert ds[0..] == ds;
      for i := 0 to |ds|
        invariant DeclaredName(ds, name) == DeclaredName(ds[i..], name)
      {
        if ds[i].name == name {
          return ds[i].codec;
        }
      }
      return NONE;
    }

    /** zu_codec_from_content_encoding. */
    method FromContentEncoding(token: string) returns (c: uint32)
      requires Valid()
      ensures c == LookupToken(Contents(), token)
    {
      hide Sound, Lower;
      c := ScanTokens(DECLARED, token);
      if c != NONE {
        return;
      }
      assert Contents()[0..] == Contents();
      for i := 0 to n
        invariant RegisteredToken(Contents(), token) == RegisteredToken(Contents()[i..], token)
      {
        if slots[i].token.Some? {
          var same := Ieq(slots[i].token.value, token);
          if same {
            return slots[i].codec;
          }
        }
      }
      return NONE;
    }

    method ScanTokens(ds: seq<Decl>, token: string) returns (c: uint32)
      ensures c == DeclaredToken(ds, token)
    {
      hide Lower;
      assert ds[0..] == ds;
      for i := 0 to |ds|
        invariant DeclaredToken(ds, token) == DeclaredToken(ds[i..], token)
      {
        if ds[i].token.Some? {
          var same := Ieq(ds[i].token.value, token);
          if same {
            return ds[i].codec;
          }
        }
      }
      return NONE;
    }

    /** The first loop of zu_sniff. */
    method BestMagic(buf: seq<byte>) returns (found: bool, best: nat)
      requires Valid()
      ensures found ==> LongestMagic(Contents(), buf, best)
      ensures !found ==> forall i :: 0 <= i < n ==> !MagicMatches(slots[i], buf)
    {
      hide Sound, MagicMatches;
      var bestLen: nat := 0;
      best := 0;
      assert slots[..0] == [];
      for i := 0 to n
        invariant bestLen == 0 ==> NoMagic(slots[..i], buf)
        invariant bestLen > 0 ==> LongestMagic(slots[..i], buf, best) && bestLen == |slots[best].magic|
      {
        var v := slots[i];
        assert slots[..i + 1] == slots[..i] + [v];
        OneMoreMagic(slots[..i], v, buf, best, bestLen);
        if MagicMatches(v, buf) && |v.magic| > bestLen {
          bestLen, best := |v.magic|, i;
        }
      }
      assert slots[..n] == Contents();
      assert forall i :: 0 <= i < n ==> Contents()[i] == slots[i];
      return bestLen > 0, best;
    }

    /** zu_sniff: the longest magic first, predicates last. */
    method Sniff(buf: seq<byte>) returns (st: Status, c: uint32)
      requires Valid()
      ensures st == Ok ==>
                exists k :: 0 <= k < n && c == slots[k].codec &&
                  (LongestMagic(Contents(), buf, k) ||
                   (FirstSniffer(Contents(), buf, k) && forall i :: 0 <= i < n ==> !MagicMatches(slots[i], buf)))
      ensures st != Ok ==>
                st == ErrUnsupported && c == NONE &&
                forall i :: 0 <= i < n ==> !MagicMatches(slots[i], buf) && !Sniffs(slots[i], buf)
    {
      hide Sound, MagicMatches;
      var found, best := BestMagic(buf);
      if found {
        return Ok, slots[best].codec;
      }
      for i := 0 to n
        invariant forall j :: 0 <= j < i ==> !Sniffs(slots[j], buf)
      {
        if slots[i].sniff.Some? && slots[i].sniff.value(buf) {
          assert FirstSniffer(Contents(), buf, i);
          return Ok, slots[i].codec;
        }
      }
      return ErrUnsupported, NONE;
    }
  }

  predicate NoMagic(t: seq<Vtable>, buf: seq<byte>) {
    forall i :: 0 <= i < |t| ==> !MagicMatches(t[i], buf)
  }

  lemma OneMoreMagic(t: seq<Vtable>, v: Vtable, buf: seq<byte>, best: nat, bestLen: nat)
    requires if bestLen == 0 then NoMagic(t, buf) else LongestMagic(t, buf, best) && bestLen == |t[best].magic|
    ensures var u := t + [v];
            if MagicMatches(v, buf) && |v.magic| > bestLen then LongestMagic(u, buf, |t|)
            else if bestLen == 0 then NoMagic(u, buf) else LongestMagic(u, buf, best)
  {
    assert MagicMatches(v, buf) ==> |v.magic| > 0;
  }

  /** Any run of attempts: the table is sound, holds what was accepted in the
      order it was, and the generation is how many that were. */
  method RegisterAll(vs: seq<Vtable>) returns (t: Table, accepted: seq<bool>)
    ensures t.Valid() && |accepted| == |vs| && t.Contents() == Accepted([], vs) && t.generation == |t.Contents()|
    ensures forall i :: 0 <= i < |vs| && accepted[i] ==> vs[i] in t.Contents()
  {
    t := new Table();
    accepted := [];
    assert vs[0..] == vs;
    for i := 0 to |vs|
      invariant fresh(t) && fresh(t.slots) && t.Valid() && |accepted| == i
      invariant Accepted([], vs) == Accepted(t.Contents(), vs[i..])
      invariant forall j :: 0 <= j < i && accepted[j] ==> vs[j] in t.Contents()
    {
      var st := t.Register(vs[i]);
      assert vs[i..][1..] == vs[i + 1..];
      accepted := accepted + [st == Ok];
    }
  }

  function Accepted(t: seq<Vtable>, vs: seq<Vtable>): (u: seq<Vtable>)
    decreases |vs|
  {
    if vs == [] then t else Accepted(if Outcome(t, vs[0]) == Ok then t + [vs[0]] else t, vs[1..])
  }

  lemma {:induction false} AcceptedIsSound(t: seq<Vtable>, vs: seq<Vtable>)
    requires Sound(t)
    ensures Sound(Accepted(t, vs)) && t <= Accepted(t, vs)
    decreases |vs|
  {
    if vs != [] {
      AcceptedIsSound(if Outcome(t, vs[0]) == Ok then t + [vs[0]] else t, vs[1..]);
    }
  }

  // ---- Who is accepted ---------------------------------------------------------------------

  lemma DeclaredIds(codec: uint32)
    ensures IsDeclared(codec) <==> codec in {1, 2, 3, 4, 16, 17, 18, 19, 20, 21}
  {
    assert forall i :: 0 <= i < |DECLARED| ==> DECLARED[i].codec in {1, 2, 3, 4, 16, 17, 18, 19, 20, 21};
    var k := if codec in {1, 2, 3, 4} then codec - 1 else if codec in {16, 17, 18, 19, 20, 21} then codec - 12 else 0;
    assert DECLARED[k].codec == codec || codec !in {1, 2, 3, 4, 16, 17, 18, 19, 20, 21};
  }

  /** Exactly: whole, under a declared number or a vendor's, no clash with what
      is declared or registered; and then there are 32 places. */
  lemma AcceptedExactly(t: seq<Vtable>, v: Vtable)
    ensures var fit :=
              && v.name.Some? && v.hasSource && v.longEnough && v.complete
              && (v.codec >= 1024 || v.codec in {1, 2, 3, 4, 16, 17, 18, 19, 20, 21})
              && (forall i :: 0 <= i < |DECLARED| ==>
                    if DECLARED[i].codec == v.codec then DECLARED[i].name == v.name.value
                    else DECLARED[i].name != v.name.value && !SameToken(DECLARED[i].token, v.token))
              && (forall i :: 0 <= i < |t| ==> t[i].codec != v.codec && t[i].name != v.name && !SameToken(t[i].token, v.token));
            Outcome(t, v) == if !fit then ErrInvalidArgument else if |t| < 32 then Ok else ErrMemory
  {
    DeclaredIds(v.codec);
    hide DECLARED, SameToken;
    assert forall i :: 0 <= i < |DECLARED| ==> DECLARED[i].codec == v.codec ==> IsDeclared(v.codec);
    if v.name.Some? {
      assert forall i :: 0 <= i < |DECLARED| ==> (AgreesWith(v, DECLARED[i]) <==>
        if DECLARED[i].codec == v.codec then DECLARED[i].name == v.name.value
        else DECLARED[i].name != v.name.value && !SameToken(DECLARED[i].token, v.token));
    }
  }

  // ---- The declared names are found --------------------------------------------------------

  lemma {:induction false} FirstName(ds: seq<Decl>, k: nat, name: string)
    requires k < |ds| && ds[k].name == name && forall i :: 0 <= i < k ==> ds[i].name != name
    ensures DeclaredName(ds, name) == ds[k].codec
  {
    if k > 0 {
      FirstName(ds[1..], k - 1, name);
    }
  }

  lemma {:induction false} FirstToken(ds: seq<Decl>, k: nat, token: string)
    requires k < |ds| && SameToken(ds[k].token, Some(token)) && forall i :: 0 <= i < k ==> !SameToken(ds[i].token, Some(token))
    ensures DeclaredToken(ds, token) == ds[k].codec
  {
    if k > 0 {
      FirstToken(ds[1..], k - 1, token);
    }
  }

  lemma DeclaredIsFound(t: seq<Vtable>, k: nat)
    requires k < |DECLARED|
    ensures LookupName(t, DECLARED[k].name) == DECLARED[k].codec
    ensures DECLARED[k].token.Some? ==> LookupToken(t, DECLARED[k].token.value) == DECLARED[k].codec
  {
    forall i | 0 <= i < k ensures DECLARED[i].name != DECLARED[k].name && !SameToken(DECLARED[i].token, DECLARED[k].token) {
      DeclaredApart(i, k);
    }
    assert DECLARED[k].codec != NONE;
    hide DECLARED, DeclaredName, DeclaredToken, Lower;
    FirstName(DECLARED, k, DECLARED[k].name);
    if DECLARED[k].token.Some? {
      FirstToken(DECLARED, k, DECLARED[k].token.value);
    }
  }

  /** Whatever is registered, these names and tokens are these codecs, */
  lemma DeclaredTable(t: seq<Vtable>)
    ensures LookupName(t, "identity") == 1 && LookupName(t, "deflate-raw") == 2 && LookupName(t, "zlib") == 3
    ensures LookupName(t, "gzip") == 4 && LookupName(t, "brotli") == 16 && LookupName(t, "zstd") == 17
    ensures LookupName(t, "lz4-frame") == 18 && LookupName(t, "lz4-block") == 19
    ensures LookupName(t, "snappy-frame") == 20 && LookupName(t, "snappy-raw") == 21
    ensures LookupToken(t, "identity") == 1 && LookupToken(t, "deflate") == 3 && LookupToken(t, "gzip") == 4
    ensures LookupToken(t, "br") == 16 && LookupToken(t, "zstd") == 17
  {
    hide LookupName, LookupToken;
    forall k | 0 <= k < |DECLARED|
      ensures LookupName(t, DECLARED[k].name) == DECLARED[k].codec
      ensures DECLARED[k].token.Some? ==> LookupToken(t, DECLARED[k].token.value) == DECLARED[k].codec
    {
      DeclaredIsFound(t, k);
    }
    var d := DECLARED;
    assert d[0] == Decl(1, "identity", Some("identity")) && d[1].name == "deflate-raw" && d[1].codec == 2;
    assert d[2] == Decl(3, "zlib", Some("deflate")) && d[3] == Decl(4, "gzip", Some("gzip")) && d[4] == Decl(16, "brotli", Some("br"));
    assert d[5] == Decl(17, "zstd", Some("zstd")) && d[6].name == "lz4-frame" && d[7].name == "lz4-block";
    assert d[8].name == "snappy-frame" && d[9].name == "snappy-raw";
  }

  /** and so is a token in any case. */
  lemma {:induction false} CaseDoesNotShow(t: seq<Vtable>, ds: seq<Decl>, a: string, b: string)
    requires SameToken(Some(a), Some(b))
    ensures DeclaredToken(ds, a) == DeclaredToken(ds, b) && RegisteredToken(t, a) == RegisteredToken(t, b)
    decreases |t| + |ds|
  {
    hide Lower;
    if ds != [] {
      CaseDoesNotShow(t, ds[1..], a, b);
    } else if t != [] {
      CaseDoesNotShow(t[1..], ds, a, b);
    }
  }

  lemma TokenInAnyCase(t: seq<Vtable>, a: string, b: string)
    requires SameToken(Some(a), Some(b))
    ensures LookupToken(t, a) == LookupToken(t, b)
  {
    hide Lower;
    CaseDoesNotShow(t, DECLARED, a, b);
  }

  // ---- The codecs that come with it --------------------------------------------------------

  function Builtin(codec: uint32, name: string, token: Option<string>, magic: seq<byte>, sniff: Option<seq<byte> -> bool>): (v: Vtable) {
    Vtable(codec, Some(name), token, true, true, true, magic, 0, sniff)
  }

  /** zu_int_register_builtin_codecs, in order; `sniff` is zlib's predicate. */
  function Builtins(sniff: seq<byte> -> bool): (vs: seq<Vtable>)
    ensures |vs| == 7
  {
    [Builtin(1, "identity", Some("identity"), [], None), Builtin(2, "deflate-raw", None, [], None),
     Builtin(3, "zlib", Some("deflate"), [], Some(sniff)), Builtin(4, "gzip", Some("gzip"), [0x1F, 0x8B], None),
     Builtin(17, "zstd", Some("zstd"), [0x28, 0xB5, 0x2F, 0xFD], None),
     Builtin(18, "lz4-frame", None, [0x04, 0x22, 0x4D, 0x18], None), Builtin(19, "lz4-block", None, [], None)]
  }

  /** The declared identity a vtable stands for, word for word. */
  predicate Stands(v: Vtable, d: Decl) {
    v.codec == d.codec && v.name == Some(d.name) && v.token == d.token
  }

  lemma DeclaredApart(i: nat, j: nat)
    requires i < |DECLARED| && j < |DECLARED| && i != j
    ensures DECLARED[i].codec != DECLARED[j].codec && DECLARED[i].name != DECLARED[j].name
    ensures !SameToken(DECLARED[i].token, DECLARED[j].token)
  {
    hide Lower;
    IdsApart(i, j);
    NamesApart(i, j);
    var a, b := DECLARED[i].token, DECLARED[j].token;
    if a.Some? && b.Some? {
      TokensApart(i, j);
      LowerHead(a.value);
      LowerHead(b.value);
    }
  }

  lemma LowerHead(s: string)
    requires s != []
    ensures Lower(s) != [] && Lower(s)[0] == LowerChar(s[0])
  {
  }

  lemma IdsApart(i: nat, j: nat)
    requires i < |DECLARED| && j < |DECLARED| && i != j
    ensures DECLARED[i].codec != DECLARED[j].codec
  {
  }

  /** Length, first and last letter tell the declared names apart. */
  lemma NamesApart(i: nat, j: nat)
    requires i < |DECLARED| && j < |DECLARED| && i != j
    ensures DECLARED[i].name != DECLARED[j].name
  {
    var a, b := DECLARED[i].name, DECLARED[j].name;
    assert |a| != |b| || a[0] != b[0] || a[|a| - 1] != b[|b| - 1];
  }

  /** First letters tell the declared tokens apart. */
  lemma TokensApart(i: nat, j: nat)
    requires i < |DECLARED| && j < |DECLARED| && i != j && DECLARED[i].token.Some? && DECLARED[j].token.Some?
    ensures var a, b := DECLARED[i].token.value, DECLARED[j].token.value;
            a != [] && b != [] && LowerChar(a[0]) != LowerChar(b[0])
  {
  }

  lemma StandsGood(v: Vtable, k: nat)
    requires k < |DECLARED| && Stands(v, DECLARED[k])
    ensures GoodIdentity(v)
  {
    assert DECLARED[k].codec != NONE;
    forall i | 0 <= i < |DECLARED| ensures AgreesWith(v, DECLARED[i]) {
      if i != k {
        DeclaredApart(i, k);
      }
    }
  }

  /** Different identities go in, whatever the order. */
  lemma {:induction false} DistinctAreAccepted(t: seq<Vtable>, vs: seq<Vtable>)
    requires |t| + |vs| <= CAP && Apart(t, vs)
    ensures Accepted(t, vs) == t + vs
    decreases |vs|
  {
    if vs == [] {
      assert t + vs == t;
    } else {
      hide *;
      AcceptsFirst(t, vs);
      StillApart(t, vs);
      DistinctAreAccepted(t + [vs[0]], vs[1..]);
    }
  }

  /** Each is welcome, and no two clash. */
  predicate Apart(t: seq<Vtable>, vs: seq<Vtable>) {
    && (forall i :: 0 <= i < |vs| ==> Welcome(t, vs[i]))
    && forall i, j :: 0 <= i < j < |vs| ==> Distinct(vs[i], vs[j])
  }

  lemma StillApart(t: seq<Vtable>, vs: seq<Vtable>)
    requires vs != [] && Apart(t, vs)
    ensures Welcome(t, vs[0]) && Apart(t + [vs[0]], vs[1..])
  {
    forall i | 0 <= i < |vs| - 1 ensures Welcome(t + [vs[0]], vs[1..][i]) {
      StillWelcome(t, vs[0], vs[i + 1]);
    }
    hide Welcome, Distinct;
  }

  lemma AcceptsFirst(t: seq<Vtable>, vs: seq<Vtable>)
    requires vs != [] && Apart(t, vs) && |t| < CAP
    ensures Accepted(t, vs) == Accepted(t + [vs[0]], vs[1..]) && t + [vs[0]] + vs[1..] == t + vs
  {
    hide Welcome;
  }

  lemma StillWelcome(t: seq<Vtable>, v: Vtable, w: Vtable)
    requires Welcome(t, w) && Distinct(v, w)
    ensures Welcome(t + [v], w)
  {
    hide GoodIdentity, Distinct;
  }

  /** All seven built-in codecs are accepted and stay. */
  lemma BuiltinsAreAccepted(sniff: seq<byte> -> bool)
    ensures Accepted([], Builtins(sniff)) == Builtins(sniff) && Sound(Builtins(sniff))
  {
    var vs := Builtins(sniff);
    hide SameToken, AgreesWith, GoodIdentity, Builtins;
    forall i, j | 0 <= i < 7 && 0 <= j < 7 ensures Welcome([], vs[i]) && (i < j ==> Distinct(vs[i], vs[j])) {
      BuiltinStands(sniff, i);
      BuiltinStands(sniff, j);
      StandsGood(vs[i], Place(i));
      if i < j {
        DeclaredApart(Place(i), Place(j));
      }
    }
    DistinctAreAccepted([], vs);
    AcceptedIsSound([], vs);
    assert [] + vs == vs;
  }

  /** Where a built-in codec's identity is declared. */
  function Place(i: nat): (k: nat)
    requires i < 7
    ensures k < |DECLARED|
  {
    if i < 4 then i else i + 1
  }

  lemma BuiltinStands(sniff: seq<byte> -> bool, i: nat)
    requires i < 7
    ensures var v := Builtins(sniff)[i]; Stands(v, DECLARED[Place(i)]) && v.name.Some? && v.hasSource && v.longEnough && v.complete
  {
  }
}
