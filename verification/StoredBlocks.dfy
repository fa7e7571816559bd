/** A small real tinfl: DEFLATE restricted to stored blocks (section 3.2.4 of
    RFC 1951), resumable at any byte. It is as MzInflate assumes, so behind
    mz_inflate() it keeps the contract of Inflate. */
module StoredBlocks {
  import opened Zu
  import opened Checksum
  import opened Inflate
  import opened MzInflate

  /** Collecting a block's five header bytes, copying its data, or over. */
  datatype St = Head(h: seq<byte>) | Copy(left: nat, final: bool) | Finished | Failed

  /** After `left` more bytes of a block. */
  function Within(left: nat, final: bool): (s: St) {
    if left > 0 then Copy(left, final) else if final then Finished else Head([])
  }

  /** BFINAL, BTYPE = 00, five bits skipped, LEN and its complement. */
  function Push(h: seq<byte>, b: byte): (s: St) {
    var h1 := h + [b];
    if |h1| < 5 then Head(h1)
    else if |h1| == 5 && h1[0] / 2 % 4 == 0 && Le16(h1[1..3]) + Le16(h1[3..5]) == 0xFFFF
    then Within(Le16(h1[1..3]), h1[0] % 2 == 1)
    else Failed
  }

  /** One byte in, and the byte out, if there is one. */
  function Eat(s: St, b: byte): (r: (St, seq<byte>)) {
    match s
    case Head(h) => (Push(h, b), [])
    case Copy(left, final) => (if left > 0 then Within(left - 1, final) else Failed, [b])
    case _ => (s, [])
  }

  /** May the next byte be taken, with `space` left? */
  predicate Ready(s: St, space: nat) {
    s.Head? || (s.Copy? && space > 0)
  }

  function Step(s: St, w: seq<byte>, space: nat, more: bool): (t: TTurn<St>)
    ensures t.used <= |w| && |t.out| <= space
    decreases |w|
  {
    if s == Finished then TTurn(s, 0, [], TDone)
    else if s == Failed then TTurn(s, 0, [], TFailed)
    else if !Ready(s, space) then TTurn(s, 0, [], TMoreOutput)
    else if w == [] then TTurn(s, 0, [], if more then TNeedInput else TFailed)
    else
      var e := Eat(s, w[0]);
      var t := Step(e.0, w[1..], space - |e.1|, more);
      TTurn(t.next, 1 + t.used, e.1 + t.out, t.status)
  }

  function Residual(s: St, rest: seq<byte>): (i: Inf)
    ensures i.InfEnd? ==> i.used <= |rest|
    decreases |rest|
  {
    if s == Finished then InfEnd([], 0)
    else if s == Failed then InfBad([], {ErrInvalidData})
    else if rest == [] then InfCut([])
    else
      var e := Eat(s, rest[0]);
      PrependInf(e.1, 1, Residual(e.0, rest[1..]))
  }

  const StoredTinfl: Tinfl<St> :=
    Tinfl(Head([]), (s: St, w: seq<byte>, space: nat, more: bool) => Step(s, w, space, more))

  const StoredTinflSem: TinflSem<St> :=
    TinflSem((s: St) => true, (s: St, rest: seq<byte>) => Residual(s, rest))

  const StoredEngine: Engine<Mz<St>> := MzEngine(StoredTinfl)

  const StoredSem: EngineSem<Mz<St>> := MzSem(StoredTinflSem)

  ghost predicate Agrees(t: TTurn<St>, i: Inf, w: seq<byte>, tail: seq<byte>, space: nat, more: bool)
    requires t.used <= |w|
  {
    match t.status
    case TDone => i == InfEnd(t.out, t.used)
    case TFailed => i == InfBad(t.out, {ErrInvalidData}) || (!more && (tail == [] ==> i == InfCut(t.out)))
    case _ =>
      && i == PrependInf(t.out, t.used, Residual(t.next, w[t.used..] + tail))
      && if t.status == TMoreOutput then |t.out| == space
         else more && t.used == |w| && Residual(t.next, []) == InfCut([])
  }

  /** One byte of both. */
  lemma EatsOne(s: St, w: seq<byte>, tail: seq<byte>, space: nat, more: bool)
    requires w != [] && Ready(s, space)
    ensures var e, v := Eat(s, w[0]), w[1..];
            && |e.1| <= space
            && var t := Step(e.0, v, space - |e.1|, more);
               && Step(s, w, space, more) == TTurn(t.next, 1 + t.used, e.1 + t.out, t.status)
               && Residual(s, w + tail) == PrependInf(e.1, 1, Residual(e.0, v + tail))
  {
    hide Eat;
    assert (w + tail)[0] == w[0] && (w + tail)[1..] == w[1..] + tail;
    EatFits(s, w[0], space);
  }

  lemma StandsStill(s: St, w: seq<byte>, tail: seq<byte>, space: nat, more: bool)
    requires w == [] || !Ready(s, space)
    ensures Agrees(Step(s, w, space, more), Residual(s, w + tail), w, tail, space, more)
  {
    assert w[0..] == w;
    PrependInfNothing(Residual(s, w + tail));
  }

  lemma {:induction false} StepIsResidual(s: St, w: seq<byte>, tail: seq<byte>, space: nat, more: bool)
    ensures Agrees(Step(s, w, space, more), Residual(s, w + tail), w, tail, space, more)
    decreases |w|
  {
    hide Eat, Step, Residual;
    if w == [] || !Ready(s, space) {
      StandsStill(s, w, tail, space, more);
    } else {
      var e, v := Eat(s, w[0]), w[1..];
      EatsOne(s, w, tail, space, more);
      var t := Step(e.0, v, space - |e.1|, more);
      StepIsResidual(e.0, v, tail, space - |e.1|, more);
      assert v[t.used..] == w[1 + t.used..];
      PrependInfTwice(e.1, 1, t.out, t.used, Residual(t.next, v[t.used..] + tail));
    }
  }

  lemma EatFits(s: St, b: byte, space: nat)
    requires Ready(s, space)
    ensures |Eat(s, b).1| <= space && (s.Head? ==> Eat(s, b).1 == [])
  {
  }

  /** What is assumed of tinfl_decompress() can be met, */
  lemma StoredTinflKeeps()
    ensures TinflKeeps(StoredTinfl, StoredTinflSem)
  {
    forall s: St, w: seq<byte>, tail: seq<byte>, space: nat, more: bool
      ensures TStepKeeps(StoredTinfl, StoredTinflSem, s, w, tail, space, more)
    {
      StepIsResidual(s, w, tail, space, more);
      assert w[|w|..] + tail == tail;
    }
  }

  /** and so can the contract assumed of an engine. */
  lemma StoredEngineKeeps()
    ensures EngineKeeps(StoredEngine, StoredSem)
  {
    StoredTinflKeeps();
    MzKeeps(StoredTinfl, StoredTinflSem);
  }

  /** What follows a finished stream does not matter to it. */
  lemma {:induction false} ResidualStops(s: St, z: seq<byte>, t: seq<byte>)
    requires Residual(s, z).InfEnd?
    ensures var i := Residual(s, z); Residual(s, z[..i.used] + t) == i
    decreases |z|
  {
    hide Eat;
    var i := Residual(s, z);
    if s != Finished {
      var p := z[..i.used] + t;
      ResidualStops(Eat(s, z[0]).0, z[1..], t);
      assert p[0] == z[0] && p[1..] == z[1..][..i.used - 1] + t;
    }
  }

  /** A stream that ends further on is cut short before. */
  lemma {:induction false} ResidualOfPrefix(s: St, z: seq<byte>, k: nat)
    requires Residual(s, z).InfEnd? && k < Residual(s, z).used
    ensures Residual(s, z[..k]).InfCut? && |Residual(s, z[..k]).out| <= k
    ensures s.Head? && k > 0 ==> |Residual(s, z[..k]).out| < k
    decreases |z|
  {
    if k > 0 {
      var e := Eat(s, z[0]);
      assert z[..k][0] == z[0] && z[..k][1..] == z[1..][..k - 1];
      hide Eat;
      ResidualOfPrefix(e.0, z[1..], k - 1);
      EatFits(s, z[0], 1);
    }
  }

  /** `data` as one or more stored blocks, the last marked final. */
  function Store(data: seq<byte>): (z: seq<byte>)
    decreases |data|
  {
    var n := Min(|data|, 0xFFFF);
    [if n == |data| then 1 else 0] + ToLe16(n) + ToLe16(0xFFFF - n) + data[..n] +
    if n == |data| then [] else Store(data[n..])
  }

  lemma {:induction false} StoreIsLonger(data: seq<byte>)
    ensures |Store(data)| >= |data| + 5
    decreases |data|
  {
    if |data| > 0xFFFF {
      StoreIsLonger(data[0xFFFF..]);
    }
  }

  /** Inflating what was stored gives it back, and ends where it ended. */
  lemma {:induction false} StoreInflates(data: seq<byte>, t: seq<byte>)
    ensures Residual(Head([]), Store(data) + t) == InfEnd(data, |Store(data)|)
    decreases |data|
  {
    var n := Min(|data|, 0xFFFF);
    var last := n == |data|;
    var h := [if last then 1 else 0] + ToLe16(n) + ToLe16(0xFFFF - n);
    var more := if last then [] else Store(data[n..]);
    var z := data[..n] + (more + t);
    assert Store(data) + t == h + z;
    HeadResidual(h, n, last, z);
    CopyResidual(data[..n], last, more + t);
    if last {
      assert data[..n] == data && [] + t == t;
      PrependInfTwice([], 5, data, n, InfEnd([], 0));
      assert [] + data == data && data + [] == data;
    } else {
      StoreInflates(data[n..], t);
      PrependInfTwice([], 5, data[..n], n, InfEnd(data[n..], |more|));
      assert [] + data[..n] + data[n..] == data;
    }
  }

  /** `data` as stored blocks none of which is final, the last of them empty: a
      sync flush. */
  function OpenStore(data: seq<byte>): (z: seq<byte>)
    decreases |data|
  {
    var n := Min(|data|, 0xFFFF);
    OpenBlock(data[..n]) + if data == [] then [] else OpenStore(data[n..])
  }

  /** It inflates to the data, and the stream goes on. */
  lemma {:induction false} OpenStoreInflates(data: seq<byte>, t: seq<byte>)
    ensures Residual(Head([]), OpenStore(data) + t) == PrependInf(data, |OpenStore(data)|, Residual(Head([]), t))
    decreases |data|
  {
    hide Residual, ToLe16;
    var n := Min(|data|, 0xFFFF);
    var b, p, rest := OpenBlock(data[..n]), data[..n], data[n..];
    if data == [] {
      OpenBlockInflates(p, t);
      assert OpenStore(data) == b && p == data;
    } else {
      var more := OpenStore(rest);
      assert OpenStore(data) == b + more && p + rest == data;
      hide OpenStore, Min;
      assert b + more + t == b + (more + t);
      OpenBlockInflates(p, more + t);
      OpenStoreInflates(rest, t);
      PrependInfTwice(p, |b|, rest, |more|, Residual(Head([]), t));
    }
  }

  function OpenBlock(p: seq<byte>): (z: seq<byte>)
    requires |p| <= 0xFFFF
  {
    [0] + ToLe16(|p|) + ToLe16(0xFFFF - |p|) + p
  }

  lemma OpenBlockInflates(p: seq<byte>, t: seq<byte>)
    requires |p| <= 0xFFFF
    ensures Residual(Head([]), OpenBlock(p) + t) == PrependInf(p, |OpenBlock(p)|, Residual(Head([]), t))
  {
    hide Residual, ToLe16;
    var h := [0] + ToLe16(|p|) + ToLe16(0xFFFF - |p|);
    assert OpenBlock(p) + t == h + (p + t) && [] + p == p;
    HeadResidual(h, |p|, false, p + t);
    CopyResidual(p, false, t);
    PrependInfTwice([], 5, p, |p|, Residual(Head([]), t));
  }

  /** Of a stream cut short a beginning is cut short no later. */
  lemma {:induction false} ResidualGrows(s: St, a: seq<byte>, b: seq<byte>)
    requires Residual(s, a + b).InfCut?
    ensures Residual(s, a).InfCut? && Residual(s, a).out <= Residual(s, a + b).out
    decreases |a|
  {
    hide Eat;
    if s != Finished && s != Failed && a != [] {
      assert (a + b)[0] == a[0] && (a + b)[1..] == a[1..] + b;
      ResidualGrows(Eat(s, a[0]).0, a[1..], b);
    }
  }

  lemma HeadResidual(h: seq<byte>, n: uint16, last: bool, z: seq<byte>)
    requires h == [if last then 1 else 0] + ToLe16(n) + ToLe16(0xFFFF - n)
    ensures Residual(Head([]), h + z) == PrependInf([], 5, Residual(Within(n, last), z))
  {
    hide Le16, ToLe16;
    var p, b := h[..4], h[4];
    assert h + z == p + ([b] + z) && [] + p == p;
    HeadBytes([], p, [b] + z);
    HeadByte(p, b, z);
    assert p + [b] == h && h[1..3] == ToLe16(n) && h[3..5] == ToLe16(0xFFFF - n);
    PrependInfTwice([], 4, [], 1, Residual(Within(n, last), z));
  }

  lemma {:induction false} HeadBytes(p: seq<byte>, q: seq<byte>, z: seq<byte>)
    requires |p| + |q| < 5
    ensures Residual(Head(p), q + z) == PrependInf([], |q|, Residual(Head(p + q), z))
    decreases |q|
  {
    if q == [] {
      assert q + z == z && p + q == p;
      PrependInfNothing(Residual(Head(p), z));
    } else {
      assert q + z == [q[0]] + (q[1..] + z) && p + [q[0]] + q[1..] == p + q;
      HeadByte(p, q[0], q[1..] + z);
      HeadBytes(p + [q[0]], q[1..], z);
      PrependInfTwice([], 1, [], |q| - 1, Residual(Head(p + q), z));
    }
  }

  lemma HeadByte(p: seq<byte>, b: byte, z: seq<byte>)
    ensures Residual(Head(p), [b] + z) == PrependInf([], 1, Residual(Push(p, b), z))
  {
    assert ([b] + z)[1..] == z;
  }

  lemma {:induction false} CopyResidual(data: seq<byte>, last: bool, z: seq<byte>)
    ensures Residual(Within(|data|, last), data + z) ==
            PrependInf(data, |data|, Residual(if last then Finished else Head([]), z))
    decreases |data|
  {
    if data == [] {
      assert data + z == z;
      PrependInfNothing(Residual(if last then Finished else Head([]), z));
    } else {
      assert (data + z)[1..] == data[1..] + z;
      CopyResidual(data[1..], last, z);
      PrependInfTwice([data[0]], 1, data[1..], |data| - 1, Residual(if last then Finished else Head([]), z));
      assert [data[0]] + data[1..] == data;
    }
  }
}
