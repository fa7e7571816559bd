/** Checked size arithmetic (src/zu_buf.c) and the growing sink that uses it
    (zu_int_reserve in src/zu_whole.c). None is ZU_ERR_MEMORY. */
module Sizes {
  import opened Zu

  const MIN_BUFFER: int := 4096

  function Add(a: size_t, b: size_t): (r: Option<size_t>)
    ensures r == if a + b <= SIZE_MAX then Some(a + b) else None
  {
    if b > SIZE_MAX - a then None else Some(a + b)
  }

  /** The guard divides instead of multiplying, and misses nothing. */
  function Mul(a: size_t, b: size_t): (r: Option<size_t>)
    ensures r == if a * b <= SIZE_MAX then Some(a * b) else None
  {
    if a == 0 then Some(0)
    else
      var q := SIZE_MAX / a;
      assert q * a <= SIZE_MAX < (q + 1) * a;
      if b > q then
        assert b * a >= (q + 1) * a;
        None
      else
        assert b * a <= q * a;
        Some(a * b)
  }

  /** Next capacity for a buffer of `current` bytes that needs `needed` more. */
  function Grow(current: size_t, needed: size_t): (r: Option<size_t>)
    ensures r.None? <==> current + needed > SIZE_MAX
    ensures r.Some? ==> r.value >= current + needed && r.value >= MIN_BUFFER
    ensures r.Some? && 2 * current <= SIZE_MAX ==> r.value >= 2 * current
    ensures r.Some? ==> r.value == current + needed || r.value == 4096 || (r.value == 2 * current <= SIZE_MAX)
  {
    match Add(current, needed)
    case None => None
    case Some(required) =>
      var doubled := match Mul(current, 2)
                     case None => required
                     case Some(d) => d;
      Some(Max(Max(doubled, required), MIN_BUFFER))
  }

  function Sum(s: seq<size_t>): (r: nat) {
    if s == [] then 0 else Sum(s[..|s| - 1]) + s[|s| - 1]
  }

  ghost predicate GrowsTo(a: size_t, b: size_t) {
    exists needed: size_t {:trigger Grow(a, needed)} :: Grow(a, needed) == Some(b)
  }

  /** Capacities a buffer went through, each the growth of the one before. */
  ghost predicate GrowthRun(caps: seq<size_t>) {
    if |caps| <= 1 then caps == [0]
    else
      var last := |caps| - 1;
      GrowthRun(caps[..last]) && GrowsTo(caps[last - 1], caps[last])
  }

  /** While nothing passes half the address space, all the blocks ever given
      up add up to no more than the last: copying is linear in the output. */
  lemma {:induction false} SupersededIsLinear(caps: seq<size_t>)
    requires GrowthRun(caps) && 2 * caps[|caps| - 1] <= SIZE_MAX
    ensures Sum(caps[..|caps| - 1]) <= caps[|caps| - 1]
    decreases |caps|
  {
    if |caps| > 1 {
      var front := caps[..|caps| - 1];
      assert front[..|front| - 1] == caps[..|caps| - 2];
      SupersededIsLinear(front);
    }
  }

  /** zu_int_outbuf, without its owner. */
  class Sink {
    var buf: array<byte>
    var used: nat
    ghost var caps: seq<size_t>

    ghost predicate Valid()
      reads this
    {
      && used <= buf.Length <= SIZE_MAX
      && GrowthRun(caps) && caps[|caps| - 1] == buf.Length
    }

    ghost function Contents(): (s: seq<byte>)
      requires Valid()
      reads this, buf
    {
      buf[..used]
    }

    constructor ()
      ensures Valid() && Contents() == [] && fresh(buf)
    {
      buf, used, caps := new byte[0], 0, [0];
    }

    /** The copying half of realloc. */
    method Enlarged(size: size_t) returns (bigger: array<byte>)
      requires used <= buf.Length && used <= size
      ensures fresh(bigger) && bigger.Length == size && bigger[..used] == buf[..used]
    {
      bigger := new byte[size];
      for i := 0 to used
        invariant bigger[..i] == buf[..i]
      {
        bigger[i] := buf[i];
      }
    }

    /** Room for `extra` more bytes, or ZU_ERR_MEMORY and nothing changed:
        exactly when the size asked for does not exist. */
    method Reserve(extra: size_t) returns (st: Status)
      requires Valid()
      modifies this
      ensures Valid() && Contents() == old(Contents()) && used == old(used)
      ensures st == if used + extra <= SIZE_MAX then Ok else ErrMemory
      ensures st == Ok ==> used + extra <= buf.Length
      ensures st != Ok ==> unchanged(this)
      ensures old(caps) <= caps
      ensures buf == old(buf) || fresh(buf)
    {
      var needed := Add(used, extra);
      if needed == None {
        return ErrMemory;
      }
      if needed.value <= buf.Length {
        return Ok;
      }
      var next := Grow(buf.Length, needed.value - buf.Length);
      var bigger := Enlarged(next.value);
      assert (caps + [next.value])[..|caps|] == caps;
      assert GrowsTo(caps[|caps| - 1], next.value);
      caps := caps + [next.value];
      buf := bigger;
      return Ok;
    }
  }
}
