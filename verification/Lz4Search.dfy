/** The search for the size of a block nobody told it the size of:
    zu_int_lz4b_search in src/codec_lz4.c. */
module Lz4Search {
  import opened Zu
  import opened Sizes
  import opened Lz4Format

  datatype Search = Search(found: Option<seq<byte>>, status: Status, passes: nat, cap: nat)

  /** What the format can produce from `n` bytes, within an int. */
  function FormatCeiling(n: size_t): (c: nat)
    ensures c == if 255 * n + 64 <= INT_MAX then 255 * n + 64 else INT_MAX
  {
    match Mul(n, 255)
    case None => INT_MAX
    case Some(m) =>
      match Add(m, 64)
      case None => INT_MAX
      case Some(c) => if c > INT_MAX then INT_MAX else c
  }

  /** Is max_output what stops the search? */
  predicate Limited(n: size_t, maxOutput: uint64) {
    maxOutput != 0 && maxOutput < FormatCeiling(n)
  }

  function SearchCeiling(n: size_t, maxOutput: uint64): (c: nat) {
    if Limited(n, maxOutput) then maxOutput else FormatCeiling(n)
  }

  function FirstCap(n: size_t, ceiling: nat): (cap: nat) {
    Min(Max(n * 4, 4096), ceiling)
  }

  /** From a capacity on: try it, ask how far the block goes, grow by four. */
  function SearchFrom(l: Lib, z: seq<byte>, cap: nat, ceiling: nat, limited: bool): (r: Search)
    requires cap <= ceiling && (cap == 0 ==> ceiling == 0)
    ensures r.found == None ==> r.status == ErrInvalidData || (r.status == ErrOutputLimit && limited)
    decreases ceiling - cap
  {
    if l.safe(z, cap).Some? then Search(l.safe(z, cap), Ok, 1, cap)
    else if l.partial(z, cap) == None || |l.partial(z, cap).value| < cap then Search(None, ErrInvalidData, 1, cap)
    else if cap >= ceiling then Search(None, if limited then ErrOutputLimit else ErrInvalidData, 1, cap)
    else
      var r := SearchFrom(l, z, if cap > ceiling / 4 then ceiling else cap * 4, ceiling, limited);
      r.(passes := 1 + r.passes)
  }

  function Sought(l: Lib, z: seq<byte>, maxOutput: uint64): (r: Search)
    requires 0 < |z| <= MAX_INPUT
    ensures r.found == None ==> r.status == ErrInvalidData || (r.status == ErrOutputLimit && maxOutput != 0)
  {
    var ceiling := SearchCeiling(|z|, maxOutput);
    SearchFrom(l, z, FirstCap(|z|, ceiling), ceiling, Limited(|z|, maxOutput))
  }

  /** The loop of zu_int_lz4b_search. */
  method FindSize(l: Lib, z: seq<byte>, maxOutput: uint64) returns (found: Option<seq<byte>>, st: Status)
    requires 0 < |z| <= MAX_INPUT
    ensures found == Sought(l, z, maxOutput).found && st == Sought(l, z, maxOutput).status
  {
    var n := |z|;
    var ceiling, limited := FormatCeiling(n), false;
    if maxOutput != 0 && maxOutput < ceiling {
      ceiling, limited := maxOutput, true;
    }
    var cap := n * 4;
    if cap < 4096 {
      cap := 4096;
    }
    if cap > ceiling {
      cap := ceiling;
    }
    while true
      invariant cap <= ceiling && (cap == 0 ==> ceiling == 0)
      invariant var r, here := Sought(l, z, maxOutput), SearchFrom(l, z, cap, ceiling, limited);
                r.found == here.found && r.status == here.status
      decreases ceiling - cap
    {
      var r := l.safe(z, cap);
      if r.Some? {
        return r, Ok;
      }
      var p := l.partial(z, cap);
      if p == None || |p.value| < cap {
        return None, ErrInvalidData;
      }
      if cap >= ceiling {
        return None, if limited then ErrOutputLimit else ErrInvalidData;
      }
      cap := if cap > ceiling / 4 then ceiling else cap * 4;
    }
  }

  // ---- What it finds ------------------------------------------------------------------

  /** Whatever is found is what the block expands to, within the ceiling. */
  lemma {:induction false} SearchFromIsSound(l: Lib, z: seq<byte>, cap: nat, ceiling: nat, limited: bool)
    requires LibKeeps(l) && |z| <= MAX_INPUT
    requires cap <= ceiling <= INT_MAX && (cap == 0 ==> ceiling == 0)
    ensures var r, d := SearchFrom(l, z, cap, ceiling, limited), Expand(z, []);
            r.found.Some? ==> r.found == d && |d.value| <= ceiling && r.status == Ok
    decreases ceiling - cap
  {
    hide Expand, WellEnded;
    assert DecodesSafely(l, z, cap);
    if l.safe(z, cap) == None && cap < ceiling {
      SearchFromIsSound(l, z, if cap > ceiling / 4 then ceiling else cap * 4, ceiling, limited);
    }
  }

  /** A block that ends as it should and fits under the ceiling is found, at a
      capacity no more than four times its size past the first; one that does
      not fit is refused for that. */
  lemma {:induction false} SearchFromFinds(l: Lib, z: seq<byte>, cap: nat, ceiling: nat, limited: bool)
    requires LibKeeps(l) && |z| <= MAX_INPUT && WellEnded(z)
    requires cap <= ceiling <= INT_MAX && (cap == 0 ==> ceiling == 0)
    ensures var r, d := SearchFrom(l, z, cap, ceiling, limited), Expand(z, []);
            if |d.value| <= ceiling then r.found == d && r.status == Ok && r.cap <= Max(cap, 4 * |d.value|)
            else r.found == None && r.status == if limited then ErrOutputLimit else ErrInvalidData
    decreases ceiling - cap
  {
    hide Expand, Spares;
    assert DecodesSafely(l, z, cap);
    if l.safe(z, cap) == None && cap < ceiling {
      SearchFromFinds(l, z, if cap > ceiling / 4 then ceiling else cap * 4, ceiling, limited);
    }
  }

  function Quadrupled(cap: nat, k: nat): (c: nat)
    decreases k
  {
    if k == 0 then cap else Quadrupled(4 * cap, k - 1)
  }

  lemma {:induction false} SearchFromPasses(l: Lib, z: seq<byte>, cap: nat, ceiling: nat, limited: bool, k: nat)
    requires cap <= ceiling && (cap == 0 ==> ceiling == 0) && Quadrupled(cap, k) >= ceiling
    ensures SearchFrom(l, z, cap, ceiling, limited).passes <= 1 + k
    decreases k
  {
    if k > 0 && cap < ceiling {
      if cap > ceiling / 4 {
        QuadruplesGrow(ceiling, k - 1);
        SearchFromPasses(l, z, ceiling, ceiling, limited, k - 1);
      } else {
        SearchFromPasses(l, z, cap * 4, ceiling, limited, k - 1);
      }
    }
  }

  lemma {:induction false} QuadruplesGrow(cap: nat, k: nat)
    ensures Quadrupled(cap, k) >= cap
    decreases k
  {
    if k > 0 {
      QuadruplesGrow(4 * cap, k - 1);
    }
  }

  /** Whatever the block and the limits, the search takes at most four passes;
      what it finds is what the block expands to, within the limits. */
  lemma SearchIsSound(l: Lib, z: seq<byte>, maxOutput: uint64)
    requires LibKeeps(l) && 0 < |z| <= MAX_INPUT
    ensures var r, d := Sought(l, z, maxOutput), Expand(z, []);
            && r.passes <= 4
            && (r.found.Some? ==>
                  r.found == d && r.status == Ok && |d.value| <= INT_MAX && (maxOutput == 0 || |d.value| <= maxOutput))
  {
    hide SearchFrom, Expand, LibKeeps;
    var n, ceiling := |z|, SearchCeiling(|z|, maxOutput);
    var c := FirstCap(n, ceiling);
    SearchFromIsSound(l, z, c, ceiling, Limited(n, maxOutput));
    assert Quadrupled(c, 3) == 64 * c by { assert Quadrupled(4 * c, 2) == Quadrupled(16 * c, 1) == Quadrupled(64 * c, 0); }
    SearchFromPasses(l, z, c, ceiling, Limited(n, maxOutput), 3);
  }

  /** Main theorem. A block that ends as the format says it should and decodes
      to what an int can count is found exactly when max_output admits it,
      with a buffer no more than four times its size past the first guess;
      over max_output it is refused for that. */
  lemma SearchIsExact(l: Lib, z: seq<byte>, maxOutput: uint64)
    requires LibKeeps(l) && 0 < |z| <= MAX_INPUT && WellEnded(z)
    ensures var r, d := Sought(l, z, maxOutput), Expand(z, []);
            && (r.found.Some? <==> |d.value| <= INT_MAX && (maxOutput == 0 || |d.value| <= maxOutput))
            && (r.found.Some? ==> r.found == d && r.status == Ok && r.cap <= Max(Max(4 * |z|, 4096), 4 * |d.value|))
            && (r.found == None ==>
                  maxOutput != 0 && |d.value| > maxOutput && |d.value| <= INT_MAX ==> r.status == ErrOutputLimit)
  {
    hide SearchFrom, Expand, Spares, LibKeeps;
    var n, ceiling := |z|, SearchCeiling(|z|, maxOutput);
    ExpandIsBounded(z, []);
    SearchFromFinds(l, z, FirstCap(n, ceiling), ceiling, Limited(n, maxOutput));
  }

  /** The condition is not idle. This block of ten bytes does not end as it
      should, and it is found without a limit and refused under a max_output
      of just its size; told that size, the decoder refuses it (ExactRoom
      says which blocks that happens to). */
  lemma TightIsNotFound(a: byte, t: seq<byte>)
    requires |t| == 5
    ensures var z := Tight(a, t);
            && Sought(StrictLib, z, 0).found == Expand(z, []) == Some([a, a, a, a, a] + t)
            && Sought(StrictLib, z, 10).found == None && Sought(StrictLib, z, 10).status == ErrOutputLimit
            && StrictLib.safe(z, 10) == None
  {
    var z := Tight(a, t);
    var d := [a, a, a, a, a] + t;
    TightNeedsRoom(a, t, 2614);
    TightNeedsRoom(a, t, 10);
    hide Expand, Safe;
    assert |d| == 10 && d[..10] == d && FirstCap(10, SearchCeiling(10, 0)) == 2614;
  }
}
