/** Matches (section 3.2.5 of RFC 1951, and the LZ4 block format): a copy of
    bytes already put out, which may overlap its own output. */
module Lz77 {
  import opened Zu

  /** `h` and `n` more bytes, each the one `dist` places before it. */
  function Copied(h: seq<byte>, dist: nat, n: nat): (r: seq<byte>)
    requires 1 <= dist <= |h|
    ensures |r| == |h| + n
    decreases n
  {
    if n == 0 then h else Copied(h + [h[|h| - dist]], dist, n - 1)
  }

  /** A match leaves the history alone and is read `dist` back throughout,
      its own bytes included: a distance below the length repeats. */
  lemma {:induction false} CopiedReads(h: seq<byte>, dist: nat, n: nat)
    requires 1 <= dist <= |h|
    ensures h <= Copied(h, dist, n)
    ensures forall i :: |h| <= i < |h| + n ==> Copied(h, dist, n)[i] == Copied(h, dist, n)[i - dist]
    decreases n
  {
    if n > 0 {
      var h1 := h + [h[|h| - dist]];
      CopiedReads(h1, dist, n - 1);
      assert Copied(h, dist, n)[|h|] == h1[|h|] && Copied(h, dist, n)[|h| - dist] == h1[|h| - dist];
    }
  }

  /** Interrupted anywhere, a match goes on from where it was. */
  lemma {:induction false} CopiedTwice(h: seq<byte>, dist: nat, n: nat, m: nat)
    requires 1 <= dist <= |h|
    ensures Copied(Copied(h, dist, n), dist, m) == Copied(h, dist, n + m)
    decreases n
  {
    if n > 0 {
      CopiedTwice(h + [h[|h| - dist]], dist, n - 1, m);
    }
  }
}
