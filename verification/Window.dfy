/** The sliding window of a resumable inflater and its distance check, as
    tools/patches/miniz/0002-validate-match-distance.patch leaves them. */
module Window {
  import opened Zu
  import opened Lz77

  /** TINFL_LZ_DICT_SIZE. */
  const WINDOW: nat := 32768

  datatype Token = Literal(b: byte) | Match(dist: nat, len: nat)

  /** What tokens amount to: everything put out, and whether all were legal.
      No ring, no calls. */
  datatype Played = Played(out: seq<byte>, legal: bool)

  /** Section 3.2.5 of RFC 1951: a distance reaches back no further than the
      output does, nor than the window. */
  predicate LegalDistance(dist: nat, emitted: nat) {
    1 <= dist <= Min(emitted, 32768)
  }

  function Play(h: seq<byte>, ts: seq<Token>): (r: Played)
    ensures h <= r.out
    decreases |ts|
  {
    if ts == [] then Played(h, true)
    else
      match ts[0]
      case Literal(b) => Play(h + [b], ts[1..])
      case Match(dist, len) =>
        if !LegalDistance(dist, |h|) then Played(h, false)
        else
          CopiedReads(h, dist, len);
          Play(Copied(h, dist, len), ts[1..])
  }

  /** With `n` bytes of a match still to copy. */
  function Resume(h: seq<byte>, dist: nat, n: nat, ts: seq<Token>): (r: Played) {
    if n == 0 then Play(h, ts)
    else if 1 <= dist <= |h| then Play(Copied(h, dist, n), ts)
    else Played(h, false)
  }

  /** `(from - dist) & mask` on 64-bit sizes: the wrap of the subtraction does
      not show, the window being a power of two. */
  function Masked(from: nat, dist: nat): (i: nat)
    ensures i < WINDOW && i == (from - dist) % WINDOW
  {
    MaskHidesWrap(from - dist);
    (from - dist) % TWO64 % WINDOW
  }

  lemma MaskHidesWrap(x: int)
    ensures x % TWO64 % WINDOW == x % WINDOW
  {
    var q := x / TWO64;
    assert TWO64 == 0x2_0000_0000_0000 * WINDOW;
    assert x == (q * 0x2_0000_0000_0000) * WINDOW + x % TWO64;
    ModShift(x % TWO64, q * 0x2_0000_0000_0000);
  }

  lemma ModShift(x: int, k: int)
    ensures (k * WINDOW + x) % WINDOW == x % WINDOW
  {
    var r := x % WINDOW;
    assert k * WINDOW + x == (k + x / WINDOW) * WINDOW + r;
  }

  lemma NextPlace(a: int, b: int)
    requires a % WINDOW == b % WINDOW
    ensures (a + 1) % WINDOW == (b + 1) % WINDOW
  {
    ModShift(a % WINDOW + 1, a / WINDOW);
    ModShift(b % WINDOW + 1, b / WINDOW);
  }

  lemma CopiedOne(h: seq<byte>, dist: nat, n: nat)
    requires 1 <= dist <= |h|
    ensures var c := Copied(h, dist, n); Copied(h, dist, n + 1) == c + [c[|c| - dist]]
  {
    CopiedTwice(h, dist, n, 1);
    assert Copied(Copied(h, dist, n), dist, 1) == Copied(h, dist, n) + [Copied(h, dist, n)[|Copied(h, dist, n)| - dist]];
  }

  /** Numbers less than a window apart fall on different places. */
  lemma Apart(a: int, b: int)
    requires a < b < a + WINDOW
    ensures a % WINDOW != b % WINDOW
  {
  }

  class Inflator {
    const ring: array<byte>
    var cur: nat
    var totalOut: uint64
    var inCall: nat
    var from: nat
    var dist: nat
    var counter: nat
    ghost var history: seq<byte>

    /** The ring holds the last window of what was put out, and the carried
        count with the call's own is how much that was. */
    ghost predicate Valid()
      reads this, ring
    {
      && ring.Length == WINDOW && cur <= WINDOW
      && cur % WINDOW == |history| % WINDOW
      && |history| < TWO64 && totalOut + inCall == |history|
      && (counter > 0 ==> LegalDistance(dist, |history|) && from % WINDOW == |history| % WINDOW)
      && forall k :: Max(0, |history| - WINDOW) <= k < |history| ==> ring[k % WINDOW] == history[k]
    }

    /** What this state and the tokens to come amount to. */
    ghost function ToCome(ts: seq<Token>): (r: Played)
      reads this
    {
      Resume(history, dist, counter, ts)
    }

    constructor ()
      ensures Valid() && history == [] && counter == 0 && cur == 0 && inCall == 0
      ensures fresh(ring)
    {
      ring := new byte[WINDOW];
      cur, totalOut, inCall, from, dist, counter, history := 0, 0, 0, 0, 0, 0, [];
    }

    /** The check of the patch: accepts exactly the legal distances, however
        many times the ring has wrapped and however the calls fell. */
    method CheckDistance(d: nat) returns (ok: bool)
      requires Valid()
      ensures ok == LegalDistance(d, |history|)
    {
      var total := totalOut + inCall;
      ok := !(d == 0 || d > Min(total, WINDOW));
    }

    /** The masked read finds the byte put out `dist` places ago. */
    lemma RingReads(f: nat, d: nat)
      requires Valid() && LegalDistance(d, |history|) && f % WINDOW == |history| % WINDOW
      ensures ring[Masked(f, d)] == history[|history| - d]
    {
      var n := |history|;
      assert f - d == (f / WINDOW - n / WINDOW) * WINDOW + (n - d);
      ModShift(n - d, f / WINDOW - n / WINDOW);
    }

    /** One byte out. */
    method Emit(b: byte)
      requires Valid() && cur < WINDOW && |history| + 1 < TWO64 && counter == 0
      modifies this`cur, this`inCall, this`history, ring
      ensures Valid() && history == old(history) + [b]
      ensures cur == old(cur) + 1 && inCall == old(inCall) + 1
    {
      ghost var n := |history|;
      forall k | Max(0, n + 1 - WINDOW) <= k < n ensures k % WINDOW != n % WINDOW {
        Apart(k, n);
      }
      ring[cur] := b;
      history := history + [b];
      cur, inCall := cur + 1, inCall + 1;
    }
  
    /** A match in hand: its source is in the ring. */
    ghost predicate Matching()
      reads this
    {
      LegalDistance(dist, |history|) && from % WINDOW == |history| % WINDOW
    }

    /** One byte of a match. */
    method CopyByte()
      requires Valid() && cur < WINDOW && |history| + 1 < TWO64 && counter == 0 && Matching()
      modifies this`cur, this`inCall, this`history, this`from, ring
      ensures Valid() && Matching() && history == old(history) + [old(history)[|old(history)| - dist]]
      ensures cur == old(cur) + 1 && inCall == old(inCall) + 1
    {
      RingReads(from, dist);
      NextPlace(from, |history|);
      Emit(ring[Masked(from, dist)]);
      from := from + 1;
    }

    /** Copies as much of a match as there is room for; the rest is suspended
        in `left` and taken up by the next call. */
    method CopyBytes(room: nat, len: nat) returns (left: nat)
      requires Valid() && counter == 0 && cur + room <= WINDOW && |history| + room < TWO64 && Matching()
      modifies this`cur, this`inCall, this`history, this`from, ring
      ensures Valid() && Matching() && left == Max(0, len - room)
      ensures history == Copied(old(history), dist, len - left)
      ensures cur == old(cur) + (len - left) && inCall == old(inCall) + (len - left)
    {
      hide Valid;
      left := len;
      while left > 0 && len - left < room
        invariant Valid() && counter == 0 && Matching() && left <= len && len - left <= room
        invariant history == Copied(old(history), dist, len - left)
        invariant cur == old(cur) + (len - left) && inCall == old(inCall) + (len - left)
      {
        CopiedOne(old(history), dist, len - left);
        CopyByte();
        left := left - 1;
      }
    }

    /** Goes on with the match in hand, `left` bytes of it. */
    method Continue(room: nat, len: nat, ghost ts: seq<Token>) returns (left: nat)
      requires Valid() && counter == 0 && cur + room <= WINDOW && |history| + room < TWO64 && Matching() && len > 0
      modifies this`cur, this`inCall, this`history, this`from, ring
      ensures Valid() && (left > 0 ==> Matching() && len - left == room) && left <= len && len - left <= room
      ensures Resume(history, dist, left, ts) == Resume(old(history), dist, len, ts)
      ensures old(history) <= history && |history| == old(|history|) + (len - left)
      ensures cur == old(cur) + (len - left) && inCall == old(inCall) + (len - left)
    {
      left := CopyBytes(room, len);
      CopiedTwice(old(history), dist, len - left, left);
      CopiedReads(old(history), dist, len - left);
    }

    /** Takes the next token: a literal goes out, a legal match is begun. */
    method Take(ts: seq<Token>, at: nat) returns (ok: bool, len: nat)
      requires Valid() && counter == 0 && at < |ts| && (ts[at].Literal? ==> cur < WINDOW && |history| + 1 < TWO64)
      modifies this`cur, this`inCall, this`history, this`from, this`dist, ring
      ensures Valid() && (len > 0 ==> ok && Matching())
      ensures if ok then Resume(history, dist, len, ts[at + 1..]) == Play(old(history), ts[at..])
              else Play(old(history), ts[at..]) == Played(history, false)
      ensures var n := if ts[at].Literal? then 1 else 0;
              && old(history) <= history && |history| == old(|history|) + n
              && cur == old(cur) + n && inCall == old(inCall) + n
    {
      ghost var todo := ts[at..];
      assert todo[0] == ts[at] && todo[1..] == ts[at + 1..];
      match ts[at]
      case Literal(b) =>
        Emit(b);
        return true, 0;
      case Match(d, n) =>
        var legal := CheckDistance(d);
        if !legal {
          return false, 0;
        }
        dist, from := d, cur;
        return true, n;
    }

    /** One call of tinfl_decompress as mz_inflate makes it: into what is left
        of the ring, resuming a match cut short. The tokens amount to what
        they did before the call, so nothing depends on where calls end; and
        it stops only when the room or the tokens are used up. */
    method Call(ts: seq<Token>, at: nat, room: nat) returns (at': nat, ok: bool)
      requires Valid() && inCall == 0 && cur < WINDOW && cur + room <= WINDOW && |history| + room < TWO64
      requires at <= |ts|
      modifies this, ring
      ensures Valid() && inCall == 0 && cur < WINDOW && at <= at' <= |ts|
      ensures old(history) <= history && |history| <= old(|history|) + room
      ensures if ok then ToCome(ts[at'..]) == old(ToCome(ts[at..])) else old(ToCome(ts[at..])) == Played(history, false)
      ensures ok ==> |history| == old(|history|) + room || (at' == |ts| && counter == 0)
    {
      hide Valid, Matching, Resume, Play;
      var left := Begin();
      at', ok := at, true;
      ghost var goal, cur0 := Resume(history, dist, left, ts[at..]), cur;
      while true
        invariant Valid() && counter == 0 && at <= at' <= |ts| && inCall <= room
        invariant cur == cur0 + inCall && old(history) <= history && |history| == old(|history|) + inCall
        invariant left > 0 ==> Matching()
        invariant Resume(history, dist, left, ts[at'..]) == goal
        decreases |ts| - at', left
      {
        if left > 0 {
          left := Continue(room - inCall, left, ts[at'..]);
          if left > 0 {
            break;
          }
        }
        NothingInHand(history, dist, ts[at'..]);
        if at' == |ts| || (ts[at'].Literal? && inCall == room) {
          break;
        }
        ok, left := Take(ts, at');
        if !ok {
          left := 0;
          break;
        }
        at' := at' + 1;
      }
      Finish(left);
    }

    lemma NothingInHand(h: seq<byte>, d: nat, ts: seq<Token>)
      ensures Resume(h, d, 0, ts) == Play(h, ts)
    {
    }

    /** The match cut short, taken out of the saved state. */
    method Begin() returns (left: nat)
      requires Valid()
      modifies this`counter
      ensures Valid() && left == old(counter) && counter == 0 && (left > 0 ==> Matching())
    {
      left, counter := counter, 0;
    }

    /** The state saved, the count carried, the ring gone round. */
    method Finish(left: nat)
      requires Valid() && counter == 0 && (left > 0 ==> Matching())
      modifies this`counter, this`totalOut, this`inCall, this`cur
      ensures Valid() && counter == left && inCall == 0 && cur < WINDOW
    {
      counter := left;
      totalOut, inCall := totalOut + inCall, 0;
      if cur == WINDOW {
        cur := 0;
      }
    }
  }

  /** Any number of calls, with any room: together they put out what the
      tokens amount to, and stop exactly at the first illegal distance. */
  method InflateInCalls(ts: seq<Token>, rooms: seq<nat>) returns (w: Inflator, at: nat, ok: bool)
    requires |Play([], ts).out| + WINDOW < TWO64
    ensures w.Valid() && at <= |ts|
    ensures ok ==> w.ToCome(ts[at..]) == Play([], ts)
    ensures !ok ==> Play([], ts) == Played(w.history, false)
    ensures ok && at == |ts| && w.counter == 0 ==> Play([], ts) == Played(w.history, true)
  {
    w := new Inflator();
    at, ok := 0, true;
    for i := 0 to |rooms|
      invariant fresh(w) && fresh(w.ring) && w.Valid() && w.inCall == 0 && w.cur < WINDOW && at <= |ts| && ok
      invariant w.ToCome(ts[at..]) == Play([], ts)
    {
      ResumeExtends(w.history, w.dist, w.counter, ts[at..]);
      var room := Min(rooms[i], WINDOW - w.cur);
      at, ok := w.Call(ts, at, room);
      if !ok {
        return;
      }
    }
  }

  lemma ResumeExtends(h: seq<byte>, dist: nat, n: nat, ts: seq<Token>)
    requires n > 0 ==> 1 <= dist <= |h|
    ensures h <= Resume(h, dist, n, ts).out
  {
    if n > 0 {
      CopiedReads(h, dist, n);
    }
  }
}
