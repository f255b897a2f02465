/** The look-ahead of the fast programming loops, over words of any kind. A pass that finds
    the next word unlike the one before it clocks one word; otherwise it counts how many words
    ahead repeat it, up to a window `cap` (16 bytes, or 8 half-words), and clocks a multiple
    of four of them, or one when fewer than four repeat. The look-ahead never consults the
    size, so the last pass may run past it. */
module RunLength {

  /** The word on the bus before word i: `z`, what the pins were reset to, before word 0. */
  function Prev<T>(ws: seq<T>, z: T, i: nat): T
    requires i <= |ws|
  {
    if i == 0 then z else ws[i - 1]
  }

  /** How many words from i on repeat the word before i, counting at most `cap`. */
  function Repeats<T(==)>(ws: seq<T>, z: T, i: nat, cap: nat): (r: nat)
    requires i + cap <= |ws|
    ensures r <= cap
    decreases cap
  {
    if cap == 0 || ws[i] != Prev(ws, z, i) then 0 else 1 + Repeats(ws, z, i + 1, cap - 1)
  }

  /** Words clocked by a pass that sees `seen` repeats. */
  function Clocked(seen: nat): nat {
    if seen < 4 then 1 else if seen < 8 then 4 else if seen < 12 then 8 else if seen < 16 then 12 else 16
  }

  /** Words clocked by one pass at word i. */
  function Pass<T(==)>(ws: seq<T>, z: T, i: nat, cap: nat): (n: nat)
    requires 4 <= cap && i + cap <= |ws|
    ensures 1 <= n <= cap
  {
    Clocked(Repeats(ws, z, i, cap))
  }

  /** Where passes that start at word i stop, given that no pass starts at n or beyond. */
  function StopsAt<T(==)>(ws: seq<T>, z: T, n: nat, cap: nat, i: nat): (stop: nat)
    requires 4 <= cap && n + cap - 1 <= |ws|
    ensures i <= n ==> n <= stop < n + cap
    decreases n - i
  {
    if i >= n then i else StopsAt(ws, z, n, cap, i + Pass(ws, z, i, cap))
  }

  lemma StopsNext<T>(ws: seq<T>, z: T, n: nat, cap: nat, i: nat)
    requires 4 <= cap && n + cap - 1 <= |ws| && i < n
    ensures StopsAt(ws, z, n, cap, i) == StopsAt(ws, z, n, cap, i + Pass(ws, z, i, cap))
  {
  }

  /** Counting is what it says: r repeats are found exactly when the next r words all equal
      the word before them. */
  lemma {:induction false} RepeatsMeaning<T>(ws: seq<T>, z: T, i: nat, cap: nat, r: nat)
    requires i + cap <= |ws| && r <= cap
    ensures r <= Repeats(ws, z, i, cap) <==> forall k :: i <= k < i + r ==> ws[k] == Prev(ws, z, i)
    decreases cap
  {
    if cap != 0 && ws[i] == Prev(ws, z, i) && r != 0 {
      RepeatsMeaning(ws, z, i + 1, cap - 1, r - 1);
    }
  }

  /** The comparisons that decide a pass: it clocks at least j words, for j = 4, 8, 12 or 16
      within the window, exactly when the next j words all repeat. */
  lemma PassAtLeast<T>(ws: seq<T>, z: T, i: nat, cap: nat, j: nat)
    requires 4 <= cap && i + cap <= |ws| && j <= cap && (j == 4 || j == 8 || j == 12 || j == 16)
    ensures j <= Pass(ws, z, i, cap) <==> ws[i] == Prev(ws, z, i) && forall k :: i <= k < i + j ==> ws[k] == ws[i]
  {
    RepeatsMeaning(ws, z, i, cap, j);
    if ws[i] == Prev(ws, z, i) && forall k :: i <= k < i + j ==> ws[k] == ws[i] {
      assert forall k :: i <= k < i + j ==> ws[k] == Prev(ws, z, i);
    }
  }

  /** A pass with a window of eight. */
  lemma PassOfEight<T>(ws: seq<T>, z: T, i: nat)
    requires i + 8 <= |ws|
    ensures var four := forall k :: i <= k < i + 4 ==> ws[k] == ws[i];
            var eight := forall k :: i <= k < i + 8 ==> ws[k] == ws[i];
            Pass(ws, z, i, 8) == if ws[i] != Prev(ws, z, i) then 1 else if eight then 8 else if four then 4 else 1
  {
    PassAtLeast(ws, z, i, 8, 4);
    PassAtLeast(ws, z, i, 8, 8);
  }

  function Repeat<T>(x: T, n: nat): seq<T> {
    seq(n, _ => x)
  }

  /** The stream of a run that clocks `sent` words: `lead` copies of what the pins show before
      them, and `ticks` copies of the last one behind them. */
  function Stream<T>(ws: seq<T>, z: T, lead: nat, sent: nat, ticks: nat): seq<T>
    requires sent <= |ws|
  {
    Repeat(z, lead) + ws[..sent] + Repeat(Prev(ws, z, sent), ticks)
  }

  lemma StreamAt<T>(ws: seq<T>, z: T, lead: nat, sent: nat, ticks: nat, k: nat)
    requires k < lead + sent + ticks && sent <= |ws|
    ensures Stream(ws, z, lead, sent, ticks)[k] ==
            if k < lead then z else if k < lead + sent then ws[k - lead] else Prev(ws, z, sent)
  {
  }

  lemma OneMore<T>(ws: seq<T>, i: nat)
    requires i < |ws|
    ensures ws[..i] + Repeat(ws[i], 1) == ws[..i + 1]
  {
  }

  /** What a pass clocks are the next words themselves: copies of its first word, and the word
      on the bus afterwards. */
  lemma CopiesExtend<T>(ws: seq<T>, z: T, i: nat, cap: nat)
    requires 4 <= cap && i + cap <= |ws|
    ensures var n := Pass(ws, z, i, cap);
            ws[..i] + Repeat(ws[i], n) == ws[..i + n] && Prev(ws, z, i + n) == ws[i]
  {
    var n := Pass(ws, z, i, cap);
    RepeatsMeaning(ws, z, i, cap, Repeats(ws, z, i, cap));
    assert forall k :: i <= k < i + n ==> ws[k] == ws[i];
  }

  /** Everything clocked past n repeats the last word before n. */
  lemma {:induction false} OverrunRepeats<T>(ws: seq<T>, z: T, n: nat, cap: nat, i: nat)
    requires 4 <= cap && n + cap - 1 <= |ws| && i <= n
    ensures forall k :: n <= k < StopsAt(ws, z, n, cap, i) ==> ws[k] == Prev(ws, z, n)
    decreases n - i
  {
    if i < n {
      var p := Pass(ws, z, i, cap);
      if i + p <= n {
        OverrunRepeats(ws, z, n, cap, i + p);
      } else {
        RepeatsMeaning(ws, z, i, cap, p);
      }
    }
  }

  /** The fast stream against the slow one, each with the copies of the last word its wait for
      DONE adds. Both are the n words and then only copies of the last of them, the fast one
      with fewer than `cap` more; the streams are equal iff the numbers of copies are. */
  lemma FastRefinesSlow<T>(ws: seq<T>, z: T, n: nat, cap: nat, slowTicks: nat, fastTicks: nat)
    requires 4 <= cap && n + cap - 1 <= |ws|
    ensures var stop, last := StopsAt(ws, z, n, cap, 0), Prev(ws, z, n);
            var slow := ws[..n] + Repeat(last, slowTicks);
            var fast := ws[..stop] + Repeat(Prev(ws, z, stop), fastTicks);
            && n <= stop < n + cap
            && fast == ws[..n] + Repeat(last, stop - n + fastTicks)
            && (slow == fast <==> slowTicks == stop - n + fastTicks)
  {
    var stop, last := StopsAt(ws, z, n, cap, 0), Prev(ws, z, n);
    OverrunRepeats(ws, z, n, cap, 0);
    var fast := ws[..stop] + Repeat(Prev(ws, z, stop), fastTicks);
    assert ws[..stop] == ws[..n] + Repeat(last, stop - n);
    assert Prev(ws, z, stop) == last;
    assert fast == ws[..n] + Repeat(last, stop - n + fastTicks);
    assert |ws[..n] + Repeat(last, slowTicks)| == n + slowTicks;
  }

  // ----- Where exactly the passes stop -----

  /** Start of the run of repeats that reaches up to n. */
  function TailStart<T(==)>(ws: seq<T>, z: T, n: nat): (t: nat)
    requires n <= |ws|
    ensures t <= n
  {
    if n > 0 && ws[n - 1] == Prev(ws, z, n - 1) then TailStart(ws, z, n - 1) else n
  }

  lemma {:induction false} TailAllRepeats<T>(ws: seq<T>, z: T, n: nat, k: nat)
    requires n <= |ws| && TailStart(ws, z, n) <= k < n
    ensures ws[k] == Prev(ws, z, k)
  {
    if k < n - 1 {
      TailAllRepeats(ws, z, n - 1, k);
    }
  }

  lemma {:induction false} TailStartFresh<T>(ws: seq<T>, z: T, n: nat)
    requires n <= |ws|
    ensures var t := TailStart(ws, z, n); t > 0 ==> ws[t - 1] != Prev(ws, z, t - 1)
  {
    if n > 0 && ws[n - 1] == Prev(ws, z, n - 1) {
      TailStartFresh(ws, z, n - 1);
    }
  }

  /** A smaller window sees the same run, cut to its width. */
  lemma {:induction false} RepeatsWindow<T>(ws: seq<T>, z: T, i: nat, small: nat, large: nat)
    requires small <= large && i + large <= |ws|
    ensures Repeats(ws, z, i, small) == if Repeats(ws, z, i, large) < small then Repeats(ws, z, i, large) else small
    decreases small
  {
    if small != 0 && ws[i] == Prev(ws, z, i) {
      RepeatsWindow(ws, z, i + 1, small - 1, large - 1);
    }
  }

  /** Inside the tail a pass sees the rest of the tail and then the overhang `m` behind n. */
  lemma {:induction false} RepeatsInTail<T>(ws: seq<T>, z: T, n: nat, cap: nat, i: nat)
    requires 0 < cap && n + cap - 1 <= |ws| && TailStart(ws, z, n) <= i < n
    ensures var seen := n - i + Repeats(ws, z, n, cap - 1);
            Repeats(ws, z, i, cap) == if seen < cap then seen else cap
    decreases n - i
  {
    TailAllRepeats(ws, z, n, i);
    if cap == 1 {
    } else if i + 1 == n {
    } else {
      RepeatsWindow(ws, z, n, cap - 2, cap - 1);
      RepeatsInTail(ws, z, n, cap - 1, i + 1);
    }
  }

  /** Passes before the tail never cross its start. */
  lemma {:induction false} ReachesTail<T>(ws: seq<T>, z: T, n: nat, cap: nat, i: nat)
    requires 4 <= cap && n + cap - 1 <= |ws| && i <= TailStart(ws, z, n)
    ensures StopsAt(ws, z, n, cap, i) == StopsAt(ws, z, n, cap, TailStart(ws, z, n))
    decreases n - i
  {
    var t := TailStart(ws, z, n);
    if i < t {
      var p := Pass(ws, z, i, cap);
      if t < i + p {
        TailStartFresh(ws, z, n);
        RepeatsMeaning(ws, z, i, cap, p);
        assert false;
      }
      ReachesTail(ws, z, n, cap, i + p);
    }
  }

  /** p words into a run of which r are visible: a whole number of windows, or past the last
      group of four. */
  predicate OnGrid(p: nat, r: nat, cap: nat)
    requires cap == 8 || cap == 16
  {
    r / 4 * 4 <= p || (if cap == 8 then p % 8 == 0 else p % 16 == 0)
  }

  /** Length clocked from the start of a run of which `a` words are wanted and `r` words are
      visible: whole windows, then the largest multiple of four, then single words. */
  function TailLength(a: nat, r: nat, cap: nat): nat
    requires cap == 8 || cap == 16
  {
    var window := if cap == 8 then (a / 8 + 1) * 8 else (a / 16 + 1) * 16;
    if OnGrid(a, r, cap) then a else if window <= r / 4 * 4 then window else r / 4 * 4
  }

  /** A window boundary p below a, whose window is whole or cut short by the end r of the run. */
  lemma WindowStep8(a: nat, r: nat, j: nat)
    requires 8 * j < a <= r && 8 * j < r / 4 * 4
    ensures 8 * j + 8 <= r && a < 8 * j + 8 ==> TailLength(a, r, 8) == 8 * j + 8
    ensures 8 * j + 8 > r ==> (r - 8 * j) / 4 * 4 == r / 4 * 4 - 8 * j
    ensures 8 * j + 8 > r && a < r / 4 * 4 ==> TailLength(a, r, 8) == r / 4 * 4
  {
    if a < 8 * j + 8 {
      assert a / 8 == j && a % 8 != 0;
    }
  }

  lemma WindowStep16(a: nat, r: nat, j: nat)
    requires 16 * j < a <= r && 16 * j < r / 4 * 4
    ensures 16 * j + 16 <= r && a < 16 * j + 16 ==> TailLength(a, r, 16) == 16 * j + 16
    ensures 16 * j + 16 > r ==> (r - 16 * j) / 4 * 4 == r / 4 * 4 - 16 * j
    ensures 16 * j + 16 > r && a < r / 4 * 4 ==> TailLength(a, r, 16) == r / 4 * 4
  {
    if a < 16 * j + 16 {
      assert a / 16 == j && a % 16 != 0;
    }
  }

  /** One pass inside a run: with p words of it clocked, a wanted and r visible, the pass
      either stays on the grid of windows and multiples of four or lands on the end. */
  ghost predicate StepsWell(a: nat, r: nat, cap: nat, p: nat)
    requires (cap == 8 || cap == 16) && p < a <= r
  {
    var q := p + Clocked(if r - p < cap then r - p else cap);
    if q <= a then OnGrid(q, r, cap) else q == TailLength(a, r, cap)
  }

  lemma TailStepSingle(a: nat, r: nat, cap: nat, p: nat)
    requires (cap == 8 || cap == 16) && p < a <= r && r / 4 * 4 <= p
    ensures StepsWell(a, r, cap, p)
  {
    assert r - p < 4;
    assert Clocked(r - p) == 1;
  }

  lemma TailStep8(a: nat, r: nat, p: nat)
    requires p < a <= r && p % 8 == 0 && p < r / 4 * 4
    ensures StepsWell(a, r, 8, p)
  {
    WindowStep8(a, r, p / 8);
    assert p == 8 * (p / 8);
    if r - p < 8 {
      assert Clocked(r - p) == r / 4 * 4 - p;
    } else {
      assert Clocked(8) == 8;
      assert (p + 8) % 8 == 0;
    }
  }

  lemma TailStep16(a: nat, r: nat, p: nat)
    requires p < a <= r && p % 16 == 0 && p < r / 4 * 4
    ensures StepsWell(a, r, 16, p)
  {
    WindowStep16(a, r, p / 16);
    assert p == 16 * (p / 16);
    if r - p < 16 {
      assert Clocked(r - p) == r / 4 * 4 - p;
    } else {
      assert Clocked(16) == 16;
      assert (p + 16) % 16 == 0;
    }
  }

  lemma TailStep(a: nat, r: nat, cap: nat, p: nat)
    requires (cap == 8 || cap == 16) && p < a <= r && OnGrid(p, r, cap)
    ensures StepsWell(a, r, cap, p)
  {
    if r / 4 * 4 <= p {
      TailStepSingle(a, r, cap, p);
    } else if cap == 8 {
      TailStep8(a, r, p);
    } else {
      TailStep16(a, r, p);
    }
  }

  /** The passes inside a run, as arithmetic on its length alone. */
  function Walk(a: nat, r: nat, cap: nat, p: nat): nat
    requires 4 <= cap && a <= r
    decreases a - p
  {
    if p >= a then p else Walk(a, r, cap, p + Clocked(if r - p < cap then r - p else cap))
  }

  lemma {:induction false} TailWalk<T>(ws: seq<T>, z: T, n: nat, cap: nat, p: nat, r: nat)
    requires 4 <= cap && n + cap - 1 <= |ws|
    requires r == n - TailStart(ws, z, n) + Repeats(ws, z, n, cap - 1)
    ensures var t := TailStart(ws, z, n);
            StopsAt(ws, z, n, cap, t + p) == t + Walk(n - t, r, cap, p)
    decreases n - p
  {
    var t := TailStart(ws, z, n);
    if t + p < n {
      RepeatsInTail(ws, z, n, cap, t + p);
      TailWalk(ws, z, n, cap, p + Pass(ws, z, t + p, cap), r);
    }
  }

  lemma {:induction false} WalkLength(a: nat, r: nat, cap: nat, p: nat)
    requires (cap == 8 || cap == 16) && p <= a <= r && OnGrid(p, r, cap)
    ensures Walk(a, r, cap, p) == TailLength(a, r, cap)
    decreases a - p
  {
    if p < a {
      TailStep(a, r, cap, p);
      var q := p + Clocked(if r - p < cap then r - p else cap);
      if q <= a {
        WalkLength(a, r, cap, q);
      }
    }
  }

  lemma WalkExact(a: nat, r: nat, cap: nat)
    requires (cap == 8 || cap == 16) && a <= r
    ensures Walk(a, r, cap, 0) == TailLength(a, r, cap)
    ensures Walk(a, r, cap, 0) == a <==> OnGrid(a, r, cap)
  {
    WalkLength(a, r, cap, 0);
  }

  lemma StopsByWalk<T>(ws: seq<T>, z: T, n: nat, cap: nat, a: nat, r: nat)
    requires 4 <= cap && n + cap - 1 <= |ws|
    requires a == n - TailStart(ws, z, n) && r == a + Repeats(ws, z, n, cap - 1)
    ensures StopsAt(ws, z, n, cap, 0) == n - a + Walk(a, r, cap, 0)
  {
    ReachesTail(ws, z, n, cap, 0);
    TailWalk(ws, z, n, cap, 0, r);
  }

  /** The exact end of the fast loop, for every content of the buffer and of the bytes behind
      it. With a = length of the run of repeats reaching n, and r = a plus the number of words
      behind n that go on repeating (as far as the window sees), the fast loop stops at n iff
      a is a multiple of the window or r/4*4 <= a. */
  lemma StopsExactly<T>(ws: seq<T>, z: T, n: nat, cap: nat) returns (a: nat, r: nat)
    requires (cap == 8 || cap == 16) && n + cap - 1 <= |ws|
    ensures a == n - TailStart(ws, z, n) && r == a + Repeats(ws, z, n, cap - 1)
    ensures StopsAt(ws, z, n, cap, 0) == n - a + TailLength(a, r, cap)
    ensures StopsAt(ws, z, n, cap, 0) == n <==> OnGrid(a, r, cap)
  {
    a, r := n - TailStart(ws, z, n), n - TailStart(ws, z, n) + Repeats(ws, z, n, cap - 1);
    StopsByWalk(ws, z, n, cap, a, r);
    WalkExact(a, r, cap);
  }

  /** A fresh word right behind the configuration data rules the overrun out. */
  lemma FreshWordStops<T>(ws: seq<T>, z: T, n: nat, cap: nat)
    requires (cap == 8 || cap == 16) && n + cap - 1 <= |ws|
    requires ws[n] != Prev(ws, z, n)
    ensures StopsAt(ws, z, n, cap, 0) == n
  {
    var a, r := StopsExactly(ws, z, n, cap);
  }
}
