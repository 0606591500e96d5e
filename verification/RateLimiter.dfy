/** prl, the pipe rate limiter: which lines of a run are printed, and how many can be printed
    in any stretch of time. */
module RateLimiter {
  import opened Bytes

  /** Times in nanoseconds on a clock that never runs backwards. */
  predicate ClockTrace(start: nat, times: seq<nat>) {
    (times != [] ==> start <= times[0]) && forall i :: 0 < i < |times| ==> times[i - 1] <= times[i]
  }

  /** Time is cut into windows of `every` nanoseconds, aligned to the clock's zero. */
  function WindowOf(t: nat, every: nat): nat
    requires every > 0
  {
    t / every
  }

  function WindowStart(w: nat, every: nat): nat { w * every }

  function Min(a: nat, b: nat): nat { if a < b then a else b }

  /** How many of the times lie in aligned window `w`. */
  function InWindow(times: seq<nat>, every: nat, w: nat): nat
    requires every > 0
    decreases |times|
  {
    if times == [] then 0
    else InWindow(times[..|times| - 1], every, w) + if WindowOf(times[|times| - 1], every) == w then 1 else 0
  }

  /** Lines a window may print. The first line of a new window is printed whatever the count
      says; the window the program starts in has no such line. */
  function Quota(start: nat, every: nat, count: nat, w: nat): nat
    requires every > 0
  {
    if w == WindowOf(start, every) || count > 0 then count else 1
  }

  /** Line `i` is printed: earlier lines of its window have left some of the quota. */
  predicate Prints(start: nat, every: nat, count: nat, times: seq<nat>, i: nat)
    requires every > 0 && i < |times|
  {
    var w := WindowOf(times[i], every);
    InWindow(times[..i], every, w) < Quota(start, every, count, w)
  }

  /** Printed lines whose window is between `w` and `v`. */
  function PrintedWindows(start: nat, every: nat, count: nat, times: seq<nat>, w: nat, v: nat): nat
    requires every > 0
    decreases |times|
  {
    if times == [] then 0 else
    var n := |times| - 1;
    PrintedWindows(start, every, count, times[..n], w, v)
    + if w <= WindowOf(times[n], every) <= v && Prints(start, every, count, times, n) then 1 else 0
  }

  /** Printed lines read between time `a` and time `b`, both included. */
  function PrintedIn(start: nat, every: nat, count: nat, times: seq<nat>, a: nat, b: nat): nat
    requires every > 0
    decreases |times|
  {
    if times == [] then 0 else
    var n := |times| - 1;
    PrintedIn(start, every, count, times[..n], a, b)
    + if a <= times[n] <= b && Prints(start, every, count, times, n) then 1 else 0
  }

  function LatestTime(start: nat, times: seq<nat>): nat {
    if times == [] then start else times[|times| - 1]
  }

  lemma WindowLaws(t: nat, every: nat)
    requires every > 0
    ensures WindowStart(WindowOf(t, every), every) <= t < WindowStart(WindowOf(t, every) + 1, every)
  {
    assert t == t / every * every + t % every;
    assert (t / every + 1) * every == t / every * every + every;
  }

  lemma NextStart(w: nat, every: nat)
    ensures WindowStart(w + 1, every) == WindowStart(w, every) + every
  {
  }

  lemma {:induction false} StartsGrow(w: nat, v: nat, every: nat)
    requires every > 0 && w < v
    ensures WindowStart(w, every) + every <= WindowStart(v, every)
    decreases v
  {
    hide WindowStart;
    NextStart(v - 1, every);
    if w < v - 1 { StartsGrow(w, v - 1, every); }
  }

  lemma Monotone(a: nat, b: nat, every: nat)
    requires every > 0 && a <= b
    ensures WindowOf(a, every) <= WindowOf(b, every)
  {
    hide WindowOf, WindowStart;
    var w, v := WindowOf(a, every), WindowOf(b, every);
    WindowLaws(a, every);
    WindowLaws(b, every);
    NextStart(v, every);
    if v < w { StartsGrow(v, w, every); }
  }

  /** A line is read in the current window exactly when less than a full interval has passed
      since the window began. */
  lemma SameWindow(current: nat, latest: nat, every: nat)
    requires every > 0 && latest <= current
    ensures var w := WindowOf(latest, every);
            && WindowStart(w, every) <= current
            && (current - WindowStart(w, every) < every <==> WindowOf(current, every) == w)
  {
    hide WindowOf, WindowStart;
    var w, v := WindowOf(latest, every), WindowOf(current, every);
    WindowLaws(current, every);
    WindowLaws(latest, every);
    Monotone(latest, current, every);
    NextStart(w, every);
    NextStart(v, every);
    if w < v { StartsGrow(w, v, every); }
  }

  lemma {:induction false} LaterWindowsEmpty(start: nat, times: seq<nat>, every: nat, w: nat)
    requires every > 0 && ClockTrace(start, times) && w > WindowOf(LatestTime(start, times), every)
    ensures InWindow(times, every, w) == 0
    decreases |times|
  {
    hide WindowOf;
    if times != [] {
      var before, n := times[..|times| - 1], |times| - 1;
      assert ClockTrace(start, before);
      Monotone(LatestTime(start, before), times[n], every);
      LaterWindowsEmpty(start, before, every, w);
    }
  }

  /** The state of the loop: the window it is in and the lines printed in it. */
  predicate LoopState(start: nat, every: nat, count: nat, times: seq<nat>, printedLines: nat)
    requires every > 0
  {
    var w := WindowOf(LatestTime(start, times), every);
    printedLines == Min(InWindow(times, every, w), Quota(start, every, count, w))
  }

  lemma {:induction false} StartIsEarliest(start: nat, times: seq<nat>, i: nat)
    requires ClockTrace(start, times) && i < |times|
    ensures start <= times[i]
    decreases i
  {
    if i > 0 { StartIsEarliest(start, times, i - 1); }
  }

  lemma EarliestIsStart(start: nat, times: seq<nat>)
    requires ClockTrace(start, times)
    ensures start <= LatestTime(start, times)
  {
    if times != [] { StartIsEarliest(start, times, |times| - 1); }
  }

  /** One line read at time `t`: the quota test is the loop's own test, and the state moves on. */
  lemma LoopStep(start: nat, every: nat, count: nat, times: seq<nat>, printedLines: nat, t: nat)
    requires every > 0 && ClockTrace(start, times) && LatestTime(start, times) <= t
    requires LoopState(start, every, count, times, printedLines)
    ensures var w := WindowOf(LatestTime(start, times), every);
            var same := t - WindowStart(w, every) < every;
            var inContract := if same then printedLines < count else true;
            && WindowStart(w, every) <= t
            && inContract == Prints(start, every, count, times + [t], |times|)
            && LoopState(start, every, count, times + [t],
                         (if same then printedLines else 0) + if inContract then 1 else 0)
            && (same ==> WindowOf(t, every) == w)
  {
    hide WindowOf, WindowStart;
    var latest := LatestTime(start, times);
    SameWindow(t, latest, every);
    assert (times + [t])[..|times|] == times;
    EarliestIsStart(start, times);
    Monotone(start, latest, every);
    Monotone(latest, t, every);
    if WindowOf(t, every) > WindowOf(latest, every) {
      LaterWindowsEmpty(start, times, every, WindowOf(t, every));
    }
  }

  lemma LoopStart(start: nat, every: nat, count: nat)
    requires every > 0
    ensures LoopState(start, every, count, [], 0)
  {
  }

  lemma PrefixTrace(start: nat, times: seq<nat>, i: nat)
    requires ClockTrace(start, times) && i < |times|
    ensures ClockTrace(start, times[..i]) && LatestTime(start, times[..i]) <= times[i]
  {
  }

  /** Later lines have no say. */
  lemma PrintsLocally(start: nat, every: nat, count: nat, times: seq<nat>, i: nat)
    requires every > 0 && i < |times|
    ensures Prints(start, every, count, times[..i + 1], i) == Prints(start, every, count, times, i)
  {
    hide WindowOf;
    assert times[..i + 1][..i] == times[..i];
  }

  /** What became of a run: which lines were printed and the last window start, unless the very
      first rounding divides by zero. */
  datatype Outcome = DividedByZero | Ended(printed: seq<bool>, lastTimeNs: nat)

  /** The loop over the input lines, the clock read once per line. */
  method MainLoop(every: u64, count: u64, start: nat, times: seq<nat>) returns (r: Outcome)
    requires ClockTrace(start, times)
    ensures r == DividedByZero <==> every == 0
    ensures r.Ended? ==> |r.printed| == |times|
    ensures r.Ended? ==> forall i :: 0 <= i < |times| ==> r.printed[i] == Prints(start, every, count, times, i)
    ensures r.Ended? ==> r.lastTimeNs == WindowStart(WindowOf(LatestTime(start, times), every), every)
  {
    hide WindowOf, WindowStart, Prints, LoopState, ClockTrace;
    if every == 0 { return DividedByZero; }
    var printedLines := 0;
    var lastTimeNs := WindowStart(WindowOf(start, every), every);
    var printed: seq<bool> := [];
    LoopStart(start, every, count);
    for i := 0 to |times|
      invariant |printed| == i
      invariant forall k :: 0 <= k < i ==> printed[k] == Prints(start, every, count, times[..k + 1], k)
      invariant lastTimeNs == WindowStart(WindowOf(LatestTime(start, times[..i]), every), every)
      invariant LoopState(start, every, count, times[..i], printedLines)
    {
      var currentTimeNs := times[i];
      var inContract;
      PrefixTrace(start, times, i);
      LoopStep(start, every, count, times[..i], printedLines, currentTimeNs);
      assert times[..i + 1] == times[..i] + [currentTimeNs];
      if currentTimeNs - lastTimeNs < every {
        inContract := printedLines < count;
      } else {
        inContract := true;
        printedLines := 0;
        lastTimeNs := WindowStart(WindowOf(currentTimeNs, every), every);
      }
      if inContract {
        printedLines := printedLines + 1;
      }
      printed := printed + [inContract];
    }
    assert times[..|times|] == times;
    forall i | 0 <= i < |times| ensures printed[i] == Prints(start, every, count, times, i) {
      PrintsLocally(start, every, count, times, i);
    }
    return Ended(printed, lastTimeNs);
  }

  // ----- Bounds ----------------------------------------------------------------------------

  /** A window prints as much of its lines as its quota allows, neither more nor less. */
  lemma {:induction false} WindowExact(start: nat, every: nat, count: nat, times: seq<nat>, w: nat)
    requires every > 0
    ensures PrintedWindows(start, every, count, times, w, w) == Min(InWindow(times, every, w), Quota(start, every, count, w))
    decreases |times|
  {
    if times != [] {
      WindowExact(start, every, count, times[..|times| - 1], w);
    }
  }

  lemma {:induction false} WindowsAdd(start: nat, every: nat, count: nat, times: seq<nat>, w: nat, v: nat)
    requires every > 0 && w <= v
    ensures PrintedWindows(start, every, count, times, w, v + 1)
         == PrintedWindows(start, every, count, times, w, v) + PrintedWindows(start, every, count, times, v + 1, v + 1)
    decreases |times|
  {
    if times != [] {
      WindowsAdd(start, every, count, times[..|times| - 1], w, v);
    }
  }

  function Cap(count: nat): nat { if count == 0 then 1 else count }

  lemma QuotaAtMostCap(start: nat, every: nat, count: nat, w: nat)
    requires every > 0
    ensures Quota(start, every, count, w) <= Cap(count)
  {
  }

  lemma OneMoreTimes(n: nat, c: nat)
    ensures (n + 1) * c == n * c + c
  {
  }

  lemma {:induction false} WindowsBound(start: nat, every: nat, count: nat, times: seq<nat>, w: nat, v: nat)
    requires every > 0 && w <= v
    ensures PrintedWindows(start, every, count, times, w, v) <= (v - w + 1) * Cap(count)
    decreases v
  {
    hide PrintedWindows, InWindow, Quota;
    if w == v {
      WindowExact(start, every, count, times, w);
      assert (v - w + 1) * Cap(count) == Cap(count);
      QuotaAtMostCap(start, every, count, w);
    } else {
      QuotaAtMostCap(start, every, count, v);
      WindowsBound(start, every, count, times, w, v - 1);
      WindowsAdd(start, every, count, times, w, v - 1);
      WindowExact(start, every, count, times, v);
      OneMoreTimes(v - w, Cap(count));
    }
  }

  lemma {:induction false} TimesWithinWindows(start: nat, every: nat, count: nat, times: seq<nat>, a: nat, b: nat)
    requires every > 0 && a <= b
    ensures PrintedIn(start, every, count, times, a, b)
         <= PrintedWindows(start, every, count, times, WindowOf(a, every), WindowOf(b, every))
    decreases |times|
  {
    if times != [] {
      hide WindowOf, Prints;
      var n := |times| - 1;
      TimesWithinWindows(start, every, count, times[..n], a, b);
      if a <= times[n] <= b {
        Monotone(a, times[n], every);
        Monotone(times[n], b, every);
      }
    }
  }

  function CeilDiv(a: nat, b: nat): nat
    requires b > 0
  {
    (a + b - 1) / b
  }

  lemma CeilDivCovers(length: nat, every: nat)
    requires every > 0
    ensures length <= WindowStart(CeilDiv(length, every), every)
  {
    var c := length + every - 1;
    assert c == c / every * every + c % every;
  }

  /** It is the least number of intervals that do. */
  lemma CeilDivExact(length: nat, every: nat)
    requires every > 0
    ensures length <= CeilDiv(length, every) * every < length + every
  {
    var c := length + every - 1;
    assert c == c / every * every + c % every;
  }

  lemma StartsAdd(w: nat, v: nat, every: nat)
    ensures WindowStart(w + v, every) == WindowStart(w, every) + WindowStart(v, every)
  {
  }

  lemma WindowsTouched(a: nat, length: nat, every: nat)
    requires every > 0
    ensures WindowOf(a, every) <= WindowOf(a + length, every) <= WindowOf(a, every) + CeilDiv(length, every)
  {
    hide WindowOf, WindowStart, CeilDiv;
    var w, v, c := WindowOf(a, every), WindowOf(a + length, every), CeilDiv(length, every);
    Monotone(a, a + length, every);
    WindowLaws(a, every);
    WindowLaws(a + length, every);
    CeilDivCovers(length, every);
    StartsAdd(w + 1, c, every);
    if v > w + c {
      NextStart(w + c, every);
      if v > w + c + 1 { StartsGrow(w + c + 1, v, every); }
    }
  }

  lemma MulMonotone(a: nat, b: nat, c: nat)
    requires a <= b
    ensures a * c <= b * c
  {
  }

  /** In any stretch of time, aligned or not, at most a cap's worth of lines is printed for
      every window it can touch. */
  lemma RateBound(start: nat, every: nat, count: nat, times: seq<nat>, a: nat, length: nat)
    requires every > 0
    ensures PrintedIn(start, every, count, times, a, a + length) <= (CeilDiv(length, every) + 1) * Cap(count)
  {
    hide WindowOf, PrintedIn, PrintedWindows, CeilDiv;
    WindowsTouched(a, length, every);
    TimesWithinWindows(start, every, count, times, a, a + length);
    var w, v := WindowOf(a, every), WindowOf(a + length, every);
    WindowsBound(start, every, count, times, w, v);
    assert (v - w + 1) * Cap(count) <= (CeilDiv(length, every) + 1) * Cap(count) by {
      MulMonotone(v - w + 1, CeilDiv(length, every) + 1, Cap(count));
    }
  }

  // ----- The promise of the help text ------------------------------------------------------

  function Repeat(t: nat, n: nat): (s: seq<nat>)
    ensures |s| == n && forall i :: 0 <= i < n ==> s[i] == t
  {
    seq(n, _ => t)
  }

  lemma {:induction false} InWindowAppend(s: seq<nat>, t: seq<nat>, every: nat, w: nat)
    requires every > 0
    ensures InWindow(s + t, every, w) == InWindow(s, every, w) + InWindow(t, every, w)
    decreases |t|
  {
    if t == [] {
      assert s + t == s;
    } else {
      assert (s + t)[..|s + t| - 1] == s + t[..|t| - 1];
      InWindowAppend(s, t[..|t| - 1], every, w);
    }
  }

  lemma {:induction false} InWindowRepeat(t: nat, n: nat, every: nat, w: nat)
    requires every > 0
    ensures InWindow(Repeat(t, n), every, w) == if WindowOf(t, every) == w then n else 0
    decreases n
  {
    if n > 0 {
      assert Repeat(t, n)[..n - 1] == Repeat(t, n - 1);
      InWindowRepeat(t, n - 1, every, w);
    }
  }

  lemma {:induction false} AllInside(start: nat, every: nat, count: nat, times: seq<nat>, a: nat, b: nat, w: nat, v: nat)
    requires every > 0 && forall i :: 0 <= i < |times| ==> a <= times[i] <= b && w <= WindowOf(times[i], every) <= v
    ensures PrintedIn(start, every, count, times, a, b) == PrintedWindows(start, every, count, times, w, v)
    decreases |times|
  {
    if times != [] {
      AllInside(start, every, count, times[..|times| - 1], a, b, w, v);
    }
  }

  lemma WindowIs(t: nat, every: nat, w: nat)
    requires every > 0 && WindowStart(w, every) <= t < WindowStart(w + 1, every)
    ensures WindowOf(t, every) == w
  {
    hide WindowOf, WindowStart;
    var v := WindowOf(t, every);
    WindowLaws(t, every);
    NextStart(w, every);
    NextStart(v, every);
    if v < w { StartsGrow(v, w, every); }
    if w < v { StartsGrow(w, v, every); }
  }

  /** `count` lines right before the end of window `w` and as many right after it. */
  function Burst(every: nat, count: nat, w: nat): (times: seq<nat>)
    requires every > 0
    ensures |times| == 2 * count
  {
    NextStart(w, every);
    Repeat(WindowStart(w + 1, every) - 1, count) + Repeat(WindowStart(w + 1, every), count)
  }

  lemma BurstWindows(every: nat, count: nat, w: nat)
    requires every > 0 && count > 0
    ensures InWindow(Burst(every, count, w), every, w) == InWindow(Burst(every, count, w), every, w + 1) == count
    ensures forall i :: 0 <= i < 2 * count ==> w <= WindowOf(Burst(every, count, w)[i], every) <= w + 1
  {
    hide WindowOf, WindowStart, InWindow, Repeat;
    var boundary := WindowStart(w + 1, every);
    NextStart(w, every);
    NextStart(w + 1, every);
    WindowIs(boundary - 1, every, w);
    WindowIs(boundary, every, w + 1);
    var s, t := Repeat(boundary - 1, count), Repeat(boundary, count);
    InWindowAppend(s, t, every, w);
    InWindowAppend(s, t, every, w + 1);
    InWindowRepeat(boundary - 1, count, every, w);
    InWindowRepeat(boundary, count, every, w);
    InWindowRepeat(boundary - 1, count, every, w + 1);
    InWindowRepeat(boundary, count, every, w + 1);
  }

  /** A burst on either side of a window boundary is printed in full. */
  lemma StraddlingBurst(every: nat, count: nat, w: nat, a: nat, b: nat)
    requires every > 0 && count > 0
    requires a < WindowStart(w + 1, every) <= b
    ensures ClockTrace(0, Burst(every, count, w))
    ensures PrintedIn(0, every, count, Burst(every, count, w), a, b) == 2 * count
  {
    hide WindowOf, WindowStart, InWindow, PrintedIn, PrintedWindows;
    var times := Burst(every, count, w);
    BurstWindows(every, count, w);
    WindowExact(0, every, count, times, w);
    WindowExact(0, every, count, times, w + 1);
    WindowsAdd(0, every, count, times, w, w);
    AllInside(0, every, count, times, a, b, w, w + 1);
  }

  lemma BoundaryBetween(a: nat, b: nat, every: nat)
    requires every > 0 && WindowOf(a, every) < WindowOf(b, every)
    ensures a < WindowStart(WindowOf(a, every) + 1, every) <= b
  {
    hide WindowOf, WindowStart;
    WindowLaws(a, every);
    WindowLaws(b, every);
    var w, v := WindowOf(a, every), WindowOf(b, every);
    if w + 1 < v { StartsGrow(w + 1, v, every); }
  }

  lemma {:induction false} NoneInFirstWindow(start: nat, every: nat, times: seq<nat>, a: nat, b: nat)
    requires every > 0 && ClockTrace(start, times) && WindowOf(b, every) == 0
    ensures PrintedIn(start, every, 0, times, a, b) == 0
    decreases |times|
  {
    hide WindowOf;
    if times != [] {
      var n := |times| - 1;
      assert ClockTrace(start, times[..n]);
      NoneInFirstWindow(start, every, times[..n], a, b);
      if times[n] <= b {
        Monotone(times[n], b, every);
        StartIsEarliest(start, times, n);
        Monotone(start, times[n], every);
      }
    }
  }

  lemma OneLine(every: nat, a: nat, b: nat)
    requires every > 0 && a <= b && WindowOf(b, every) > 0
    ensures ClockTrace(0, [b]) && PrintedIn(0, every, 0, [b], a, b) == 1
  {
    assert [b][..0] == [];
    assert Prints(0, every, 0, [b], 0);
    assert PrintedIn(0, every, 0, [], a, b) == 0;
  }

  predicate PromiseKept(every: nat, count: nat, a: nat, b: nat, start: nat, times: seq<nat>)
    requires every > 0
  {
    ClockTrace(start, times) ==> PrintedIn(start, every, count, times, a, b) <= count
  }

  /** The help text promises at most `count` lines in a time period. Over all traces that is
      kept by exactly those periods that cross no window boundary and, for a count of zero,
      lie in the very first window of the clock. */
  lemma PromiseExact(every: nat, count: nat, a: nat, b: nat)
    requires every > 0 && a <= b
    ensures (forall start, times :: PromiseKept(every, count, a, b, start, times))
            <==> if count > 0 then WindowOf(a, every) == WindowOf(b, every) else WindowOf(b, every) == 0
  {
    hide WindowOf, WindowStart, PrintedIn, PrintedWindows, InWindow, ClockTrace, Burst;
    var w := WindowOf(a, every);
    Monotone(a, b, every);
    if count > 0 && w == WindowOf(b, every) {
      forall start, times ensures PromiseKept(every, count, a, b, start, times) {
        TimesWithinWindows(start, every, count, times, a, b);
        WindowExact(start, every, count, times, w);
      }
    } else if count > 0 {
      BoundaryBetween(a, b, every);
      StraddlingBurst(every, count, w, a, b);
      assert !PromiseKept(every, count, a, b, 0, Burst(every, count, w));
    } else if WindowOf(b, every) == 0 {
      forall start, times ensures PromiseKept(every, count, a, b, start, times) {
        if ClockTrace(start, times) { NoneInFirstWindow(start, every, times, a, b); }
      }
    } else {
      OneLine(every, a, b);
      assert !PromiseKept(every, count, a, b, 0, [b]);
    }
  }
}
