/**
 * The event-onset scanner of the sound detection pipeline (`pseudo_vad`).
 *
 * The scanner walks a pointer over a recording of `n` samples in steps of
 * `wl` (the window length). Whether the window starting at sample `w` holds
 * enough in-band energy is a floating-point spectral test; here it is the
 * oracle `active(w)`, so that the scan itself (its order, its bounds and its
 * end-of-signal cases) can be stated exactly over integers.
 *
 * Two views of the scan are given:
 *  - `PseudoVad`, the loop itself, with the in-progress flag and the list of
 *    [start, end] pairs whose last end it overwrites;
 *  - `Detections`, a reference definition by runs: the scan examines the
 *    windows `Visits(n, wl, active, 0)`; every examined active window whose
 *    predecessor is inactive opens a detection, which ends at the next
 *    examined inactive window, or at `n` when the jump after the last
 *    examined window passes `n - wl`, or else is left with end == start.
 */
module Vad {

  import IndexArith

  /** One detected event: the pair [start, end] of sample indices. */
  datatype Detection = Detection(start: int, end: int)

  /** The pointer after examining the window at `w`: two windows on after an
      active window (the hysteresis jump), one window on otherwise. */
  function Advance(wl: int, active: int -> bool, w: int): int
    requires wl > 0
  {
    if active(w) then w + 2 * wl else w + wl
  }

  /** The window starts the scan examines, in order, once its pointer is at `w`. */
  function Visits(n: int, wl: int, active: int -> bool, w: int): (vs: seq<int>)
    requires wl > 0
    ensures forall i :: 0 <= i < |vs| ==> w <= vs[i] < n - wl
    decreases n - w
  {
    if w < n - wl then [w] + Visits(n, wl, active, Advance(wl, active, w)) else []
  }

  /** The examined windows are exactly the pointer values of the loop: it
      starts at `w`, runs while the pointer is below `n - wl`, and each step
      moves the pointer by `Advance`. */
  lemma {:induction false} VisitsFollowPointer(n: int, wl: int, active: int -> bool, w: int)
    requires wl > 0
    ensures Visits(n, wl, active, w) == [] <==> w >= n - wl
    ensures Visits(n, wl, active, w) != [] ==>
      && Visits(n, wl, active, w)[0] == w
      && Advance(wl, active, Visits(n, wl, active, w)[|Visits(n, wl, active, w)| - 1]) >= n - wl
    ensures forall i :: 0 <= i < |Visits(n, wl, active, w)| - 1 ==>
      Visits(n, wl, active, w)[i + 1] == Advance(wl, active, Visits(n, wl, active, w)[i])
    decreases n - w
  {
    if w < n - wl {
      var next := Advance(wl, active, w);
      VisitsFollowPointer(n, wl, active, next);
      var vs, rest := Visits(n, wl, active, w), Visits(n, wl, active, next);
      assert vs == [w] + rest;
      forall i | 0 <= i < |vs| - 1
        ensures vs[i + 1] == Advance(wl, active, vs[i])
      {
        if i > 0 {
          assert vs[i] == rest[i - 1] && vs[i + 1] == rest[i];
        }
      }
    }
  }

  /** Every examined window start is a non-negative multiple of `wl` lying
      strictly below `n - wl`. */
  lemma {:induction false} VisitsAligned(n: int, wl: int, active: int -> bool, w: int)
    requires wl > 0 && w >= 0 && w % wl == 0
    ensures forall i :: 0 <= i < |Visits(n, wl, active, w)| ==>
      0 <= Visits(n, wl, active, w)[i] < n - wl && Visits(n, wl, active, w)[i] % wl == 0
    decreases n - w
  {
    if w < n - wl {
      var next := Advance(wl, active, w);
      StepKeepsAlignment(wl, w, next - w);
      VisitsAligned(n, wl, active, next);
      var vs, rest := Visits(n, wl, active, w), Visits(n, wl, active, next);
      assert vs == [w] + rest;
      forall i | 0 < i < |vs|
        ensures vs[i] % wl == 0
      {
        assert vs[i] == rest[i - 1];
      }
    }
  }

  /** A step of one or two windows keeps the pointer on the window grid. */
  lemma StepKeepsAlignment(wl: int, w: int, step: int)
    requires wl > 0 && w % wl == 0 && (step == wl || step == 2 * wl)
    ensures (w + step) % wl == 0
  {
    var q := w / wl;
    assert w == q * wl;
    if step == wl {
      IndexArith.ModUnique(w + step, wl, q + 1, 0);
    } else {
      IndexArith.ModUnique(w + step, wl, q + 2, 0);
    }
  }

  /** The examined windows are strictly increasing, at least one window apart. */
  lemma {:induction false} VisitsIncreasing(n: int, wl: int, active: int -> bool, w: int)
    requires wl > 0
    ensures forall i, j :: 0 <= i < j < |Visits(n, wl, active, w)| ==>
      Visits(n, wl, active, w)[i] + wl <= Visits(n, wl, active, w)[j]
    decreases n - w
  {
    if w < n - wl {
      var next := Advance(wl, active, w);
      VisitsIncreasing(n, wl, active, next);
      var vs, rest := Visits(n, wl, active, w), Visits(n, wl, active, next);
      assert vs == [w] + rest;
      forall i, j | 0 <= i < j < |vs|
        ensures vs[i] + wl <= vs[j]
      {
        assert vs[j] == rest[j - 1];
        if i > 0 {
          assert vs[i] == rest[i - 1];
        }
      }
    }
  }

  /** Hysteresis: after an active window at `w`, the window at `w + wl` is
      never examined; the next examined window, if any, is `w + 2 * wl`. */
  lemma Hysteresis(n: nat, wl: int, active: int -> bool, k: int)
    requires wl > 0
    requires 0 <= k < |Visits(n, wl, active, 0)| && active(Visits(n, wl, active, 0)[k])
    ensures var vs := Visits(n, wl, active, 0);
      && vs[k] + wl !in vs
      && (k + 1 < |vs| ==> vs[k + 1] == vs[k] + 2 * wl)
  {
    var vs := Visits(n, wl, active, 0);
    VisitsFollowPointer(n, wl, active, 0);
    VisitsIncreasing(n, wl, active, 0);
    forall j | 0 <= j < |vs|
      ensures vs[j] != vs[k] + wl
    {
      if j > k + 1 {
        assert vs[k + 1] + wl <= vs[j];
      } else if j < k {
        assert vs[j] + wl <= vs[k];
      }
    }
  }

  /** Index `k` of the examined windows `vs` opens a detection: its window is
      active and the window examined just before it, if any, is not (a new
      detection is only recorded when none is in progress). */
  predicate IsOnset(vs: seq<int>, active: int -> bool, k: int)
    requires 0 <= k < |vs|
  {
    active(vs[k]) && (k == 0 || !active(vs[k - 1]))
  }

  /** The onset indices of `vs`, in increasing order (see `OnsetsSpec`). */
  function Onsets(vs: seq<int>, active: int -> bool): (ks: seq<nat>)
    ensures forall i :: 0 <= i < |ks| ==> ks[i] < |vs|
    decreases |vs|
  {
    if vs == [] then []
    else
      var ks := Onsets(vs[..|vs| - 1], active);
      if IsOnset(vs, active, |vs| - 1) then ks + [|vs| - 1] else ks
  }

  /** `Onsets` lists every onset of `vs`, and nothing else, in increasing order. */
  lemma {:induction false} OnsetsSpec(vs: seq<int>, active: int -> bool)
    ensures forall i :: 0 <= i < |Onsets(vs, active)| ==> IsOnset(vs, active, Onsets(vs, active)[i])
    ensures forall i, j :: 0 <= i < j < |Onsets(vs, active)| ==> Onsets(vs, active)[i] < Onsets(vs, active)[j]
    ensures forall k :: 0 <= k < |vs| && IsOnset(vs, active, k) ==> k in Onsets(vs, active)
    decreases |vs|
  {
    if vs != [] {
      var init := vs[..|vs| - 1];
      OnsetsSpec(init, active);
      assert forall k :: 0 <= k < |init| ==> IsOnset(init, active, k) == IsOnset(vs, active, k);
    }
  }

  /** The first index after `k` whose window is inactive, or `|vs|` if every
      window examined after `k` is active (see `FirstInactiveSpec`). */
  function FirstInactive(vs: seq<int>, active: int -> bool, k: nat): (j: nat)
    requires k < |vs|
    ensures k < j <= |vs|
    decreases |vs| - k
  {
    if k + 1 == |vs| then |vs|
    else if !active(vs[k + 1]) then k + 1
    else FirstInactive(vs, active, k + 1)
  }

  /** `FirstInactive` finds an inactive window, and every window it skips is active. */
  lemma {:induction false} FirstInactiveSpec(vs: seq<int>, active: int -> bool, k: nat)
    requires k < |vs|
    ensures FirstInactive(vs, active, k) < |vs| ==> !active(vs[FirstInactive(vs, active, k)])
    ensures forall m :: k < m < FirstInactive(vs, active, k) ==> active(vs[m])
    decreases |vs| - k
  {
    if k + 1 < |vs| && active(vs[k + 1]) {
      FirstInactiveSpec(vs, active, k + 1);
    }
  }

  /** Where the detection started at index `k` of `vs` ends: at the first later
      examined window that is inactive; failing that, at `n` when the step
      after the last examined window passes `n - wl`; and otherwise at its own
      start, the detection being left unclosed. */
  function EndOf(n: int, wl: int, active: int -> bool, vs: seq<int>, k: nat): int
    requires wl > 0 && k < |vs|
  {
    var j := FirstInactive(vs, active, k);
    if j < |vs| then vs[j]
    else if Advance(wl, active, vs[|vs| - 1]) > n - wl then n
    else vs[k]
  }

  /** The detections read off the examined windows `vs`: one per onset. */
  function DetectionsOf(n: int, wl: int, active: int -> bool, vs: seq<int>): seq<Detection>
    requires wl > 0
  {
    var ks := Onsets(vs, active);
    seq(|ks|, i requires 0 <= i < |ks| => Detection(vs[ks[i]], EndOf(n, wl, active, vs, ks[i])))
  }

  /** The reference result of the scan over a recording of `n` samples. */
  function Detections(n: nat, wl: int, active: int -> bool): seq<Detection>
    requires wl > 0
  {
    DetectionsOf(n, wl, active, Visits(n, wl, active, 0))
  }

  /** The scan loop. The source raises an error before its loop when the
      window length is not positive (the frequency grid of the band mask
      cannot be built); `wl > 0` drops that error path and is also what the
      loop needs to terminate. */
  method PseudoVad(n: nat, wl: int, active: int -> bool) returns (detections: seq<Detection>)
    requires wl > 0
    ensures detections == Detections(n, wl, active)
  {
    detections := [];
    var inProgress := false;
    var windowStart := 0;
    ghost var examined: seq<int> := [];
    while windowStart < n - wl
      invariant ScanInvariant(n, wl, active, examined, windowStart, inProgress, detections)
      decreases n - windowStart
    {
      ghost var w := windowStart;
      if active(windowStart) {
        if !inProgress {
          StepActiveIdle(n, wl, active, examined, windowStart, detections);
          detections := detections + [Detection(windowStart, windowStart)];
          inProgress := true;
        } else {
          StepActiveInProgress(n, wl, active, examined, windowStart, detections);
        }
        windowStart := windowStart + 2 * wl;
        if windowStart > n - wl {
          detections := detections[|detections| - 1 := Detection(detections[|detections| - 1].start, n)];
          inProgress := false;
        }
      } else {
        StepInactive(n, wl, active, examined, windowStart, inProgress, detections);
        if inProgress {
          detections := detections[|detections| - 1 := Detection(detections[|detections| - 1].start, windowStart)];
          inProgress := false;
        }
        windowStart := windowStart + wl;
      }
      examined := examined + [w];
    }
    assert Visits(n, wl, active, windowStart) == [];
    assert examined == Visits(n, wl, active, 0);
  }

  /** What the loop knows once it has examined the windows `p` and its
      pointer is at `w`. */
  ghost predicate ScanInvariant(n: nat, wl: int, active: int -> bool, p: seq<int>, w: int,
                                inProgress: bool, d: seq<Detection>)
    requires wl > 0
  {
    && Visits(n, wl, active, 0) == p + Visits(n, wl, active, w)
    && (p != [] ==> w == Advance(wl, active, p[|p| - 1]))
    && (inProgress <==> p != [] && active(p[|p| - 1]) && w <= n - wl)
    && (inProgress ==> OpenRun(p, active))
    && d == DetectionsOf(n, wl, active, p)
  }

  /** Examining the window at the pointer moves it from the unexamined part
      of the trace to the examined part. */
  lemma VisitsStep(n: nat, wl: int, active: int -> bool, p: seq<int>, x: int)
    requires wl > 0 && x < n - wl
    requires Visits(n, wl, active, 0) == p + Visits(n, wl, active, x)
    ensures Visits(n, wl, active, 0) == (p + [x]) + Visits(n, wl, active, Advance(wl, active, x))
  {
  }

  /** One pass of the loop body on an active window while a detection is in
      progress: jump two windows, and force-close at `n` if the jump passes
      `n - wl`. */
  lemma StepActiveInProgress(n: nat, wl: int, active: int -> bool, p: seq<int>, x: int, d: seq<Detection>)
    requires wl > 0 && x < n - wl && active(x)
    requires ScanInvariant(n, wl, active, p, x, true, d)
    ensures |d| > 0
    ensures ScanInvariant(n, wl, active, p + [x], x + 2 * wl, x + 2 * wl <= n - wl,
      if x + 2 * wl > n - wl then d[|d| - 1 := Detection(d[|d| - 1].start, n)] else d)
  {
    VisitsStep(n, wl, active, p, x);
    ExtendOpenRun(n, wl, active, p, x, d);
    var q := p + [x];
    assert q != [] && q[|q| - 1] == x;
    assert Advance(wl, active, x) == x + 2 * wl;
  }

  /** One pass of the loop body on an active window while no detection is in
      progress: open one here, jump two windows, and force-close it at `n` if
      the jump passes `n - wl`. */
  lemma StepActiveIdle(n: nat, wl: int, active: int -> bool, p: seq<int>, x: int, d: seq<Detection>)
    requires wl > 0 && x < n - wl && active(x)
    requires ScanInvariant(n, wl, active, p, x, false, d)
    ensures ScanInvariant(n, wl, active, p + [x], x + 2 * wl, x + 2 * wl <= n - wl,
      if x + 2 * wl > n - wl then (d + [Detection(x, x)])[|d| := Detection(x, n)]
      else d + [Detection(x, x)])
  {
    VisitsStep(n, wl, active, p, x);
    ExtendClosed(n, wl, active, p, x, d);
    var q := p + [x];
    assert q != [] && q[|q| - 1] == x;
    assert Advance(wl, active, x) == x + 2 * wl;
  }

  /** One pass of the loop body on an inactive window: close the detection in
      progress, if any, at this window's start, and move one window on. */
  lemma StepInactive(n: nat, wl: int, active: int -> bool, p: seq<int>, x: int,
                     inProgress: bool, d: seq<Detection>)
    requires wl > 0 && x < n - wl && !active(x)
    requires ScanInvariant(n, wl, active, p, x, inProgress, d)
    ensures inProgress ==> |d| > 0
    ensures ScanInvariant(n, wl, active, p + [x], x + wl, false,
      if inProgress then d[|d| - 1 := Detection(d[|d| - 1].start, x)] else d)
  {
    VisitsStep(n, wl, active, p, x);
    if inProgress {
      ExtendOpenRun(n, wl, active, p, x, d);
    } else {
      ExtendClosed(n, wl, active, p, x, d);
    }
  }

  /** The last onset of `vs` exists and every window examined after it is
      active: the detection it started has not been closed. */
  ghost predicate OpenRun(vs: seq<int>, active: int -> bool)
  {
    var ks := Onsets(vs, active);
    |ks| > 0 && FirstInactive(vs, active, ks[|ks| - 1]) == |vs|
  }

  /** Appending a window to `vs` moves the first inactive index after `k` only
      if no inactive window followed `k` yet. */
  lemma {:induction false} FirstInactiveAppend(vs: seq<int>, active: int -> bool, k: nat, x: int)
    requires k < |vs|
    ensures var j := FirstInactive(vs, active, k);
      FirstInactive(vs + [x], active, k) ==
        if j < |vs| then j else if active(x) then |vs| + 1 else |vs|
    decreases |vs| - k
  {
    var q := vs + [x];
    assert q[k + 1] == if k + 1 < |vs| then vs[k + 1] else x;
    if k + 1 < |vs| && active(vs[k + 1]) {
      FirstInactiveAppend(vs, active, k + 1, x);
    }
  }

  /** An onset is closed before any later onset: the window just before the
      later onset is inactive. */
  lemma ClosedBeforeLaterOnset(vs: seq<int>, active: int -> bool, k1: nat, k2: nat)
    requires k1 < k2 < |vs| && IsOnset(vs, active, k1) && IsOnset(vs, active, k2)
    ensures FirstInactive(vs, active, k1) < k2
  {
    FirstInactiveSpec(vs, active, k1);
    assert !active(vs[k2 - 1]);
  }

  /** The onsets of `vs + [x]` are those of `vs`, plus `|vs|` when `x` opens one. */
  lemma OnsetsAppend(vs: seq<int>, active: int -> bool, x: int)
    ensures Onsets(vs + [x], active) ==
      Onsets(vs, active) + if IsOnset(vs + [x], active, |vs|) then [|vs|] else []
  {
  }

  /** A step of the loop when no detection is in progress: the detections so
      far stay as they are, and an active window opens one more, closed at
      `n` if the jump that follows passes `n - wl`. */
  lemma ExtendClosed(n: nat, wl: int, active: int -> bool, p: seq<int>, x: int, d: seq<Detection>)
    requires wl > 0
    requires (p != [] ==> !active(p[|p| - 1])) && d == DetectionsOf(n, wl, active, p)
    ensures DetectionsOf(n, wl, active, p + [x]) ==
      if !active(x) then d
      else if x + 2 * wl > n - wl then (d + [Detection(x, x)])[|d| := Detection(x, n)]
      else d + [Detection(x, x)]
    ensures active(x) ==> OpenRun(p + [x], active)
  {
    var q := p + [x];
    var ks := Onsets(p, active);
    OnsetsAppend(p, active, x);
    var d' := DetectionsOf(n, wl, active, q);
    OnsetsSpec(p, active);
    forall i | 0 <= i < |ks|
      ensures d'[i] == d[i]
    {
      var k := ks[i];
      assert active(p[k]) && !active(p[|p| - 1]);
      assert k < |p| - 1;
      FirstInactiveAppend(p, active, k, x);
      FirstInactiveSpec(p, active, k);
      assert FirstInactive(p, active, k) < |p|;
    }
    if active(x) {
      assert d'[|ks|] == Detection(x, if x + 2 * wl > n - wl then n else x);
      assert d' == d + [Detection(x, if x + 2 * wl > n - wl then n else x)];
    }
  }

  /** A step of the loop while the detection started at the last onset is in
      progress: earlier detections stay as they are, and the open one is
      closed at `x` by an inactive window, closed at `n` by a jump past
      `n - wl`, or kept open. */
  lemma ExtendOpenRun(n: nat, wl: int, active: int -> bool, p: seq<int>, x: int, d: seq<Detection>)
    requires wl > 0
    requires p != [] && active(p[|p| - 1])
    requires x == Advance(wl, active, p[|p| - 1]) && x < n - wl
    requires OpenRun(p, active) && d == DetectionsOf(n, wl, active, p)
    ensures |d| > 0 && d[|d| - 1].end == d[|d| - 1].start
    ensures DetectionsOf(n, wl, active, p + [x]) ==
      if !active(x) then d[|d| - 1 := Detection(d[|d| - 1].start, x)]
      else if x + 2 * wl > n - wl then d[|d| - 1 := Detection(d[|d| - 1].start, n)]
      else d
    ensures active(x) ==> OpenRun(p + [x], active)
  {
    var q := p + [x];
    var ks := Onsets(p, active);
    OnsetsAppend(p, active, x);
    assert Onsets(q, active) == ks;
    var d' := DetectionsOf(n, wl, active, q);
    OnsetsSpec(p, active);
    forall i | 0 <= i < |ks| - 1
      ensures d'[i] == d[i]
    {
      ClosedBeforeLaterOnset(p, active, ks[i], ks[i + 1]);
      FirstInactiveAppend(p, active, ks[i], x);
    }
    FirstInactiveAppend(p, active, ks[|ks| - 1], x);
  }

  /** Every active window whose examined predecessor is inactive starts its
      own run of consecutive active windows. */
  lemma {:induction false} RunStart(vs: seq<int>, active: int -> bool, m: nat)
    requires m < |vs| && active(vs[m])
    ensures exists k ::
      0 <= k <= m && IsOnset(vs, active, k) && (forall t :: k <= t <= m ==> active(vs[t]))
  {
    if m > 0 && active(vs[m - 1]) {
      RunStart(vs, active, m - 1);
      var k :| 0 <= k <= m - 1 && IsOnset(vs, active, k) &&
        forall t :: k <= t <= m - 1 ==> active(vs[t]);
      assert forall t :: k <= t <= m ==> active(vs[t]);
    } else {
      assert IsOnset(vs, active, m);
    }
  }

  /** The result is exactly one detection per onset: every detection starts
      at an examined, active window that is a non-negative multiple of `wl`
      below `n - wl` and whose examined predecessor is inactive, and every such
      window starts a detection. */
  lemma DetectionStarts(n: nat, wl: int, active: int -> bool)
    requires wl > 0
    ensures var vs, d := Visits(n, wl, active, 0), Detections(n, wl, active);
      && (forall i :: 0 <= i < |d| ==>
            && d[i].start in vs && active(d[i].start)
            && 0 <= d[i].start < n - wl && d[i].start % wl == 0)
      && (forall k :: 0 <= k < |vs| && IsOnset(vs, active, k) ==>
            exists i :: 0 <= i < |d| && d[i].start == vs[k])
  {
    var vs, d := Visits(n, wl, active, 0), Detections(n, wl, active);
    var ks := Onsets(vs, active);
    VisitsAligned(n, wl, active, 0);
    OnsetsSpec(vs, active);
    forall k | 0 <= k < |vs| && IsOnset(vs, active, k)
      ensures exists i :: 0 <= i < |d| && d[i].start == vs[k]
    {
      var i :| 0 <= i < |ks| && ks[i] == k;
      assert d[i].start == vs[k];
    }
  }

  /** Every detection satisfies start <= end <= n, and its end is one of: a
      later examined window that is inactive (the one that closed it), the
      end of the recording `n` (force-closed), or its own start (unclosed). */
  lemma DetectionEnds(n: nat, wl: int, active: int -> bool)
    requires wl > 0
    ensures var vs, d := Visits(n, wl, active, 0), Detections(n, wl, active);
      forall i :: 0 <= i < |d| ==>
        && d[i].start <= d[i].end <= n
        && (|| (d[i].end in vs && !active(d[i].end) && d[i].start < d[i].end)
            || d[i].end == n
            || d[i].end == d[i].start)
  {
    var vs, d := Visits(n, wl, active, 0), Detections(n, wl, active);
    var ks := Onsets(vs, active);
    VisitsIncreasing(n, wl, active, 0);
    forall i | 0 <= i < |d|
      ensures d[i].start <= d[i].end <= n
      ensures d[i].end in vs && d[i].start < d[i].end ==> !active(d[i].end)
    {
      var j := FirstInactive(vs, active, ks[i]);
      FirstInactiveSpec(vs, active, ks[i]);
      if j < |vs| {
        assert vs[ks[i]] + wl <= vs[j];
      }
    }
  }

  /** Detections are strictly ordered and pairwise disjoint: each one ends
      before any later one starts. */
  lemma DetectionsOrdered(n: nat, wl: int, active: int -> bool)
    requires wl > 0
    ensures var d := Detections(n, wl, active);
      forall i, j :: 0 <= i < j < |d| ==> d[i].end < d[j].start
  {
    var vs, d := Visits(n, wl, active, 0), Detections(n, wl, active);
    var ks := Onsets(vs, active);
    VisitsIncreasing(n, wl, active, 0);
    OnsetsSpec(vs, active);
    forall i, j | 0 <= i < j < |d|
      ensures d[i].end < d[j].start
    {
      ClosedBeforeLaterOnset(vs, active, ks[i], ks[j]);
      assert vs[FirstInactive(vs, active, ks[i])] + wl <= vs[ks[j]];
    }
  }

  /** Every detection but the last is closed, by an inactive window or by the
      end of the recording, at a point strictly after its start. */
  lemma OnlyLastUnclosed(n: nat, wl: int, active: int -> bool)
    requires wl > 0
    ensures var d := Detections(n, wl, active);
      forall i :: 0 <= i < |d| - 1 ==> d[i].start < d[i].end
  {
    var vs, d := Visits(n, wl, active, 0), Detections(n, wl, active);
    var ks := Onsets(vs, active);
    VisitsIncreasing(n, wl, active, 0);
    OnsetsSpec(vs, active);
    forall i | 0 <= i < |d| - 1
      ensures d[i].start < d[i].end
    {
      ClosedBeforeLaterOnset(vs, active, ks[i], ks[i + 1]);
      assert vs[ks[i]] + wl <= vs[FirstInactive(vs, active, ks[i])];
    }
  }

  /** The last detection ends where it starts exactly when the last examined
      window is active and its two-window jump lands exactly on `n - wl`: the
      loop then stops on its strict bound before the force-close test can
      fire. */
  lemma UnclosedOnExactLanding(n: nat, wl: int, active: int -> bool)
    requires wl > 0
    ensures var vs, d := Visits(n, wl, active, 0), Detections(n, wl, active);
      (|d| > 0 && d[|d| - 1].end == d[|d| - 1].start) <==>
      (vs != [] && active(vs[|vs| - 1]) && vs[|vs| - 1] + 2 * wl == n - wl)
  {
    var vs := Visits(n, wl, active, 0);
    VisitsIncreasing(n, wl, active, 0);
    VisitsFollowPointer(n, wl, active, 0);
    if vs != [] && active(vs[|vs| - 1]) {
      LastOnsetReachesEnd(vs, active);
    } else {
      LastDetectionClosed(n, wl, active, vs);
    }
  }

  /** When the last examined window is active, the last onset's run reaches
      the end of the trace. */
  lemma LastOnsetReachesEnd(vs: seq<int>, active: int -> bool)
    requires vs != [] && active(vs[|vs| - 1])
    ensures |Onsets(vs, active)| > 0
    ensures FirstInactive(vs, active, Onsets(vs, active)[|Onsets(vs, active)| - 1]) == |vs|
  {
    var ks := Onsets(vs, active);
    OnsetsSpec(vs, active);
    RunStart(vs, active, |vs| - 1);
    var k0 :| 0 <= k0 <= |vs| - 1 && IsOnset(vs, active, k0) &&
      forall t :: k0 <= t <= |vs| - 1 ==> active(vs[t]);
    assert k0 in ks;
    var k := ks[|ks| - 1];
    assert k0 <= k by {
      var i0 :| 0 <= i0 < |ks| && ks[i0] == k0;
      if i0 < |ks| - 1 { assert ks[i0] < ks[|ks| - 1]; }
    }
    FirstInactiveSpec(vs, active, k);
  }

  /** When the last examined window is inactive, or there is none, the last
      detection, if any, was closed strictly after its start. */
  lemma LastDetectionClosed(n: nat, wl: int, active: int -> bool, vs: seq<int>)
    requires wl > 0 && vs == Visits(n, wl, active, 0)
    requires vs == [] || !active(vs[|vs| - 1])
    ensures var d := DetectionsOf(n, wl, active, vs);
      |d| > 0 ==> d[|d| - 1].start < d[|d| - 1].end
  {
    var d := DetectionsOf(n, wl, active, vs);
    var ks := Onsets(vs, active);
    VisitsIncreasing(n, wl, active, 0);
    if |d| > 0 {
      var k := ks[|ks| - 1];
      OnsetsSpec(vs, active);
      FirstInactiveSpec(vs, active, k);
      var j := FirstInactive(vs, active, k);
      assert active(vs[k]);
      assert k < |vs| - 1;
      assert j < |vs|;
      assert vs[k] + wl <= vs[j];
    }
  }

  /** The result is empty exactly when no examined window is active; in
      particular a recording no longer than one window yields no detection. */
  lemma EmptyWhenNothingActive(n: nat, wl: int, active: int -> bool)
    requires wl > 0
    ensures Detections(n, wl, active) == [] ==>
      forall k :: 0 <= k < |Visits(n, wl, active, 0)| ==> !active(Visits(n, wl, active, 0)[k])
    ensures Detections(n, wl, active) != [] ==>
      exists k :: 0 <= k < |Visits(n, wl, active, 0)| && active(Visits(n, wl, active, 0)[k])
    ensures n <= wl ==> Detections(n, wl, active) == []
  {
    var vs := Visits(n, wl, active, 0);
    var ks := Onsets(vs, active);
    OnsetsSpec(vs, active);
    if |ks| > 0 {
      assert active(vs[ks[0]]);
    }
    if k :| 0 <= k < |vs| && active(vs[k]) {
      RunStart(vs, active, k);
      var k0 :| 0 <= k0 <= k && IsOnset(vs, active, k0) &&
        forall t :: k0 <= t <= k ==> active(vs[t]);
      assert k0 in ks;
      assert |DetectionsOf(n, wl, active, vs)| == |ks| > 0;
      assert Detections(n, wl, active) != [];
    } else {
      assert |ks| == 0;
      assert Detections(n, wl, active) == [];
    }
    if n <= wl {
      assert vs == [];
    }
  }
}
