/** Repairing function boundaries: merging pieces that branch into each other, splitting hidden entry points. */
module Boundaries {
  import opened Words
  import opened Order

  type Range = (int, int)

  // ---- Sorting ----

  function Sorted(s: set<int>): (r: seq<int>)
    ensures forall x :: x in r <==> x in s
    ensures Increasing(r)
    decreases |s|
  {
    if s == {} then []
    else
      var m := Least(s);
      assert forall x | x in s :: x == m || x in s - {m};
      [m] + Sorted(s - {m})
  }

  predicate Increasing(r: seq<int>) {
    forall i, j | 0 <= i < j < |r| :: r[i] < r[j]
  }

  // ---- Collecting ----

  /** What the scan of the translated code meets. */
  datatype Line = Function(address: nat) | Named | Unresolved(target: nat) | Other

  /** The first start above the target, or the end of one instruction. */
  function EndAfter(starts: seq<int>, target: int): (r: int)
    ensures r > target
  {
    if starts == [] then target + 4 else if starts[0] > target then starts[0] else EndAfter(starts[1..], target)
  }

  /** The nearest of the sorted starts above the target, or the end of the instruction at the target. */
  lemma {:induction false} EndIsNearest(starts: seq<int>, target: int)
    requires Increasing(starts)
    ensures var end := EndAfter(starts, target);
      if exists s :: s in starts && s > target then end in starts && forall s | s in starts && s > target :: end <= s
      else end == target + 4
    decreases |starts|
  {
    if starts != [] {
      assert starts == [starts[0]] + starts[1..];
      EndIsNearest(starts[1..], target);
      forall s | s in starts ensures starts[0] <= s {
        var i :| 0 <= i < |starts| && starts[i] == s;
      }
    }
  }

  datatype Scan = Scan(current: Option<int>, needed: map<int, int>)

  function Widened(needed: map<int, int>, start: int, end: int): map<int, int> {
    needed[start := Max(if start in needed then needed[start] else 0, end)]
  }

  function Note(scan: Scan, line: Line, starts: seq<int>): Scan {
    match line
    case Function(address) => scan.(current := Some(address))
    case Named => scan.(current := None)
    case Other => scan
    case Unresolved(target) =>
      if scan.current.None? || target <= scan.current.value then scan
      else scan.(needed := Widened(scan.needed, scan.current.value, EndAfter(starts, target)))
  }

  function NoteAll(scan: Scan, lines: seq<Line>, starts: seq<int>): Scan
    decreases |lines|
  {
    if lines == [] then scan else NoteAll(Note(scan, lines[0], starts), lines[1..], starts)
  }

  const FRESH := Scan(None, map[])

  method CollectBrokenRanges(lines: seq<Line>, starts: seq<int>) returns (needed: map<int, int>)
    ensures needed == NoteAll(FRESH, lines, starts).needed
  {
    needed := map[];
    var current: Option<int> := None;
    for i := 0 to |lines|
      invariant NoteAll(Scan(current, needed), lines[i..], starts) == NoteAll(FRESH, lines, starts)
    {
      assert lines[i..][1..] == lines[i + 1..];
      match lines[i] {
        case Function(address) => current := Some(address);
        case Named => current := None;
        case Other =>
        case Unresolved(target) =>
          if current.Some? && target > current.value {
            var end := EndAfter(starts, target);
            var known := if current.value in needed then needed[current.value] else 0;
            needed := needed[current.value := Max(known, end)];
          }
      }
    }
  }

  /** Ranges are not empty. */
  predicate Forward(needed: map<int, int>) {
    forall s | s in needed :: s < needed[s]
  }

  /** The forward branches of a scan, with the piece each one starts in. */
  function Branches(current: Option<int>, lines: seq<Line>): seq<Range>
    decreases |lines|
  {
    if lines == [] then []
    else match lines[0]
      case Function(address) => Branches(Some(address), lines[1..])
      case Named => Branches(None, lines[1..])
      case Other => Branches(current, lines[1..])
      case Unresolved(target) =>
        (if current.Some? && target > current.value then [(current.value, target)] else [])
          + Branches(current, lines[1..])
  }

  /** A range reaches as far as the ends of the pieces its branches go to, and no farther. */
  ghost predicate EndsFit(needed: map<int, int>, before: map<int, int>, branches: seq<Range>, starts: seq<int>) {
    && (forall b | b in branches :: b.0 in needed && EndAfter(starts, b.1) <= needed[b.0])
    && (forall s | s in before :: s in needed && before[s] <= needed[s])
    && (forall s | s in needed :: (s in before && needed[s] == before[s]) || FromBranch(s, needed[s], branches, starts))
  }

  predicate FromBranch(s: int, end: int, branches: seq<Range>, starts: seq<int>) {
    exists b | b in branches :: b.0 == s && EndAfter(starts, b.1) == end
  }

  lemma {:induction false} NeededFits(scan: Scan, lines: seq<Line>, starts: seq<int>)
    ensures EndsFit(NoteAll(scan, lines, starts).needed, scan.needed, Branches(scan.current, lines), starts)
    decreases |lines|
  {
    if lines != [] {
      var next := Note(scan, lines[0], starts);
      NeededFits(next, lines[1..], starts);
      if lines[0].Unresolved? && scan.current.Some? && lines[0].target > scan.current.value {
        OneMoreBranch(NoteAll(scan, lines, starts).needed, scan.needed, (scan.current.value, lines[0].target),
                      Branches(next.current, lines[1..]), starts);
      } else {
        assert [] + Branches(next.current, lines[1..]) == Branches(next.current, lines[1..]);
      }
    }
  }

  lemma OneMoreBranch(needed: map<int, int>, before: map<int, int>, b: Range, branches: seq<Range>, starts: seq<int>)
    requires 0 <= b.1 && EndsFit(needed, Widened(before, b.0, EndAfter(starts, b.1)), branches, starts)
    ensures EndsFit(needed, before, [b] + branches, starts)
  {
    hide EndAfter;
    var all := [b] + branches;
    forall s | s in needed && !(s in before && needed[s] == before[s]) ensures FromBranch(s, needed[s], all, starts) {
      if FromBranch(s, needed[s], branches, starts) {
        var c :| c in branches && c.0 == s && EndAfter(starts, c.1) == needed[s];
        assert c in all;
      } else {
        assert b in all && b.0 == s;
      }
    }
  }

  lemma {:induction false} BranchesForward(current: Option<int>, lines: seq<Line>)
    ensures forall b | b in Branches(current, lines) :: b.0 < b.1
    decreases |lines|
  {
    if lines != [] {
      BranchesForward(match lines[0] case Function(address) => Some(address) case Named => None case _ => current,
                      lines[1..]);
    }
  }

  /** The needed ranges of a scan are not empty and hold its forward branches. */
  lemma ScanNeeded(lines: seq<Line>, starts: seq<int>)
    ensures var needed := NoteAll(FRESH, lines, starts).needed;
      && Forward(needed)
      && (forall b | b in Branches(None, lines) :: b.0 in needed && b.1 < needed[b.0])
  {
    NeededFits(FRESH, lines, starts);
    BranchesForward(None, lines);
    var needed := NoteAll(FRESH, lines, starts).needed;
    forall s | s in needed ensures s < needed[s] {
      assert FromBranch(s, needed[s], Branches(None, lines), starts);
    }
  }

  // ---- Merging ----

  function MergeStep(merged: seq<Range>, start: int, end: int): seq<Range> {
    if merged != [] && start < merged[|merged| - 1].1 then
      merged[..|merged| - 1] + [(merged[|merged| - 1].0, Max(merged[|merged| - 1].1, end))]
    else merged + [(start, end)]
  }

  function MergeAll(merged: seq<Range>, starts: seq<int>, needed: map<int, int>): seq<Range>
    requires forall s | s in starts :: s in needed
    decreases |starts|
  {
    if starts == [] then merged else MergeAll(MergeStep(merged, starts[0], needed[starts[0]]), starts[1..], needed)
  }

  function Merged(needed: map<int, int>): seq<Range> {
    MergeAll([], Sorted(needed.Keys), needed)
  }

  method Merge(needed: map<int, int>) returns (merged: seq<Range>)
    ensures merged == Merged(needed)
  {
    hide Sorted, Max;
    merged := [];
    var starts := Sorted(needed.Keys);
    for i := 0 to |starts|
      invariant MergeAll(merged, starts[i..], needed) == Merged(needed)
    {
      assert starts[i..][1..] == starts[i + 1..];
      var start, end := starts[i], needed[starts[i]];
      if merged != [] && start < merged[|merged| - 1].1 {
        var last := merged[|merged| - 1];
        merged := merged[..|merged| - 1] + [(last.0, Max(last.1, end))];
        continue;
      }
      merged := merged + [(start, end)];
    }
  }

  /** In order, without overlap, none empty. */
  predicate Disjoint(merged: seq<Range>) {
    && (forall i | 0 <= i < |merged| :: merged[i].0 < merged[i].1)
    && (forall i, j | 0 <= i < j < |merged| :: merged[i].1 <= merged[j].0)
  }

  predicate Spans(m: Range, s: int, e: int) {
    m.0 <= s && e <= m.1
  }

  predicate Within(s: int, e: int, merged: seq<Range>) {
    exists m | m in merged :: Spans(m, s, e)
  }

  /** A range reaches over the point from both sides. */
  predicate Crossed(x: int, done: seq<int>, needed: map<int, int>)
    requires forall s | s in done :: s in needed
  {
    exists s | s in done :: s < x < needed[s]
  }

  /** Every range done so far lies in one interval. */
  predicate AllWithin(merged: seq<Range>, done: seq<int>, needed: map<int, int>)
    requires forall s | s in done :: s in needed
  {
    forall s | s in done :: Within(s, needed[s], merged)
  }

  /** Intervals start where ranges start. */
  predicate StartsDone(merged: seq<Range>, done: seq<int>) {
    forall m | m in merged :: m.0 in done
  }

  /** No interval can be cut without cutting a range. */
  ghost predicate Uncut(merged: seq<Range>, done: seq<int>, needed: map<int, int>)
    requires forall s | s in done :: s in needed
  {
    forall m, x | m in merged && m.0 < x < m.1 :: Crossed(x, done, needed)
  }

  /** The intervals are exactly the connected parts of the ranges done so far. */
  ghost predicate Parts(merged: seq<Range>, done: seq<int>, needed: map<int, int>)
    requires forall s | s in done :: s in needed
  {
    Disjoint(merged) && AllWithin(merged, done, needed) && StartsDone(merged, done) && Uncut(merged, done, needed)
  }

  lemma StepKeepsParts(merged: seq<Range>, done: seq<int>, start: int, needed: map<int, int>)
    requires Forward(needed) && start in needed && (forall s | s in done :: s in needed && s < start)
    requires Parts(merged, done, needed)
    ensures Parts(MergeStep(merged, start, needed[start]), done + [start], needed)
  {
    hide Parts;
    if merged != [] && start < merged[|merged| - 1].1 {
      assert merged == merged[..|merged| - 1] + [merged[|merged| - 1]];
      WidenKeepsParts(merged[..|merged| - 1], merged[|merged| - 1], done, start, needed);
    } else {
      AppendKeepsParts(merged, done, start, needed);
    }
  }

  lemma StillWithin(s: int, e: int, merged: seq<Range>, next: seq<Range>)
    requires Within(s, e, merged) && Grown(merged, next)
    ensures Within(s, e, next)
  {
    var m :| m in merged && Spans(m, s, e);
    var n :| n in next && Spans(n, m.0, m.1);
    assert Spans(n, s, e);
  }

  lemma StillCrossed(x: int, done: seq<int>, start: int, needed: map<int, int>)
    requires start in needed && (forall s | s in done :: s in needed)
    requires Crossed(x, done, needed) || start < x < needed[start]
    ensures Crossed(x, done + [start], needed)
  {
    if Crossed(x, done, needed) {
      var s :| s in done && s < x < needed[s];
      assert s in done + [start];
    } else {
      assert start in done + [start];
    }
  }

  lemma WidenDisjoint(front: seq<Range>, last: Range, wide: int)
    requires Disjoint(front + [last]) && last.1 <= wide
    ensures Disjoint(front + [(last.0, wide)])
  {
    var old0, new0 := front + [last], front + [(last.0, wide)];
    assert forall i | 0 <= i < |front| :: new0[i] == old0[i];
    assert new0[|front|].0 == old0[|front|].0;
  }

  /** Every interval stays within one. */
  ghost predicate Grown(merged: seq<Range>, next: seq<Range>) {
    forall m | m in merged :: exists n | n in next :: Spans(n, m.0, m.1)
  }

  lemma GrownKeepsWithin(merged: seq<Range>, next: seq<Range>, done: seq<int>, start: int, needed: map<int, int>)
    requires start in needed && (forall s | s in done :: s in needed)
    requires AllWithin(merged, done, needed) && Grown(merged, next) && Within(start, needed[start], next)
    ensures AllWithin(next, done + [start], needed)
  {
    hide Within, Grown;
    forall s | s in done + [start] ensures Within(s, needed[s], next) {
      if s != start { StillWithin(s, needed[s], merged, next); }
    }
  }

  lemma WidenGrows(front: seq<Range>, last: Range, wide: int)
    requires last.1 <= wide
    ensures Grown(front + [last], front + [(last.0, wide)])
  {
    var next := front + [(last.0, wide)];
    assert (last.0, wide) in next && Spans((last.0, wide), last.0, last.1);
    forall m | m in front + [last] ensures exists n | n in next :: Spans(n, m.0, m.1) {
      if m in front { assert m in next && Spans(m, m.0, m.1); }
    }
  }

  lemma WidenUncut(front: seq<Range>, last: Range, done: seq<int>, start: int, needed: map<int, int>)
    requires start in needed && start < last.1 && (forall s | s in done :: s in needed)
    requires Uncut(front + [last], done, needed)
    ensures Uncut(front + [(last.0, Max(last.1, needed[start]))], done + [start], needed)
  {
    hide Crossed;
    var wide := (last.0, Max(last.1, needed[start]));
    assert last in front + [last];
    forall m, x | m in front + [wide] && m.0 < x < m.1 ensures Crossed(x, done + [start], needed) {
      assert m in front ==> m in front + [last];
      StillCrossed(x, done, start, needed);
    }
  }

  lemma WidenStarts(front: seq<Range>, last: Range, wide: int, done: seq<int>, start: int)
    requires StartsDone(front + [last], done)
    ensures StartsDone(front + [(last.0, wide)], done + [start])
  {
    assert last in front + [last];
    forall m | m in front + [(last.0, wide)] ensures m.0 in done + [start] {
      assert m in front ==> m in front + [last];
    }
  }

  lemma LastSpans(front: seq<Range>, last: Range, done: seq<int>, start: int, end: int)
    requires StartsDone(front + [last], done) && (forall s | s in done :: s < start)
    ensures Within(start, end, front + [(last.0, Max(last.1, end))])
  {
    assert last in front + [last];
    var wide := (last.0, Max(last.1, end));
    assert wide in front + [wide] && Spans(wide, start, end);
  }

  lemma WidenKeepsParts(front: seq<Range>, last: Range, done: seq<int>, start: int, needed: map<int, int>)
    requires Forward(needed) && start in needed && (forall s | s in done :: s in needed && s < start)
    requires Parts(front + [last], done, needed) && start < last.1
    ensures Parts(front + [(last.0, Max(last.1, needed[start]))], done + [start], needed)
  {
    hide Disjoint, AllWithin, StartsDone, Uncut, Within, Grown;
    var wide := Max(last.1, needed[start]);
    WidenDisjoint(front, last, wide);
    WidenGrows(front, last, wide);
    LastSpans(front, last, done, start, needed[start]);
    GrownKeepsWithin(front + [last], front + [(last.0, wide)], done, start, needed);
    WidenStarts(front, last, wide, done, start);
    WidenUncut(front, last, done, start, needed);
  }

  lemma AppendDisjoint(merged: seq<Range>, m: Range)
    requires Disjoint(merged) && m.0 < m.1 && (merged == [] || merged[|merged| - 1].1 <= m.0)
    ensures Disjoint(merged + [m])
  {
    forall i | 0 <= i < |merged| ensures merged[i].1 <= m.0 {
      var last := merged[|merged| - 1];
      assert last.0 < last.1;
      assert i < |merged| - 1 ==> merged[i].1 <= last.0;
    }
  }

  lemma AppendGrows(merged: seq<Range>, m: Range)
    ensures Grown(merged, merged + [m]) && Within(m.0, m.1, merged + [m])
  {
    assert m in merged + [m] && Spans(m, m.0, m.1);
    forall n | n in merged ensures exists o | o in merged + [m] :: Spans(o, n.0, n.1) {
      assert n in merged + [m] && Spans(n, n.0, n.1);
    }
  }

  lemma AppendUncut(merged: seq<Range>, done: seq<int>, start: int, needed: map<int, int>)
    requires start in needed && (forall s | s in done :: s in needed) && Uncut(merged, done, needed)
    ensures Uncut(merged + [(start, needed[start])], done + [start], needed)
  {
    hide Crossed;
    forall m, x | m in merged + [(start, needed[start])] && m.0 < x < m.1 ensures Crossed(x, done + [start], needed) {
      StillCrossed(x, done, start, needed);
    }
  }

  lemma AppendKeepsParts(merged: seq<Range>, done: seq<int>, start: int, needed: map<int, int>)
    requires Forward(needed) && start in needed && (forall s | s in done :: s in needed && s < start)
    requires Parts(merged, done, needed) && (merged == [] || merged[|merged| - 1].1 <= start)
    ensures Parts(merged + [(start, needed[start])], done + [start], needed)
  {
    var m := (start, needed[start]);
    assert StartsDone(merged + [m], done + [start]);
    hide Disjoint, AllWithin, StartsDone, Uncut, Within, Grown;
    AppendDisjoint(merged, m);
    AppendGrows(merged, m);
    GrownKeepsWithin(merged, merged + [m], done, start, needed);
    AppendUncut(merged, done, start, needed);
  }

  lemma {:induction false} MergeKeepsParts(merged: seq<Range>, done: seq<int>, starts: seq<int>, needed: map<int, int>)
    requires Forward(needed) && Increasing(done + starts) && (forall s | s in done + starts :: s in needed)
    requires Parts(merged, done, needed)
    ensures Parts(MergeAll(merged, starts, needed), done + starts, needed)
    decreases |starts|
  {
    if starts == [] {
      assert done + starts == done;
    } else {
      assert done + starts == (done + [starts[0]]) + starts[1..];
      assert (done + starts)[|done|] == starts[0];
      forall s | s in done ensures s in needed && s < starts[0] {
        var i :| 0 <= i < |done| && done[i] == s;
        assert (done + starts)[i] == s;
      }
      assert starts[0] in done + starts;
      hide Parts, MergeStep;
      StepKeepsParts(merged, done, starts[0], needed);
      MergeKeepsParts(MergeStep(merged, starts[0], needed[starts[0]]), done + [starts[0]], starts[1..], needed);
    }
  }

  /**
   The merged functions are the connected parts of the needed ranges: sorted and disjoint, each
   range in one of them, and none that could be cut without cutting a range.
   */
  lemma MergedParts(needed: map<int, int>)
    requires Forward(needed)
    ensures Parts(Merged(needed), Sorted(needed.Keys), needed)
  {
    var starts := Sorted(needed.Keys);
    assert [] + starts == starts;
    NoParts(needed);
    assert forall s | s in starts :: s in needed.Keys;
    hide Parts, Sorted, MergeAll, Forward;
    MergeKeepsParts([], [], starts, needed);
  }

  lemma NoParts(needed: map<int, int>)
    ensures Parts([], [], needed)
  {
  }

  /** Merging covers exactly the addresses of the needed ranges. */
  lemma MergedUnion(needed: map<int, int>, x: int)
    requires Forward(needed)
    ensures Within(x, x + 1, Merged(needed)) <==> exists s | s in needed :: s <= x < needed[s]
  {
    MergedParts(needed);
    var merged, done := Merged(needed), Sorted(needed.Keys);
    assert forall s :: s in done <==> s in needed.Keys;
    PartsCover(merged, done, needed, x);
  }

  lemma PartsCover(merged: seq<Range>, done: seq<int>, needed: map<int, int>, x: int)
    requires Forward(needed) && (forall s :: s in done <==> s in needed) && Parts(merged, done, needed)
    ensures Within(x, x + 1, merged) <==> exists s | s in needed :: s <= x < needed[s]
  {
    hide Disjoint;
    if Within(x, x + 1, merged) {
      var m :| m in merged && Spans(m, x, x + 1);
      if m.0 == x {
        assert x in needed && x < needed[x];
      } else {
        assert Crossed(x, done, needed);
      }
    }
    if s :| s in needed && s <= x < needed[s] {
      assert Within(s, needed[s], merged);
      var m :| m in merged && Spans(m, s, needed[s]);
      assert Spans(m, x, x + 1);
    }
  }

  predicate Holds(needed: map<int, int>, x: int) {
    exists s | s in needed :: s <= x < needed[s]
  }

  /** Some range reaches over the point from both sides. */
  predicate Bridged(needed: map<int, int>, x: int) {
    exists s | s in needed :: s < x < needed[s]
  }

  /** Intervals that share an address are the same. */
  lemma SameInterval(merged: seq<Range>, m: Range, n: Range, x: int)
    requires Disjoint(merged) && m in merged && n in merged && Spans(m, x, x + 1) && Spans(n, x, x + 1)
    ensures m == n
  {
  }

  lemma {:induction false} BridgedWithin(merged: seq<Range>, done: seq<int>, needed: map<int, int>, low: int, high: int)
    requires Forward(needed) && (forall s :: s in done <==> s in needed) && Parts(merged, done, needed)
    requires low <= high && Holds(needed, low) && forall x | low < x <= high :: Bridged(needed, x)
    ensures Within(low, high + 1, merged)
    decreases high - low
  {
    hide Disjoint, Uncut, StartsDone, Forward;
    PartsCover(merged, done, needed, low);
    if low < high {
      BridgedWithin(merged, done, needed, low, high - 1);
      var m :| m in merged && Spans(m, low, high);
      assert Bridged(needed, high);
      var s :| s in needed && s < high < needed[s];
      assert Within(s, needed[s], merged);
      var n :| n in merged && Spans(n, s, needed[s]);
      SameInterval(merged, m, n, high - 1);
      assert Spans(m, low, high + 1);
    }
  }

  lemma WithinBridged(merged: seq<Range>, done: seq<int>, needed: map<int, int>, low: int, high: int)
    requires Forward(needed) && (forall s :: s in done <==> s in needed) && Parts(merged, done, needed)
    requires low <= high && Within(low, high + 1, merged)
    ensures Holds(needed, low) && forall x | low < x <= high :: Bridged(needed, x)
  {
    hide Disjoint, AllWithin, StartsDone, Forward;
    var m :| m in merged && Spans(m, low, high + 1);
    assert Spans(m, low, low + 1);
    PartsCover(merged, done, needed, low);
    forall x | low < x <= high ensures Bridged(needed, x) {
      assert m.0 < x < m.1;
      assert Crossed(x, done, needed);
    }
  }

  /**
   Exactly when two addresses end up in one function: the lower one lies in a needed range, and at
   every point up to the higher one some range reaches over it.
   */
  lemma TogetherIff(needed: map<int, int>, low: int, high: int)
    requires Forward(needed) && low <= high
    ensures Within(low, high + 1, Merged(needed))
       <==> Holds(needed, low) && forall x | low < x <= high :: Bridged(needed, x)
  {
    MergedParts(needed);
    var merged, done := Merged(needed), Sorted(needed.Keys);
    assert forall s :: s in done <==> s in needed.Keys;
    hide Merged, Sorted, Parts, Holds, Bridged, Within;
    if Within(low, high + 1, merged) {
      WithinBridged(merged, done, needed, low, high);
    } else if Holds(needed, low) && forall x | low < x <= high :: Bridged(needed, x) {
      BridgedWithin(merged, done, needed, low, high);
    }
  }

  /** Every forward branch of the scan ends up in one function with its target. */
  lemma BranchesTogether(lines: seq<Line>, starts: seq<int>, b: Range)
    requires b in Branches(None, lines)
    ensures b.0 < b.1 && Within(b.0, b.1 + 1, Merged(NoteAll(FRESH, lines, starts).needed))
  {
    hide Branches, NoteAll, Merged, Within;
    ScanNeeded(lines, starts);
    BranchesForward(None, lines);
    var needed := NoteAll(FRESH, lines, starts).needed;
    assert b.0 in needed;
    TogetherIff(needed, b.0, b.1);
  }

  /** A backward branch adds nothing to the ranges, wherever in the scan it is met. */
  lemma BackwardBranchAddsNothing(scan: Scan, target: nat, starts: seq<int>)
    requires scan.current.Some? && target <= scan.current.value
    ensures Note(scan, Unresolved(target), starts) == scan
  {
  }

  /**
   So a backward branch ends up in one function with its target exactly when the forward branches
   of the same scan bridge every point between them.
   */
  lemma BackwardBranchTogetherIff(lines: seq<Line>, starts: seq<int>, piece: nat, target: nat)
    requires target <= piece
    ensures var needed := NoteAll(FRESH, lines, starts).needed;
      Within(target, piece + 1, Merged(needed)) <==>
        Holds(needed, target) && forall x | target < x <= piece :: Bridged(needed, x)
  {
    hide NoteAll;
    ScanNeeded(lines, starts);
    TogetherIff(NoteAll(FRESH, lines, starts).needed, target, piece);
  }

  /** A backward branch on its own is not repaired at all. */
  lemma BackwardBranchIgnored(piece: nat, target: nat, starts: seq<int>)
    requires target <= piece
    ensures !Within(target, piece + 1, Merged(NoteAll(FRESH, [Function(piece), Unresolved(target)], starts).needed))
    ensures Merged(NoteAll(FRESH, [Function(piece), Unresolved(target)], starts).needed) == []
  {
    var lines := [Function(piece), Unresolved(target)];
    assert lines[1..] == [Unresolved(target)] && lines[1..][1..] == [];
    var scan := Note(FRESH, lines[0], starts);
    BackwardBranchAddsNothing(scan, target, starts);
    assert NoteAll(FRESH, lines, starts) == NoteAll(Note(scan, lines[1], starts), [], starts);
    BackwardBranchTogetherIff(lines, starts, piece, target);
  }

  // ---- Splitting ----

  const IMAGE_BASE := 0x8200_0000

  /** Whether a routine can begin at an address, by the instruction before it. */
  function IsEntryPoint(image: seq<Byte>, address: int): bool {
    var offset := address - IMAGE_BASE - 4;
    if offset < 0 || offset + 4 > |image| then false
    else
      var (b3: int, b2: int, b1: int, b0: int) := (image[offset], image[offset + 1], image[offset + 2],
                                                   image[offset + 3]);
      EndsRoutine(0x100_0000 * b3 + 0x1_0000 * b2 + 0x100 * b1 + b0)
  }

  /** Padding, an unlinked branch, or an unconditional unlinked branch to a register. */
  predicate EndsRoutine(word: int) {
    var opcode, link := word / 0x400_0000, word % 2;
    if word == 0 || word == 0x6000_0000 then true
    else if opcode == 18 then link == 0
    else if opcode == 19 then
      (var extended := word / 2 % 0x400;
       var option := word / 0x20_0000 % 0x20;
       (extended == 16 || extended == 528) && link == 0 && option / 4 % 2 == 1 && option / 16 % 2 == 1)
    else false
  }

  /** An unlinked branch ends a routine, a call does not. */
  lemma BranchWords(rest: int)
    requires 0 <= rest < 0x400_0000
    ensures EndsRoutine(0x4800_0000 + rest) <==> rest % 2 == 0
  {
  }

  /** Of the branches to the link or count register, those do that are unconditional and not linked. */
  lemma RegisterBranchWords(options: int, middle: int, extended: int, link: int)
    requires 0 <= options < 32 && 0 <= middle < 0x400 && 0 <= extended < 0x400 && 0 <= link < 2
    ensures EndsRoutine(0x4C00_0000 + 0x20_0000 * options + 0x800 * middle + 2 * extended + link)
       <==> extended in {16, 528} && link == 0 && options in {20, 21, 22, 23, 28, 29, 30, 31}
  {
    var word := 0x4C00_0000 + 0x20_0000 * options + 0x800 * middle + 2 * extended + link;
    assert word / 0x400_0000 == 19;
    assert word / 2 == 0x2600_0000 + 0x10_0000 * options + 0x400 * middle + extended;
    assert word / 0x20_0000 == 0x260 + options;
  }

  /** Of all other words, only padding does. */
  lemma OtherWords(word: Word)
    requires word < 0x4800_0000 || 0x5000_0000 <= word
    ensures EndsRoutine(word) <==> word in {0, 0x6000_0000}
  {
  }

  /** It is the four bytes before the address that count, in an image that is loaded at 0x8200_0000. */
  lemma EntryPointWord(image: seq<Byte>, at: nat)
    ensures !IsEntryPoint(image, 0x8200_0000 + at) || 4 <= at <= |image|
    ensures 4 <= at <= |image| ==>
      var (b3: int, b2: int, b1: int, b0: int) := (image[at - 4], image[at - 3], image[at - 2], image[at - 1]);
      IsEntryPoint(image, 0x8200_0000 + at) == EndsRoutine(0x100_0000 * b3 + 0x1_0000 * b2 + 0x100 * b1 + b0)
  {
    hide EndsRoutine;
  }

  /** The reported targets that the image confirms, in order. */
  function Targets(image: seq<Byte>, reported: set<int>): seq<int> {
    Sorted(set t | t in reported && IsEntryPoint(image, t))
  }

  /** The targets strictly inside a function. */
  function Interior(targets: seq<int>, address: int, size: int): seq<int>
    decreases |targets|
  {
    if targets == [] then []
    else (if address < targets[0] < address + size then [targets[0]] else []) + Interior(targets[1..], address, size)
  }

  /** The pieces between consecutive bounds, as addresses and sizes. */
  function Pieces(bounds: seq<int>): seq<Range>
    decreases |bounds|
  {
    if |bounds| < 2 then [] else [(bounds[0], bounds[1] - bounds[0])] + Pieces(bounds[1..])
  }

  function SplitOne(f: Range, targets: seq<int>): seq<Range> {
    Pieces([f.0] + Interior(targets, f.0, f.1) + [f.0 + f.1])
  }

  function SplitAll(functions: seq<Range>, targets: seq<int>): seq<Range>
    decreases |functions|
  {
    if functions == [] then [] else SplitOne(functions[0], targets) + SplitAll(functions[1..], targets)
  }

  function Divided(functions: seq<Range>, targets: seq<int>): nat
    decreases |functions|
  {
    if functions == [] then 0
    else (if Interior(targets, functions[0].0, functions[0].1) == [] then 0 else 1) + Divided(functions[1..], targets)
  }

  method SplitBoundaries(functions: seq<Range>, targets: seq<int>) returns (split: seq<Range>, divided: nat)
    ensures split == SplitAll(functions, targets) && divided == Divided(functions, targets)
  {
    hide Interior, Pieces;
    split, divided := [], 0;
    for i := 0 to |functions|
      invariant split + SplitAll(functions[i..], targets) == SplitAll(functions, targets)
      invariant divided + Divided(functions[i..], targets) == Divided(functions, targets)
    {
      assert functions[i..][1..] == functions[i + 1..];
      var (address, size) := functions[i];
      var interior := Interior(targets, address, size);
      if interior == [] {
        UndividedPiece(address, size);
        split := split + [(address, size)];
      } else {
        divided := divided + 1;
        var pieces := CutAt([address] + interior + [address + size]);
        split := split + pieces;
      }
    }
  }

  lemma UndividedPiece(address: int, size: int)
    ensures Pieces([address] + [] + [address + size]) == [(address, size)]
  {
    var bounds := [address] + [] + [address + size];
    assert bounds == [address, address + size];
    assert Pieces(bounds[1..]) == [];
  }

  lemma PiecesStep(pieces: seq<Range>, bounds: seq<int>, k: nat)
    requires k < |bounds| - 1
    ensures pieces + Pieces(bounds[k..]) == pieces + [(bounds[k], bounds[k + 1] - bounds[k])] + Pieces(bounds[k + 1..])
  {
    var first, rest := (bounds[k], bounds[k + 1] - bounds[k]), Pieces(bounds[k + 1..]);
    FirstPiece(bounds, k);
    hide Pieces;
    assert pieces + ([first] + rest) == pieces + [first] + rest;
  }

  lemma FirstPiece(bounds: seq<int>, k: nat)
    requires k < |bounds| - 1
    ensures Pieces(bounds[k..]) == [(bounds[k], bounds[k + 1] - bounds[k])] + Pieces(bounds[k + 1..])
  {
    assert bounds[k..][1..] == bounds[k + 1..];
  }

  lemma NoPieces(bound: int)
    ensures Pieces([bound]) == []
  {
  }

  /** The inner loop of SplitBoundaries. */
  method CutAt(bounds: seq<int>) returns (pieces: seq<Range>)
    requires |bounds| >= 1
    ensures pieces == Pieces(bounds)
  {
    hide Pieces;
    pieces := [];
    assert bounds[0..] == bounds && [] + Pieces(bounds) == Pieces(bounds);
    for k := 0 to |bounds| - 1
      invariant pieces + Pieces(bounds[k..]) == Pieces(bounds)
    {
      PiecesStep(pieces, bounds, k);
      pieces := pieces + [(bounds[k], bounds[k + 1] - bounds[k])];
    }
    assert bounds[|bounds| - 1..] == [bounds[|bounds| - 1]];
    NoPieces(bounds[|bounds| - 1]);
  }

  // ---- What splitting keeps and what it adds ----

  predicate CoveredBy(x: int, pieces: seq<Range>) {
    exists p | p in pieces :: p.0 <= x < p.0 + p.1
  }

  function Bytes(pieces: seq<Range>): int {
    if pieces == [] then 0 else pieces[0].1 + Bytes(pieces[1..])
  }

  predicate StartsAt(x: int, pieces: seq<Range>) {
    exists p | p in pieces :: p.0 == x
  }

  lemma TailAbove(targets: seq<int>)
    requires Increasing(targets) && targets != []
    ensures Increasing(targets[1..]) && forall t | t in targets[1..] :: targets[0] < t
  {
    forall t | t in targets[1..] ensures targets[0] < t {
      var j :| 0 <= j < |targets[1..]| && targets[1..][j] == t;
      assert targets[j + 1] == t;
    }
  }

  lemma IncreasingCons(t: int, rest: seq<int>)
    requires Increasing(rest) && forall r | r in rest :: t < r
    ensures Increasing([t] + rest)
  {
    assert forall i | 0 <= i < |rest| :: rest[i] in rest;
  }

  lemma {:induction false} InteriorMembers(targets: seq<int>, address: int, size: int)
    ensures forall t :: t in Interior(targets, address, size) <==> t in targets && address < t < address + size
    decreases |targets|
  {
    if targets != [] {
      InteriorMembers(targets[1..], address, size);
      assert forall t :: t in targets <==> t == targets[0] || t in targets[1..];
    }
  }

  lemma {:induction false} InteriorIncreasing(targets: seq<int>, address: int, size: int)
    requires Increasing(targets)
    ensures Increasing(Interior(targets, address, size))
    decreases |targets|
  {
    if targets != [] {
      TailAbove(targets);
      hide Increasing;
      var rest := Interior(targets[1..], address, size);
      InteriorMembers(targets[1..], address, size);
      InteriorIncreasing(targets[1..], address, size);
      IncreasingCons(targets[0], rest);
      assert [] + rest == rest;
    }
  }

  predicate NonDecreasing(bounds: seq<int>) {
    forall i, j | 0 <= i < j < |bounds| :: bounds[i] <= bounds[j]
  }

  /** Pieces between bounds in order: nothing is lost, and each bound but the last starts one. */
  lemma {:induction false} PiecesFacts(bounds: seq<int>)
    requires |bounds| >= 2 && NonDecreasing(bounds)
    ensures var (pieces, first, last) := (Pieces(bounds), bounds[0], bounds[|bounds| - 1]);
      && Bytes(pieces) == last - first
      && (forall x :: StartsAt(x, pieces) <==> x in bounds[..|bounds| - 1])
      && (forall x :: CoveredBy(x, pieces) <==> first <= x < last)
    decreases |bounds|
  {
    var rest := bounds[1..];
    PieceFirst((bounds[0], bounds[1] - bounds[0]), Pieces(rest));
    assert bounds[..|bounds| - 1] == [bounds[0]] + rest[..|rest| - 1];
    assert bounds[0] <= bounds[1] <= bounds[|bounds| - 1];
    if |bounds| == 2 {
      assert Pieces(rest) == [] && rest[..0] == [];
      assert forall x :: !StartsAt(x, []) && !CoveredBy(x, []);
      assert bounds[..1] == [bounds[0]];
    } else {
      PiecesFacts(rest);
    }
  }

  lemma PieceFirst(p: Range, rest: seq<Range>)
    ensures Bytes([p] + rest) == p.1 + Bytes(rest)
    ensures forall x :: StartsAt(x, [p] + rest) <==> x == p.0 || StartsAt(x, rest)
    ensures forall x :: CoveredBy(x, [p] + rest) <==> p.0 <= x < p.0 + p.1 || CoveredBy(x, rest)
  {
    assert ([p] + rest)[1..] == rest;
    assert forall q :: q in [p] + rest <==> q == p || q in rest;
  }

  lemma {:induction false} PiecesAppend(a: seq<Range>, b: seq<Range>)
    ensures Bytes(a + b) == Bytes(a) + Bytes(b)
    ensures forall x :: StartsAt(x, a + b) <==> StartsAt(x, a) || StartsAt(x, b)
    ensures forall x :: CoveredBy(x, a + b) <==> CoveredBy(x, a) || CoveredBy(x, b)
    decreases |a|
  {
    if a == [] {
      assert a + b == b;
    } else {
      assert a == [a[0]] + a[1..] && a + b == [a[0]] + (a[1..] + b);
      PieceFirst(a[0], a[1..]);
      PieceFirst(a[0], a[1..] + b);
      PiecesAppend(a[1..], b);
    }
  }

  /** Splitting one function keeps its bytes and adds the targets inside it as starts. */
  lemma OneExact(f: Range, targets: seq<int>)
    requires Increasing(targets) && 0 <= f.1
    ensures var split := SplitOne(f, targets);
      && Bytes(split) == f.1
      && (forall x :: StartsAt(x, split) <==> x == f.0 || (x in targets && f.0 < x < f.0 + f.1))
      && (forall x :: CoveredBy(x, split) <==> f.0 <= x < f.0 + f.1)
  {
    hide StartsAt, CoveredBy, Bytes, Pieces, Interior;
    InteriorMembers(targets, f.0, f.1);
    InteriorIncreasing(targets, f.0, f.1);
    var cuts := Interior(targets, f.0, f.1);
    var bounds := [f.0] + cuts + [f.0 + f.1];
    forall i, j | 0 <= i < j < |bounds| ensures bounds[i] <= bounds[j] {
      if 0 < i && j < |bounds| - 1 {
        assert cuts[i - 1] < cuts[j - 1];
      } else {
        assert 0 < i < |bounds| - 1 ==> cuts[i - 1] in cuts;
        assert 0 < j < |bounds| - 1 ==> cuts[j - 1] in cuts;
      }
    }
    PiecesFacts(bounds);
    assert bounds[..|bounds| - 1] == [f.0] + cuts;
  }

  predicate Interiors(x: int, functions: seq<Range>) {
    exists f | f in functions :: f.0 < x < f.0 + f.1
  }

  /**
   Splitting keeps every byte where it was and adds exactly the reported, confirmed targets inside
   functions as new starts.
   */
  lemma {:induction false} SplitExact(functions: seq<Range>, targets: seq<int>)
    requires Increasing(targets) && forall f | f in functions :: 0 <= f.1
    ensures var split := SplitAll(functions, targets);
      && Bytes(split) == Bytes(functions)
      && (forall x :: CoveredBy(x, split) <==> CoveredBy(x, functions))
      && (forall x :: StartsAt(x, split) <==> StartsAt(x, functions) || (x in targets && Interiors(x, functions)))
    decreases |functions|
  {
    if functions != [] {
      var f, rest := functions[0], functions[1..];
      assert functions == [f] + rest;
      assert f in functions;
      OneExact(f, targets);
      SplitExact(rest, targets);
      PieceFirst(f, rest);
      hide StartsAt, CoveredBy, Bytes, SplitOne;
      PiecesAppend(SplitOne(f, targets), SplitAll(rest, targets));
      forall x ensures Interiors(x, functions) <==> f.0 < x < f.0 + f.1 || Interiors(x, rest) {
        assert forall g :: g in functions <==> g == f || g in rest;
      }
    }
  }

  /** A report adds a start exactly when the image confirms it and it lies inside a function. */
  lemma ReportsSplit(functions: seq<Range>, image: seq<Byte>, reported: set<int>, x: int)
    requires forall f | f in functions :: 0 <= f.1
    requires !StartsAt(x, functions)
    ensures StartsAt(x, SplitAll(functions, Targets(image, reported)))
       <==> x in reported && IsEntryPoint(image, x) && Interiors(x, functions)
  {
    hide IsEntryPoint;
    SplitExact(functions, Targets(image, reported));
  }
}
