/** Splitting a sequence into consecutive runs by a single left-to-right walk.

    Every grouping loop of the PDF handler has the same shape: it walks the
    items once, keeps a "current" group, and for each item either appends it to
    the current group or closes that group and opens a new one. Which of the two
    happens depends only on the current group and the item: `opens(run, item)`.
    `SplitRuns` is that walk as a function; `IsRunPartition` is an independent
    description of its result, and the two lemmas below show that they agree
    and that the description admits exactly one answer. */
module Runs {

  function Last<T>(s: seq<T>): T
    requires |s| > 0
  {
    s[|s| - 1]
  }

  /** Everything but the final element; empty on empty input. */
  function AllButLast<T>(s: seq<T>): seq<T>
  {
    if |s| == 0 then [] else s[..|s| - 1]
  }

  /** The runs concatenated in order (JavaScript `flat()`). */
  function Flatten<T>(runs: seq<seq<T>>): seq<T>
  {
    if |runs| == 0 then [] else Flatten(runs[..|runs| - 1]) + runs[|runs| - 1]
  }

  lemma FlattenAppend<T>(runs: seq<seq<T>>, r: seq<T>)
    ensures Flatten(runs + [r]) == Flatten(runs) + r
  {
    assert (runs + [r])[..|runs|] == runs;
  }

  lemma {:induction false} FlattenConcat<T>(a: seq<seq<T>>, b: seq<seq<T>>)
    ensures Flatten(a + b) == Flatten(a) + Flatten(b)
    decreases |b|
  {
    if |b| == 0 {
      assert a + b == a;
    } else {
      var b' := b[..|b| - 1];
      assert a + b == (a + b') + [Last(b)];
      assert b == b' + [Last(b)];
      FlattenAppend(a + b', Last(b));
      FlattenAppend(b', Last(b));
      FlattenConcat(a, b');
    }
  }

  /** The walk: the first item always starts the first run; each later item
      starts a new run when `opens(current run, item)` holds and is appended
      to the current run otherwise. */
  function SplitRuns<T>(s: seq<T>, opens: (seq<T>, T) -> bool): (runs: seq<seq<T>>)
    ensures |runs| == 0 <==> |s| == 0
    decreases |s|
  {
    if |s| == 0 then []
    else
      var r := SplitRuns(s[..|s| - 1], opens);
      var x := s[|s| - 1];
      if |r| == 0 || opens(r[|r| - 1], x) then r + [[x]]
      else r[..|r| - 1] + [r[|r| - 1] + [x]]
  }

  /** One step of the walk. */
  lemma SplitRunsSnoc<T>(s: seq<T>, x: T, opens: (seq<T>, T) -> bool)
    ensures var r := SplitRuns(s, opens);
      SplitRuns(s + [x], opens) ==
        if |r| == 0 || opens(Last(r), x) then r + [[x]] else AllButLast(r) + [Last(r) + [x]]
  {
    assert (s + [x])[..|s|] == s;
  }

  /** One step of the walk that opens a new run. */
  lemma SplitRunsOpen<T>(s: seq<T>, x: T, opens: (seq<T>, T) -> bool, runs: seq<seq<T>>)
    requires SplitRuns(s, opens) == runs
    requires |runs| == 0 || opens(Last(runs), x)
    ensures SplitRuns(s + [x], opens) == runs + [[x]]
  {
    SplitRunsSnoc(s, x, opens);
  }

  /** One step of the walk that extends the current run. */
  lemma SplitRunsExtend<T>(s: seq<T>, x: T, opens: (seq<T>, T) -> bool, init: seq<seq<T>>, run: seq<T>)
    requires SplitRuns(s, opens) == init + [run]
    requires !opens(run, x)
    ensures SplitRuns(s + [x], opens) == init + [run + [x]]
  {
    SplitRunsSnoc(s, x, opens);
    assert AllButLast(init + [run]) == init;
  }

  predicate NonEmptyRuns<T>(runs: seq<seq<T>>)
  {
    forall k :: 0 <= k < |runs| ==> |runs[k]| > 0
  }

  /** No item inside a run would have opened a new run, given the part of
      its run before it. */
  ghost predicate RunsCohere<T>(runs: seq<seq<T>>, opens: (seq<T>, T) -> bool)
  {
    forall k, j :: 0 <= k < |runs| && 0 < j < |runs[k]| ==> !opens(runs[k][..j], runs[k][j])
  }

  /** Every run after the first was opened by its first item. */
  ghost predicate RunsOpened<T>(runs: seq<seq<T>>, opens: (seq<T>, T) -> bool)
  {
    forall k :: 0 < k < |runs| && |runs[k]| > 0 ==> opens(runs[k - 1], runs[k][0])
  }

  /** `runs` cut `s` into non-empty consecutive pieces exactly where the walk
      would cut it. */
  ghost predicate IsRunPartition<T>(s: seq<T>, runs: seq<seq<T>>, opens: (seq<T>, T) -> bool)
  {
    Flatten(runs) == s && NonEmptyRuns(runs) && RunsCohere(runs, opens) && RunsOpened(runs, opens)
  }

  lemma OpenRun<T>(s: seq<T>, runs: seq<seq<T>>, x: T, opens: (seq<T>, T) -> bool)
    requires IsRunPartition(s, runs, opens)
    requires |runs| == 0 || opens(Last(runs), x)
    ensures IsRunPartition(s + [x], runs + [[x]], opens)
  {
    var runs' := runs + [[x]];
    FlattenAppend(runs, [x]);
    assert forall k :: 0 <= k < |runs| ==> runs'[k] == runs[k];
    assert RunsCohere(runs', opens);
  }

  lemma ExtendRun<T>(s: seq<T>, runs: seq<seq<T>>, x: T, opens: (seq<T>, T) -> bool)
    requires IsRunPartition(s, runs, opens)
    requires |runs| > 0 && !opens(Last(runs), x)
    ensures IsRunPartition(s + [x], AllButLast(runs) + [Last(runs) + [x]], opens)
  {
    var n := |runs|;
    var prefix, R := AllButLast(runs), Last(runs);
    var runs' := prefix + [R + [x]];
    FlattenAppend(prefix, R);
    FlattenAppend(prefix, R + [x]);
    assert forall k :: 0 <= k < n - 1 ==> runs'[k] == runs[k];
    forall k, j | 0 <= k < |runs'| && 0 < j < |runs'[k]|
      ensures !opens(runs'[k][..j], runs'[k][j])
    {
      if k == n - 1 {
        if j == |R| {
          assert runs'[k][..j] == R;
        } else {
          assert runs'[k][..j] == R[..j];
          assert runs'[k][j] == R[j];
        }
      }
    }
    forall k | 0 < k < |runs'|
      ensures opens(runs'[k - 1], runs'[k][0])
    {
      if k == n - 1 {
        assert runs'[k][0] == R[0];
      }
    }
  }

  lemma {:induction false} SplitRunsIsPartition<T>(s: seq<T>, opens: (seq<T>, T) -> bool)
    ensures IsRunPartition(s, SplitRuns(s, opens), opens)
    decreases |s|
  {
    if |s| > 0 {
      var s' := s[..|s| - 1];
      var x := s[|s| - 1];
      var r := SplitRuns(s', opens);
      SplitRunsIsPartition(s', opens);
      assert s == s' + [x];
      if |r| == 0 || opens(Last(r), x) {
        OpenRun(s', r, x, opens);
      } else {
        ExtendRun(s', r, x, opens);
      }
    }
  }

  /** The walk's runs are non-empty and put back together give `s`. */
  lemma SplitRunsCover<T>(s: seq<T>, opens: (seq<T>, T) -> bool)
    ensures Flatten(SplitRuns(s, opens)) == s && NonEmptyRuns(SplitRuns(s, opens))
  {
    SplitRunsIsPartition(s, opens);
  }

  /** No item inside a run of the walk would have opened a new run. */
  lemma SplitRunsCohere<T>(s: seq<T>, opens: (seq<T>, T) -> bool, k: int, j: int)
    requires 0 <= k < |SplitRuns(s, opens)| && 0 < j < |SplitRuns(s, opens)[k]|
    ensures !opens(SplitRuns(s, opens)[k][..j], SplitRuns(s, opens)[k][j])
  {
    SplitRunsIsPartition(s, opens);
  }

  /** Every run of the walk after the first was opened by its first item. */
  lemma SplitRunsOpened<T>(s: seq<T>, opens: (seq<T>, T) -> bool, k: int)
    requires 0 < k < |SplitRuns(s, opens)|
    ensures |SplitRuns(s, opens)[k]| > 0 && opens(SplitRuns(s, opens)[k - 1], SplitRuns(s, opens)[k][0])
  {
    SplitRunsIsPartition(s, opens);
  }

  /** `SplitRunsCohere` for the runs before the last one. */
  lemma SplitRunsInitCohere<T>(s: seq<T>, opens: (seq<T>, T) -> bool, k: int, j: int)
    requires 0 <= k < |AllButLast(SplitRuns(s, opens))| && 0 < j < |AllButLast(SplitRuns(s, opens))[k]|
    ensures var c := AllButLast(SplitRuns(s, opens)); !opens(c[k][..j], c[k][j])
  {
    SplitRunsCohere(s, opens, k, j);
  }

  /** `SplitRunsOpened` for the runs before the last one. */
  lemma SplitRunsInitOpened<T>(s: seq<T>, opens: (seq<T>, T) -> bool, k: int)
    requires 0 < k < |AllButLast(SplitRuns(s, opens))|
    ensures var c := AllButLast(SplitRuns(s, opens)); |c[k]| > 0 && opens(c[k - 1], c[k][0])
  {
    SplitRunsOpened(s, opens, k);
  }

  /** Undoing OpenRun: a partition whose last run is a single item. */
  lemma DropSingletonRun<T>(s: seq<T>, runs: seq<seq<T>>, opens: (seq<T>, T) -> bool)
    requires IsRunPartition(s, runs, opens)
    requires |runs| > 0 && |Last(runs)| == 1
    ensures |s| > 0 && Last(runs) == [Last(s)]
    ensures IsRunPartition(s[..|s| - 1], AllButLast(runs), opens)
    ensures |runs| == 1 || opens(Last(AllButLast(runs)), Last(s))
  {
    var prefix := AllButLast(runs);
    FlattenAppend(prefix, Last(runs));
    assert forall k :: 0 <= k < |prefix| ==> prefix[k] == runs[k];
    assert s[..|s| - 1] == Flatten(prefix);
    if |runs| > 1 {
      assert opens(runs[|runs| - 2], runs[|runs| - 1][0]);
    }
  }

  /** Undoing ExtendRun: a partition whose last run has several items. */
  lemma ShortenLastRun<T>(s: seq<T>, runs: seq<seq<T>>, opens: (seq<T>, T) -> bool)
    requires IsRunPartition(s, runs, opens)
    requires |runs| > 0 && |Last(runs)| > 1
    ensures |s| > 0
    ensures var R := Last(runs); var R' := R[..|R| - 1];
      && R == R' + [Last(s)]
      && IsRunPartition(s[..|s| - 1], AllButLast(runs) + [R'], opens)
      && !opens(R', Last(s))
  {
    var n := |runs|;
    var prefix, R := AllButLast(runs), Last(runs);
    var R' := R[..|R| - 1];
    var runs' := prefix + [R'];
    assert R == R' + [R[|R| - 1]];
    FlattenAppend(prefix, R);
    FlattenAppend(prefix, R');
    assert forall k :: 0 <= k < n - 1 ==> runs'[k] == runs[k];
    forall k, j | 0 <= k < |runs'| && 0 < j < |runs'[k]|
      ensures !opens(runs'[k][..j], runs'[k][j])
    {
      if k == n - 1 {
        assert runs'[k][..j] == R[..j];
        assert runs'[k][j] == R[j];
      }
    }
    forall k | 0 < k < |runs'|
      ensures opens(runs'[k - 1], runs'[k][0])
    {
      if k == n - 1 {
        assert runs'[k][0] == R[0];
      }
    }
    assert !opens(R[..|R| - 1], R[|R| - 1]);
  }

  lemma {:induction false} RunPartitionUnique<T>(s: seq<T>, runs: seq<seq<T>>, opens: (seq<T>, T) -> bool)
    requires IsRunPartition(s, runs, opens)
    ensures runs == SplitRuns(s, opens)
    decreases |s|
  {
    if |runs| > 0 {
      var prefix, R := AllButLast(runs), Last(runs);
      assert runs == prefix + [R];
      if |R| == 1 {
        DropSingletonRun(s, runs, opens);
        var s', x := s[..|s| - 1], Last(s);
        assert s == s' + [x];
        RunPartitionUnique(s', prefix, opens);
        SplitRunsOpen(s', x, opens, prefix);
      } else {
        var R' := R[..|R| - 1];
        ShortenLastRun(s, runs, opens);
        var s', x := s[..|s| - 1], Last(s);
        assert s == s' + [x];
        RunPartitionUnique(s', prefix + [R'], opens);
        SplitRunsExtend(s', x, opens, prefix, R');
      }
    }
  }

  /** Every element of every run is in the concatenation. */
  lemma {:induction false} FlattenMember<T>(runs: seq<seq<T>>, k: nat, j: nat)
    requires k < |runs| && j < |runs[k]|
    ensures runs[k][j] in Flatten(runs)
    decreases |runs|
  {
    if k < |runs| - 1 {
      FlattenMember(runs[..|runs| - 1], k, j);
    } else {
      assert Flatten(runs) == Flatten(runs[..|runs| - 1]) + runs[k];
    }
  }

  lemma {:induction false} FlattenMemberLength<T>(runs: seq<seq<T>>, run: seq<T>)
    requires run in runs
    ensures |run| <= |Flatten(runs)|
    decreases |runs|
  {
    if run != Last(runs) {
      assert run in AllButLast(runs);
      FlattenMemberLength(AllButLast(runs), run);
    }
  }

  lemma {:induction false} FlattenNonEmpty<T>(runs: seq<seq<T>>)
    requires |Flatten(runs)| > 0
    ensures exists run :: run in runs && |run| > 0
    decreases |runs|
  {
    if |Last(runs)| == 0 {
      FlattenNonEmpty(AllButLast(runs));
      var run :| run in AllButLast(runs) && |run| > 0;
      assert run in runs;
    }
  }

  /** The walk depends only on the answers `opens` gives. */
  lemma {:induction false} SplitRunsSameOpens<T>(s: seq<T>, opens1: (seq<T>, T) -> bool, opens2: (seq<T>, T) -> bool)
    requires forall run, x :: opens1(run, x) == opens2(run, x)
    ensures SplitRuns(s, opens1) == SplitRuns(s, opens2)
    decreases |s|
  {
    if |s| > 0 {
      var r := SplitRuns(s[..|s| - 1], opens1);
      SplitRunsSameOpens(s[..|s| - 1], opens1, opens2);
      if |r| > 0 {
        assert opens1(Last(r), Last(s)) == opens2(Last(r), Last(s));
      }
    }
  }

  /** The walk's last run is the part of `s` after the other runs. */
  lemma SplitRunsLast<T>(s: seq<T>, opens: (seq<T>, T) -> bool)
    requires |s| > 0
    ensures var runs := SplitRuns(s, opens); var n := |Flatten(AllButLast(runs))|;
      && |runs| > 0 && n < |s|
      && Flatten(AllButLast(runs)) == s[..n] && Last(runs) == s[n..]
  {
    var runs := SplitRuns(s, opens);
    SplitRunsCover(s, opens);
    assert runs == AllButLast(runs) + [Last(runs)];
    FlattenAppend(AllButLast(runs), Last(runs));
    assert |Last(runs)| > 0;
  }

  /** No item inside the walk's last run would have opened a new run. */
  lemma SplitRunsLastCohere<T>(s: seq<T>, opens: (seq<T>, T) -> bool, i: int)
    requires |Flatten(AllButLast(SplitRuns(s, opens)))| < i < |s|
    ensures var n := |Flatten(AllButLast(SplitRuns(s, opens)))|;
      !opens(s[n..i], s[i])
  {
    var runs := SplitRuns(s, opens);
    SplitRunsLast(s, opens);
    var n := |Flatten(AllButLast(runs))|;
    SplitRunsCohere(s, opens, |runs| - 1, i - n);
    assert Last(runs)[..i - n] == s[n..i];
    assert Last(runs)[i - n] == s[i];
  }

  /** The walk's last run was opened by the item right after the previous
      run's last item. */
  lemma SplitRunsLastOpened<T>(s: seq<T>, opens: (seq<T>, T) -> bool)
    requires |SplitRuns(s, opens)| > 1
    ensures var runs := SplitRuns(s, opens); var prev := runs[|runs| - 2];
      var n := |Flatten(AllButLast(runs))|;
      && 0 < n < |s| && |prev| > 0
      && prev[|prev| - 1] == s[n - 1] && opens(prev, s[n])
  {
    var runs := SplitRuns(s, opens);
    var c := AllButLast(runs);
    var prev := runs[|runs| - 2];
    SplitRunsLast(s, opens);
    SplitRunsCover(s, opens);
    SplitRunsOpened(s, opens, |runs| - 1);
    assert c == AllButLast(c) + [prev];
    FlattenAppend(AllButLast(c), prev);
    assert |prev| > 0;
  }

  /** When the walk's last run is preceded by others, it was opened by the
      item right after them. */
  lemma SplitRunsLastStart<T>(s: seq<T>, opens: (seq<T>, T) -> bool, n: int) returns (prev: seq<T>)
    requires n == |Flatten(AllButLast(SplitRuns(s, opens)))|
    ensures 0 < n < |s| ==> |prev| > 0 && prev[|prev| - 1] == s[n - 1] && opens(prev, s[n])
  {
    var runs := SplitRuns(s, opens);
    if |runs| > 1 {
      SplitRunsLastOpened(s, opens);
      prev := runs[|runs| - 2];
    } else {
      assert AllButLast(runs) == [];
      prev := [];
    }
  }

  /** With a non-empty first run, the concatenation starts with its first
      element. */
  lemma {:induction false} FlattenFirst<T>(runs: seq<seq<T>>)
    requires |runs| > 0 && |runs[0]| > 0
    ensures |Flatten(runs)| > 0 && Flatten(runs)[0] == runs[0][0]
    decreases |runs|
  {
    if |runs| > 1 {
      FlattenFirst(AllButLast(runs));
    }
  }
}
