/** The table detector of `detectTablesInPDF`: a page's cells are sorted by
    `x` and cut into columns wherever neighbouring cells are more than 10
    apart; each column is sorted by descending `y` and cut into rows wherever
    neighbours are more than 5 apart; the rows of more than one cell are
    flattened into the page's table cells. Both cutting passes return
    without their final group. */
module Tables {
  import opened Common
  import opened Runs

  datatype TableCell = TableCell(text: string, x: real, y: real, width: real, height: real)

  datatype DetectedTable = DetectedTable(pageNumber: int, cells: seq<TableCell>)

  /** The coordinate a pass clusters on: `x` for columns, `y` for rows. */
  datatype Axis = Horizontal | Vertical

  const ColumnThreshold: real := 10.0
  const RowThreshold: real := 5.0

  function Coord(c: TableCell, axis: Axis): real
  {
    match axis
    case Horizontal => c.x
    case Vertical => c.y
  }

  /** The sort key: columns sort by ascending `x` (comparator `a.x - b.x`),
      rows by descending `y` (comparator `b.y - a.y`). */
  function SortKey(c: TableCell, axis: Axis): real
  {
    match axis
    case Horizontal => c.x
    case Vertical => -c.y
  }

  predicate SortedBy(s: seq<TableCell>, axis: Axis)
  {
    forall i, j :: 0 <= i < j < |s| ==> SortKey(s[i], axis) <= SortKey(s[j], axis)
  }

  /** Inserts `c` in front of the first element whose key is not smaller. */
  function Insert(c: TableCell, s: seq<TableCell>, axis: Axis): seq<TableCell>
  {
    if |s| == 0 || SortKey(c, axis) <= SortKey(s[0], axis) then [c] + s
    else [s[0]] + Insert(c, s[1..], axis)
  }

  /** `Array.prototype.sort` with the pass's comparator, as a stable
      insertion sort. */
  function SortCells(cells: seq<TableCell>, axis: Axis): seq<TableCell>
  {
    if |cells| == 0 then [] else Insert(cells[0], SortCells(cells[1..], axis), axis)
  }

  lemma ConsMultiset<T>(s: seq<T>)
    requires |s| > 0
    ensures multiset(s) == multiset(s[1..]) + multiset{s[0]}
  {
    assert s == [s[0]] + s[1..];
  }

  lemma {:induction false} InsertLength(c: TableCell, s: seq<TableCell>, axis: Axis)
    ensures |Insert(c, s, axis)| == |s| + 1
    decreases |s|
  {
    if |s| > 0 && SortKey(c, axis) > SortKey(s[0], axis) {
      InsertLength(c, s[1..], axis);
    }
  }

  lemma {:induction false} InsertPermutes(c: TableCell, s: seq<TableCell>, axis: Axis)
    ensures multiset(Insert(c, s, axis)) == multiset(s) + multiset{c}
    decreases |s|
  {
    if |s| > 0 && SortKey(c, axis) > SortKey(s[0], axis) {
      InsertPermutes(c, s[1..], axis);
      ConsMultiset(s);
    }
  }

  /** A lower bound of `c` and of every element of `s` bounds every element
      of the insertion. */
  lemma {:induction false} InsertBound(c: TableCell, s: seq<TableCell>, axis: Axis, b: real)
    requires b <= SortKey(c, axis)
    requires forall i :: 0 <= i < |s| ==> b <= SortKey(s[i], axis)
    ensures forall i :: 0 <= i < |Insert(c, s, axis)| ==> b <= SortKey(Insert(c, s, axis)[i], axis)
    decreases |s|
  {
    var r := Insert(c, s, axis);
    if |s| > 0 && SortKey(c, axis) > SortKey(s[0], axis) {
      var rest := Insert(c, s[1..], axis);
      InsertBound(c, s[1..], axis, b);
      assert r == [s[0]] + rest;
      forall i | 0 <= i < |r|
        ensures b <= SortKey(r[i], axis)
      {
        if i > 0 {
          assert r[i] == rest[i - 1];
        }
      }
    } else {
      assert r == [c] + s;
      forall i | 0 <= i < |r|
        ensures b <= SortKey(r[i], axis)
      {
        if i > 0 {
          assert r[i] == s[i - 1];
        }
      }
    }
  }

  lemma {:induction false} InsertSorted(c: TableCell, s: seq<TableCell>, axis: Axis)
    requires SortedBy(s, axis)
    ensures SortedBy(Insert(c, s, axis), axis)
    decreases |s|
  {
    var r := Insert(c, s, axis);
    if |s| > 0 && SortKey(c, axis) > SortKey(s[0], axis) {
      var rest := Insert(c, s[1..], axis);
      InsertSorted(c, s[1..], axis);
      InsertBound(c, s[1..], axis, SortKey(s[0], axis));
      assert r == [s[0]] + rest;
      forall i, j | 0 <= i < j < |r|
        ensures SortKey(r[i], axis) <= SortKey(r[j], axis)
      {
        assert r[j] == rest[j - 1];
        if i > 0 {
          assert r[i] == rest[i - 1];
        }
      }
    } else {
      assert r == [c] + s;
      forall i, j | 0 <= i < j < |r|
        ensures SortKey(r[i], axis) <= SortKey(r[j], axis)
      {
        assert r[j] == s[j - 1];
        if i > 0 {
          assert r[i] == s[i - 1];
        }
      }
    }
  }

  /** The sorted cells are ordered by the pass's key and are a permutation
      of the input. */
  lemma {:induction false} SortCellsSorted(cells: seq<TableCell>, axis: Axis)
    ensures SortedBy(SortCells(cells, axis), axis)
    ensures multiset(SortCells(cells, axis)) == multiset(cells)
    ensures |SortCells(cells, axis)| == |cells|
  {
    SortCellsOrdered(cells, axis);
    SortCellsPermutes(cells, axis);
    SortCellsLength(cells, axis);
  }

  lemma {:induction false} SortCellsOrdered(cells: seq<TableCell>, axis: Axis)
    ensures SortedBy(SortCells(cells, axis), axis)
    decreases |cells|
  {
    if |cells| > 0 {
      SortCellsOrdered(cells[1..], axis);
      InsertSorted(cells[0], SortCells(cells[1..], axis), axis);
    }
  }

  lemma {:induction false} SortCellsPermutes(cells: seq<TableCell>, axis: Axis)
    ensures multiset(SortCells(cells, axis)) == multiset(cells)
    decreases |cells|
  {
    if |cells| > 0 {
      SortCellsPermutes(cells[1..], axis);
      InsertPermutes(cells[0], SortCells(cells[1..], axis), axis);
      ConsMultiset(cells);
    }
  }

  lemma {:induction false} SortCellsLength(cells: seq<TableCell>, axis: Axis)
    ensures |SortCells(cells, axis)| == |cells|
    decreases |cells|
  {
    if |cells| > 0 {
      SortCellsLength(cells[1..], axis);
      InsertLength(cells[0], SortCells(cells[1..], axis), axis);
    }
  }


  /** The cells of `s` whose key is `k`, in their order in `s`. */
  function WithKey(s: seq<TableCell>, axis: Axis, k: real): seq<TableCell>
  {
    if |s| == 0 then []
    else (if SortKey(s[0], axis) == k then [s[0]] else []) + WithKey(s[1..], axis, k)
  }

  lemma WithKeyCons(x: TableCell, s: seq<TableCell>, axis: Axis, k: real)
    ensures WithKey([x] + s, axis, k) == (if SortKey(x, axis) == k then [x] else []) + WithKey(s, axis, k)
  {
    assert ([x] + s)[1..] == s;
  }

  lemma SwapDisjoint<T>(a: seq<T>, b: seq<T>, w: seq<T>)
    requires a == [] || b == []
    ensures b + (a + w) == a + (b + w)
  {
  }

  /** Insertion puts `c` after every cell of equal key. */
  lemma {:induction false} InsertWithKey(c: TableCell, s: seq<TableCell>, axis: Axis, k: real)
    ensures WithKey(Insert(c, s, axis), axis, k)
      == (if SortKey(c, axis) == k then [c] else []) + WithKey(s, axis, k)
    decreases |s|
  {
    if |s| == 0 || SortKey(c, axis) <= SortKey(s[0], axis) {
      WithKeyCons(c, s, axis, k);
    } else {
      var rest := Insert(c, s[1..], axis);
      assert Insert(c, s, axis) == [s[0]] + rest;
      InsertWithKey(c, s[1..], axis, k);
      WithKeyCons(s[0], rest, axis, k);
      SwapDisjoint(if SortKey(c, axis) == k then [c] else [],
                   if SortKey(s[0], axis) == k then [s[0]] else [],
                   WithKey(s[1..], axis, k));
    }
  }

  /** The sort is stable: for every key, the cells with that key come out
      in the order they went in. */
  lemma {:induction false} SortCellsStable(cells: seq<TableCell>, axis: Axis, k: real)
    ensures WithKey(SortCells(cells, axis), axis, k) == WithKey(cells, axis, k)
    decreases |cells|
  {
    if |cells| > 0 {
      SortCellsStable(cells[1..], axis, k);
      InsertWithKey(cells[0], SortCells(cells[1..], axis), axis, k);
    }
  }

  /** A cell opens a new group when it is more than `threshold` away from
      the previous cell; the first cell always opens one (`prev` starts at
      `-Infinity`). */
  function GapOpens(axis: Axis, threshold: real): (seq<TableCell>, TableCell) -> bool
  {
    (group: seq<TableCell>, c: TableCell) =>
      |group| == 0 || Abs(Coord(c, axis) - Coord(group[|group| - 1], axis)) > threshold
  }

  /** What one chained pass returns: every group but the last. */
  function Clusters(sorted: seq<TableCell>, axis: Axis, threshold: real): seq<seq<TableCell>>
  {
    AllButLast(SplitRuns(sorted, GapOpens(axis, threshold)))
  }

  /** `prev` is the coordinate of the current group's last cell, or
      `-Infinity` before the first cell. */
  predicate PrevTracks(prev: Extended, current: seq<TableCell>, axis: Axis)
  {
    && (|current| == 0 <==> prev == NegInfinity)
    && (|current| > 0 ==> prev == Finite(Coord(current[|current| - 1], axis)))
  }

  lemma PrevTracksLast(current: seq<TableCell>, cell: TableCell, axis: Axis)
    ensures PrevTracks(Finite(Coord(cell, axis)), current + [cell], axis)
  {
    assert (current + [cell])[|current|] == cell;
  }

  lemma PrevTracksSingle(cell: TableCell, axis: Axis)
    ensures PrevTracks(Finite(Coord(cell, axis)), [cell], axis)
  {
  }

  /** The test the loop makes against `prev` is the one `GapOpens` makes
      against the current group. */
  lemma GapTest(current: seq<TableCell>, cell: TableCell, prev: Extended, axis: Axis, threshold: real)
    requires PrevTracks(prev, current, axis)
    ensures GapExceeds(Coord(cell, axis), prev, threshold) == GapOpens(axis, threshold)(current, cell)
  {
  }

  /** The groups the pass has formed from the cells `seen` so far are
      `groups` followed by `current`. */
  ghost predicate Grouped(seen: seq<TableCell>, axis: Axis, threshold: real, groups: seq<seq<TableCell>>, current: seq<TableCell>)
  {
    && (|seen| == 0 ==> groups == [] && current == [])
    && (|seen| > 0 ==> |current| > 0 && groups + [current] == SplitRuns(seen, GapOpens(axis, threshold)))
  }

  /** A cell that opens a group pushes the current one, when there is one,
      and starts the next. */
  lemma PassOpens(seen: seq<TableCell>, axis: Axis, threshold: real, groups: seq<seq<TableCell>>, current: seq<TableCell>, cell: TableCell)
    requires Grouped(seen, axis, threshold, groups, current)
    requires GapOpens(axis, threshold)(current, cell)
    ensures Grouped(seen + [cell], axis, threshold, if |current| > 0 then groups + [current] else groups, [cell])
  {
    if |seen| > 0 {
      SplitRunsOpen(seen, cell, GapOpens(axis, threshold), groups + [current]);
    } else {
      SplitRunsOpen(seen, cell, GapOpens(axis, threshold), []);
    }
  }

  /** A cell that does not open a group joins the current one. */
  lemma PassExtends(seen: seq<TableCell>, axis: Axis, threshold: real, groups: seq<seq<TableCell>>, current: seq<TableCell>, cell: TableCell)
    requires Grouped(seen, axis, threshold, groups, current)
    requires !GapOpens(axis, threshold)(current, cell)
    ensures Grouped(seen + [cell], axis, threshold, groups, current + [cell])
  {
    SplitRunsExtend(seen, cell, GapOpens(axis, threshold), groups, current);
  }

  /** At the end of the walk the pushed groups are every group but the
      last. */
  lemma PassResult(sorted: seq<TableCell>, axis: Axis, threshold: real, groups: seq<seq<TableCell>>, current: seq<TableCell>)
    requires Grouped(sorted, axis, threshold, groups, current)
    ensures groups == Clusters(sorted, axis, threshold)
  {
    if |sorted| > 0 {
      assert AllButLast(groups + [current]) == groups;
    }
  }

  /** The loop shared by `groupByColumns` and `groupByRows`. */
  method ChainedPass(sorted: seq<TableCell>, axis: Axis, threshold: real) returns (groups: seq<seq<TableCell>>)
    ensures groups == Clusters(sorted, axis, threshold)
  {
    groups := [];
    var current: seq<TableCell> := [];
    var prev: Extended := NegInfinity;
    for i := 0 to |sorted|
      invariant Grouped(sorted[..i], axis, threshold, groups, current)
      invariant PrevTracks(prev, current, axis)
    {
      var cell := sorted[i];
      assert sorted[..i + 1] == sorted[..i] + [cell];
      GapTest(current, cell, prev, axis, threshold);
      if GapExceeds(Coord(cell, axis), prev, threshold) {
        PassOpens(sorted[..i], axis, threshold, groups, current, cell);
        PrevTracksSingle(cell, axis);
        if |current| > 0 {
          groups := groups + [current];
        }
        current := [cell];
      } else {
        PassExtends(sorted[..i], axis, threshold, groups, current, cell);
        PrevTracksLast(current, cell, axis);
        current := current + [cell];
      }
      prev := Finite(Coord(cell, axis));
    }
    assert sorted[..|sorted|] == sorted;
    PassResult(sorted, axis, threshold, groups, current);
  }

  /** `b` lies within `threshold` of `a` along `axis`: no group boundary
      between them. */
  predicate Near(a: TableCell, b: TableCell, axis: Axis, threshold: real)
  {
    Abs(Coord(b, axis) - Coord(a, axis)) <= threshold
  }

  /** A cell that opens a group after a non-empty group is not near the
      group's last cell. */
  lemma OpensFar(group: seq<TableCell>, c: TableCell, axis: Axis, threshold: real)
    requires |group| > 0 && GapOpens(axis, threshold)(group, c)
    ensures !Near(group[|group| - 1], c, axis, threshold)
  {
  }

  /** A cell of a group that did not open a new group is near the cell
      before it. */
  lemma ExtendsNear(group: seq<TableCell>, j: int, axis: Axis, threshold: real)
    requires 0 < j < |group| && !GapOpens(axis, threshold)(group[..j], group[j])
    ensures Near(group[j - 1], group[j], axis, threshold)
  {
    assert group[..j][j - 1] == group[j - 1];
  }

  /** A cell that does not open a group after `sorted[n..i]` is near the
      cell before it. */
  lemma StaysNear(sorted: seq<TableCell>, axis: Axis, threshold: real, n: int, i: int)
    requires 0 <= n < i < |sorted|
    requires !GapOpens(axis, threshold)(sorted[n..i], sorted[i])
    ensures Near(sorted[i - 1], sorted[i], axis, threshold)
  {
    assert sorted[n..i][i - n - 1] == sorted[i - 1];
  }

  /** A chained pass returns non-empty groups which, put back together, are
      the sorted input without its final, non-empty group. */
  lemma ClustersDropFinalGroup(sorted: seq<TableCell>, axis: Axis, threshold: real)
    ensures var c := Clusters(sorted, axis, threshold);
      && NonEmptyRuns(c)
      && |Flatten(c)| <= |sorted| && Flatten(c) == sorted[..|Flatten(c)|]
      && (|sorted| > 0 ==> |Flatten(c)| < |sorted|)
  {
    var runs := SplitRuns(sorted, GapOpens(axis, threshold));
    SplitRunsCover(sorted, GapOpens(axis, threshold));
    if |sorted| > 0 {
      var c := AllButLast(runs);
      FlattenAppend(c, Last(runs));
      assert forall k :: 0 <= k < |c| ==> c[k] == runs[k];
      assert |Last(runs)| > 0;
    }
  }

  /** Inside a returned group neighbouring cells are at most `threshold`
      apart. */
  lemma ClustersInnerGaps(sorted: seq<TableCell>, axis: Axis, threshold: real)
    ensures var c := Clusters(sorted, axis, threshold);
      forall k, j :: 0 <= k < |c| && 0 < j < |c[k]| ==> Near(c[k][j - 1], c[k][j], axis, threshold)
  {
    var c := Clusters(sorted, axis, threshold);
    forall k, j | 0 <= k < |c| && 0 < j < |c[k]|
      ensures Near(c[k][j - 1], c[k][j], axis, threshold)
    {
      SplitRunsInitCohere(sorted, GapOpens(axis, threshold), k, j);
      ExtendsNear(c[k], j, axis, threshold);
    }
  }

  /** Every returned group after the first starts more than `threshold`
      away from the last cell of the group before it. */
  lemma ClustersBoundaryGaps(sorted: seq<TableCell>, axis: Axis, threshold: real)
    ensures var c := Clusters(sorted, axis, threshold);
      forall k :: 0 < k < |c| && |c[k - 1]| > 0 && |c[k]| > 0 ==>
        !Near(c[k - 1][|c[k - 1]| - 1], c[k][0], axis, threshold)
  {
    var c := Clusters(sorted, axis, threshold);
    forall k | 0 < k < |c| && |c[k - 1]| > 0 && |c[k]| > 0
      ensures !Near(c[k - 1][|c[k - 1]| - 1], c[k][0], axis, threshold)
    {
      SplitRunsInitOpened(sorted, GapOpens(axis, threshold), k);
      OpensFar(c[k - 1], c[k][0], axis, threshold);
    }
  }

  /** The dropped final group has no gap above `threshold` inside it. */
  lemma ClustersDroppedGroup(sorted: seq<TableCell>, axis: Axis, threshold: real)
    ensures var n := |Flatten(Clusters(sorted, axis, threshold))|;
      forall i :: n < i < |sorted| ==> Near(sorted[i - 1], sorted[i], axis, threshold)
  {
    var n := |Flatten(Clusters(sorted, axis, threshold))|;
    forall i | n < i < |sorted|
      ensures Near(sorted[i - 1], sorted[i], axis, threshold)
    {
      SplitRunsLastCohere(sorted, GapOpens(axis, threshold), i);
      StaysNear(sorted, axis, threshold, n, i);
    }
  }

  /** The dropped final group starts more than `threshold` away from the
      last returned cell. */
  lemma ClustersDroppedGroupStart(sorted: seq<TableCell>, axis: Axis, threshold: real)
    ensures var n := |Flatten(Clusters(sorted, axis, threshold))|;
      0 < n < |sorted| ==> !Near(sorted[n - 1], sorted[n], axis, threshold)
  {
    DroppedGroupStartAt(sorted, axis, threshold, |Flatten(Clusters(sorted, axis, threshold))|);
  }

  lemma DroppedGroupStartAt(sorted: seq<TableCell>, axis: Axis, threshold: real, n: int)
    requires n == |Flatten(Clusters(sorted, axis, threshold))|
    ensures 0 < n < |sorted| ==> !Near(sorted[n - 1], sorted[n], axis, threshold)
  {
    var prev := SplitRunsLastStart(sorted, GapOpens(axis, threshold), n);
    if 0 < n < |sorted| {
      OpensFar(prev, sorted[n], axis, threshold);
    }
  }

  /** A sorted run without any gap above the threshold is one group, which
      the pass drops: it returns nothing. */
  lemma NoGapNoClusters(sorted: seq<TableCell>, axis: Axis, threshold: real)
    requires forall i :: 0 < i < |sorted| ==> Near(sorted[i - 1], sorted[i], axis, threshold)
    ensures Clusters(sorted, axis, threshold) == []
  {
    if |sorted| > 0 {
      var opens := GapOpens(axis, threshold);
      var runs := [sorted];
      assert Flatten(runs) == Flatten(runs[..0]) + sorted;
      forall k, j | 0 <= k < |runs| && 0 < j < |runs[k]|
        ensures !opens(runs[k][..j], runs[k][j])
      {
        assert runs[k][..j][j - 1] == sorted[j - 1];
      }
      RunPartitionUnique(sorted, runs, opens);
    }
  }

  function ColumnGroups(cells: seq<TableCell>, threshold: real): seq<seq<TableCell>>
  {
    Clusters(SortCells(cells, Horizontal), Horizontal, threshold)
  }

  function RowGroups(column: seq<TableCell>, threshold: real): seq<seq<TableCell>>
  {
    Clusters(SortCells(column, Vertical), Vertical, threshold)
  }

  /** `groupByColumns`: sort by `x`, then the chained pass on `x`. */
  method GroupByColumns(cells: seq<TableCell>, threshold: real) returns (columns: seq<seq<TableCell>>)
    ensures columns == ColumnGroups(cells, threshold)
  {
    var sorted := SortCells(cells, Horizontal);
    columns := ChainedPass(sorted, Horizontal, threshold);
  }

  /** `groupByRows`: sort by descending `y`, then the chained pass on `y`. */
  method GroupByRows(cells: seq<TableCell>, threshold: real) returns (rows: seq<seq<TableCell>>)
    ensures rows == RowGroups(cells, threshold)
  {
    var sorted := SortCells(cells, Vertical);
    rows := ChainedPass(sorted, Vertical, threshold);
  }

  /** `columnGroups.flatMap(col => groupByRows(col))`. */
  function PageRowGroups(columns: seq<seq<TableCell>>): seq<seq<TableCell>>
  {
    if |columns| == 0 then []
    else PageRowGroups(AllButLast(columns)) + RowGroups(Last(columns), RowThreshold)
  }

  /** `rowGroups.filter(group => group.length > 1)`. */
  function TableGroups(groups: seq<seq<TableCell>>): seq<seq<TableCell>>
  {
    if |groups| == 0 then []
    else TableGroups(AllButLast(groups)) + (if |Last(groups)| > 1 then [Last(groups)] else [])
  }

  /** The filter keeps exactly the groups of more than one cell. */
  lemma {:induction false} TableGroupsKeepLargeGroups(groups: seq<seq<TableCell>>)
    ensures var r := TableGroups(groups);
      && |r| <= |groups|
      && (forall i :: 0 <= i < |r| ==> |r[i]| > 1 && r[i] in groups)
      && (forall i :: 0 <= i < |groups| && |groups[i]| > 1 ==> groups[i] in r)
    decreases |groups|
  {
    if |groups| > 0 {
      TableGroupsKeepLargeGroups(AllButLast(groups));
      assert forall i :: 0 <= i < |groups| - 1 ==> groups[i] == AllButLast(groups)[i];
    }
  }

  lemma PageRowGroupsPrefix(columns: seq<seq<TableCell>>, j: int)
    requires 0 <= j < |columns|
    ensures PageRowGroups(columns[..j + 1]) == PageRowGroups(columns[..j]) + RowGroups(columns[j], RowThreshold)
  {
    assert AllButLast(columns[..j + 1]) == columns[..j];
  }

  /** The cells of one page's `DetectedTable`. */
  function PageCells(cells: seq<TableCell>): seq<TableCell>
  {
    Flatten(TableGroups(PageRowGroups(ColumnGroups(cells, ColumnThreshold))))
  }

  /** The table detection of one page in `detectTablesInPDF`. */
  method DetectPage(cells: seq<TableCell>) returns (detected: seq<TableCell>)
    ensures detected == PageCells(cells)
  {
    var columnGroups := GroupByColumns(cells, ColumnThreshold);
    var rowGroups: seq<seq<TableCell>> := [];
    for j := 0 to |columnGroups|
      invariant rowGroups == PageRowGroups(columnGroups[..j])
    {
      var rows := GroupByRows(columnGroups[j], RowThreshold);
      PageRowGroupsPrefix(columnGroups, j);
      rowGroups := rowGroups + rows;
    }
    assert columnGroups[..|columnGroups|] == columnGroups;
    var detectedTables := TableGroups(rowGroups);
    detected := Flatten(detectedTables);
  }

  lemma PrefixSubMultiset<T>(s: seq<T>, n: nat)
    requires n <= |s|
    ensures multiset(s[..n]) <= multiset(s)
  {
    assert s == s[..n] + s[n..];
  }

  /** A chained pass only returns cells of its input. */
  lemma ClustersSubMultiset(sorted: seq<TableCell>, axis: Axis, threshold: real)
    ensures multiset(Flatten(Clusters(sorted, axis, threshold))) <= multiset(sorted)
  {
    ClustersDropFinalGroup(sorted, axis, threshold);
    PrefixSubMultiset(sorted, |Flatten(Clusters(sorted, axis, threshold))|);
  }

  lemma {:induction false} PageRowGroupsSubMultiset(columns: seq<seq<TableCell>>)
    ensures multiset(Flatten(PageRowGroups(columns))) <= multiset(Flatten(columns))
    decreases |columns|
  {
    if |columns| > 0 {
      var init, column := AllButLast(columns), Last(columns);
      PageRowGroupsSubMultiset(init);
      FlattenConcat(PageRowGroups(init), RowGroups(column, RowThreshold));
      FlattenAppend(init, column);
      SortCellsSorted(column, Vertical);
      ClustersSubMultiset(SortCells(column, Vertical), Vertical, RowThreshold);
    }
  }

  lemma {:induction false} TableGroupsSubMultiset(groups: seq<seq<TableCell>>)
    ensures multiset(Flatten(TableGroups(groups))) <= multiset(Flatten(groups))
    decreases |groups|
  {
    if |groups| > 0 {
      var init, last := AllButLast(groups), Last(groups);
      TableGroupsSubMultiset(init);
      FlattenAppend(init, last);
      if |last| > 1 {
        FlattenAppend(TableGroups(init), last);
      } else {
        assert TableGroups(groups) == TableGroups(init);
      }
    }
  }

  /** The table cells of a page are cells of that page, each at most as
      often as it occurs there. */
  lemma PageCellsFromPage(cells: seq<TableCell>)
    ensures multiset(PageCells(cells)) <= multiset(cells)
  {
    var sorted := SortCells(cells, Horizontal);
    SortCellsSorted(cells, Horizontal);
    ClustersSubMultiset(sorted, Horizontal, ColumnThreshold);
    var columns := ColumnGroups(cells, ColumnThreshold);
    PageRowGroupsSubMultiset(columns);
    TableGroupsSubMultiset(PageRowGroups(columns));
  }

  lemma {:induction false} PageRowGroupsMember(columns: seq<seq<TableCell>>, row: seq<TableCell>)
    requires row in PageRowGroups(columns)
    ensures exists column :: column in columns && row in RowGroups(column, RowThreshold)
    decreases |columns|
  {
    var init, column := AllButLast(columns), Last(columns);
    if row !in RowGroups(column, RowThreshold) {
      PageRowGroupsMember(init, row);
      var c :| c in init && row in RowGroups(c, RowThreshold);
      assert c in columns;
    }
  }

  /** A row group comes from a column with at least one more cell: the
      column's final row is dropped. */
  lemma RowGroupsShorterThanColumn(column: seq<TableCell>, row: seq<TableCell>)
    requires row in RowGroups(column, RowThreshold)
    ensures |row| < |column|
  {
    var sorted := SortCells(column, Vertical);
    SortCellsSorted(column, Vertical);
    ClustersDropFinalGroup(sorted, Vertical, RowThreshold);
    FlattenMemberLength(RowGroups(column, RowThreshold), row);
  }

  /** A page yields table cells only when it has at least four cells: a row
      of two, the dropped final row of its column, and the dropped final
      column. */
  lemma TableNeedsFourCells(cells: seq<TableCell>)
    ensures |PageCells(cells)| > 0 ==> |cells| >= 4
  {
    if |PageCells(cells)| > 0 {
      var column := LargeRowColumn(ColumnGroups(cells, ColumnThreshold));
      ColumnShorterThanPage(cells, column);
    }
  }

  /** When the filter keeps a cell, some column holds a row of two cells
      and the row dropped after it. */
  lemma LargeRowColumn(columns: seq<seq<TableCell>>) returns (column: seq<TableCell>)
    requires |Flatten(TableGroups(PageRowGroups(columns)))| > 0
    ensures column in columns && |column| > 2
  {
    var rows := PageRowGroups(columns);
    var groups := TableGroups(rows);
    FlattenNonEmpty(groups);
    var g :| g in groups && |g| > 0;
    TableGroupsKeepLargeGroups(rows);
    var i :| 0 <= i < |groups| && groups[i] == g;
    assert |g| > 1 && g in rows;
    PageRowGroupsMember(columns, g);
    column :| column in columns && g in RowGroups(column, RowThreshold);
    RowGroupsShorterThanColumn(column, g);
  }

  /** A column group comes from a page with at least one more cell: the
      page's final column is dropped. */
  lemma ColumnShorterThanPage(cells: seq<TableCell>, column: seq<TableCell>)
    requires column in ColumnGroups(cells, ColumnThreshold)
    ensures |column| < |cells|
  {
    var sorted := SortCells(cells, Horizontal);
    SortCellsSorted(cells, Horizontal);
    ClustersDropFinalGroup(sorted, Horizontal, ColumnThreshold);
    FlattenMemberLength(ColumnGroups(cells, ColumnThreshold), column);
  }

  /** A two-by-two grid listed row by row — top row `tl` (0, 0), `tr`
      (50, 0), bottom row `bl` (0, 20), `br` (50, 20), with `y` growing
      downwards — gives no table cells: only the left column survives the
      column pass, and of its two rows only the bottom one (the first in
      descending `y`) survives the row pass, a single cell that the filter
      drops. */
  lemma TwoByTwoGridHasNoTable(tl: TableCell, tr: TableCell, bl: TableCell, br: TableCell)
    requires tl.x == 0.0 && tl.y == 0.0 && tr.x == 50.0 && tr.y == 0.0
    requires bl.x == 0.0 && bl.y == 20.0 && br.x == 50.0 && br.y == 20.0
    ensures ColumnGroups([tl, tr, bl, br], ColumnThreshold) == [[tl, bl]]
    ensures RowGroups([tl, bl], RowThreshold) == [[bl]]
    ensures PageCells([tl, tr, bl, br]) == []
  {
    GridColumnPass(tl, tr, bl, br);
    GridRowPass(tl, bl);
    assert PageRowGroups([[tl, bl]]) == PageRowGroups([]) + RowGroups([tl, bl], RowThreshold);
    assert TableGroups([[bl]]) == TableGroups([]) + [];
  }

  lemma GridColumnPass(tl: TableCell, tr: TableCell, bl: TableCell, br: TableCell)
    requires tl.x == 0.0 && tr.x == 50.0 && bl.x == 0.0 && br.x == 50.0
    ensures ColumnGroups([tl, tr, bl, br], ColumnThreshold) == [[tl, bl]]
  {
    GridColumnSort(tl, tr, bl, br);
    GridColumnRuns(tl, tr, bl, br);
  }

  lemma GridColumnSort(tl: TableCell, tr: TableCell, bl: TableCell, br: TableCell)
    requires tl.x == 0.0 && tr.x == 50.0 && bl.x == 0.0 && br.x == 50.0
    ensures SortCells([tl, tr, bl, br], Horizontal) == [tl, bl, tr, br]
  {
    assert [tl, tr, bl, br][1..] == [tr, bl, br] && [tr, bl, br][1..] == [bl, br] && [bl, br][1..] == [br];
    assert SortCells([br], Horizontal) == [br];
    assert SortCells([bl, br], Horizontal) == [bl, br];
    assert Insert(tr, [br], Horizontal) == [tr, br];
    assert SortCells([tr, bl, br], Horizontal) == [bl, tr, br];
  }

  lemma GridColumnRuns(tl: TableCell, tr: TableCell, bl: TableCell, br: TableCell)
    requires tl.x == 0.0 && tr.x == 50.0 && bl.x == 0.0 && br.x == 50.0
    ensures SplitRuns([tl, bl, tr, br], GapOpens(Horizontal, ColumnThreshold)) == [[tl, bl], [tr, br]]
  {
    var opens := GapOpens(Horizontal, ColumnThreshold);
    GridLeftColumnRun(tl, bl);
    SplitRunsOpen([tl, bl], tr, opens, [[tl, bl]]);
    assert [tl, bl] + [tr] == [tl, bl, tr];
    SplitRunsExtend([tl, bl, tr], br, opens, [[tl, bl]], [tr]);
    assert [tl, bl, tr] + [br] == [tl, bl, tr, br] && [tr] + [br] == [tr, br];
  }

  lemma GridLeftColumnRun(tl: TableCell, bl: TableCell)
    requires tl.x == 0.0 && bl.x == 0.0
    ensures SplitRuns([tl, bl], GapOpens(Horizontal, ColumnThreshold)) == [[tl, bl]]
  {
    var opens := GapOpens(Horizontal, ColumnThreshold);
    SplitRunsOpen([], tl, opens, []);
    assert [] + [tl] == [tl];
    SplitRunsExtend([tl], bl, opens, [], [tl]);
    assert [tl] + [bl] == [tl, bl] && [] + [[tl, bl]] == [[tl, bl]];
  }

  lemma GridRowPass(tl: TableCell, bl: TableCell)
    requires tl.y == 0.0 && bl.y == 20.0
    ensures RowGroups([tl, bl], RowThreshold) == [[bl]]
  {
    assert [tl, bl][1..] == [bl];
    assert SortCells([bl], Vertical) == [bl];
    assert Insert(tl, [], Vertical) == [tl];
    assert SortCells([tl, bl], Vertical) == [bl, tl];
    var opens := GapOpens(Vertical, RowThreshold);
    SplitRunsOpen([], bl, opens, []);
    assert [] + [bl] == [bl];
    SplitRunsOpen([bl], tl, opens, [[bl]]);
    assert [bl] + [tl] == [bl, tl];
  }

  /** One `DetectedTable` per page, numbered from 1 in page order. */
  function PageTables(pages: seq<seq<TableCell>>): seq<DetectedTable>
  {
    if |pages| == 0 then []
    else PageTables(AllButLast(pages)) + [DetectedTable(|pages|, PageCells(Last(pages)))]
  }

  /** Page `k` (from 0) becomes table number `k + 1`, holding that page's
      table cells. */
  lemma {:induction false} PageTableAt(pages: seq<seq<TableCell>>, k: int)
    requires 0 <= k < |pages|
    ensures |PageTables(pages)| == |pages|
    ensures PageTables(pages)[k] == DetectedTable(k + 1, PageCells(pages[k]))
    decreases |pages|
  {
    var init := AllButLast(pages);
    if k < |pages| - 1 {
      PageTableAt(init, k);
      assert init[k] == pages[k];
    } else if k > 0 {
      PageTableAt(init, 0);
    }
  }

  /** The page loop of `detectTablesInPDF`, from the decoded cells on. */
  method DetectTables(pages: seq<seq<TableCell>>) returns (tables: seq<DetectedTable>)
    ensures tables == PageTables(pages)
  {
    tables := [];
    for pageNum := 1 to |pages| + 1
      invariant tables == PageTables(pages[..pageNum - 1])
    {
      var cells := DetectPage(pages[pageNum - 1]);
      assert AllButLast(pages[..pageNum]) == pages[..pageNum - 1];
      tables := tables + [DetectedTable(pageNum, cells)];
    }
    assert pages[..|pages|] == pages;
  }
}
