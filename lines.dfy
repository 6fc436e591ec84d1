/** The line builder of `extractStructuredTextFromPDF`: positioned fragments
    of one page, in the order the page sort left them, are grouped into lines
    anchored at each line's first fragment, and the page content is the
    lines joined by newlines, each line's texts joined by single spaces. */
module Lines {
  import opened Common
  import opened Runs
  import opened Text

  /** A text fragment after decoding (`ProcessedPDFTextItem`); `y` grows
      downwards from the top of the page. */
  datatype Fragment = Fragment(
    text: string, x: real, y: real, width: real,
    fontSize: real, fontFamily: string, height: real, confidence: real)

  datatype Dimensions = Dimensions(width: real, height: real)

  /** What the decoder and the page sort hand to the line builder for one
      page: the viewport and the fragments in sorted order. */
  datatype PageGeometry = PageGeometry(dimensions: Dimensions, sortedItems: seq<Fragment>)

  datatype PdfPage = PdfPage(pageNumber: int, content: string, dimensions: Dimensions, items: seq<Fragment>)

  /** Fragments whose `y` differ by less than this are on the same line. */
  const LineBand: real := 5.0

  /** The comparator handed to `sort` for the page's fragments: by `x`
      within the band, otherwise by descending `y`. */
  function CompareItems(a: Fragment, b: Fragment): real
  {
    if Abs(a.y - b.y) < LineBand then a.x - b.x else b.y - a.y
  }

  /** The comparator is not an ordering: "within the band" is not
      transitive, so three fragments can each be asked to precede the next
      in a cycle. */
  lemma ComparatorNotTransitive()
    ensures exists a: Fragment, b: Fragment, c: Fragment ::
      CompareItems(a, b) < 0.0 && CompareItems(b, c) < 0.0 && CompareItems(c, a) < 0.0
  {
    var a := Fragment("a", 0.0, 0.0, 0.0, 0.0, "", 0.0, 0.0);
    var b := Fragment("b", 1.0, 4.0, 0.0, 0.0, "", 0.0, 0.0);
    var c := Fragment("c", 2.0, 8.0, 0.0, 0.0, "", 0.0, 0.0);
    assert CompareItems(a, b) < 0.0 && CompareItems(b, c) < 0.0 && CompareItems(c, a) < 0.0;
  }

  /** Across lines the comparator puts the fragment with the larger `y`
      first, that is the one lower on the page. */
  lemma ComparatorPutsLowerFirst(a: Fragment, b: Fragment)
    requires Abs(a.y - b.y) >= LineBand && a.y > b.y
    ensures CompareItems(a, b) < 0.0 && CompareItems(b, a) > 0.0
  {
  }

  /** An item starts a new line when it is at least `LineBand` away from the
      current line's anchor, the `y` of the line's first item. */
  predicate LineOpens(line: seq<Fragment>, item: Fragment)
  {
    |line| == 0 || Abs(item.y - line[0].y) >= LineBand
  }

  /** How the loop variables relate to the items `seen` so far: the lines
      the walk has formed are `lines` followed by `currentLine`, whose first
      item's `y` is `currentY`. */
  ghost predicate LinesSoFar(seen: seq<Fragment>, lines: seq<seq<Fragment>>, currentLine: seq<Fragment>, currentY: real)
  {
    && (|seen| == 0 ==> lines == [] && currentLine == [])
    && (|seen| > 0 ==>
          && |currentLine| > 0 && currentY == currentLine[0].y
          && lines + [currentLine] == SplitRuns(seen, LineOpens))
  }

  /** The loop's band test against `currentY` is `LineOpens` on the
      current line. */
  lemma BandTest(currentLine: seq<Fragment>, currentY: real, item: Fragment)
    requires |currentLine| > 0 && currentY == currentLine[0].y
    ensures Abs(item.y - currentY) < LineBand <==> !LineOpens(currentLine, item)
  {
  }

  /** An item within the band joins the current line. */
  lemma LineJoins(seen: seq<Fragment>, lines: seq<seq<Fragment>>, currentLine: seq<Fragment>, currentY: real, item: Fragment)
    requires LinesSoFar(seen, lines, currentLine, currentY)
    requires |seen| > 0 && !LineOpens(currentLine, item)
    ensures LinesSoFar(seen + [item], lines, currentLine + [item], currentY)
  {
    SplitRunsExtend(seen, item, LineOpens, lines, currentLine);
    assert (currentLine + [item])[0] == currentLine[0];
  }

  /** An item that opens a line pushes the current one, when there is one,
      and starts the next. */
  lemma LineStarts(seen: seq<Fragment>, lines: seq<seq<Fragment>>, currentLine: seq<Fragment>, currentY: real, item: Fragment)
    requires LinesSoFar(seen, lines, currentLine, currentY)
    requires LineOpens(currentLine, item)
    ensures LinesSoFar(seen + [item], if |currentLine| > 0 then lines + [currentLine] else lines, [item], item.y)
  {
    if |seen| > 0 {
      SplitRunsOpen(seen, item, LineOpens, lines + [currentLine]);
    } else {
      SplitRunsOpen(seen, item, LineOpens, []);
    }
  }

  /** The line walk over the sorted items. */
  method GroupIntoLines(sortedItems: seq<Fragment>) returns (lines: seq<seq<Fragment>>)
    ensures lines == SplitRuns(sortedItems, LineOpens)
  {
    lines := [];
    var currentLine: seq<Fragment> := [];
    var currentY: real := if |sortedItems| > 0 then sortedItems[0].y else 0.0;
    for i := 0 to |sortedItems|
      invariant LinesSoFar(sortedItems[..i], lines, currentLine, currentY)
      invariant i == 0 && |sortedItems| > 0 ==> currentY == sortedItems[0].y
    {
      var item := sortedItems[i];
      assert sortedItems[..i + 1] == sortedItems[..i] + [item];
      if i > 0 {
        BandTest(currentLine, currentY, item);
      }
      if Abs(item.y - currentY) < LineBand {
        if i == 0 {
          LineStarts(sortedItems[..i], lines, currentLine, currentY, item);
          assert currentLine + [item] == [item];
        } else {
          LineJoins(sortedItems[..i], lines, currentLine, currentY, item);
        }
        currentLine := currentLine + [item];
      } else {
        LineStarts(sortedItems[..i], lines, currentLine, currentY, item);
        if |currentLine| > 0 {
          lines := lines + [currentLine];
        }
        currentLine := [item];
        currentY := item.y;
      }
    }
    assert sortedItems[..|sortedItems|] == sortedItems;
    if |currentLine| > 0 {
      lines := lines + [currentLine];
    }
  }

  function Texts(line: seq<Fragment>): seq<string>
  {
    seq(|line|, k requires 0 <= k < |line| => line[k].text)
  }

  /** One line of content: the line's texts joined by single spaces. */
  function LineText(line: seq<Fragment>): string
  {
    Join(Texts(line), " ")
  }

  function LineTexts(lines: seq<seq<Fragment>>): seq<string>
  {
    seq(|lines|, k requires 0 <= k < |lines| => LineText(lines[k]))
  }

  /** The page content: the line texts joined by newlines. */
  function Content(lines: seq<seq<Fragment>>): string
  {
    Join(LineTexts(lines), "\n")
  }

  /** The per-page loop of `extractStructuredTextFromPDF`, from the decoded
      and sorted pages on. */
  method ExtractStructuredText(pages: seq<PageGeometry>) returns (result: seq<PdfPage>)
    ensures |result| == |pages|
    ensures forall k :: 0 <= k < |pages| ==>
      && result[k].pageNumber == k + 1
      && result[k].dimensions == pages[k].dimensions
      && result[k].items == pages[k].sortedItems
      && result[k].content == Content(SplitRuns(pages[k].sortedItems, LineOpens))
  {
    result := [];
    for pageNumber := 1 to |pages| + 1
      invariant |result| == pageNumber - 1
      invariant forall k :: 0 <= k < pageNumber - 1 ==>
        && result[k].pageNumber == k + 1
        && result[k].dimensions == pages[k].dimensions
        && result[k].items == pages[k].sortedItems
        && result[k].content == Content(SplitRuns(pages[k].sortedItems, LineOpens))
    {
      var page := pages[pageNumber - 1];
      var lines := GroupIntoLines(page.sortedItems);
      var content := Content(lines);
      result := result + [PdfPage(pageNumber, content, page.dimensions, page.sortedItems)];
    }
  }

  /** Concatenating the lines gives back the sorted items in order, and no
      line is empty. */
  lemma LinesPartitionItems(sortedItems: seq<Fragment>)
    ensures var lines := SplitRuns(sortedItems, LineOpens);
      && Flatten(lines) == sortedItems
      && forall k :: 0 <= k < |lines| ==> |lines[k]| > 0
  {
    SplitRunsIsPartition(sortedItems, LineOpens);
  }

  /** Every item of a line is within the band of the line's anchor, and
      every line after the first starts at least `LineBand` away from the
      previous line's anchor. */
  predicate Anchored(lines: seq<seq<Fragment>>)
  {
    && (forall k, j :: 0 <= k < |lines| && 0 <= j < |lines[k]| ==> Abs(lines[k][j].y - lines[k][0].y) < LineBand)
    && (forall k :: 0 < k < |lines| && |lines[k]| > 0 && |lines[k - 1]| > 0 ==>
          Abs(lines[k][0].y - lines[k - 1][0].y) >= LineBand)
  }

  lemma LinesAnchored(sortedItems: seq<Fragment>)
    ensures Anchored(SplitRuns(sortedItems, LineOpens))
  {
    var lines := SplitRuns(sortedItems, LineOpens);
    LinesNearAnchor(sortedItems, lines);
    LinesApart(sortedItems, lines);
  }

  lemma LinesNearAnchor(sortedItems: seq<Fragment>, lines: seq<seq<Fragment>>)
    requires lines == SplitRuns(sortedItems, LineOpens)
    ensures forall k, j :: 0 <= k < |lines| && 0 <= j < |lines[k]| ==> Abs(lines[k][j].y - lines[k][0].y) < LineBand
  {
    forall k, j | 0 <= k < |lines| && 0 <= j < |lines[k]|
      ensures Abs(lines[k][j].y - lines[k][0].y) < LineBand
    {
      if j > 0 {
        SplitRunsCohere(sortedItems, LineOpens, k, j);
        StaysInBand(lines[k], j);
      }
    }
  }

  lemma LinesApart(sortedItems: seq<Fragment>, lines: seq<seq<Fragment>>)
    requires lines == SplitRuns(sortedItems, LineOpens)
    ensures forall k :: 0 < k < |lines| && |lines[k]| > 0 && |lines[k - 1]| > 0 ==>
      Abs(lines[k][0].y - lines[k - 1][0].y) >= LineBand
  {
    forall k | 0 < k < |lines| && |lines[k]| > 0 && |lines[k - 1]| > 0
      ensures Abs(lines[k][0].y - lines[k - 1][0].y) >= LineBand
    {
      SplitRunsOpened(sortedItems, LineOpens, k);
    }
  }

  /** An item that did not open a new line is within the band of the
      line's anchor. */
  lemma StaysInBand(line: seq<Fragment>, j: int)
    requires 0 < j < |line| && !LineOpens(line[..j], line[j])
    ensures Abs(line[j].y - line[0].y) < LineBand
  {
    assert line[..j][0] == line[0];
  }

  /** The two properties above pin the line grouping down: any grouping of
      the items into non-empty anchored lines is the one the walk builds. */
  lemma AnchoredLinesAreUnique(sortedItems: seq<Fragment>, lines: seq<seq<Fragment>>)
    requires Flatten(lines) == sortedItems
    requires forall k :: 0 <= k < |lines| ==> |lines[k]| > 0
    requires Anchored(lines)
    ensures lines == SplitRuns(sortedItems, LineOpens)
  {
    forall k, j | 0 <= k < |lines| && 0 < j < |lines[k]|
      ensures !LineOpens(lines[k][..j], lines[k][j])
    {
      assert lines[k][..j][0] == lines[k][0];
    }
    assert RunsCohere(lines, LineOpens);
    assert RunsOpened(lines, LineOpens);
    RunPartitionUnique(sortedItems, lines, LineOpens);
  }

  /** A page without fragments has no lines and empty content. */
  lemma EmptyPageHasNoContent()
    ensures SplitRuns([], LineOpens) == [] && Content(SplitRuns([], LineOpens)) == ""
  {
  }

  /** When no fragment text holds a newline, splitting the content at
      newlines gives back exactly one string per line, each the line's texts
      joined by spaces. */
  lemma ContentSplitsIntoLines(sortedItems: seq<Fragment>)
    requires |sortedItems| > 0
    requires forall i :: 0 <= i < |sortedItems| ==> '\n' !in sortedItems[i].text
    ensures var lines := SplitRuns(sortedItems, LineOpens);
      SplitOn(Content(lines), '\n') == LineTexts(lines)
  {
    var lines: seq<seq<Fragment>> := SplitRuns(sortedItems, LineOpens);
    LinesPartitionItems(sortedItems);
    PlainItems(lines, sortedItems);
    PlainLineTexts(lines);
    SplitJoin(LineTexts(lines), '\n');
  }

  /** Every fragment of the lines is one of the items. */
  lemma PlainItems(lines: seq<seq<Fragment>>, items: seq<Fragment>)
    requires Flatten(lines) == items
    requires forall i :: 0 <= i < |items| ==> '\n' !in items[i].text
    ensures forall k, j :: 0 <= k < |lines| && 0 <= j < |lines[k]| ==> '\n' !in lines[k][j].text
  {
    forall k, j | 0 <= k < |lines| && 0 <= j < |lines[k]|
      ensures '\n' !in lines[k][j].text
    {
      FlattenMember(lines, k, j);
    }
  }

  /** Fragments without newlines give line texts without newlines. */
  lemma PlainLineTexts(lines: seq<seq<Fragment>>)
    requires forall k, j :: 0 <= k < |lines| && 0 <= j < |lines[k]| ==> '\n' !in lines[k][j].text
    ensures forall k :: 0 <= k < |LineTexts(lines)| ==> '\n' !in LineTexts(lines)[k]
  {
    forall k | 0 <= k < |lines|
      ensures '\n' !in LineText(lines[k])
    {
      JoinExcludes(Texts(lines[k]), " ", '\n');
    }
  }

  /** Three fragments A (0, 0), B (20, 1) and C (0, 50): the comparator
      demands C before A and before B, and A before B, so the sorted page is
      C, A, B; its lines are [C] and [A, B] and its content "C\nA B". */
  lemma ThreeFragmentPage(a: Fragment, b: Fragment, c: Fragment)
    requires a.text == "A" && a.x == 0.0 && a.y == 0.0
    requires b.text == "B" && b.x == 20.0 && b.y == 1.0
    requires c.text == "C" && c.x == 0.0 && c.y == 50.0
    ensures CompareItems(c, a) < 0.0 && CompareItems(c, b) < 0.0 && CompareItems(a, b) < 0.0
    ensures CompareItems(a, c) > 0.0 && CompareItems(b, c) > 0.0
    ensures SplitRuns([c, a, b], LineOpens) == [[c], [a, b]]
    ensures Content(SplitRuns([c, a, b], LineOpens)) == "C\nA B"
  {
    ThreeFragmentLines(a, b, c);
    ThreeFragmentContent(a, b, c);
  }

  lemma ThreeFragmentLines(a: Fragment, b: Fragment, c: Fragment)
    requires a.y == 0.0 && b.y == 1.0 && c.y == 50.0
    ensures SplitRuns([c, a, b], LineOpens) == [[c], [a, b]]
  {
    SplitRunsSnoc([], c, LineOpens);
    assert [] + [c] == [c];
    assert SplitRuns([c], LineOpens) == [[c]];
    SplitRunsSnoc([c], a, LineOpens);
    assert [c] + [a] == [c, a];
    assert LineOpens([c], a);
    assert SplitRuns([c, a], LineOpens) == [[c], [a]];
    SplitRunsSnoc([c, a], b, LineOpens);
    assert [c, a] + [b] == [c, a, b];
    assert !LineOpens([a], b);
    assert AllButLast([[c], [a]]) == [[c]];
    assert [a] + [b] == [a, b];
  }

  lemma ThreeFragmentContent(a: Fragment, b: Fragment, c: Fragment)
    requires a.text == "A" && b.text == "B" && c.text == "C"
    ensures Content([[c], [a, b]]) == "C\nA B"
  {
    assert Texts([a, b]) == ["A", "B"];
    assert ["A", "B"][..1] == ["A"];
    assert LineText([a, b]) == "A B";
    assert Texts([c]) == ["C"];
    assert LineTexts([[c], [a, b]]) == ["C", "A B"];
    assert ["C", "A B"][..1] == ["C"];
  }
}
