/** The paragraph builder of `convertPDFToText`: on each page the text items,
    in the order the page sort left them, are walked once; an item more than
    its own height (10 when it has none) away from the previous item, or the
    first item of the page, starts a new paragraph, and any other item is
    appended after one space. Each finished non-empty paragraph is written
    followed by a newline, the page's last one by a blank line, and the whole
    text is trimmed. */
module Paragraphs {
  import opened Common
  import opened Runs
  import opened Text

  /** A decoded text item: its string, the translation part of its transform
      (`transform[4]`, `transform[5]`) and its optional height. */
  datatype TextItem = TextItem(str: string, tx: real, ty: real, height: Option<real>)

  /** One page as the loop sees it: the viewport height and the items in
      sorted order. */
  datatype TextPage = TextPage(viewportHeight: real, items: seq<TextItem>)

  /** The break distance for an item without a height (`item.height ?? 10`). */
  const DefaultHeight: real := 10.0

  function Threshold(item: TextItem): real
  {
    match item.height
    case Some(h) => h
    case None => DefaultHeight
  }

  /** The item's vertical position measured down from the top of the page. */
  function FlippedY(item: TextItem, viewportHeight: real): real
  {
    viewportHeight - item.ty
  }

  /** The comparator handed to `sort`: descending flipped `y`, ties broken by
      ascending `x` (`bY - aY || a.x - b.x`). */
  function CompareTextItems(viewportHeight: real, a: TextItem, b: TextItem): real
  {
    var d := FlippedY(b, viewportHeight) - FlippedY(a, viewportHeight);
    if d != 0.0 then d else a.tx - b.tx
  }

  /** Unlike the line builder's comparator this one is a genuine order:
      "sorts before" is transitive. */
  lemma TextOrderTransitive(viewportHeight: real, a: TextItem, b: TextItem, c: TextItem)
    requires CompareTextItems(viewportHeight, a, b) < 0.0 && CompareTextItems(viewportHeight, b, c) < 0.0
    ensures CompareTextItems(viewportHeight, a, c) < 0.0
  {
  }

  /** `item` is more than its threshold away from `prev`. */
  predicate Breaks(prev: TextItem, item: TextItem, viewportHeight: real)
  {
    Abs(FlippedY(item, viewportHeight) - FlippedY(prev, viewportHeight)) > Threshold(item)
  }

  /** An item opens a paragraph when it is the page's first (`lastY` starts
      at `-Infinity`) or breaks from the previous item. */
  function ParagraphOpens(viewportHeight: real): (seq<TextItem>, TextItem) -> bool
  {
    (paragraph: seq<TextItem>, item: TextItem) =>
      |paragraph| == 0 || Breaks(paragraph[|paragraph| - 1], item, viewportHeight)
  }

  function Paragraphs(page: TextPage): seq<seq<TextItem>>
  {
    SplitRuns(page.items, ParagraphOpens(page.viewportHeight))
  }

  function Strs(paragraph: seq<TextItem>): seq<string>
  {
    if |paragraph| == 0 then []
    else Strs(paragraph[..|paragraph| - 1]) + [paragraph[|paragraph| - 1].str]
  }

  /** The paragraph's strings, one space between neighbours. */
  function ParagraphText(paragraph: seq<TextItem>): string
  {
    Join(Strs(paragraph), " ")
  }

  function ParagraphTexts(paragraphs: seq<seq<TextItem>>): seq<string>
  {
    if |paragraphs| == 0 then []
    else ParagraphTexts(AllButLast(paragraphs)) + [ParagraphText(Last(paragraphs))]
  }

  /** What the closed paragraphs add: each non-empty one followed by `\n`. */
  function ClosedText(paragraphs: seq<seq<TextItem>>): string
  {
    if |paragraphs| == 0 then ""
    else
      var p := ParagraphText(Last(paragraphs));
      ClosedText(AllButLast(paragraphs)) + (if p != "" then p + "\n" else "")
  }

  /** What one page adds to `fullText`. */
  function PageText(page: TextPage): string
  {
    var paragraphs := Paragraphs(page);
    if |paragraphs| == 0 then ""
    else
      var p := ParagraphText(Last(paragraphs));
      ClosedText(AllButLast(paragraphs)) + (if p != "" then p + "\n\n" else "")
  }

  /** `fullText` before the final `trim`. */
  function DocumentText(pages: seq<TextPage>): string
  {
    if |pages| == 0 then "" else DocumentText(AllButLast(pages)) + PageText(Last(pages))
  }

  lemma StrsAppend(paragraph: seq<TextItem>, item: TextItem)
    ensures Strs(paragraph + [item]) == Strs(paragraph) + [item.str]
  {
    assert (paragraph + [item])[..|paragraph|] == paragraph;
  }

  /** Appending an item to a non-empty paragraph appends one space and its
      string to the paragraph's text. */
  lemma ParagraphTextAppend(paragraph: seq<TextItem>, item: TextItem)
    requires |paragraph| > 0
    ensures ParagraphText(paragraph + [item]) == ParagraphText(paragraph) + " " + item.str
  {
    StrsAppend(paragraph, item);
    JoinAppend(Strs(paragraph), item.str, " ");
  }

  /** The test the loop makes against `lastY` is the one `ParagraphOpens`
      makes against the current paragraph. */
  lemma LastYTest(paragraph: seq<TextItem>, item: TextItem, lastY: Extended, viewportHeight: real)
    requires Tracks(lastY, paragraph, viewportHeight)
    ensures GapExceeds(FlippedY(item, viewportHeight), lastY, Threshold(item))
      == ParagraphOpens(viewportHeight)(paragraph, item)
  {
  }

  /** Closing a paragraph writes its text and a newline after the closed
      ones, unless the text is empty. */
  lemma CloseParagraph(fullText: string, closed: seq<seq<TextItem>>, paragraph: seq<TextItem>)
    ensures var p := ParagraphText(paragraph);
      && (p != "" ==> (fullText + ClosedText(closed)) + (p + "\n") == fullText + ClosedText(closed + [paragraph]))
      && (p == "" ==> ClosedText(closed + [paragraph]) == ClosedText(closed))
  {
    assert AllButLast(closed + [paragraph]) == closed;
    var p := ParagraphText(paragraph);
    ConcatAssoc(fullText, ClosedText(closed), p + "\n");
  }

  /** The end of a page writes the last paragraph and a blank line, unless
      its text is empty. */
  lemma FinishPage(fullText: string, page: TextPage, closed: seq<seq<TextItem>>, paragraph: seq<TextItem>)
    requires closed + [paragraph] == Paragraphs(page)
    ensures var p := ParagraphText(paragraph);
      && (p != "" ==> (fullText + ClosedText(closed)) + (p + "\n\n") == fullText + PageText(page))
      && (p == "" ==> fullText + ClosedText(closed) == fullText + PageText(page))
  {
    var ps := Paragraphs(page);
    assert AllButLast(ps) == closed && Last(ps) == paragraph;
    var p := ParagraphText(paragraph);
    ConcatAssoc(fullText, ClosedText(closed), p + "\n\n");
  }

  /** The paragraphs the walk has formed from the items `seen` so far are
      `closed` followed by `current`. */
  ghost predicate Formed(seen: seq<TextItem>, viewportHeight: real, closed: seq<seq<TextItem>>, current: seq<TextItem>)
  {
    && (|seen| == 0 ==> closed == [] && current == [])
    && (|seen| > 0 ==>
          && |current| > 0 && current[|current| - 1] == seen[|seen| - 1]
          && closed + [current] == SplitRuns(seen, ParagraphOpens(viewportHeight)))
  }

  /** `lastY` is the flipped `y` of the current paragraph's last item, or
      `-Infinity` before the first item. */
  predicate Tracks(lastY: Extended, current: seq<TextItem>, viewportHeight: real)
  {
    && (|current| == 0 <==> lastY == NegInfinity)
    && (|current| > 0 ==> lastY == Finite(FlippedY(current[|current| - 1], viewportHeight)))
  }

  lemma TracksLast(paragraph: seq<TextItem>, item: TextItem, viewportHeight: real)
    ensures Tracks(Finite(FlippedY(item, viewportHeight)), paragraph + [item], viewportHeight)
  {
    assert (paragraph + [item])[|paragraph|] == item;
  }

  /** `fullText` holds the closed paragraphs and `currentParagraph` the text
      of the current one. */
  predicate Written(fullText: string, text: string, currentParagraph: string, closed: seq<seq<TextItem>>, current: seq<TextItem>)
  {
    && text == fullText + ClosedText(closed)
    && currentParagraph == ParagraphText(current)
  }

  /** How the loop variables `fullText`, `currentParagraph` and `lastY`
      relate to the items `seen` so far on a page. */
  ghost predicate WalkInvariant(
    fullText: string, seen: seq<TextItem>, viewportHeight: real,
    text: string, currentParagraph: string, lastY: Extended,
    closed: seq<seq<TextItem>>, current: seq<TextItem>)
  {
    && Formed(seen, viewportHeight, closed, current)
    && Tracks(lastY, current, viewportHeight)
    && Written(fullText, text, currentParagraph, closed, current)
  }

  lemma SingleParagraphText(item: TextItem)
    ensures ParagraphText([item]) == item.str
  {
    assert Strs([item]) == Strs([]) + [item.str];
  }

  /** An item that opens a paragraph closes the current one and starts the
      next. */
  lemma FormedOpens(seen: seq<TextItem>, viewportHeight: real, closed: seq<seq<TextItem>>, current: seq<TextItem>, item: TextItem)
    requires Formed(seen, viewportHeight, closed, current)
    requires ParagraphOpens(viewportHeight)(current, item)
    ensures Formed(seen + [item], viewportHeight, if |seen| > 0 then closed + [current] else closed, [item])
  {
    assert (seen + [item])[|seen|] == item;
    if |seen| > 0 {
      SplitRunsOpen(seen, item, ParagraphOpens(viewportHeight), closed + [current]);
    } else {
      SplitRunsOpen(seen, item, ParagraphOpens(viewportHeight), []);
    }
  }

  /** An item that does not open a paragraph joins the current one. */
  lemma FormedExtends(seen: seq<TextItem>, viewportHeight: real, closed: seq<seq<TextItem>>, current: seq<TextItem>, item: TextItem)
    requires Formed(seen, viewportHeight, closed, current)
    requires !ParagraphOpens(viewportHeight)(current, item)
    ensures Formed(seen + [item], viewportHeight, closed, current + [item])
  {
    assert (seen + [item])[|seen|] == item;
    SplitRunsExtend(seen, item, ParagraphOpens(viewportHeight), closed, current);
  }

  /** Closing the current paragraph writes its text and a newline unless it
      is empty; the item's string starts the next paragraph's text. */
  lemma WrittenOpens(
    fullText: string, text: string, currentParagraph: string,
    closed: seq<seq<TextItem>>, current: seq<TextItem>, item: TextItem, closesCurrent: bool)
    requires Written(fullText, text, currentParagraph, closed, current)
    requires !closesCurrent ==> current == []
    ensures Written(fullText,
      if currentParagraph != "" then text + (currentParagraph + "\n") else text, item.str,
      if closesCurrent then closed + [current] else closed, [item])
  {
    SingleParagraphText(item);
    if closesCurrent {
      CloseParagraph(fullText, closed, current);
    }
  }

  /** An item that opens a paragraph, as the loop sees it. */
  lemma WalkOpens(
    fullText: string, seen: seq<TextItem>, viewportHeight: real,
    text: string, currentParagraph: string, lastY: Extended,
    closed: seq<seq<TextItem>>, current: seq<TextItem>, item: TextItem,
    text': string, closed': seq<seq<TextItem>>)
    requires WalkInvariant(fullText, seen, viewportHeight, text, currentParagraph, lastY, closed, current)
    requires ParagraphOpens(viewportHeight)(current, item)
    requires closed' == if |seen| > 0 then closed + [current] else closed
    requires text' == if currentParagraph != "" then text + (currentParagraph + "\n") else text
    ensures WalkInvariant(fullText, seen + [item], viewportHeight,
      text', item.str, Finite(FlippedY(item, viewportHeight)), closed', [item])
  {
    FormedOpens(seen, viewportHeight, closed, current, item);
    WrittenOpens(fullText, text, currentParagraph, closed, current, item, |seen| > 0);
    TracksLast([], item, viewportHeight);
  }

  /** An item that joins the current paragraph, as the loop sees it. */
  lemma WalkExtends(
    fullText: string, seen: seq<TextItem>, viewportHeight: real,
    text: string, currentParagraph: string, lastY: Extended,
    closed: seq<seq<TextItem>>, current: seq<TextItem>, item: TextItem)
    requires WalkInvariant(fullText, seen, viewportHeight, text, currentParagraph, lastY, closed, current)
    requires !ParagraphOpens(viewportHeight)(current, item)
    ensures WalkInvariant(fullText, seen + [item], viewportHeight,
      text, currentParagraph + " " + item.str, Finite(FlippedY(item, viewportHeight)), closed, current + [item])
  {
    FormedExtends(seen, viewportHeight, closed, current, item);
    ParagraphTextAppend(current, item);
    TracksLast(current, item, viewportHeight);
  }

  /** One turn of the item loop: close the current paragraph and open one
      at `item`, or append `item` to the current paragraph. */
  method WalkItem(
    text: string, currentParagraph: string, lastY: Extended, item: TextItem, viewportHeight: real,
    ghost fullText: string, ghost seen: seq<TextItem>,
    ghost closed: seq<seq<TextItem>>, ghost current: seq<TextItem>)
    returns (text': string, currentParagraph': string, lastY': Extended,
             ghost closed': seq<seq<TextItem>>, ghost current': seq<TextItem>)
    requires WalkInvariant(fullText, seen, viewportHeight, text, currentParagraph, lastY, closed, current)
    ensures WalkInvariant(fullText, seen + [item], viewportHeight, text', currentParagraph', lastY', closed', current')
  {
    LastYTest(current, item, lastY, viewportHeight);
    var currentY := FlippedY(item, viewportHeight);
    if GapExceeds(currentY, lastY, Threshold(item)) {
      closed' := if |seen| > 0 then closed + [current] else closed;
      text' := text;
      if currentParagraph != "" {
        text' := text + (currentParagraph + "\n");
      }
      currentParagraph' := item.str;
      current' := [item];
      WalkOpens(fullText, seen, viewportHeight, text, currentParagraph, lastY, closed, current, item, text', closed');
    } else {
      text', closed' := text, closed;
      currentParagraph' := currentParagraph + " " + item.str;
      current' := current + [item];
      WalkExtends(fullText, seen, viewportHeight, text, currentParagraph, lastY, closed, current, item);
    }
    lastY' := Finite(currentY);
  }

  /** The item loop of one page, adding to `fullText`. */
  method AppendPage(fullText: string, page: TextPage) returns (text: string)
    ensures text == fullText + PageText(page)
  {
    var items := page.items;
    text := fullText;
    var currentParagraph := "";
    var lastY: Extended := NegInfinity;
    ghost var closed: seq<seq<TextItem>> := [];
    ghost var current: seq<TextItem> := [];
    for j := 0 to |items|
      invariant WalkInvariant(fullText, items[..j], page.viewportHeight, text, currentParagraph, lastY, closed, current)
    {
      assert items[..j + 1] == items[..j] + [items[j]];
      text, currentParagraph, lastY, closed, current :=
        WalkItem(text, currentParagraph, lastY, items[j], page.viewportHeight, fullText, items[..j], closed, current);
    }
    assert items[..|items|] == items;
    if |items| > 0 {
      FinishPage(fullText, page, closed, current);
    }
    if currentParagraph != "" {
      text := text + (currentParagraph + "\n\n");
    }
  }

  /** `convertPDFToText` from the decoded pages on. */
  method ConvertToText(pages: seq<TextPage>) returns (text: string)
    ensures text == Trim(DocumentText(pages))
    ensures |text| == 0 || (!IsWhitespace(text[0]) && !IsWhitespace(text[|text| - 1]))
  {
    var fullText := "";
    for i := 0 to |pages|
      invariant fullText == DocumentText(pages[..i])
    {
      assert AllButLast(pages[..i + 1]) == pages[..i];
      fullText := AppendPage(fullText, pages[i]);
    }
    assert pages[..|pages|] == pages;
    text := Trim(fullText);
  }

  /** The paragraphs cut the page's items into non-empty consecutive
      pieces, and the page's first item starts the first paragraph. */
  lemma ParagraphsPartitionItems(page: TextPage)
    ensures Flatten(Paragraphs(page)) == page.items && NonEmptyRuns(Paragraphs(page))
    ensures |page.items| > 0 ==> |Paragraphs(page)| > 0 && Paragraphs(page)[0][0] == page.items[0]
  {
    var ps := Paragraphs(page);
    SplitRunsCover(page.items, ParagraphOpens(page.viewportHeight));
    if |page.items| > 0 {
      FlattenFirst(ps);
    }
  }

  /** Inside a paragraph no item breaks from the one before it. */
  lemma ParagraphsHoldTogether(page: TextPage)
    ensures var ps := Paragraphs(page);
      forall k, j :: 0 <= k < |ps| && 0 < j < |ps[k]| ==> !Breaks(ps[k][j - 1], ps[k][j], page.viewportHeight)
  {
    var opens := ParagraphOpens(page.viewportHeight);
    var ps := Paragraphs(page);
    forall k, j | 0 <= k < |ps| && 0 < j < |ps[k]|
      ensures !Breaks(ps[k][j - 1], ps[k][j], page.viewportHeight)
    {
      SplitRunsCohere(page.items, opens, k, j);
      assert ps[k][..j][j - 1] == ps[k][j - 1];
    }
  }

  /** Every paragraph after the first starts with an item that breaks from
      the last item of the paragraph before. */
  lemma ParagraphsBreakApart(page: TextPage)
    ensures var ps := Paragraphs(page);
      forall k :: 0 < k < |ps| && |ps[k - 1]| > 0 && |ps[k]| > 0 ==>
        Breaks(ps[k - 1][|ps[k - 1]| - 1], ps[k][0], page.viewportHeight)
  {
    var opens := ParagraphOpens(page.viewportHeight);
    var ps := Paragraphs(page);
    forall k | 0 < k < |ps| && |ps[k - 1]| > 0 && |ps[k]| > 0
      ensures Breaks(ps[k - 1][|ps[k - 1]| - 1], ps[k][0], page.viewportHeight)
    {
      SplitRunsOpened(page.items, opens, k);
    }
  }

  /** The viewport height cancels out of every break test, so the paragraphs
      do not depend on it. */
  lemma ParagraphsIgnoreViewport(items: seq<TextItem>, height1: real, height2: real)
    ensures Paragraphs(TextPage(height1, items)) == Paragraphs(TextPage(height2, items))
  {
    var opens1, opens2 := ParagraphOpens(height1), ParagraphOpens(height2);
    forall run, x
      ensures opens1(run, x) == opens2(run, x)
    {
      if |run| > 0 {
        var prev := run[|run| - 1];
        assert FlippedY(x, height1) - FlippedY(prev, height1) == FlippedY(x, height2) - FlippedY(prev, height2);
      }
    }
    SplitRunsSameOpens(items, opens1, opens2);
  }

  lemma {:induction false} StrsIndex(paragraph: seq<TextItem>)
    ensures |Strs(paragraph)| == |paragraph|
    ensures forall i :: 0 <= i < |paragraph| ==> Strs(paragraph)[i] == paragraph[i].str
    decreases |paragraph|
  {
    if |paragraph| > 0 {
      StrsIndex(paragraph[..|paragraph| - 1]);
    }
  }

  /** No item string empty or holding a newline. */
  predicate PlainStrings(items: seq<TextItem>)
  {
    forall i :: 0 <= i < |items| ==> |items[i].str| > 0 && '\n' !in items[i].str
  }

  /** A paragraph of plain strings has a non-empty text without newlines. */
  lemma PlainParagraphText(paragraph: seq<TextItem>)
    requires |paragraph| > 0 && PlainStrings(paragraph)
    ensures ParagraphText(paragraph) != "" && '\n' !in ParagraphText(paragraph)
  {
    StrsIndex(paragraph);
    JoinNonEmpty(Strs(paragraph), " ");
    JoinExcludes(Strs(paragraph), " ", '\n');
  }

  /** When every closed paragraph has a text, the closed text is those texts
      joined by newlines, with a final newline. */
  lemma {:induction false} ClosedTextJoins(paragraphs: seq<seq<TextItem>>)
    requires |paragraphs| > 0
    requires forall k :: 0 <= k < |paragraphs| ==> ParagraphText(paragraphs[k]) != ""
    ensures ClosedText(paragraphs) == Join(ParagraphTexts(paragraphs), "\n") + "\n"
    decreases |paragraphs|
  {
    var init := AllButLast(paragraphs);
    var p := ParagraphText(Last(paragraphs));
    if |init| > 0 {
      ClosedTextJoins(init);
      var texts := ParagraphTexts(init);
      JoinAppend(texts, p, "\n");
      ConcatAssoc(Join(texts, "\n") + "\n", p, "\n");
    }
  }

  /** On a page of plain strings every paragraph has a non-empty text
      without newlines. */
  lemma PlainParagraphs(page: TextPage)
    requires PlainStrings(page.items)
    ensures var ps := Paragraphs(page);
      forall k :: 0 <= k < |ps| ==> ParagraphText(ps[k]) != "" && '\n' !in ParagraphText(ps[k])
  {
    var ps := Paragraphs(page);
    ParagraphsPartitionItems(page);
    forall k | 0 <= k < |ps|
      ensures ParagraphText(ps[k]) != "" && '\n' !in ParagraphText(ps[k])
    {
      forall j | 0 <= j < |ps[k]|
        ensures |ps[k][j].str| > 0 && '\n' !in ps[k][j].str
      {
        FlattenMember(ps, k, j);
      }
      PlainParagraphText(ps[k]);
    }
  }

  /** When every paragraph has a text, the page text is those texts joined
      by newlines and followed by a blank line. */
  lemma PageTextJoins(page: TextPage)
    requires |Paragraphs(page)| > 0
    requires var ps := Paragraphs(page); forall k :: 0 <= k < |ps| ==> ParagraphText(ps[k]) != ""
    ensures PageText(page) == Join(ParagraphTexts(Paragraphs(page)) + ["", ""], "\n")
  {
    var ps := Paragraphs(page);
    var init := AllButLast(ps);
    var texts := ParagraphTexts(ps);
    var p := ParagraphText(Last(ps));
    JoinTwoEmpty(texts, "\n");
    if |init| > 0 {
      assert forall k :: 0 <= k < |init| ==> init[k] == ps[k];
      ClosedTextJoins(init);
      JoinAppend(ParagraphTexts(init), p, "\n");
      AppendBlankLine(Join(ParagraphTexts(init), "\n") + "\n", p);
    } else {
      AppendBlankLine("", p);
      assert "" + p == p;
    }
  }

  /** For a page of plain strings, splitting its text at newlines gives the
      paragraph texts in order followed by the two empty pieces the closing
      blank line leaves. */
  lemma PageTextLines(page: TextPage)
    requires PlainStrings(page.items)
    requires |page.items| > 0
    ensures SplitOn(PageText(page), '\n') == ParagraphTexts(Paragraphs(page)) + ["", ""]
  {
    var ps := Paragraphs(page);
    PlainParagraphs(page);
    PageTextJoins(page);
    PlainTexts(ps);
    SplitJoin(ParagraphTexts(ps) + ["", ""], '\n');
  }

  /** Texts without newlines, and two empty pieces, hold no newline. */
  lemma PlainTexts(paragraphs: seq<seq<TextItem>>)
    requires forall k :: 0 <= k < |paragraphs| ==> '\n' !in ParagraphText(paragraphs[k])
    ensures var parts := ParagraphTexts(paragraphs) + ["", ""];
      forall k :: 0 <= k < |parts| ==> '\n' !in parts[k]
  {
    var texts := ParagraphTexts(paragraphs);
    ParagraphTextsIndex(paragraphs);
    forall k | 0 <= k < |texts + ["", ""]|
      ensures '\n' !in (texts + ["", ""])[k]
    {
      if k < |texts| {
        assert (texts + ["", ""])[k] == texts[k];
      }
    }
  }

  lemma {:induction false} ParagraphTextsIndex(paragraphs: seq<seq<TextItem>>)
    ensures |ParagraphTexts(paragraphs)| == |paragraphs|
    ensures forall k :: 0 <= k < |paragraphs| ==> ParagraphTexts(paragraphs)[k] == ParagraphText(paragraphs[k])
    decreases |paragraphs|
  {
    if |paragraphs| > 0 {
      ParagraphTextsIndex(AllButLast(paragraphs));
    }
  }
}
