# Geometric PDF text grouping and the per-client rate limiter

This project models two small, sequential parts of a web scraping toolkit and proves properties of them in Dafny.

**PDF text grouping** (`utils/pdfHandler.ts`). The PDF decoder produces positioned text fragments. Everything after that point is plain comparison, grouping and joining:

- **Line builder** of `extractStructuredTextFromPDF` (module `Lines`).
  - It walks the page's fragments in the order the page sort left them.
  - It opens a new line when a fragment's `y` is 5 or more away from the line's anchor, the `y` of the line's first fragment.
  - The page content is the lines joined by `"\n"`, and each line's texts joined by `" "`.
- **Table detector** of `detectTablesInPDF` (module `Tables`).
  - `groupByColumns` sorts a page's cells by `x` and cuts them into columns wherever a cell is more than 10 from the previous one.
  - `groupByRows` sorts each column by descending `y` and cuts it wherever a cell is more than 5 from the previous one.
  - Both passes return without their final group. The model reproduces this.
  - The row groups of more than one cell are flattened into the page's `DetectedTable`. There is one table per page, numbered from 1.
- **Paragraph builder** of `convertPDFToText` (module `Paragraphs`).
  - An item starts a new paragraph when it is the page's first, or when it is more than its own height (10 when it has none) away from the previous item. Any other item is appended after one space.
  - Each finished non-empty paragraph is written followed by `"\n"`. The page's last paragraph is followed by `"\n\n"`, and the whole text is trimmed.

All three walks share one shape: a single pass that either extends the current group or closes it and opens a new one. Module `Runs` defines that pass once.
- `SplitRuns(s, opens)` is the pass.
- `IsRunPartition` describes its result independently.
- `SplitRunsIsPartition` and `RunPartitionUnique` prove that the two agree and that the description has exactly one solution.

The loops themselves are methods proved against these functions. Module `Text` models the JavaScript string operations the handler uses, `join` and `trim`. It also defines `SplitOn`, a one-character `split`, which the handler does not use: it states that `Join` can be undone.

**Rate limiter** (`utils/rateLimit.ts`, module `RateLimit`). This is a token bucket per client id, kept in one map:

- an unknown client is admitted and gets 59 tokens;
- a known client earns one token per 1000 ms elapsed, rounded down and capped at 60;
- the client is refused when it has less than one token, and otherwise spends one.

Every call moves the client's timestamp to the current time. The map becomes the `buckets` field of the class `RateLimiter`. `Date.now()` becomes a `now` parameter.

Two consequences of the code are worth spelling out, because a reader of the source might expect otherwise:

- **Three-fragment page.** The comment at utils/pdfHandler.ts:133 says the fragments are sorted "top to bottom", which for fragments A (0, 0), B (20, 1) and C (0, 50) would give the content `"A B\nC"`. The comparator at utils/pdfHandler.ts:134-140 sorts by descending `y`, so the sorted page is C, A, B and the content is `"C\nA B"` (`Lines.ThreeFragmentPage`).
- **2×2 grid.** A grid of cells at (0, 0), (50, 0), (0, 20) and (50, 20) might be expected to give a table of four cells. Because both passes drop their final group, the code gives a table with no cells (`Tables.TwoByTwoGridHasNoTable`).

## Model

| member | source | states |
|---|---|---|
| Lines.ComparatorNotTransitive | utils/pdfHandler.ts:134-140 | the line comparator is not an order: three fragments exist that it asks to precede one another in a cycle |
| Lines.ComparatorPutsLowerFirst | utils/pdfHandler.ts:134-140 | across lines the comparator puts the fragment with the larger `y` (lower on the page) first |
| Lines.GroupIntoLines | utils/pdfHandler.ts:142-160 | the line loop, with `currentLine`, `currentY` and the final push, builds exactly the anchored walk `SplitRuns(items, LineOpens)` |
| Lines.ExtractStructuredText | utils/pdfHandler.ts:142-172 | one result page per input page, numbered from 1, keeping the dimensions and sorted items, with content the newline-joined line texts of that page's lines |
| Lines.LinesPartitionItems | utils/pdfHandler.ts:142-160 | the lines are non-empty and concatenated give back the sorted items in order |
| Lines.LinesAnchored | utils/pdfHandler.ts:145-156 | every fragment is less than 5 from its line's anchor, and each later line's anchor is at least 5 from the previous line's anchor |
| Lines.AnchoredLinesAreUnique | utils/pdfHandler.ts:142-160 | any cut of the items into non-empty anchored lines is the one the loop builds |
| Lines.EmptyPageHasNoContent | utils/pdfHandler.ts:145-165 | a page without fragments has no lines and empty content |
| Lines.ContentSplitsIntoLines | utils/pdfHandler.ts:163-165 | when no text holds a newline, splitting the content at newlines gives exactly one space-joined text per line |
| Lines.ThreeFragmentPage | utils/pdfHandler.ts:134-165 | fragments A (0, 0), B (20, 1), C (0, 50) sort as C, A, B, form lines [C] and [A, B], and give content "C\nA B" |
| Tables.SortCellsSorted | utils/pdfHandler.ts:326 | the in-pass sort orders the cells by the pass's key (ascending `x`, descending `y`) and is a permutation of its input |
| Tables.SortCellsStable | utils/pdfHandler.ts:326 | the sort is stable: for every key, the cells with that key leave the sort in the order they entered it, as `Array.prototype.sort` guarantees |
| Tables.ChainedPass | utils/pdfHandler.ts:328-341 | the chained loop with `prev` starting at `-Infinity` returns every group of the gap walk except the last |
| Tables.GroupByColumns | utils/pdfHandler.ts:324-342 | `groupByColumns` is the chained pass on `x` over the cells sorted by `x` |
| Tables.GroupByRows | utils/pdfHandler.ts:344-362 | `groupByRows` is the chained pass on `y` over the cells sorted by descending `y` |
| Tables.ClustersDropFinalGroup | utils/pdfHandler.ts:331-341 | the returned groups are non-empty and concatenated form a prefix of the sorted input, a proper prefix whenever the input is non-empty |
| Tables.ClustersInnerGaps | utils/pdfHandler.ts:329-338 | inside a returned group neighbouring cells are at most the threshold apart |
| Tables.ClustersBoundaryGaps | utils/pdfHandler.ts:329-338 | each returned group after the first starts more than the threshold from the previous group's last cell |
| Tables.ClustersDroppedGroup | utils/pdfHandler.ts:331-341 | the cells after the returned ones form one group with no gap above the threshold |
| Tables.ClustersDroppedGroupStart | utils/pdfHandler.ts:331-341 | the dropped group starts more than the threshold from the last returned cell |
| Tables.NoGapNoClusters | utils/pdfHandler.ts:324-342 | sorted input without a gap above the threshold (in particular empty input) returns no groups |
| Tables.TableGroupsKeepLargeGroups | utils/pdfHandler.ts:253 | the filter keeps exactly the row groups of more than one cell |
| Tables.DetectPage | utils/pdfHandler.ts:251-257 | a page's table cells are the flattened row groups of more than one cell, the row groups taken per column |
| Tables.ClustersSubMultiset | utils/pdfHandler.ts:324-362 | a pass returns only cells of its input, each at most as often |
| Tables.PageCellsFromPage | utils/pdfHandler.ts:251-257 | a page's table cells are cells of that page, each at most as often as it occurs there |
| Tables.RowGroupsShorterThanColumn | utils/pdfHandler.ts:344-361 | every row group is shorter than its column, because the column's last row is dropped |
| Tables.TableNeedsFourCells | utils/pdfHandler.ts:251-257 | a page yields table cells only when it has at least four cells |
| Tables.TwoByTwoGridHasNoTable | utils/pdfHandler.ts:251-257 | the 2×2 grid keeps only its left column, then only that column's bottom cell, and yields no table cells |
| Tables.PageTableAt | utils/pdfHandler.ts:235-258 | one table per page, and page k (from 0) becomes table number k + 1 holding that page's table cells |
| Tables.DetectTables | utils/pdfHandler.ts:235-261 | the page loop returns the per-page tables in page order |
| Paragraphs.TextOrderTransitive | utils/pdfHandler.ts:297-301 | the paragraph sort's comparator, descending flipped `y` then ascending `x`, is transitive |
| Paragraphs.LastYTest | utils/pdfHandler.ts:304-308 | the test against `lastY` is the test against the current paragraph's last item, and always opens on the page's first item |
| Paragraphs.ParagraphTextAppend | utils/pdfHandler.ts:312 | appending an item adds one space and its string to the paragraph text |
| Paragraphs.CloseParagraph | utils/pdfHandler.ts:309 | closing a paragraph writes its text and a newline, and writes nothing for an empty text |
| Paragraphs.FinishPage | utils/pdfHandler.ts:317 | the end of a page writes the last paragraph and a blank line, and nothing for an empty text |
| Paragraphs.WalkItem | utils/pdfHandler.ts:306-315 | one turn of the item loop keeps `fullText`, `currentParagraph` and `lastY` in step with the paragraph walk over the items seen |
| Paragraphs.AppendPage | utils/pdfHandler.ts:303-317 | a page adds its closed paragraphs, each with a newline, and its last paragraph with a blank line |
| Paragraphs.ConvertToText | utils/pdfHandler.ts:286-320 | the result is the trimmed concatenation of the page texts, and neither of its ends is whitespace |
| Paragraphs.ParagraphsPartitionItems | utils/pdfHandler.ts:303-315 | the paragraphs are non-empty, concatenated give back the page's items, and the first item starts the first paragraph |
| Paragraphs.ParagraphsHoldTogether | utils/pdfHandler.ts:307-313 | inside a paragraph no item is more than its threshold away from the previous one |
| Paragraphs.ParagraphsBreakApart | utils/pdfHandler.ts:307-311 | every later paragraph starts with an item more than its threshold away from the previous item |
| Paragraphs.ParagraphsIgnoreViewport | utils/pdfHandler.ts:307-308 | the paragraphs do not depend on the viewport height, which cancels out of every break test |
| Paragraphs.PageTextLines | utils/pdfHandler.ts:303-317 | for non-empty strings without newlines, a page's text split at newlines is its paragraph texts followed by two empty pieces |
| RateLimit.RestoredTokens | utils/rateLimit.ts:24-25 | the tokens earned are the whole 1000 ms intervals in the elapsed time, rounded down (also for a negative elapsed time) |
| RateLimit.RefilledTokens | utils/rateLimit.ts:26 | the refilled count is the smaller of 60 and stored plus earned tokens |
| RateLimit.Admit | utils/rateLimit.ts:10-43 | every call sets the timestamp to `now` and leaves between 0 and 59 tokens; an unknown client is admitted with 59 tokens; a refused call stores 0 tokens |
| RateLimit.RemainingTokens | utils/rateLimit.ts:45-48 | 60 for an unknown client, the stored count otherwise |
| RateLimit.TimeUntilReset | utils/rateLimit.ts:50-57 | 0 for an unknown client; never negative; 0 exactly when a full window has passed; at most 60000 when `now` is not before the timestamp |
| RateLimit.LimitedIffNoTokens | utils/rateLimit.ts:24-42 | a known client is refused exactly when stored plus earned tokens are below 1, and otherwise keeps the refilled count minus one |
| RateLimit.RemainingTokenAdmits | utils/rateLimit.ts:14-48 | a client for which `getRemainingTokens` reports at least 1 is admitted by its next call |
| RateLimit.ResetRefillsBucket | utils/rateLimit.ts:24-57 | once `getTimeUntilReset` reports 0, the next call is admitted from a full bucket and leaves 59 tokens |
| RateLimit.EmptyBucketRefuses | utils/rateLimit.ts:28-34 | an empty bucket less than 1000 ms old refuses and stays empty |
| RateLimit.AdmitSpends | utils/rateLimit.ts:24-42 | a served call spends one token: tokens left plus calls served never exceed stored plus earned tokens |
| RateLimit.RestoredSuperadditive | utils/rateLimit.ts:25 | splitting a stretch of time in two never earns more tokens than the whole stretch |
| RateLimit.Replay | utils/rateLimit.ts:10-43 | replaying calls ends with a bucket stamped at the last call, and serves at most one call per request |
| RateLimit.ServedWithinBudget | utils/rateLimit.ts:10-43 | for calls in time order, calls served plus tokens left never exceed the starting tokens plus the 1000 ms intervals elapsed |
| RateLimit.NewClientServedWithinBudget | utils/rateLimit.ts:14-42 | a new client is served at most 60 calls plus one per 1000 ms after its first call |
| RateLimit.EmptyBucketLocksOut | utils/rateLimit.ts:28-34 | a client with no tokens that keeps calling less than 1000 ms apart is refused every time |
| RateLimit.RateLimiter.constructor | utils/rateLimit.ts:8 | the limiter starts with no buckets |
| RateLimit.RateLimiter.Lookup | utils/rateLimit.ts:12 | `rateLimiters.get(clientId)`: the client's bucket exactly when it has one |
| RateLimit.RateLimiter.IsRateLimited | utils/rateLimit.ts:10-43 | the answer is the one-call outcome, only the caller's bucket changes, and all stored tokens stay in 0..59 |
| RateLimit.RateLimiter.GetRemainingTokens | utils/rateLimit.ts:45-48 | the stored tokens, or 60 for an unknown client, without changing the map; always within 0..60 |
| RateLimit.RateLimiter.GetTimeUntilReset | utils/rateLimit.ts:50-57 | `max(0, 60000 - elapsed)`, or 0 for an unknown client, without changing the map |

## Left out

- The PDF decoder: loading the document, `getPage`, `getTextContent`, `getViewport`, and the worker set-up. The model takes each page's fragments and viewport height as inputs.
- The `'str' in item` filter on decoded items: the model's inputs are already text items.
- Font metrics: the `Math.sqrt` font size and the `Math.hypot` cell height. They are floating-point values that no grouping reads.
- `editPDF`, `createPDFFromText`, `redactPDF` and `extractTextFromPDF`: drawing and serialisation through the PDF libraries.
- The page sorts of `extractStructuredTextFromPDF` and `convertPDFToText`. Their comparators are modelled as functions, and the walks run over whatever order the sort produced. The line comparator is not an order, so its sorted output is not determined by its input.
- Tables.SortCells: the engine's `Array.prototype.sort` is modelled as a stable insertion sort on sequences. `groupByColumns`/`groupByRows` sort the caller's array in place, but no caller reads that array again, so the model sorts a copy.
- JavaScript numbers: coordinates are `real`, so NaN, infinite coordinates and rounding are not modelled. Timestamps and token counts are `int`.
- `Date.now()` becomes a `now` parameter. The map being global to the process is modelled as one `RateLimiter` object.
- The HTTP routes, the CAPTCHA poller, the anti-bot helpers and the user interface are outside this model.
