# Naver blogger-id extractor, modelled in Dafny

This project models the core of `blogger_id_extract_api_streamlit_v2.3.py`,
a Streamlit app. The user types keywords separated by commas or semicolons.
For each keyword, the app pages through the Naver blog-search API and
collects the blogger ids found in the results' `bloggerlink` URLs. It then
concatenates the per-keyword results into one table and exports that table
to a spreadsheet.

The model is split into modules that follow the program:

- `Text`: Python's `str.strip`, `str.split` for a one-character separator,
  and the `join` that undoes `split`.
- `Paths`: the id rule `path.strip('/').split('/')[-1]`. `BloggerId` computes
  it directly from the end of the path, and a lemma proves it equal to the
  strip-split-last composition.
- `Keywords`: the keyword list
  `[k.strip() for k in keywords.replace(';', ',').split(',')]`.
- `Extraction`: one keyword's `get_blogger_ids` as a state machine, `Crawl`.
  Each step is one iteration of the page loop. The stops are the cap check,
  an empty page, a request error and the ten-page ceiling. `Final` is a
  closed form of the state the loop ends in, and `RunIsFinal` proves that
  the loop reaches it.
- `ExtractionProperties`: what `Final` implies, namely:
  - the requests issued, with their `start` offsets;
  - the progress and error messages;
  - where the loop stops and which ids it keeps;
  - where each id comes from.
- `Listing`: `get_blogger_ids` written as the loop it is in the source, with
  its three `break`s and the final `list(blogger_ids)[:max_results]`. It is
  proved equal to `Extraction`'s closed form.
- `Table`: the per-keyword frames and `pd.concat(..., ignore_index=True)`.
- `Export`: the spreadsheet cells the export writes, as a map from
  `(row, column)` to text.
- `Driver`: the button handler. Empty input gives a warning. Otherwise every
  keyword is extracted with the default cap, and the success message reports
  the table's length.

The search endpoint is a parameter, `Server`: a total function from a
request's `(query, display, start)` to what the page brought back. That is
either a failed request (`requests.exceptions.RequestException`) or the URL
paths of the page's results. Each keyword position of one button press has
its own endpoint, so a keyword typed twice is searched twice and may be
answered differently, a request failing once and succeeding later. What the
extraction does that can be observed is an event trace: each request issued,
and each progress message `(page/10) count` or error message written to the
text area.

Behaviour of the code worth knowing:

- Empty keywords are kept. `"a,,b"` gives the three keywords `a`, the empty
  string and `b`, and the empty keyword is searched like any other
  (`Keywords.EmptyPieceKept`). Whitespace-only input is not empty, so it
  passes the `if keywords:` test and yields the keyword `""`.
- Empty input shows a warning and builds no table at all.
- The success message says "고유한" (unique), but it reports `len(final_df)`,
  the number of rows. An id found for two keywords is counted twice
  (`Table.SameIdCountedTwice`).
- Ids are distinct within one keyword only.
- The cap is checked only before each request, so a page is always taken
  whole. The id set can therefore exceed `max_results` (`CapOvershoot`); the
  final slice cuts the returned list back to the cap.
- The frame's column is named `검색어`, but the spreadsheet header says
  `키워드`. The export writes the rows by position, so the header text is the
  only difference.

## Model

All source cells refer to `blogger_id_extract_api_streamlit_v2.3.py`.

| member | source | states |
|---|---|---|
| Text.Strip | blogger_id_extract_api_streamlit_v2.3.py:46 | `strip` returns a slice with only removable characters cut from each end; it is empty exactly when every character is removable; otherwise both of its ends are kept characters |
| Text.StripUnique | blogger_id_extract_api_streamlit_v2.3.py:68 | any slice with removable characters outside it and kept characters at both ends is the result of `strip`, so `strip` is fully determined |
| Text.Split | blogger_id_extract_api_streamlit_v2.3.py:46 | `split(sep)` gives one piece more than there are separators; no piece holds the separator; joining the pieces with the separator gives back the text |
| Text.SplitOfJoin | blogger_id_extract_api_streamlit_v2.3.py:68 | splitting joined separator-free pieces gives back exactly those pieces, in order, empty ones included |
| Paths.BloggerId | blogger_id_extract_api_streamlit_v2.3.py:46 | an id never contains `/` |
| Paths.BloggerIdIsSplitRule | blogger_id_extract_api_streamlit_v2.3.py:46 | for every path, `BloggerId` equals the last piece of splitting the slash-stripped path on `/` |
| Paths.EmptyIdIffOnlySlashes | blogger_id_extract_api_streamlit_v2.3.py:46-47 | the id is empty, and the result skipped, exactly when the path is empty or consists of slashes only |
| Paths.TrailingSlashesIgnored | blogger_id_extract_api_streamlit_v2.3.py:46 | trailing slashes do not change the id |
| Paths.LastPieceFollowsLastSlash | blogger_id_extract_api_streamlit_v2.3.py:46 | the last piece of a split is what follows the last `/` |
| Paths.SingleSegmentId | blogger_id_extract_api_streamlit_v2.3.py:46 | the path `/<name>` of a profile URL yields `name` for every non-empty slash-free name |
| Paths.NestedPathId | blogger_id_extract_api_streamlit_v2.3.py:46 | `/a//b/` yields `b` |
| Paths.RootPathHasNoId | blogger_id_extract_api_streamlit_v2.3.py:46-47 | the bare host path `/` yields the empty id, which is skipped |
| Keywords.UnifySeparators | blogger_id_extract_api_streamlit_v2.3.py:68 | `replace(';', ',')` keeps the length, leaves no `;`, puts a comma exactly where the input had a separator and keeps every other character |
| Keywords.SplitKeywords | blogger_id_extract_api_streamlit_v2.3.py:68 | there is one keyword per separator plus one; no keyword holds a separator; no non-empty keyword begins or ends with whitespace |
| Keywords.KeywordsOfJoin | blogger_id_extract_api_streamlit_v2.3.py:68 | clean keywords joined with commas are split back into exactly the same list, empty keywords included |
| Keywords.KeywordsAreTrimmedPieces | blogger_id_extract_api_streamlit_v2.3.py:68 | keyword `k` is piece `k` of the comma split with whitespace, and only whitespace, removed from its two ends |
| Keywords.SeparatorsInterchangeable | blogger_id_extract_api_streamlit_v2.3.py:68 | inputs that differ only in which separator (`,` or `;`) is used give the same keywords |
| Keywords.TrimPiece | blogger_id_extract_api_streamlit_v2.3.py:68 | `k.strip()` leaves no whitespace at either end and adds no character that was not in the piece |
| Keywords.TrimmedKeywordUnchanged | blogger_id_extract_api_streamlit_v2.3.py:68 | a keyword without surrounding whitespace is unchanged by `strip()` |
| Keywords.EmptyPieceKept | blogger_id_extract_api_streamlit_v2.3.py:68 | `"a,,b"` gives `["a", "", "b"]`: the empty piece is kept |
| Extraction.PageIds | blogger_id_extract_api_streamlit_v2.3.py:44-48 | a page adds only non-empty ids, and at most one per result |
| Extraction.Advance | blogger_id_extract_api_streamlit_v2.3.py:44-53 | serving a page moves on to the next page and a `start` 100 further, keeps every id held and adds at most one per result, and appends the request followed by the progress message with the new set size |
| Extraction.Crawl | blogger_id_extract_api_streamlit_v2.3.py:24-57 | the page loop always ends stopped, never going back a page, never dropping an id and only appending messages; `CrawlFinal` states the state it ends in |
| Extraction.Extract | blogger_id_extract_api_streamlit_v2.3.py:11-57 | one keyword's extraction, with the source's id rule, ends in the closed form `Final` |
| Extraction.AdvanceKeepsInv | blogger_id_extract_api_streamlit_v2.3.py:44-53 | serving a page below the cap keeps the loop invariant: `start` is `1 + 100 * (page - 1)`, the set holds the ids of the pages served so far, and every earlier page was served below the cap |
| Extraction.CrawlFinal | blogger_id_extract_api_streamlit_v2.3.py:24-57 | from any invariant state the loop ends in the closed form `Final`: pages `1..n` served below the cap; page `n + 1` not served below the cap (or no page left); the set of ids of those pages; the stop reason in the loop's test order; the messages of the served pages, then those of the stop |
| Extraction.RunIsFinal | blogger_id_extract_api_streamlit_v2.3.py:20-57 | from `start = 1` and an empty set, the loop ends in `Final` |
| Extraction.ExtractIsFinal | blogger_id_extract_api_streamlit_v2.3.py:11-57 | the same, for one keyword with the source's id rule |
| ExtractionProperties.RequestSchedule | blogger_id_extract_api_streamlit_v2.3.py:21-50 | at most ten requests; the `k`-th asks for `display = 100` results from `start = 1 + 100 * k`; one request per served page, plus one more when the loop stopped on an empty page or a failed request |
| ExtractionProperties.RequestsBelowCap | blogger_id_extract_api_streamlit_v2.3.py:25-26 | every request is issued while the set holds fewer than `max_results` ids |
| ExtractionProperties.ProgressReports | blogger_id_extract_api_streamlit_v2.3.py:53 | there is one progress message per served page, `(page/10) count`, with the size of the set after that page; the last one shows the final set size |
| ExtractionProperties.ProgressCountsGrow | blogger_id_extract_api_streamlit_v2.3.py:53 | the counts the progress messages show never decrease |
| ExtractionProperties.ErrorReportedOnce | blogger_id_extract_api_streamlit_v2.3.py:55-57 | the error message appears exactly once if a request failed and never otherwise; when it appears it is the last event |
| ExtractionProperties.EmptyPageStops | blogger_id_extract_api_streamlit_v2.3.py:41-42 | an empty page `p` after pages served below the cap stops the loop with the ids of pages `1..p-1`, after its request and with no progress message for `p` |
| ExtractionProperties.FailureKeepsPartial | blogger_id_extract_api_streamlit_v2.3.py:55-57 | a failed request for page `p` stops the loop; the ids of pages `1..p-1` are kept, and the request is followed by one error message |
| ExtractionProperties.CapStops | blogger_id_extract_api_streamlit_v2.3.py:25-26 | once pages `1..p-1` have brought `max_results` ids or more, page `p` is never requested and the set is that of pages `1..p-1` |
| ExtractionProperties.AllPagesServed | blogger_id_extract_api_streamlit_v2.3.py:22-24 | ten pages served below the cap end the loop by running out of pages, with the ids of all ten |
| ExtractionProperties.NonPositiveCap | blogger_id_extract_api_streamlit_v2.3.py:25-26 | a cap of zero or less stops before the first request, with no ids and no messages |
| ExtractionProperties.StopsAt | blogger_id_extract_api_streamlit_v2.3.py:24-42 | when pages `1..p-1` are served below the cap and page `p` is not, the loop stops at page `p` |
| ExtractionProperties.PageIdsSound | blogger_id_extract_api_streamlit_v2.3.py:44-48 | every id a page adds is the non-empty id of one of its results |
| ExtractionProperties.PageIdsComplete | blogger_id_extract_api_streamlit_v2.3.py:44-48 | every result with a non-empty id adds it |
| ExtractionProperties.PageIdsSize | blogger_id_extract_api_streamlit_v2.3.py:44-48 | a page adds at most one id per result |
| ExtractionProperties.IdsProvenance | blogger_id_extract_api_streamlit_v2.3.py:20-48 | an id is in the set after `n` pages exactly when one of pages `1..n` contributed it |
| ExtractionProperties.IdsGrow | blogger_id_extract_api_streamlit_v2.3.py:48 | the set only grows from page to page |
| ExtractionProperties.ExtractedIdsWellFormed | blogger_id_extract_api_streamlit_v2.3.py:46-48 | every id collected for a keyword is non-empty and holds no `/` |
| ExtractionProperties.ResultCeiling | blogger_id_extract_api_streamlit_v2.3.py:22-30 | with pages of at most 100 results, one keyword yields at most 1000 ids, whatever the cap |
| ExtractionProperties.CapOvershoot | blogger_id_extract_api_streamlit_v2.3.py:25-26 | with `max_results = 1`, a first page holding two profiles is taken whole: the set has two ids and the loop then stops on the cap |
| Listing.SliceLength | blogger_id_extract_api_streamlit_v2.3.py:59 | `xs[:stop]` keeps at most `len(xs)` elements: all of them when `0 <= stop` and `len(xs) <= stop`, exactly `stop` when `0 <= stop < len(xs)`, and `len(xs) + stop` (at least 0) when `stop` is negative |
| Listing.SliceEnd | blogger_id_extract_api_streamlit_v2.3.py:59 | `xs[:stop]` is the prefix of `xs` of that length |
| Listing.ListOfSet | blogger_id_extract_api_streamlit_v2.3.py:59 | `list(s)` holds every element of the set once and nothing else |
| Listing.AddPage | blogger_id_extract_api_streamlit_v2.3.py:44-48 | the loop over a page's results adds exactly the page's non-empty ids to the set |
| Listing.Collect | blogger_id_extract_api_streamlit_v2.3.py:20-57 | the page loop, with its three `break`s, ends with the id set and the messages of the closed-form extraction |
| Listing.GetBloggerIds | blogger_id_extract_api_streamlit_v2.3.py:11-59 | `get_blogger_ids` returns distinct ids of the extraction, never more than a non-negative `max_results`, as many as the slice keeps and all of them when they fit; it shows the extraction's messages |
| Table.Batch | blogger_id_extract_api_streamlit_v2.3.py:79 | a keyword's frame has one row per id, pairing the keyword with that id, in list order |
| Table.KeywordTable | blogger_id_extract_api_streamlit_v2.3.py:84 | the concatenated table has as many rows as all the id lists together |
| Table.KeywordTableIndex | blogger_id_extract_api_streamlit_v2.3.py:74-84 | keyword `k`'s `i`-th id is in row `Offset(k) + i`: rows are grouped by keyword, in input order, each group in its list's order |
| Table.KeywordTableSource | blogger_id_extract_api_streamlit_v2.3.py:74-84 | every row is some keyword's id, at the position `KeywordTableIndex` gives |
| Table.KeywordTableRows | blogger_id_extract_api_streamlit_v2.3.py:74-84 | a row is in the table exactly when its id is in the list of a keyword equal to the row's keyword |
| Table.SameIdCountedTwice | blogger_id_extract_api_streamlit_v2.3.py:84-85 | one id found for two keywords makes two rows, so the reported count is of rows, not of distinct ids |
| Export.WriteSheet | blogger_id_extract_api_streamlit_v2.3.py:102-110 | the sheet fills exactly two columns and the rows `1..n+1`; the header `키워드`, `블로거 ID` is in row 1; table row `i` is in sheet row `i + 2`, keyword in column 1 and id in column 2 |
| Export.SheetRoundTrip | blogger_id_extract_api_streamlit_v2.3.py:107-110 | reading the data rows of the written sheet gives back the table, in order |
| Export.EmptyTableHeaderOnly | blogger_id_extract_api_streamlit_v2.3.py:102-104 | an empty table exports the header row alone |
| Driver.ExtractAll | blogger_id_extract_api_streamlit_v2.3.py:74-80 | every keyword in turn gets `get_blogger_ids` with the default cap of 1000 against the endpoint of its position; list `k` and its messages belong to keyword `k` |
| Driver.RowsFound | blogger_id_extract_api_streamlit_v2.3.py:74-84 | every row pairs a keyword with an id which that keyword's own extraction found |
| Driver.Submit | blogger_id_extract_api_streamlit_v2.3.py:66-91 | the warning is given exactly when the input is empty; otherwise the keywords are those of the split, each keyword's list and messages come from its own extraction, each row's id was found for that row's keyword, the table is the concatenation of the per-keyword frames, and the reported total is its number of rows |

## Left out

- The HTTP request itself is not modelled. That covers the URL, the headers
  and secrets, `raise_for_status`, JSON decoding and `data.get('items', [])`.
  Each page's outcome is a parameter: a failed request, or the list of the
  results' link paths.
- `urlparse` is not modelled. The model starts from the path component of
  `bloggerlink`, because URL parsing is library code.
- A result without a `bloggerlink` key raises `KeyError` in the source and is
  not modelled: the outcome always carries one path per result.
- `time.sleep(0.1)` is left out. It has no observable effect on the result.
- The iteration order of `list(blogger_ids)` is left out: Python leaves it
  open. `ListOfSet` picks any order, and the contracts hold for every order.
- The Streamlit widgets are not modelled. That covers the title, the text
  input, the button, the progress bar and its fraction `i / len`, the spinner,
  and the per-keyword "처리 중" notice. The button press is the call to
  `Submit`, and the text of the messages is reduced to their fields.
- `st.session_state` is not modelled, and neither is the rerun that makes
  the export run after a press. `WriteSheet` takes the table directly.
- The spreadsheet styling is not modelled: the yellow header fill, the
  auto-filter, the frozen pane, saving to `BytesIO`, the date-stamped file
  name and the download button.
- Export.WriteSheet: openpyxl's own checks on cell values are not modelled.
  It raises `IllegalCharacterError` for text holding U+0000-U+0008,
  U+000B-U+000C or U+000E-U+001F, and it cuts cell text to 32,767
  characters. A keyword with such a character that has results makes the
  source's export fail, while the model writes it. That check is library
  code outside the script.
- Export.SheetRoundTrip: for the same reason, the round trip holds for the
  cells the model writes. In the source it does not hold for text that
  openpyxl refuses or cuts.
- pandas is reduced to the table's rows in order. The DataFrame index and
  column dtypes are not modelled.
- The fixed example that a profile path `/exampleUser` yields `exampleUser`
  is stated for every name by `Paths.SingleSegmentId` rather than as a
  literal.
