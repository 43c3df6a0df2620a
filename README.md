# Hip-hop scraper core, modelled in Dafny

This project models the data-handling core of a scraper for hip-hop
artists and lyrics. The scraper reads Wikipedia tables of artists and
queries the Genius API for each artist's songs and lyrics. The model
covers the parts that compute rather than fetch:

- the HTML table layout of `parse_table`. Cells with `rowspan` and
  `colspan` are placed on a grid, flowing around slots already held, by
  an earlier row's `rowspan` or by an earlier cell of the same row. The grid is then read back row by row (`dict_to_list`).
- the column extractor `get_table_col`. It finds the header row holding an
  attribute and collects the distinct values below it.
- the text helpers `replace_quotes`, `replace_space` and
  `extract_links_match_obj`.
- the general tools `counter`, `get_nonjson` and `parse_datetime`.
- four parts of the Genius scraper:
  - the artist vote of `consensus_artist`;
  - the page loop of `get_songs`;
  - the lyric clean-up of `extract_lyrics`;
  - the artist-name filter of `main`.

Modules and files:

| module | file | source |
|---|---|---|
| `Wrappers` | wrappers.dfy | `Option` and `Result` |
| `Builtins` | builtins.dfy | the Python built-ins the core relies on |
| `HtmlText` | html_text.dfy | src/parse_html.py, text helpers |
| `TableLayout` | table_layout.dfy | src/parse_html.py, `parse_table` and `dict_to_list` |
| `TableColumn` | table_column.dfy | src/parse_html.py, `get_table_col` |
| `Tools` | tools.dfy | src/tools.py |
| `GeniusVote` | genius_vote.dfy | src/genius_scraper.py, `consensus_artist` |
| `GeniusSongs` | genius_songs.dfy | src/genius_scraper.py, `get_songs` |
| `GeniusLyrics` | genius_lyrics.dfy | src/genius_scraper.py, `extract_lyrics` |
| `GeniusMain` | genius_main.dfy | src/genius_scraper.py, the name filter of `main` |

Python values are modelled as follows:

- A Python dict remembers the order in which its keys were inserted.
  Where that order matters (`counter`, and the `max` over its keys), the
  model returns the map together with its key sequence.
- A Python set's iteration order is left open. Methods pick the next
  element with `:|`, and their contracts hold whatever the order.
- A cell value is a text, a single link, or a list of links.
- Table cells come already parsed: their span attributes, their text and
  their descendant `href`s. `urljoin`, `datetime.strptime`, a compiled
  regular expression's `search`, and the Genius page request are function
  parameters, left uninterpreted.
- Where the source raises, the model returns `Err` with the exception:
  `int()` on a span, `str.lower` on a list cell, `parse_datetime`, and
  the HTML parser given no page in `extract_lyrics` when a song has no
  `path`.

Some behaviours of the code are easy to misread; the model follows the
code:

- A `colspan` or `rowspan` of 0 or less gives an empty `range` and writes
  nothing (`TableLayout.NonPositiveSpanWritesNothing`).
- A non-numeric span makes `int()` raise `ValueError`, and the whole
  table fails (`TableLayout.LayoutFailsIffBadSpan`).
- A cell's list of links keeps duplicates (`TableLayout.ResolveRule`).
- The column extractor collects the header cell itself
  (`TableColumn.HeaderCellCollected`). The name filter of `main` later
  drops it (`GeniusMain.CollectedHeaderIsFiltered`).
- `attr` is compared with lower-cased cells without being lower-cased
  itself. An attribute with an upper-case letter therefore never matches
  (`TableColumn.UpperCaseAttrNeverMatches`).

## Model

| member | source | states |
|---|---|---|
| HtmlText.ReplaceQuotes | src/parse_html.py:37-38 | `replace_quotes`: every `"` is removed, then every `'`; the result is no longer than the input and holds neither quote |
| HtmlText.ReplaceQuotesIsOneFilter | src/parse_html.py:37-38 | the two `replace` passes equal one pass keeping every character that is not a quote, in order |
| HtmlText.ReplaceQuotesKeepsOthers | src/parse_html.py:37-38 | no quote is left; every other character keeps its number of occurrences |
| HtmlText.ReplaceQuotesIdempotent | src/parse_html.py:37-38 | removing quotes twice is removing them once |
| HtmlText.ReplaceSpace | src/parse_html.py:40-41 | same length, no U+00A0 is left, each U+00A0 becomes a space and every other character stays |
| HtmlText.ReplaceSpaceIdempotent | src/parse_html.py:40-41 | normalising twice is normalising once |
| HtmlText.ExtractLinksMatchObj | src/parse_html.py:43-52 | the loop returns exactly the links the matcher matches, in input order, each as often as in the input |
| TableLayout.Resolve | src/parse_html.py:119-144 | the value one cell writes: its normalised text when text is preferred; otherwise its one wiki link joined to the base URL, the list of all of them, or its text when it has none (its properties are `ResolveRule`) |
| TableLayout.ResolveRule | src/parse_html.py:119-144 | a cell's value is its normalised text when text is preferred or it has no wiki link; otherwise its one joined wiki link, or, when there are at least two, the list whose k-th element is the k-th wiki href joined (document order, duplicates kept) |
| TableLayout.FirstFree | src/parse_html.py:128-129 | the column found is at or after the start, is free, and every column before it from the start is taken |
| TableLayout.FirstFreeUnique | src/parse_html.py:128-129 | any column with those three properties is the one the search finds |
| TableLayout.FreeColumn | src/parse_html.py:128-129 | the `while` loop stops at the first free column of the row from the cell's position |
| TableLayout.FillWrites | src/parse_html.py:131-144 | after writing a rectangle, exactly the old slots and the rectangle's slots are present; the rectangle holds the new value, the rest is unchanged |
| TableLayout.FillExtensional | src/parse_html.py:131-144 | a grid with the slots and values of a fill is that fill |
| TableLayout.FillRect | src/parse_html.py:131-144 | the nested `for` loops write the rectangle, last write winning |
| TableLayout.PlaceCell | src/parse_html.py:117-144 | one cell: colspan then rowspan through `int()`, the first free column from its position, then the rectangle filled with its value; a slot already written is never removed |
| TableLayout.Layout | src/parse_html.py:109-144 | the grid the nested loops build over all rows and cells, or the first `int()` error (its properties are the `Layout*` and `Unmerged*` lemmas) |
| TableLayout.NonPositiveSpanWritesNothing | src/parse_html.py:131-132 | a span of 0 or less leaves the grid as it was |
| TableLayout.LayoutRowFailsIffBadSpan | src/parse_html.py:114-118 | the rest of a row fails exactly when one of its cells has a span `int()` rejects |
| TableLayout.LayoutRowsFailsIffBadSpan | src/parse_html.py:112-118 | the rows from `r` on fail exactly when one of their cells has a rejected span |
| TableLayout.LayoutFailsIffBadSpan | src/parse_html.py:109-118 | a table fails exactly when some cell has a rejected span |
| TableLayout.WrittenRowsHaveColumns | src/parse_html.py:100-107 | every row present in the grid has at least one written column |
| TableLayout.DictToList | src/parse_html.py:100-107 | one output row per written row; the row at rank a holds exactly as many values as that row has written columns, so nothing is padded and no row is empty |
| TableLayout.DictToListPlacement | src/parse_html.py:100-107 | the value at slot (i, j) is output in the row ranked by i among the written rows, at the column ranked by j among that row's written columns |
| TableLayout.ParseTable | src/parse_html.py:109-146 | the loops fail with the layout's error exactly when the layout fails; otherwise they give the layout read back by `dict_to_list` |
| TableLayout.PlaceUnitCell | src/parse_html.py:117-144 | a 1x1 cell at a free position is written at that position |
| TableLayout.UnmergedRow | src/parse_html.py:114-144 | in a row without merged cells each cell lands at its own position |
| TableLayout.UnmergedRows | src/parse_html.py:112-144 | rows without merged cells keep every cell at its own position |
| TableLayout.UnmergedTableIsPositional | src/parse_html.py:109-146 | a table without merged cells succeeds; cell k of row i is at slot (i, k) and nothing else is written |
| TableColumn.LowerRow | src/parse_html.py:159 | `list(map(str.lower, row))`: as many strings as cells, or `TypeError` at the first list cell (its properties are `LowerRowCells`) |
| TableColumn.LowerRowCells | src/parse_html.py:159 | lower-casing a row fails exactly when it holds a list of links; otherwise each cell is lower-cased in place |
| Builtins.IndexOf | src/parse_html.py:168 | `list.index`: the first position holding the value |
| TableColumn.FindHeader | src/parse_html.py:157-163 | the header search from row `i`: the index of the first row whose lower-cased cells hold `attr`, which lies in the table; none; or the first lower-casing error |
| TableColumn.TableItems | src/parse_html.py:154-178 | one table's items: none for an empty table or without a header; otherwise the cell under the header column of every long enough row from the header on, a list of links as a frozen set |
| TableColumn.HeaderIsFound | src/parse_html.py:157-163 | the header row found holds `attr`; every row before it lower-cases and does not |
| TableColumn.HeaderIsMissing | src/parse_html.py:157-166 | without a header, every row lower-cases and none holds `attr` |
| TableColumn.HeaderSearchFails | src/parse_html.py:158-159 | the search fails only on a row holding a list of links |
| TableColumn.HeaderCellCollected | src/parse_html.py:168-178 | the header cell, whose lower-case form is `attr`, is among the table's items |
| TableColumn.UpperCaseAttrNeverMatches | src/parse_html.py:159-161 | an attribute with an upper-case letter collects nothing |
| TableColumn.FindTableHeader | src/parse_html.py:157-163 | the `for`/`break` loop finds the first row holding `attr`, or no row, or the first lower-casing error |
| TableColumn.CollectColumn | src/parse_html.py:170-178 | the loop over `table[index:]` adds the cell under the header of every long enough row |
| TableColumn.AddTableItems | src/parse_html.py:154-178 | one table adds its column's items to `items`, or raises the search's error |
| TableColumn.ExportsInjective | src/parse_html.py:180-186 | two different items never render to the same output element |
| TableColumn.Export | src/parse_html.py:183-186 | a string is returned as itself, a frozen set as a list of exactly its links |
| TableColumn.ExportItems | src/parse_html.py:180-188 | `final_list` renders every item once, has as many elements as `items` and no duplicates |
| TableColumn.RenderingDistinct | src/parse_html.py:180-188 | rendering distinct items position by position gives distinct list elements |
| TableColumn.RenderingFacts | src/parse_html.py:180-188 | rendering a duplicate-free listing of the items yields a duplicate-free list of their renderings |
| TableColumn.GetTableCol | src/parse_html.py:148-188 | the first error of any table is raised; otherwise the result renders exactly the distinct items of all tables' columns, each once |
| Tools.FirstAppearances | src/tools.py:23-35 | the dict's key order: the distinct elements of the input in order of first occurrence |
| Tools.CountSeen | src/tools.py:29-30 | counting an element already present raises its count by one and keeps the dict correct for the longer prefix |
| Tools.CountNew | src/tools.py:32-33 | counting a new element appends it as the last key with count 1 |
| Tools.Counter | src/tools.py:23-35 | the keys are the distinct elements in first-occurrence order; each count is its number of occurrences, at least 1; counts add up to the length; the map is empty exactly for an empty input |
| Tools.GetNonJson | src/tools.py:58-63 | a set becomes a duplicate-free list of exactly its elements; anything else is returned unchanged |
| Tools.ParseDatetime | src/tools.py:37-56 | succeeds exactly when some format parses, with the date of the first such format in the listed order; otherwise `ValueError` naming the string |
| GeniusVote.CollectIds | src/genius_scraper.py:163-178 | the last path segment of the primary artist of each hit that has one, in hit order, never more ids than hits |
| GeniusVote.CollectedIdsHaveNoSlash | src/genius_scraper.py:177 | a collected id is the part after the last `/`, so it holds no `/` |
| GeniusVote.CollectedIdsAreTheNamedHits | src/genius_scraper.py:163-178 | each collected id comes from a hit with a non-empty artist path, and every such hit contributes its id |
| GeniusVote.FirstMax | src/genius_scraper.py:186 | `max` over the dict: a key with the largest count, every earlier key having a strictly smaller one |
| GeniusVote.FirstAppearancesOrder | src/genius_scraper.py:180-186 | an id met before another's first occurrence gets the earlier key in `counter`'s dict |
| GeniusVote.FirstMaxIsConsensus | src/genius_scraper.py:180-186 | the first maximal key is the most frequent id, the first met among equals |
| GeniusVote.ConsensusUnique | src/genius_scraper.py:180-186 | the vote has at most one answer |
| GeniusVote.ConsensusArtist | src/genius_scraper.py:157-205 | `None` without `hits`; otherwise an answer exactly when some hit names an artist and the insert succeeds, and it is the vote's answer |
| GeniusSongs.SongIdOf | src/genius_scraper.py:229-245 | a hit gives its `id` when present; else the last path segment as a number exactly when that segment is all digits; else nothing |
| GeniusSongs.SongIdFromPath | src/genius_scraper.py:236-245 | a path ending in `/` and the decimal text of n gives n |
| GeniusSongs.PageIds | src/genius_scraper.py:227-246 | the set of ids one page's hits give (characterised by `PageIdsAreTheHitIds`) |
| GeniusSongs.PageIdsAreTheHitIds | src/genius_scraper.py:227-246 | the ids of a page are exactly the ids its hits give |
| GeniusSongs.AddPageIds | src/genius_scraper.py:227-246 | the `for hit in hits` loop adds the page's ids to the set gathered so far |
| GeniusSongs.SongsFrom | src/genius_scraper.py:215-248 | the outcome of the page loop from a page on: `None` at a page with no songs, otherwise the union of the pages' ids up to the first page whose `next_page` is falsy |
| GeniusSongs.EmptyPageAborts | src/genius_scraper.py:219-223 | the outcome is `None` exactly when the page chain reaches a page with no songs |
| GeniusSongs.PageStep | src/genius_scraper.py:215-248 | one turn of the loop adds the page's ids and moves to the next page while `next_page` is truthy |
| GeniusSongs.GetSongs | src/genius_scraper.py:212-269 | a list exactly when no page is empty and the update succeeds; it is duplicate-free and holds exactly the ids of all pages |
| GeniusLyrics.FindClose | src/genius_scraper.py:411 | where the shortest tag closes: the first `]` on the line, or none before a newline |
| GeniusLyrics.StripTags | src/genius_scraper.py:411 | `meta_matcher.sub('', s)`: each `[` closed by a `]` on its line is removed with the shortest stretch up to that `]`; everything else is kept in order |
| GeniusLyrics.StripKeepsUnclosed | src/genius_scraper.py:411 | removing tags never creates a `]` before the first newline |
| GeniusLyrics.StripTagsLeavesNoTags | src/genius_scraper.py:411 | after the substitution, no `[` has a `]` after it on its line |
| GeniusLyrics.StripTagsKeepsTagFree | src/genius_scraper.py:411 | a text without tags is unchanged |
| GeniusLyrics.StripTagsIdempotent | src/genius_scraper.py:411 | removing tags twice is removing them once |
| GeniusLyrics.StripTagsRemovesHeader | src/genius_scraper.py:411 | `[Hook]` is removed up to its `]`, and the newline after it stays |
| GeniusLyrics.StripTagsStopsAtLineEnd | src/genius_scraper.py:411 | for any text: a `[` with no `]` after it before a newline is kept, and removal goes on after it |
| GeniusLyrics.StripTagsShortest | src/genius_scraper.py:411 | for any text: `[` followed by characters other than `]` and newline, then `]`, is removed up to that first `]`, even past a nested `[` |
| GeniusLyrics.CleanLines | src/genius_scraper.py:451-456 | split on `\n`, keep the lines that are not blank after `strip()`, join with `\n` |
| GeniusLyrics.CleanLinesAreTheNonBlankLines | src/genius_scraper.py:451-456 | the cleaned text's lines are exactly the non-blank lines, in order; with none the text is empty |
| GeniusLyrics.CleanLinesIdempotent | src/genius_scraper.py:451-456 | cleaning twice is cleaning once |
| GeniusLyrics.CleanLinesKeepsTagFree | src/genius_scraper.py:451-456 | dropping blank lines from a tag-free text leaves it tag-free |
| GeniusLyrics.CleanFragment | src/genius_scraper.py:448-456 | one fragment through the loop body: U+00A0 normalised, tags removed, then blank lines dropped |
| GeniusLyrics.CleanFragmentLines | src/genius_scraper.py:448-456 | a cleaned fragment has no tag left, and is empty or has only non-blank lines |
| GeniusLyrics.CleanFragments | src/genius_scraper.py:448-456 | the in-place loop replaces every fragment, in order, by its cleaned form, which `CleanFragmentLines` shows to be tag-free and without blank lines |
| GeniusLyrics.ExtractLyrics | src/genius_scraper.py:412-458 | no `path` raises; a failed fetch gives `''`; no fragments gives `'NO LYRICS'`; otherwise the cleaned fragments in order, joined by a blank line |
| GeniusMain.Eligible | src/genius_scraper.py:568 | a name is enqueued exactly when `artist` does not occur in its lower-case form |
| GeniusMain.EnqueueArtists | src/genius_scraper.py:566-569 | each distinct name whose lower-case form lacks `artist` is enqueued once, and nothing else |
| GeniusMain.CollectedHeaderIsFiltered | src/genius_scraper.py:566-569 | the header cell collected under `artist` is a name the filter drops |

## Left out

- Network I/O is not modelled: the HTTP helpers (`get_web_link`,
  `get_link_html`, `check_html_link`, `get_wiki_links`) and the Genius API
  wrappers. The request for a page of songs is the `SongsApi` parameter,
  and a song page's fetch is the `SongPage` value.
- lxml parsing and xpath are not modelled. Cells, hrefs and lyric fragments
  are given already extracted; `text_content` is the cell's text.
- `urljoin`, `datetime.strptime` and the compiled regular expression
  passed to `extract_links_match_obj` are uninterpreted function parameters.
- The database (src/database.py, `db_insert`, `db_update`) is not
  modelled. Its outcomes are the `inserted` and `updated` parameters.
- Concurrency is not modelled: worker processes, queues, locks, signals,
  `multi_exec`, `multi_target`, `execute` and the rest of `main`. The
  end-of-work `None` markers put on the queue are not modelled either.
- Logging and `time.sleep` are not modelled.
- The file-backed memoisation `execute` in src/parse_html.py is not part of
  this model. It returns `None` on the path that computes, and it shadows
  `f` at line 197.
- `get_date_info`, `get_album_date`, `parse_wikipedia`, `run_workflow` and
  src/main.py are not part of this model.
- `lyrics_xpath` is imported from src/tools.py, which does not define it.
  The lyric fragments are an input of the model.
- `Builtins.Lower` and `Builtins.IsDigit` cover ASCII only; Python's
  Unicode case mapping and Unicode digits are not modelled.
- GetSongs: requires a ghost bound within which the page chain ends. A chain
  whose `next_page` links never end makes the source loop forever; the
  model does not cover that case.
- ExtractLyrics: the exception for a song without `path` is a `TypeError`;
  its message is not lxml's exact wording.
- TableColumn.LowerRow: the `TypeError` message follows CPython's wording
  for `str.lower` applied to a list.
- TableLayout.SpanValue: the `ValueError` for a non-numeric span carries
  `int()`'s message. `int()`'s tolerance of surrounding spaces, signs and
  underscores is folded into `Numeric`.
- Malformed Genius responses are not modelled. `get_search` and
  `get_artist_songs` return `None` when the JSON has no `response`. Then
  `consensus_artist` raises `TypeError` at `'hits' not in response`, and
  `get_songs` raises `AttributeError` at `response.get('songs', [])`. A
  `hits` set to null raises `TypeError` at `len(...)`, and a `result` set
  to null raises `AttributeError` at `.get('primary_artist', {})`. The
  model's response types (`Option<seq<Hit>>`, `SongsApi`) always hold a
  well-formed response, so these exceptions do not arise in it.
- A song's `id` key set to a value that is not an integer is not modelled:
  `SongHit.id` is an `Option<int>`.
