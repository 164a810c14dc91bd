# Crawl controller of the ENKK registry scraper, in Dafny

This project models the crawl controller of `scraper_enkk.py`, a scraper for the Hungarian
health-professional registry (kereso.enkk.hu). The registry search lists at most a fixed number
of hits per query and has no pagination. To get every record, the crawler works through a
breadth-first queue of name prefixes:

- a term whose result table is cut off (it is full, or the page states more hits than it lists)
  is split into its one-letter extensions, until a depth limit;
- the rows of every other term are tagged with the term and merged into a record store, keyed by
  a canonical row key, where the last write wins;
- the records that are new to the store may be handed to a tiered artifact retrieval, which saves
  one PDF per record;
- at the end, the stored rows are listed in key order, together with the union of their column
  names.

Everything the browser does is an oracle, a function value fixed in advance:

- the search form, the slider and the results table are `Explorer.Env.search`, which gives a
  `Search` per term;
- the detail pages, clicks and HTTP fetches are `Retrieval.Site`.

Each retrieval attempt returns the trace of the browser actions it performed (`Effect`). This
makes "no network activity" and "tiers are tried in order" statements about values.

Files and modules:

- `text.dfy`: `Wrappers` (Option) and `Text`, Python's `str.strip`, `casefold`, `startswith`,
  `in` and `<` on strings.
- `rows.dfy`: `Rows`, rows as insertion-ordered dictionaries, `first_row_value_by_markers`,
  `row_key` and the `json.dumps(sort_keys=True)` serialisation it uses.
- `seqs.dfy`: `Seqs`, order-preserving de-duplication (`dict.fromkeys` and the `seen`-set loop).
- `store.dfy`: `Store`, the record store `collected`, the merge loop of `run`, and the column
  union of `save_outputs`.
- `filenames.dfy`: `FileNames`, `sanitize_filename` and `build_pdf_path`.
- `urls.dfy`: `Urls`, `extract_url_from_js`, `is_useless_detail_url` and `detail_url_from_row`.
- `retrieval.dfy`: `Retrieval`, which holds:
  - `try_download_pdf_by_url` and `extract_pdf_from_open_detail_page`;
  - an independent tier-list description of that retrieval;
  - `download_pdf_for_row`;
  - the counting loop of `download_pdfs_for_rows`.
- `explorer.dfy`: `Explorer`, which holds:
  - the crawl state `Crawl`;
  - one loop turn `StepSpec` and the whole run `RunSpec`;
  - the crawl invariant with its termination measure;
  - the class `Crawler`, whose methods update the crawl state in place and are proved equal to
    `StepSpec` and `RunSpec`.

`Explorer.DefaultConfig` holds the command-line defaults of `parse_args`
(`scraper_enkk.py:968-1018`):

- alphabet `aábcdeéfghiíjklmnoóöőpqrstuúüűvwxyz`;
- maximum depth 3;
- split threshold 100;
- manual slider allowed;
- no PDF downloads;
- no per-query PDF limit.

Row keys and the order of columns. A row's key should not depend on the order of its columns.
The code keeps that promise only in part. `row_key` returns the value of the FIRST non-hint
identifier column that has a value (`scraper_enkk.py:370-377`). So a row with two identifier
columns holding different values gets a different key when the two columns are swapped. The model
follows the code:

- `Rows.RowKeyOrderSensitive` proves that swapping the two columns changes the key;
- `Rows.RowKeyOrderFree` proves the key is independent of column order when the identifier search
  and the name search each have at most one possible answer.

## Model

| member | source | states |
|---|---|---|
| Text.StripByIsMaximalSlice | scraper_enkk.py:49-52 | The stripped text is a slice s[i..j] of the input. Everything before i and after j is stripped, and the slice begins and ends with kept characters. |
| Text.CaseFoldKeepsFolded | scraper_enkk.py:373-374 | Casefolding leaves text that is already lower case unchanged, so a marker test on a casefolded label is a case-insensitive match. |
| Text.LexLessTotal | scraper_enkk.py:389 | The code-point order used by `sort_keys` orders any two different labels one way or the other. |
| Text.LexLessTransitive | scraper_enkk.py:389 | That order is transitive. |
| Text.LexLessAsymmetric | scraper_enkk.py:389 | That order is asymmetric. |
| Rows.Put | scraper_enkk.py:916 | `row[name] = value` makes `name` read back as `value`. Every other column reads back as before, no other column appears, and labels stay unique. A new column goes to the end, and an existing one is overwritten in its place. |
| Rows.NonHint | scraper_enkk.py:370-372 | Keeps exactly the columns whose label does not start with an underscore, and keeps labels unique. |
| Rows.FirstRowValueByMarkers | scraper_enkk.py:392-399 | Returns "" exactly when no column has a marked label and a non-blank value. Otherwise it returns the normalised value of the first such column in column order. |
| Rows.SortByNameElements | scraper_enkk.py:389 | Sorting by label keeps exactly the columns it is given. |
| Rows.SortByNameSorted | scraper_enkk.py:389 | Sorting a dictionary by label gives strictly increasing labels. |
| Rows.SortedRowsEqual | scraper_enkk.py:389 | Two label-sorted rows with the same columns are equal. |
| Rows.JsonObjectOrderFree | scraper_enkk.py:388-389 | The sorted serialisation of the non-hint columns does not depend on their order. |
| Rows.RowKeyIgnoresHints | scraper_enkk.py:370-372 | Setting an underscore column, such as `_query`, never changes the key. |
| Rows.RowKeyById | scraper_enkk.py:361-377 | When some non-hint identifier column has a value, the key is `id:` followed by the value of the first such column. |
| Rows.RowKeyByName | scraper_enkk.py:379-389 | Otherwise the key is `name:` with the first non-blank name value, then the `row:` separator and the sorted JSON of the non-hint columns. |
| Rows.RowKeyOrderFree | scraper_enkk.py:361-389 | Permuting the columns leaves the key unchanged when each marker search has at most one possible answer. |
| Rows.RowKeyOrderSensitive | scraper_enkk.py:370-377 | Two non-hint identifier columns with different values give different keys in the two column orders. |
| Rows.MarkedAt | scraper_enkk.py:374 | A label that contains any marker of the vocabulary is marked. |
| Seqs.DedupElements | scraper_enkk.py:846 | `dict.fromkeys` keeps exactly the elements of its input. |
| Seqs.DedupDistinct | scraper_enkk.py:846 | `dict.fromkeys` lists each element once. |
| Seqs.DedupFirstOccurrenceOrder | scraper_enkk.py:846 | `dict.fromkeys` lists elements in the order of their first occurrence. |
| Seqs.DedupOfDistinct | scraper_enkk.py:846 | A sequence without repetitions is its own de-duplication. |
| Store.Assign | scraper_enkk.py:920 | `collected[key] = row` stores the row under the key. A new key goes to the end and an existing key keeps its place. The table stays well formed. |
| Store.Values | scraper_enkk.py:939 | `list(collected.values())` lists the stored rows in key insertion order. |
| Store.Tag | scraper_enkk.py:915-916 | Every row of the batch gets `_query` set to the term, in batch order. |
| Store.MergeAllDomain | scraper_enkk.py:914-920 | After the merge, the store holds exactly the old keys and the keys of the batch, so keys only grow. |
| Store.MergeAllWellFormed | scraper_enkk.py:914-920 | The merge keeps the store well formed: keys are distinct and match the stored rows. |
| Store.MergeAllKeys | scraper_enkk.py:914-920 | The old keys keep their order, and the keys of the new rows follow in batch order. |
| Store.MergeAllLastWriteWins | scraper_enkk.py:914-920 | A batch key holds the last batch row with that key. Every other key keeps its old row. |
| Store.FreshAreNew | scraper_enkk.py:914-919 | Every row in `new_unique_rows` is a batch row whose key was not stored before. |
| Store.FreshKeysDistinct | scraper_enkk.py:914-919 | The rows of `new_unique_rows` have pairwise different keys. |
| Store.FreshAreFirst | scraper_enkk.py:914-919 | Every row of `new_unique_rows` is the first batch row with its key. |
| Store.FreshCoverNewKeys | scraper_enkk.py:914-919 | Every batch key not stored before is the key of some row of `new_unique_rows`. |
| Store.MergeRows | scraper_enkk.py:914-920 | The merge loop computes the merged table and `new_unique_rows`. |
| Store.MergeBatch | scraper_enkk.py:914-920 | Tagging each row with the term and merging yields the merged table and `new_unique_rows` of the tagged batch. |
| Store.ColumnUnion | scraper_enkk.py:822-828 | The `seen`-set loop yields the de-duplicated sequence of all column names, row by row. |
| Store.ColumnsOfRows | scraper_enkk.py:822-828 | The CSV columns list every column name of every row exactly once, in the order of first discovery. |
| FileNames.ReplaceRuns | scraper_enkk.py:403 | After `re.sub`, only `\w`, `-` and `.` characters remain, and the text is no longer than before. It is empty exactly when the input is. An allowed first character stays in front of the replacement of the rest. A disallowed first character and the whole run of disallowed characters after it become one underscore, in front of the replacement of the rest. |
| FileNames.SanitizeFilename | scraper_enkk.py:402-404 | The result has 1 to 90 allowed characters and does not start with `.` or `_`. |
| FileNames.SanitizeFilenameKeepsSafe | scraper_enkk.py:402-404 | A name that is already safe and does not end in `.` or `_` is returned unchanged. |
| FileNames.SanitizeFilenameIdempotent | scraper_enkk.py:402-404 | Sanitising a sanitised name that does not end in `.` or `_` changes nothing. |
| FileNames.Prefix | scraper_enkk.py:464 | `s[:n]` is a prefix of s. It has exactly n characters when s is long enough, and it is s itself when s has at most n characters. |
| FileNames.PdfFileName | scraper_enkk.py:457-466 | The artifact name is `<id>_<name>_<digest>.pdf`. The id part is the sanitised registration number, or "id" when there is none. The name part is the sanitised name, or "orvos" when there is none. Both parts are safe file names. The digest is at most ten digits of the hash of the row key joined to the detail address. |
| FileNames.PdfFileNameDeterminedByKey | scraper_enkk.py:457-466 | The artifact name depends on the row only through its key, its registration number and its name. |
| FileNames.QueryIsNoMarker | scraper_enkk.py:458-462 | The `_query` label is neither an identifier column nor a name column. |
| FileNames.FirstValuePutUnmarked | scraper_enkk.py:392-399 | Writing a column with an unmarked label leaves the first marked value unchanged. |
| FileNames.PdfFileNameIgnoresQuery | scraper_enkk.py:457-466 | Tagging a row with its term leaves its artifact name unchanged. |
| Urls.QuotedTokens | scraper_enkk.py:410 | `re.findall` yields non-empty tokens without quote characters. |
| Urls.TokenUrl | scraper_enkk.py:411-423 | A token yields an address exactly when it qualifies (`Urls.Qualifies`): once stripped it is not empty, "/" or "#", and it either looks absolute and does not resolve to the base page, or does not look absolute and mentions adatlap, pdf or print. The address is the token resolved against the base. |
| Urls.FirstTokenUrl | scraper_enkk.py:411-424 | Returns "" when no token yields an address. Otherwise it returns the address of the first token that yields one. |
| Urls.ExtractUrlFromJs | scraper_enkk.py:407-424 | An empty handler, or one with no qualifying quoted token, yields "". Otherwise the result is the first qualifying token resolved against the base. |
| Urls.ExtractUrlFromJsResolvesAToken | scraper_enkk.py:407-424 | The result is "" or the resolution of one of the handler's quoted tokens. |
| Urls.IsUselessDetailUrl | scraper_enkk.py:427-436 | An address is useless exactly when, once stripped, it is empty, "/" or "#", or resolves to the base page. |
| Urls.DetailUrlFromRow | scraper_enkk.py:439-454 | A usable captured address wins. Failing that, a usable link that is not a `javascript:` link wins, resolved against the base. When neither is usable, the onclick handler decides. |
| Urls.DetailUrlFromHintsOnly | scraper_enkk.py:439-454 | Only the three hint columns decide the detail address. |
| Urls.DetailUrlFromRowSources | scraper_enkk.py:439-454 | A non-empty detail address is the captured address, the resolved link, or a resolved token of the onclick handler. |
| Retrieval.TryLinks | scraper_enkk.py:701-704 | Links are fetched in order up to the first one accepted. The loop succeeds exactly when some link is accepted, and fetches all links when none is. |
| Retrieval.ExtractPdfFromDetailPage | scraper_enkk.py:685-722 | A page that does not look like a detail page is refused with no action. The attempt succeeds exactly when its reason is one of the four success tags. |
| Retrieval.ExtractPdfAt | scraper_enkk.py:692-722 | The same as `ExtractPdfFromDetailPage`, for a given normalised page address. |
| Retrieval.RunTiersFirstSuccess | scraper_enkk.py:695-722 | A tier list run in order succeeds exactly when some tier succeeds. It then reports the tag of the first successful tier, and otherwise the exhausted reason. |
| Retrieval.RunTiersOverLinks | scraper_enkk.py:701-704 | Running the link tiers is the link loop: the first accepted link wins, and otherwise the later tiers run after all the fetches. |
| Retrieval.RunLastTiers | scraper_enkk.py:706-722 | The print control is tried next, and then the page print, if it is enabled and the page still qualifies. |
| Retrieval.ExtractPdfAtFollowsTiers | scraper_enkk.py:692-722 | On a detail page, the retrieval equals the tier list run in order. |
| Retrieval.ExtractPdfFollowsTierOrder | scraper_enkk.py:685-722 | On any page, `extract_pdf_from_open_detail_page` equals the reference tier-list retrieval: the same success, reason and actions. |
| Retrieval.NotOpenedReason | scraper_enkk.py:682 | A click that opens nothing always reports a non-empty reason. |
| Retrieval.OpenAndRetrieve | scraper_enkk.py:737-780 | A tab is opened exactly when there is a detail address, and otherwise the row goes to the results-row opener. A tab the attempt opened is closed at the end. A browser error reports failure with `playwright_hiba`. A PDF response to the navigation reports success with `kozvetlen_pdf`. A click that opens nothing reports failure with its own reason. Any other opened page reports the success and reason of the retrieval from that page. |
| Retrieval.DownloadPdfForRow | scraper_enkk.py:725-780 | An artifact already present gives `(true, "letezik")` with no action. Otherwise the attempt is `OpenAndRetrieve` on the row's detail address and browser behaviour, so its per-case outcome applies. The first action opens a tab on the detail address when there is one, and otherwise hands the row to the results-row opener. A tab opened first is closed last. |
| Retrieval.DownloadPdfForRowIdempotent | scraper_enkk.py:732-735 | After a successful attempt, a second attempt for the same row finds the file and does nothing else. |
| Retrieval.RowClickCleansUp | scraper_enkk.py:772-780 | A popup is closed and a same-tab navigation is undone. A click that opens nothing fails after the click alone. |
| Retrieval.TallyAllCounts | scraper_enkk.py:795-812 | Every attempted row adds one to exactly one of the two counters, and files are only added. |
| Retrieval.TallyAllLaterRowFindsFile | scraper_enkk.py:795-802 | Within one batch, once a row's artifact has been retrieved, a later row of the batch with the same artifact gets `(true, "letezik")` and performs no action. |
| Retrieval.SelectedRows | scraper_enkk.py:793 | The selection is the first `max_per_query` rows when the limit is positive, and all rows otherwise. |
| Retrieval.DownloadPdfsForRows | scraper_enkk.py:783-812 | The loop makes one attempt per selected row, in order. The counters add up to the number of selected rows and stay within the limit, and files are only added. |
| Explorer.DefaultsRetrieveNothing | scraper_enkk.py:996-1006 | With the default settings, merging a batch leaves the artifact counters and the artifact directory unchanged. |
| Explorer.Seeds | scraper_enkk.py:846-847 | The initial queue holds each letter as a one-letter term, in alphabet order. |
| Explorer.Expansions | scraper_enkk.py:904-905 | The extensions of a term are the term plus each letter, in alphabet order. |
| Explorer.Absorb | scraper_enkk.py:914-933 | Keeping a term's rows merges the tagged batch into the store and leaves the queue, the visited set and the overflows alone. The artifact counters grow by the number of selected new rows when downloads are on and there are new rows, and stay put otherwise. |
| Explorer.StepSearchesNewTermsOnly | scraper_enkk.py:863-869 | A term taken up before is dropped without a search. Any other term is marked visited and logged once when taken up, whether or not its search is then submitted. |
| Explorer.StepSliderFails | scraper_enkk.py:873-876 | A new term whose slider stays locked, with the manual slider not allowed, is marked visited and logged. It is then skipped: only the queue, the visited set and the log change, so nothing is merged or reported. |
| Explorer.StepAborts | scraper_enkk.py:868-889 | A new term whose name field is missing (`fill_name` raises, line 86), or whose search cannot be submitted once the slider is passed or may be passed by hand (`click_search` raises, line 180), stops the run with an error. The term is marked visited and logged in the state the run stops in. |
| Explorer.StepExpands | scraper_enkk.py:899-907 | A cut-off term below the depth limit queues its extensions at the back, in alphabet order. The store, the overflows and the counters are unchanged. |
| Explorer.StepOverflows | scraper_enkk.py:899-920 | A cut-off term at the depth limit adds exactly one overflow entry, and its rows are still merged. |
| Explorer.StepAccepts | scraper_enkk.py:899-920 | Complete results are merged, and no overflow is reported. |
| Explorer.InitInv | scraper_enkk.py:843-852 | The crawl starts in the invariant. |
| Explorer.TakingUpShrinks | scraper_enkk.py:865-867 | Taking up a new term shrinks the finite set of terms not yet visited. |
| Explorer.StepPreservesInv | scraper_enkk.py:863-934 | Every loop turn keeps the invariant and makes progress. The invariant: terms have 1 to max(1, max_depth) letters of the alphabet, each taken-up term is logged once, the store is well formed, and overflows are taken-up terms at the depth limit. Progress: a new term is visited, or the queue shrinks. |
| Explorer.RunSpec | scraper_enkk.py:863-934 | The loop terminates, and a run that completes leaves the queue empty. |
| Explorer.RunPreservesInv | scraper_enkk.py:863-934 | Whatever the run ends in satisfies the invariant, so no term is taken up twice and every taken-up term is within the depth bound. |
| Explorer.RunOnlyAdds | scraper_enkk.py:863-934 | The run only adds: to the search log in order, to the visited terms, and to the store's keys. |
| Explorer.StepOnlyAdds | scraper_enkk.py:863-934 | A single loop turn only adds to the search log, the visited terms and the store's keys. |
| Explorer.Crawler.constructor | scraper_enkk.py:843-852 | The crawler starts from the initial crawl state, with downloads off under `--db-only`, and in the invariant. |
| Explorer.Crawler.Merge | scraper_enkk.py:914-920 | The in-place merge updates the ordered store as `MergeAll` does, returns `new_unique_rows`, and changes nothing else. |
| Explorer.Crawler.Expand | scraper_enkk.py:903-907 | The in-place loop appends the extensions to the queue and changes nothing else. |
| Explorer.Crawler.AbsorbRows | scraper_enkk.py:914-933 | The in-place merge and downloads produce the state `Absorb` describes. |
| Explorer.Crawler.HandleResults | scraper_enkk.py:893-933 | Splitting, reporting or keeping a term's results produces the state `Results` describes. |
| Explorer.Crawler.Step | scraper_enkk.py:863-934 | One in-place loop turn produces the state and the failure outcome of `StepSpec`. |
| Explorer.Crawler.Run | scraper_enkk.py:836-940 | The loop reaches the outcome of `RunSpec` and keeps the invariant. A completed run yields the de-duplicated column names of the stored rows in key order. |

## Left out

- The browser: launching it, page navigation, the record-type selection (`maybe_select_record_type`),
  filling the name field, the slider and the results table (`scraper_enkk.py:854-897`). They are the
  oracle `Env.search`. A missing name field or a failed submission stops the run (`Failed`).
- The manual slider wait loop (`scraper_enkk.py:877-887`) is modelled only by its effect: when manual
  solving is allowed, the search goes on whatever the loop observed.
- The pauses, console messages and end-of-run summary (`scraper_enkk.py:869`, `906`, `934`,
  `942-956`), and the interrupt handler (`scraper_enkk.py:1026-1029`).
- Writing the JSON and CSV outputs and the overflow file (`scraper_enkk.py:815-833`, `950-956`). Only
  the column union of `save_outputs` and the final row list are modelled.
- The in-page scripts are oracle values of `DetailView` and `RowClick`:
  - `discover_pdf_links`;
  - `is_probably_detail_page`;
  - `try_click_print_download`;
  - `click_detail_on_results_row`;
  - `open_detail_page_from_results_row`, including its parsing of `_row_index`.
- A browser error raised inside an opened detail page, which the code reports as `playwright_hiba`.
  In the model, only navigation and the row click can fail that way.
- File contents and directories. The artifact directory is the set of file names present, and a
  successful attempt adds its destination.
- SHA-1 and `urljoin` are parameters (`Site.sha1Hex`, `Site.join`). So are the oracles the crawler
  is given.
- `str.casefold` and the `\w` class are modelled for ASCII, Latin-1 and Latin Extended-A only. Other
  characters are treated as already folded and as non-word characters.
- The registration number that `download_pdfs_for_rows` looks up only for its log line
  (`scraper_enkk.py:803-805`).
- FileNames.SanitizeFilenameIdempotent: stated only for results that do not end in `.` or `_`. Cutting
  to 90 characters can leave one of those at the end, and a second pass then strips it.
- The record key is a parameter: the merge and the crawl are stated for any key function, not only
  `row_key`. The `Crawler` constructor fixes the key to `Rows.RowKey`. It also fixes the per-row retrieval to
  `Retrieval.DownloadPdfForRow` and the destination to `Retrieval.Destination`.
