# NHK news ingestion: a Dafny model

The repository keeps a small local store of NHK news articles and analyses
their vocabulary by JLPT level. This project models its core and proves
properties about it:

- **sync_news.py**: the sync run. It fetches the article list, loads the
  stored articles and fetches every listed article not stored yet. It adds
  the ones that returned content, keeps the fifteen newest by timestamp and
  writes the store back.
- **backend/crawl.py**: turning feed entries into article descriptors, the
  two consent gates in front of an article, and the paragraph extraction.
- **app/analyzer.py**: counting the vocabulary rows that occur among a
  text's tokens, per level N1..N5.
- **app.py**: level normalisation and clean-up of the vocabulary table, and
  the choice between stored paragraphs and a fresh fetch.

Each file is one module:

| file | module | what it holds |
|---|---|---|
| `wrappers.dfy` | `Wrappers` | `Option` (Python's `None` or a value) |
| `text.dfy` | `Text` | `str.strip`, `upper`, `lower`, `startswith`, `split('/')[-1]`, `replace(pat, '')` |
| `crawl.dfy` | `Crawl` | the list fetch, the gates, the extraction |
| `sync.dfy` | `Sync` | the store, the merge loop, the sort-and-trim, the whole run |
| `analyzer.dfy` | `Analyzer` | the level counts |
| `app.dfy` | `App` | `format_level`, `load_vocab`, content choice |

## How the outside world is represented

- **The store.** A Python dict iterates in insertion order. When timestamps
  tie, that order decides which records survive the trim, because Python's
  `sorted` is stable. So the store is a sequence of `Entry(key, rec)` with
  distinct keys.
  - `json.load` is `FromPairs`: the pairs of the file are put in file order.
  - `sorted(..., reverse=True)` is a stable insertion sort, newest first.
- **The store file.** It is `Missing`, `Unparseable`, or `Saved(pairs)`.
  Writing it yields `Saved(kept)`.
- **The article fetcher.** It is a function `(n, url) -> paragraphs`, where
  `n` is the call number within the run. A later call for the same url may
  answer differently.
- **The clock.** It is a function `n -> int`: the reading taken for the
  n-th article added in the run.
- **A feed response.** It is unreachable (any exception), or a status with
  a body that is undecodable or decoded into its optional `channel` and
  `item` parts. Each entry of `item` is an object, with its `id`, `title`
  and `link` (the link absent, a string, `null` or another value), or some
  other JSON value.
- **The browser.** It is reduced to answers:
  - whether it launches;
  - whether the page opens;
  - gate A: what the bounded probe says and whether the clicks go through;
  - gate B: a function `(locator, round) -> Visible | Hidden | ProbeError`, where rounds 0-4 are the scroll rounds and round 5 is the probe after the jump to the bottom;
  - whether the forced click goes through;
  - whether the markup is captured;
  - the texts of the matched `p`/`h3` nodes, in document order.
- **The tokenizer.** Its output for the text is an input of
  `AnalyzeJlptLevel`.
- **The vocabulary CSV.** It is `Unreadable` or a frame of column names and
  rows. Each cell is taken as `astype(str)` renders it. A missing cell reads
  as `"nan"`.

## Behaviour kept as the code has it

- **A feed entry whose object has no `link` member is kept.** Its url is the
  bare prefix (backend/crawl.py:30-32, `Crawl.DescribeMissingLink`). A
  `null` or non-string link, or an entry that is not an object, raises
  inside the `try`. The whole list then comes back empty
  (backend/crawl.py:44-46, `Crawl.DescribeRaisesIff`, `Crawl.FetchNhkNews`),
  and the sync run stops there.
- **Every `.html` in the last segment of a link is removed**, not only a
  trailing one (backend/crawl.py:31, `Crawl.DescribeRemovesEveryHtml`).
- **The politeness delay follows each successful insert only**
  (sync_news.py:46). The model does not represent the sleep itself. The
  run sleeps once per article added, and `newCount` counts exactly those
  (`Sync.MergeExtends`).
- **The store file is written by opening it for writing and dumping into
  it** (sync_news.py:53-54). The model does not represent the write
  itself: the file afterwards is `Saved(kept)`.
- **Extraction reads the markup as captured.** Nothing is removed from the
  page first (backend/crawl.py:151-158).
- **Ties at the trim are broken by dict order.** When timestamps tie at the
  fifteenth place, the earlier entry in the dict survives.
  `Sync.SortByTimeDescStable` states this.

## Model

| member | source | states |
|---|---|---|
| Crawl.FeedItems | backend/crawl.py:23-42 | the entries of `channel.item` of a decoded 200 response; no entries for another status or a missing `channel` or `item` |
| Crawl.LinkString | backend/crawl.py:30-31 | `item.get('link', '')` as `split` takes it: an absent link is the empty string; a `null` or non-string link is where `split` raises (None) |
| Crawl.LinkId | backend/crawl.py:31 | `full_id`: the link's last '/'-segment with every `.html` removed |
| Crawl.Describe | backend/crawl.py:29-38 | one entry's descriptor: its id and title, and the prefix followed by the link's last segment with every `.html` removed; None where `.get` or `.split` raises |
| Crawl.FetchNhkNews | backend/crawl.py:20-46 | when every entry yields a descriptor: exactly one descriptor per entry, in feed order, none skipped; when one entry raises (not an object, `null` or non-string link): the empty list for the whole feed |
| Crawl.FailedListIsEmpty | backend/crawl.py:40-46 | an unreachable feed, a status other than 200 or an undecodable body gives no descriptors |
| Crawl.DescribeRaisesIff | backend/crawl.py:29-31 | building a descriptor raises exactly for an entry that is not an object or whose link is `null` or not a string |
| Crawl.DescribeUrlShape | backend/crawl.py:30-32 | every url built is the fixed `https://news.web.nhk/newsweb/na/na-` prefix followed by a string without '/' |
| Crawl.DescribeUsualLink | backend/crawl.py:30-38 | for a link `.../<id>.html` where `<id>` holds neither '/' nor '.', the descriptor carries the entry's id and title and the prefix followed by exactly `<id>` |
| Crawl.DescribeRemovesEveryHtml | backend/crawl.py:31 | in a last segment `<a>.html<b>` with no '.' in `<a>`, the id is `<a>` followed by `<b>` with every `.html` removed |
| Crawl.DescribeMissingLink | backend/crawl.py:30-38 | an object entry without a `link` member is kept, with the bare prefix as url |
| Crawl.ProbeRound | backend/crawl.py:123-128 | a round picks the text locator iff it is visible, the class locator iff the text one is hidden and the class one visible, and sees nothing iff both are hidden |
| Crawl.SearchFrom | backend/crawl.py:122-138 | the search stops at the first round with a visible locator, every earlier round having shown nothing; a class-locator find means the text locator was hidden in that round; nothing is found iff all six probes show nothing |
| Crawl.GateB | backend/crawl.py:134-149 | the gate-B outcome of a search: the found locator clicked (confirmed, or the click failed), absent when nothing is found, probe failed when a probe raises |
| Crawl.SecondGate | backend/crawl.py:114-149 | the loop's outcome is the specified gate-B outcome, and it scrolls the wheel at most five times, once per empty round |
| Crawl.GateA | backend/crawl.py:100-112 | gate A passes iff its button shows and every click succeeds; it is reported absent iff the probe says hidden; every failure is absorbed |
| Crawl.NoGateMeansAbsent | backend/crawl.py:122-138 | with no button anywhere, all five scroll rounds and the final probe run and the gate is absent |
| Crawl.TextLocatorPreferred | backend/crawl.py:123-138 | when the text locator is visible in the deciding round, it is the one clicked |
| Crawl.Paragraphs | backend/crawl.py:158 | the texts of the matched nodes in document order, each stripped, the empty ones dropped |
| Crawl.KeepNonEmptyMember | backend/crawl.py:158 | the comprehension's filter keeps exactly the non-empty texts and adds none |
| Crawl.ParagraphsClean | backend/crawl.py:158 | at most one paragraph per node; every paragraph is non-empty and equal to its own strip |
| Crawl.ParagraphsMember | backend/crawl.py:158 | a string is a paragraph iff it is non-empty and is the strip of some node's text |
| Crawl.ParagraphsAppend | backend/crawl.py:158 | extraction keeps document order: it distributes over concatenation of node runs |
| Crawl.ParagraphsIdempotent | backend/crawl.py:158 | extracting from extracted paragraphs changes nothing |
| Crawl.FetchArticleFullText | backend/crawl.py:48-162 | the paragraphs are the extraction of the matched nodes whenever the browser launches, the page opens and the markup is captured, whatever the gates did; otherwise empty; the trace records both gates' outcomes iff the page was opened |
| Text.IsSpace | backend/crawl.py:158 | the characters Python's `str.isspace()` accepts, which `strip()` removes: tab through carriage return, the separators U+001C..U+001F, space, U+0085, U+00A0, U+1680, U+2000..U+200A, U+2028, U+2029, U+202F, U+205F and U+3000 |
| Text.Strip | backend/crawl.py:158 | `str.strip()`: the result has no white space at either end |
| Text.StripSpec | backend/crawl.py:158 | the strip is the middle of the input, between an all-space head and an all-space tail |
| Text.StripOfStripped | backend/crawl.py:158 | a string with no white space at either end is its own strip |
| Text.StripIdempotent | backend/crawl.py:158 | stripping twice is stripping once |
| Text.StripEmptyIff | backend/crawl.py:158 | a text strips to empty iff it is all white space |
| Text.LastSegment | backend/crawl.py:31 | `split('/')[-1]`: the characters after the last '/', or the whole string when it has none |
| Text.LastSegmentSpec | backend/crawl.py:31 | `split('/')[-1]` has no '/', is a suffix of the link, and is preceded by '/' unless it is the whole link |
| Text.RemoveAll | backend/crawl.py:31 | `replace(pat, '')`: scanning left to right, each non-overlapping occurrence of `pat` deleted; never longer than its input |
| Text.RemoveAllAbsent | backend/crawl.py:31 | `replace('.html', '')` leaves a string without `.html` unchanged |
| Text.RemoveAllSuffix | backend/crawl.py:31 | `replace('.html', '')` on `x + ".html"`, where `x` has no '.', gives `x` |
| Text.RemoveAllSkipsMatch | backend/crawl.py:31 | `replace(pat, '')` keeps a stretch without `pat`'s first character, drops the match after it, and goes on with the rest |
| Text.StartsWith | app.py:65 | `str.startswith`: the string begins with the prefix |
| Text.Upper | app.py:64 | `str.upper()` on ASCII: same length, each lower-case letter mapped to its capital, every other character unchanged |
| Text.Lower | app.py:45 | `str.lower()` on ASCII: same length, each capital mapped to its lower-case letter, every other character unchanged |
| Text.UpperKeepsStripped | app.py:58-67 | upper-casing a stripped string keeps it stripped |
| Sync.Put | sync_news.py:27 | a dict assignment adds exactly its key, keeps keys distinct, binds the key to the new record, leaves every other entry unchanged in its place, and grows the store only for a new key |
| Sync.FromPairs | sync_news.py:27 | a loaded store has distinct keys |
| Sync.FromDistinctPairs | sync_news.py:27 | a file with distinct keys (as every file the run writes) loads back entry for entry, in order |
| Sync.Load | sync_news.py:23-29 | a missing or unparseable file gives the empty store and no error |
| Sync.IdKey | sync_news.py:34 | `str(row['id'])`: the id itself, or "None" for a missing id |
| Sync.Visit | sync_news.py:34-46 | one pass of the loop: a stored id changes nothing; otherwise the fetcher is called once, and non-empty content becomes a new last record with the row's title and url and the clock reading, counted as one more new article |
| Sync.MergeRows | sync_news.py:33-46 | the loop: one pass per list row, in list order |
| Sync.MergeExtends | sync_news.py:32-46 | the loop only appends: stored records stay unchanged and in place, keys stay distinct, `new_count` is the number of records added, at most one fetch per row |
| Sync.MergeSkipsStored | sync_news.py:34-37 | the fetcher is never called for an id that was stored when the loop began |
| Sync.MergeAddsFetched | sync_news.py:37-45 | every added record comes from a list row whose id was not stored: title and url are the row's, content is what that fetcher call returned and is non-empty, timestamp is the clock reading for it |
| Sync.MergeCoversRows | sync_news.py:33-45 | after the loop every row's id is stored, or the fetcher was called this run for that id with the row's url and returned nothing: a fetch that returns content is never dropped |
| Sync.MergeOfStoredRows | sync_news.py:33-35 | rows whose ids are all stored change nothing and fetch nothing |
| Sync.InsertByTime | sync_news.py:49 | one insertion step of the sort: one entry longer, headed by the new entry or by the old head |
| Sync.InsertByTimePermutes | sync_news.py:49 | an insertion step is a permutation of the list plus the new entry |
| Sync.SortByTimeDesc | sync_news.py:49 | the sort is a permutation, newest first |
| Sync.SortByTimeDescStable | sync_news.py:49 | the sort is stable: entries sharing a timestamp keep their dict order |
| Sync.SortOfSorted | sync_news.py:49 | sorting a newest-first store changes nothing |
| Sync.SortKeepsDistinct | sync_news.py:49-50 | sorting keeps keys distinct |
| Sync.Retain | sync_news.py:49-50 | the first min(15, n) entries of the newest-first sort |
| Sync.RetainNewest | sync_news.py:49-50 | the trim keeps min(15, n) entries, newest first, all taken from the merged store |
| Sync.RetainDropsOlder | sync_news.py:49-50 | each entry the trim drops is no newer than each entry it keeps |
| Sync.RetainDistinct | sync_news.py:49-50 | the trim keeps keys distinct |
| Sync.RetainOfSorted | sync_news.py:49-50 | a newest-first store of at most fifteen entries is kept as it is |
| Sync.Sync | sync_news.py:12-56 | the whole run: an empty list ends it with the file untouched; otherwise the store is loaded, merged with the list and trimmed, the kept entries are written, and the new count and total are reported |
| Sync.RunSync | sync_news.py:12-56 | the run computes the specified outcome; an empty list aborts and leaves the file untouched; otherwise at most fifteen records are written and the reported total is their number |
| Sync.SyncWritesValidStore | sync_news.py:32-54 | a completed run writes min(15, old + new) records with distinct keys, newest first, and fetches at most once per row |
| Sync.RerunIsNoop | sync_news.py:33-54 | a rerun over rows whose ids are all in a store this code wrote fetches nothing, adds nothing, and writes the store back unchanged |
| Sync.SecondRunIsNoop | sync_news.py:12-56 | after a run that stored every listed article, a second run over the same list (any fetcher, any clock) changes nothing |
| Sync.SyncKeepsContent | sync_news.py:37-50 | if every stored article had content before a run, every article has content after it |
| Analyzer.Matches | app/analyzer.py:42 | a row is kept iff its word is one of the tokens; no row is invented |
| Analyzer.CountLevel | app/analyzer.py:45 | `value_counts` for one level, with the `reindex` fill: the number of rows carrying that level, 0 when none does; never more than the rows |
| Analyzer.AnalyzeJlptLevel | app/analyzer.py:31-46 | the result is indexed by exactly N1..N5 in order; empty text or an empty table gives all zeros |
| Analyzer.CountMatchesIsCard | app/analyzer.py:42-45 | the count of a level over the matched rows is the number of table rows with that level whose word is a token |
| Analyzer.CountIsMatchingRows | app/analyzer.py:42-45 | the reported count for each of N1..N5 is the number of table rows with that level whose word is a token |
| Analyzer.TokenSetOnly | app/analyzer.py:36-45 | token sequences with the same members give the same counts |
| Analyzer.RepeatedTokenIgnored | app/analyzer.py:36-45 | a repeated token changes no count |
| Analyzer.OutOfRangeLevelIgnored | app/analyzer.py:44-45 | appending a row whose level is outside N1..N5 to the vocabulary changes no count |
| Analyzer.LevelCountsPartition | app/analyzer.py:45 | the five level counts add up to the number of rows whose level is in N1..N5 |
| Analyzer.TotalBounded | app/analyzer.py:42-45 | the counts add up to the matched rows with a level in N1..N5, never more than the table size |
| App.FormatLevel | app.py:63-65 | a normalised level starts with 'N' and has no lower-case letter |
| App.FormatLevelUnchangedIff | app.py:63-65 | the level is returned as its upper-cased self iff that starts with 'N', and otherwise as that upper-cased self behind an 'N' |
| App.FormatLevelExamples | app.py:61-65 | "1", "n1" and "N1" all become "N1" |
| App.FormatLevelIdempotent | app.py:63-65 | normalising twice is normalising once |
| App.FormatLevelKeepsStripped | app.py:59-67 | a stripped level stays stripped after normalisation |
| App.CleanColumns | app.py:45 | every column name stripped and lower-cased |
| App.RenameLevel | app.py:51 | every column named "jlptlevel" renamed "level", the others kept |
| App.ColumnsUsable | app.py:49-59 | "word" and "jlptlevel" are both present, and after the rename exactly one column is "word" and exactly one "level"; with two, the string accessor at lines 58-59 raises and the table comes back empty |
| App.Normalize | app.py:58-67 | each row's word stripped, and its level stripped and then put through format_level; a missing cell reads as "nan" |
| App.DropDuplicateWords | app.py:70 | the first row carrying each word, in table order |
| App.DropDuplicateWordsSpec | app.py:70 | after dropping duplicates every word occurs once, no word is lost, and the row kept is the first row with that word |
| App.InTableOrder | app.py:70 | the kept rows' words all occur in the table, and their first positions in the table ascend |
| App.DropDuplicateWordsInOrder | app.py:70 | the rows kept by dropping duplicates stay in table order |
| App.LoadVocab | app.py:35-76 | the table has distinct, stripped words and stripped levels starting with 'N'; its words are those of the cleaned table, each with its first row, kept in table order; an unreadable CSV, or a missing or duplicated word or level column, gives the empty table |
| App.ChooseParagraphs | app.py:100-108 | the fetcher is called iff there is no non-empty stored content; stored content is shown as-is; a fetch that returns shows its paragraphs; a fetch that raises shows nothing |
| App.SyncedArticleNeedsNoFetch | app.py:99-101 | an article a sync run wrote is shown from the store without a fetch, when the store it started from had content everywhere |

## Left out

- Network, filesystem and browser I/O are not modelled. This covers urllib, the request headers and timeout, `json.loads`, `open`, `json.dump`, `os.makedirs`, Playwright launch options, the stealth script, `page.content()` and BeautifulSoup selection. They enter as the inputs described above.
- The self-repair installs (backend/crawl.py:66-73, app/analyzer.py:7-25) are reduced to whether the browser launches. The tokenizer loads outside the model.
- `time.sleep` and the page waits are not modelled: they only delay.
- `time.time()` returns float seconds; the model uses integer readings from the clock function.
- The log lines (`print`, `st.error`) are not modelled.
- Text.Upper, Text.Lower: ASCII letters only. Python case-maps all of Unicode, e.g. full-width letters.
- `LoadVocab` does not model pandas type inference. Cells come as `astype(str)` renders them, so numeric words such as `1` vs `1.0` and strings read as NaN are taken as given. Column names come as `read_csv` returns them, with exact duplicates already renamed `x.1`.
- Line 39 of app/analyzer.py is not modelled. It writes `astype(str)` of the word column back into the caller's table, and that changes nothing when the words are already strings, as they are here.
- A store file whose JSON is not an object, or whose records lack a `timestamp`, is not modelled. Both make the Python run raise after loading.
- A feed whose top level or `channel` is not an object, or whose `item` is not a list, is not modelled. The code returns the empty list for it all the same: a `get` or the iteration raises inside the `try`, or an empty `item` leaves nothing to iterate over.
- Feed ids are taken as strings or missing. A numeric id would print through `str` differently.
- Stored `content` that pandas fills as NaN (some records with content, this one without) is not modelled.
- The page layout is not modelled: `load_data`, the title selection, the per-paragraph translation (app/translator.py is not part of this model), the pie chart, the N3-and-up ratio and the custom-text mode are UI or floating point.
- Crawl.GateA: the first-tier clicks (next, region choice, start service) are one success flag, not a step-by-step sequence.
