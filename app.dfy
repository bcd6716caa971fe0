/**
 * The pieces of app.py that are logic rather than page layout: the level
 * normalisation and clean-up of the downloaded vocabulary table (load_vocab)
 * and the choice between an article's stored paragraphs and a fresh fetch.
 */
module App {
  import opened Wrappers
  import opened Text
  import opened Analyzer
  import Sync

  // ---------------------------------------------------------------------------
  // format_level
  // ---------------------------------------------------------------------------

  /** format_level: upper-case the level and put an "N" in front unless it starts with one. */
  function FormatLevel(lv: string): (r: string)
    ensures StartsWith(r, "N")
    ensures forall i :: 0 <= i < |r| ==> !IsLowerAscii(r[i])
  {
    var u := Upper(lv);
    if StartsWith(u, "N") then u else "N" + u
  }

  /**
   * The level comes back as its upper-cased self exactly when that already
   * starts with "N"; otherwise it is that upper-cased self behind an "N".
   */
  lemma FormatLevelUnchangedIff(lv: string)
    ensures FormatLevel(lv) == Upper(lv) <==> StartsWith(Upper(lv), "N")
    ensures !StartsWith(Upper(lv), "N") ==> FormatLevel(lv) == "N" + Upper(lv)
  {
    if !StartsWith(Upper(lv), "N") {
      assert |FormatLevel(lv)| == |Upper(lv)| + 1;
    }
  }

  /** The two spellings the vocabulary files use besides "N1" both become "N1". */
  lemma FormatLevelExamples()
    ensures FormatLevel("1") == "N1"
    ensures FormatLevel("n1") == "N1"
    ensures FormatLevel("N1") == "N1"
  {
    var a, b, c := Upper("1"), Upper("n1"), Upper("N1");
    assert a[0] == '1';
    assert b[0] == 'N' && b[1] == '1';
    assert c[0] == 'N' && c[1] == '1';
    assert a == "1" && b == "N1" && c == "N1";
  }

  /** A string without lower-case letters is its own upper-case form. */
  lemma UpperOfUpper(s: string)
    requires forall i :: 0 <= i < |s| ==> !IsLowerAscii(s[i])
    ensures Upper(s) == s
  {
    assert forall i :: 0 <= i < |s| ==> Upper(s)[i] == s[i];
  }

  /** Normalising a normalised level changes nothing. */
  lemma FormatLevelIdempotent(lv: string)
    ensures FormatLevel(FormatLevel(lv)) == FormatLevel(lv)
  {
    UpperOfUpper(FormatLevel(lv));
  }

  /** A level without surrounding white space keeps none after normalisation. */
  lemma FormatLevelKeepsStripped(lv: string)
    requires IsStripped(lv)
    ensures IsStripped(FormatLevel(lv))
  {
    var u := Upper(lv);
    UpperKeepsStripped(lv);
    if !StartsWith(u, "N") {
      var r := "N" + u;
      assert r[0] == 'N';
      if u != [] {
        assert r[|r| - 1] == u[|u| - 1];
      }
    }
  }

  // ---------------------------------------------------------------------------
  // load_vocab
  // ---------------------------------------------------------------------------

  /**
   * The downloaded CSV as read_csv returns it: unreadable (network or parse
   * failure), or a frame with its column names and its rows of cells, each
   * cell as `astype(str)` renders it.
   */
  datatype Csv = Unreadable | Frame(columns: seq<string>, rows: seq<seq<string>>)

  /** `df.columns.str.strip().str.lower()` */
  function CleanColumns(cols: seq<string>): seq<string> {
    seq(|cols|, i requires 0 <= i < |cols| => Lower(Strip(cols[i])))
  }

  /** `df.rename(columns={'jlptlevel': 'level'})` on the column names. */
  function RenameLevel(cols: seq<string>): seq<string> {
    seq(|cols|, i requires 0 <= i < |cols| => if cols[i] == "jlptlevel" then "level" else cols[i])
  }

  /** How many columns carry `name`. */
  function Occurrences(cols: seq<string>, name: string): nat
    decreases |cols|
  {
    if cols == [] then 0 else (if cols[0] == name then 1 else 0) + Occurrences(cols[1..], name)
  }

  lemma {:induction false} OccurrencesPositive(cols: seq<string>, name: string)
    ensures Occurrences(cols, name) > 0 <==> name in cols
    decreases |cols|
  {
    if cols != [] {
      OccurrencesPositive(cols[1..], name);
      assert cols == [cols[0]] + cols[1..];
    }
  }

  /** The position of the first column named `name`. */
  function IndexOf(cols: seq<string>, name: string): (i: nat)
    requires name in cols
    ensures i < |cols| && cols[i] == name
    ensures forall j :: 0 <= j < i ==> cols[j] != name
  {
    if cols[0] == name then 0 else 1 + IndexOf(cols[1..], name)
  }

  /** A missing cell (a short row) reads as pandas' NaN does after `astype(str)`. */
  function Cell(row: seq<string>, i: nat): string {
    if i < |row| then row[i] else "nan"
  }

  /**
   * The columns let the clean-up go through: both "word" and "jlptlevel" are
   * present, and after the rename exactly one column is "word" and exactly
   * one is "level" (with two, `df['word']` is a frame, not a column, and the
   * string accessor raises, which ends in the empty table).
   */
  predicate ColumnsUsable(cols: seq<string>) {
    && "word" in cols && "jlptlevel" in cols
    && Occurrences(RenameLevel(cols), "word") == 1
    && Occurrences(RenameLevel(cols), "level") == 1
  }

  lemma LevelColumnPresent(cols: seq<string>)
    requires "jlptlevel" in cols
    ensures "level" in RenameLevel(cols)
  {
    var i :| 0 <= i < |cols| && cols[i] == "jlptlevel";
    assert RenameLevel(cols)[i] == "level";
  }

  /** The word and level columns of each row, stripped, the level normalised. */
  function Normalize(rows: seq<seq<string>>, wi: nat, li: nat): seq<VocabRow> {
    seq(|rows|, k requires 0 <= k < |rows| =>
      VocabRow(Strip(Cell(rows[k], wi)), FormatLevel(Strip(Cell(rows[k], li)))))
  }

  /** The cleaned table of a usable frame, before duplicates are dropped. */
  function CleanTable(csv: Csv): seq<VocabRow>
    requires csv.Frame? && ColumnsUsable(CleanColumns(csv.columns))
  {
    var cols := RenameLevel(CleanColumns(csv.columns));
    LevelColumnPresent(CleanColumns(csv.columns));
    assert "word" in cols by {
      OccurrencesPositive(cols, "word");
    }
    Normalize(csv.rows, IndexOf(cols, "word"), IndexOf(cols, "level"))
  }

  function Words(rows: seq<VocabRow>): set<string> {
    set r | r in rows :: r.word
  }

  ghost predicate DistinctWords(rows: seq<VocabRow>) {
    forall i, j :: 0 <= i < j < |rows| ==> rows[i].word != rows[j].word
  }

  /** The position of the first row with word `w`. */
  function FirstWith(rows: seq<VocabRow>, w: string): (i: nat)
    requires w in Words(rows)
    ensures i < |rows| && rows[i].word == w
    ensures forall j :: 0 <= j < i ==> rows[j].word != w
  {
    if rows[0].word == w then 0
    else
      assert w in Words(rows[1..]) by {
        var r :| r in rows && r.word == w;
        assert r in rows[1..] by {
          assert rows == [rows[0]] + rows[1..];
        }
      }
      1 + FirstWith(rows[1..], w)
  }

  lemma WordsSnoc(rows: seq<VocabRow>, x: VocabRow)
    ensures Words(rows + [x]) == Words(rows) + {x.word}
  {
    forall w | w in Words(rows + [x]) ensures w in Words(rows) + {x.word} {
      var r :| r in rows + [x] && r.word == w;
      if r != x { assert r in rows; }
    }
    forall w | w in Words(rows) ensures w in Words(rows + [x]) {
      var r :| r in rows && r.word == w;
      assert r in rows + [x];
    }
    assert x in rows + [x];
  }

  /** The first row with a word already seen in a prefix is found in that prefix. */
  lemma FirstWithPrefix(init: seq<VocabRow>, x: VocabRow, w: string)
    requires w in Words(init)
    ensures w in Words(init + [x]) && FirstWith(init + [x], w) == FirstWith(init, w)
  {
    WordsSnoc(init, x);
    var rows := init + [x];
    var i := FirstWith(init, w);
    var k := FirstWith(rows, w);
    assert rows[i] == init[i];
    assert k <= i;
    assert init[k] == rows[k];
  }

  /** `drop_duplicates(subset=['word'], keep='first')` */
  function DropDuplicateWords(rows: seq<VocabRow>): (r: seq<VocabRow>)
    decreases |rows|
  {
    if rows == [] then []
    else
      var d := DropDuplicateWords(rows[..|rows| - 1]);
      var last := rows[|rows| - 1];
      if last.word in Words(d) then d else d + [last]
  }

  /**
   * Dropping duplicates keeps one row per word, no word lost, and the row
   * kept for a word is the first row that carries it.
   */
  lemma {:induction false} DropDuplicateWordsSpec(rows: seq<VocabRow>)
    ensures var r := DropDuplicateWords(rows);
            && DistinctWords(r)
            && Words(r) == Words(rows)
            && (forall x :: x in r ==> x.word in Words(rows) && x == rows[FirstWith(rows, x.word)])
    decreases |rows|
  {
    if rows != [] {
      var init := rows[..|rows| - 1];
      var last := rows[|rows| - 1];
      assert rows == init + [last];
      DropDuplicateWordsSpec(init);
      var d := DropDuplicateWords(init);
      WordsSnoc(init, last);
      forall x | x in d ensures x.word in Words(rows) && x == rows[FirstWith(rows, x.word)] {
        FirstWithPrefix(init, last, x.word);
      }
      if last.word !in Words(d) {
        WordsSnoc(d, last);
        forall i, j | 0 <= i < j < |d + [last]| ensures (d + [last])[i].word != (d + [last])[j].word {
          if j == |d| {
            assert d[i] in d;
          }
        }
        forall j | 0 <= j < |init| ensures rows[j].word != last.word {
          assert rows[j] == init[j] && init[j] in init;
        }
        assert FirstWith(rows, last.word) == |init|;
      }
    }
  }

  /** Every row of `r` has a word of `rows`, and their first positions in `rows` ascend. */
  ghost predicate InTableOrder(rows: seq<VocabRow>, r: seq<VocabRow>) {
    && (forall x :: x in r ==> x.word in Words(rows))
    && forall i, j :: 0 <= i < j < |r| ==> FirstWith(rows, r[i].word) < FirstWith(rows, r[j].word)
  }

  /** Appending a row to the table keeps an order found in its prefix. */
  lemma InTableOrderSnoc(init: seq<VocabRow>, last: VocabRow, d: seq<VocabRow>)
    requires InTableOrder(init, d)
    ensures InTableOrder(init + [last], d)
  {
    forall x | x in d ensures x.word in Words(init + [last]) {
      FirstWithPrefix(init, last, x.word);
    }
    forall i, j | 0 <= i < j < |d|
      ensures FirstWith(init + [last], d[i].word) < FirstWith(init + [last], d[j].word)
    {
      assert d[i] in d && d[j] in d;
      FirstWithPrefix(init, last, d[i].word);
      FirstWithPrefix(init, last, d[j].word);
    }
  }

  /** A row whose word is new to the table comes after every row kept from its prefix. */
  lemma InTableOrderAppend(init: seq<VocabRow>, last: VocabRow, d: seq<VocabRow>)
    requires InTableOrder(init, d)
    requires Words(d) == Words(init) && last.word !in Words(init)
    ensures InTableOrder(init + [last], d + [last])
  {
    var rows := init + [last];
    InTableOrderSnoc(init, last, d);
    WordsSnoc(init, last);
    forall j | 0 <= j < |init| ensures rows[j].word != last.word {
      assert rows[j] == init[j] && init[j] in init;
    }
    assert FirstWith(rows, last.word) == |init|;
    forall i | 0 <= i < |d|
      ensures d[i].word in Words(rows) && FirstWith(rows, d[i].word) < |init|
    {
      assert d[i] in d;
      FirstWithPrefix(init, last, d[i].word);
    }
  }

  /** The rows kept stay in table order. */
  lemma {:induction false} DropDuplicateWordsInOrder(rows: seq<VocabRow>)
    ensures InTableOrder(rows, DropDuplicateWords(rows))
    decreases |rows|
  {
    if rows != [] {
      var init := rows[..|rows| - 1];
      var last := rows[|rows| - 1];
      assert rows == init + [last];
      DropDuplicateWordsInOrder(init);
      DropDuplicateWordsSpec(init);
      var d := DropDuplicateWords(init);
      if last.word in Words(d) {
        InTableOrderSnoc(init, last, d);
      } else {
        InTableOrderAppend(init, last, d);
      }
    }
  }

  /**
   * load_vocab, with the download given as its result: clean the column
   * names, give up with an empty table unless the word and level columns
   * are there, strip both columns, normalise the levels and drop repeated
   * words keeping the first.
   */
  method LoadVocab(csv: Csv) returns (vocab: seq<VocabRow>)
    ensures DistinctWords(vocab)
    ensures forall r :: r in vocab ==> IsStripped(r.word) && IsStripped(r.level) && StartsWith(r.level, "N")
    ensures csv.Unreadable? || !ColumnsUsable(CleanColumns(csv.columns)) ==> vocab == []
    ensures csv.Frame? && ColumnsUsable(CleanColumns(csv.columns)) ==>
              var table := CleanTable(csv);
              && Words(vocab) == Words(table)
              && (forall r :: r in vocab ==> r.word in Words(table) && r == table[FirstWith(table, r.word)])
              && InTableOrder(table, vocab)
  {
    if csv.Unreadable? {
      return [];
    }
    var cols := CleanColumns(csv.columns);
    if !("word" in cols && "jlptlevel" in cols) {
      return [];
    }
    cols := RenameLevel(cols);
    if Occurrences(cols, "word") != 1 || Occurrences(cols, "level") != 1 {
      return [];
    }
    LevelColumnPresent(CleanColumns(csv.columns));
    OccurrencesPositive(cols, "word");
    var table := Normalize(csv.rows, IndexOf(cols, "word"), IndexOf(cols, "level"));
    vocab := DropDuplicateWords(table);
    DropDuplicateWordsSpec(table);
    DropDuplicateWordsInOrder(table);
    forall r | r in vocab ensures IsStripped(r.word) && IsStripped(r.level) && StartsWith(r.level, "N") {
      var k := FirstWith(table, r.word);
      var row := csv.rows[k];
      FormatLevelKeepsStripped(Strip(Cell(row, IndexOf(cols, "level"))));
    }
  }

  // ---------------------------------------------------------------------------
  // Stored content or a fresh fetch
  // ---------------------------------------------------------------------------

  /** The outcome of calling the article fetcher: its paragraphs, or an exception. */
  datatype FetchAttempt = Returned(paragraphs: seq<string>) | Raised

  /** The paragraphs shown, and whether the fetcher was called for them. */
  datatype Shown = Shown(paragraphs: seq<string>, fetched: bool)

  /**
   * Non-empty stored content is shown as it is and nothing is fetched;
   * otherwise the fetcher is called, and an exception from it shows nothing.
   * `stored` is None when the table has no content column.
   */
  function ChooseParagraphs(stored: Option<seq<string>>, attempt: FetchAttempt): (s: Shown)
    ensures s.fetched <==> stored == None || stored == Some([])
    ensures !s.fetched ==> s.paragraphs == stored.value
    ensures s.fetched && attempt.Raised? ==> s.paragraphs == []
    ensures s.fetched && attempt.Returned? ==> s.paragraphs == attempt.paragraphs
  {
    if stored.Some? && stored.value != [] then Shown(stored.value, false)
    else
      match attempt
      case Returned(ps) => Shown(ps, true)
      case Raised => Shown([], true)
  }

  /**
   * An article a sync run wrote is shown from the store without a fetch,
   * provided every article in the store the run started from had content.
   */
  lemma SyncedArticleNeedsNoFetch(rows: seq<Sync.Crawl.Descriptor>, file: Sync.StoreFile,
                                  fetch: Sync.Fetcher, clock: Sync.Clock,
                                  e: Sync.Entry, attempt: FetchAttempt)
    requires rows != [] && Sync.AllHaveContent(Sync.Load(file))
    requires e in Sync.Sync(rows, file, fetch, clock).file.pairs
    ensures ChooseParagraphs(Some(e.rec.content), attempt) == Shown(e.rec.content, false)
  {
    Sync.SyncKeepsContent(rows, file, fetch, clock);
  }
}
