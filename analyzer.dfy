/**
 * The JLPT level analysis of app/analyzer.py: count, for each level N1..N5,
 * the vocabulary rows whose word is among the dictionary forms the tokenizer
 * produced for the text. The tokenizer is not part of this model; its output
 * for the text is an input.
 */
module Analyzer {
  /** The levels reported, in report order. */
  const LevelOrder: seq<string> := ["N1", "N2", "N3", "N4", "N5"]

  /** One row of the vocabulary table. */
  datatype VocabRow = VocabRow(word: string, level: string)

  /** One entry of the result series: a level and its count. */
  datatype LevelCount = LevelCount(level: string, count: nat)

  /** `vocab[vocab['word'].isin(tokens)]`: the rows whose word is a token, in table order. */
  function Matches(vocab: seq<VocabRow>, tokens: seq<string>): (m: seq<VocabRow>)
    ensures |m| <= |vocab|
    ensures forall r :: r in m <==> r in vocab && r.word in tokens
    decreases |vocab|
  {
    if vocab == [] then []
    else
      var init := vocab[..|vocab| - 1];
      var last := vocab[|vocab| - 1];
      assert vocab == init + [last];
      var m := Matches(init, tokens);
      if last.word in tokens then m + [last] else m
  }

  /** `value_counts()[level]`, with 0 for a level that does not occur (the `reindex` fill). */
  function CountLevel(rows: seq<VocabRow>, level: string): (n: nat)
    ensures n <= |rows|
    decreases |rows|
  {
    if rows == [] then 0
    else CountLevel(rows[..|rows| - 1], level) + (if rows[|rows| - 1].level == level then 1 else 0)
  }

  /**
   * analyze_jlpt_level: empty text or an empty table gives zero for every
   * level; otherwise each level of N1..N5 gets the number of matching rows
   * carrying it. `tokens` is the tokenizer's output for `text`.
   */
  function AnalyzeJlptLevel(text: string, vocab: seq<VocabRow>, tokens: seq<string>): (r: seq<LevelCount>)
    ensures |r| == |LevelOrder|
    ensures forall i :: 0 <= i < |r| ==> r[i].level == LevelOrder[i]
    ensures text == [] || vocab == [] ==> forall i :: 0 <= i < |r| ==> r[i].count == 0
  {
    if text == [] || vocab == [] then
      seq(|LevelOrder|, i requires 0 <= i < |LevelOrder| => LevelCount(LevelOrder[i], 0))
    else
      var m := Matches(vocab, tokens);
      seq(|LevelOrder|, i requires 0 <= i < |LevelOrder| => LevelCount(LevelOrder[i], CountLevel(m, LevelOrder[i])))
  }

  /** The positions of the table rows with level `level` whose word is a token. */
  function MatchingRows(vocab: seq<VocabRow>, tokens: seq<string>, level: string): set<nat> {
    set j: nat | j < |vocab| && vocab[j].word in tokens && vocab[j].level == level
  }

  lemma CountLevelSnoc(rows: seq<VocabRow>, x: VocabRow, level: string)
    ensures CountLevel(rows + [x], level) == CountLevel(rows, level) + (if x.level == level then 1 else 0)
  {
    assert (rows + [x])[..|rows|] == rows;
  }

  lemma MatchingRowsSnoc(init: seq<VocabRow>, last: VocabRow, tokens: seq<string>, level: string)
    ensures var hit := last.word in tokens && last.level == level;
            MatchingRows(init + [last], tokens, level)
            == MatchingRows(init, tokens, level) + (if hit then {|init|} else {})
  {
    var v := init + [last];
    forall j: nat | j < |init| ensures v[j] == init[j] { }
    assert v[|init|] == last;
  }

  lemma {:induction false} CountMatchesIsCard(vocab: seq<VocabRow>, tokens: seq<string>, level: string)
    ensures CountLevel(Matches(vocab, tokens), level) == |MatchingRows(vocab, tokens, level)|
    decreases |vocab|
  {
    if vocab != [] {
      var init := vocab[..|vocab| - 1];
      var last := vocab[|vocab| - 1];
      assert init + [last] == vocab;
      CountMatchesIsCard(init, tokens, level);
      MatchingRowsSnoc(init, last, tokens, level);
      if last.word in tokens {
        CountLevelSnoc(Matches(init, tokens), last, level);
      }
      assert |init| !in MatchingRows(init, tokens, level);
    }
  }

  /**
   * The count reported for a level is the number of table rows with that
   * level whose word is one of the tokens.
   */
  lemma CountIsMatchingRows(text: string, vocab: seq<VocabRow>, tokens: seq<string>, i: nat)
    requires text != [] && vocab != [] && i < |LevelOrder|
    ensures AnalyzeJlptLevel(text, vocab, tokens)[i].count == |MatchingRows(vocab, tokens, LevelOrder[i])|
  {
    CountMatchesIsCard(vocab, tokens, LevelOrder[i]);
  }

  lemma {:induction false} MatchesDependOnTokenSet(vocab: seq<VocabRow>, t1: seq<string>, t2: seq<string>)
    requires forall w :: w in t1 <==> w in t2
    ensures Matches(vocab, t1) == Matches(vocab, t2)
    decreases |vocab|
  {
    if vocab != [] {
      MatchesDependOnTokenSet(vocab[..|vocab| - 1], t1, t2);
    }
  }

  /**
   * Only the set of tokens matters: token sequences with the same members
   * (in any order, with any repetition) give the same counts.
   */
  lemma TokenSetOnly(text: string, vocab: seq<VocabRow>, t1: seq<string>, t2: seq<string>)
    requires forall w :: w in t1 <==> w in t2
    ensures AnalyzeJlptLevel(text, vocab, t1) == AnalyzeJlptLevel(text, vocab, t2)
  {
    MatchesDependOnTokenSet(vocab, t1, t2);
  }

  /** A word occurring once more in the text does not change any count. */
  lemma RepeatedTokenIgnored(text: string, vocab: seq<VocabRow>, tokens: seq<string>, k: nat)
    requires k < |tokens|
    ensures AnalyzeJlptLevel(text, vocab, tokens + [tokens[k]]) == AnalyzeJlptLevel(text, vocab, tokens)
  {
    TokenSetOnly(text, vocab, tokens + [tokens[k]], tokens);
  }

  /** A row whose level is not one of N1..N5 contributes to no count. */
  lemma OutOfRangeLevelIgnored(text: string, vocab: seq<VocabRow>, tokens: seq<string>, row: VocabRow)
    requires row.level !in LevelOrder
    ensures AnalyzeJlptLevel(text, vocab + [row], tokens) == AnalyzeJlptLevel(text, vocab, tokens)
  {
    var v := vocab + [row];
    assert v[..|v| - 1] == vocab && v[|v| - 1] == row;
    var m := Matches(vocab, tokens);
    if row.word in tokens {
      forall level | level in LevelOrder ensures CountLevel(m + [row], level) == CountLevel(m, level) {
        CountLevelSnoc(m, row, level);
      }
    }
    if text != [] && vocab == [] {
      forall level | level in LevelOrder ensures CountLevel(Matches(v, tokens), level) == 0 {
        if row.word in tokens {
          CountLevelSnoc([], row, level);
        }
      }
    }
  }

  /** The number of rows whose level is one of N1..N5. */
  function InRange(rows: seq<VocabRow>): (n: nat)
    ensures n <= |rows|
    decreases |rows|
  {
    if rows == [] then 0
    else InRange(rows[..|rows| - 1]) + (if rows[|rows| - 1].level in LevelOrder then 1 else 0)
  }

  lemma {:induction false} LevelCountsPartition(rows: seq<VocabRow>)
    ensures CountLevel(rows, "N1") + CountLevel(rows, "N2") + CountLevel(rows, "N3")
            + CountLevel(rows, "N4") + CountLevel(rows, "N5") == InRange(rows)
    decreases |rows|
  {
    if rows != [] {
      LevelCountsPartition(rows[..|rows| - 1]);
    }
  }

  /**
   * The counts add up to the number of matching rows with a level in
   * N1..N5, hence never to more than the number of table rows.
   */
  lemma TotalBounded(text: string, vocab: seq<VocabRow>, tokens: seq<string>)
    ensures var r := AnalyzeJlptLevel(text, vocab, tokens);
            && r[0].count + r[1].count + r[2].count + r[3].count + r[4].count
               == (if text == [] || vocab == [] then 0 else InRange(Matches(vocab, tokens)))
            && r[0].count + r[1].count + r[2].count + r[3].count + r[4].count <= |vocab|
  {
    LevelCountsPartition(Matches(vocab, tokens));
  }
}
