/** Document-frequency stopword identification over a column of rows.

    A word's proportion is the share of rows whose words include it. The
    potential stopwords for a threshold are the words whose proportion
    exceeds the threshold, paired with that proportion and listed with the
    most prevalent first. */
module Stopwords {
  import opened Text

  /** A potential stopword: a word and the proportion of rows it occurs in. */
  datatype Stopword = Stopword(word: string, proportion: real)

  /** The default threshold of `identify_potential_stopwords`. */
  const DefaultThreshold: real := 0.1

  // ---------------------------------------------------------------------
  // The corpus as one text, and its words
  // ---------------------------------------------------------------------

  /** All rows accumulated into one text, each preceded by a space: the text
      has at least one character per row, and holds every
      character of every row. */
  function Joined(rows: seq<string>): (text: string)
    ensures |text| >= |rows|
    ensures forall i, c :: 0 <= i < |rows| && c in rows[i] ==> c in text
  {
    if rows == [] then "" else Joined(rows[..|rows| - 1]) + " " + rows[|rows| - 1]
  }

  /** The words of every row, row after row. */
  function AllWords(rows: seq<string>): seq<string> {
    if rows == [] then [] else AllWords(rows[..|rows| - 1]) + Words(rows[|rows| - 1])
  }

  /** The words of the accumulated text are exactly the words of the rows,
      in row order: the separating space never glues two rows' words. */
  lemma {:induction false} WordsOfJoined(rows: seq<string>)
    ensures Words(Joined(rows)) == AllWords(rows)
  {
    if rows != [] {
      var n := |rows| - 1;
      WordsOfJoined(rows[..n]);
      WordsOfJoin(Joined(rows[..n]), rows[n]);
    }
  }

  /** The accumulation loop of `identify_potential_stopwords`: every row is
      appended to the text after a space. */
  method JoinRows(rows: seq<string>) returns (text: string)
    ensures Words(text) == AllWords(rows)
    ensures text == Joined(rows)
  {
    text := "";
    var i := 0;
    while i < |rows|
      invariant 0 <= i <= |rows|
      invariant text == Joined(rows[..i])
    {
      assert rows[..i + 1][..i] == rows[..i];
      text := text + " " + rows[i];
      i := i + 1;
    }
    assert rows[..i] == rows;
    WordsOfJoined(rows);
  }

  // ---------------------------------------------------------------------
  // Document frequency
  // ---------------------------------------------------------------------

  /** Number of rows whose words include `w`. A word repeated inside one row
      counts once for that row. */
  function Coverage(rows: seq<string>, w: string): nat {
    if rows == [] then 0
    else Coverage(rows[..|rows| - 1], w) + (if w in Words(rows[|rows| - 1]) then 1 else 0)
  }

  /** No word is in more rows than there are. */
  lemma {:induction false} CoverageAtMostRows(rows: seq<string>, w: string)
    ensures Coverage(rows, w) <= |rows|
  {
    if rows != [] {
      CoverageAtMostRows(rows[..|rows| - 1], w);
    }
  }

  /** A word is in some row exactly when it occurs among the corpus's words. */
  lemma {:induction false} CoveredIffInAllWords(rows: seq<string>, w: string)
    ensures Coverage(rows, w) > 0 <==> w in AllWords(rows)
  {
    if rows != [] {
      CoveredIffInAllWords(rows[..|rows| - 1], w);
    }
  }

  /** The proportion of rows containing `w`, which lies in [0, 1]; zero for
      an empty column. */
  function Proportion(rows: seq<string>, w: string): (p: real)
    ensures 0.0 <= p <= 1.0
  {
    if |rows| == 0 then 0.0
    else
      CoverageAtMostRows(rows, w);
      RatioBounds(Coverage(rows, w) as real, |rows| as real);
      (Coverage(rows, w) as real) / (|rows| as real)
  }

  /** Only words of the corpus have a positive proportion. */
  lemma ProportionPositiveIffWord(rows: seq<string>, w: string)
    ensures Proportion(rows, w) > 0.0 <==> w in AllWords(rows)
  {
    CoverageAtMostRows(rows, w);
    CoveredIffInAllWords(rows, w);
    if |rows| > 0 {
      RatioBounds(Coverage(rows, w) as real, |rows| as real);
    }
  }

  /** A part divided by a positive whole it does not exceed lies in [0, 1],
      and is positive exactly when the part is. */
  lemma RatioBounds(c: real, n: real)
    requires 0.0 < n && 0.0 <= c <= n
    ensures 0.0 <= c / n <= 1.0
    ensures c / n > 0.0 <==> c > 0.0
  {
    var q := c / n;
    assert q * n == c;
    assert (1.0 - q) * n == n - c;
  }

  /** The row-counting loop: how many rows contain `w`. */
  method CountRowsContaining(rows: seq<string>, w: string) returns (count: nat)
    ensures count == Coverage(rows, w)
    ensures count <= |rows|
  {
    count := 0;
    var i := 0;
    while i < |rows|
      invariant 0 <= i <= |rows|
      invariant count == Coverage(rows[..i], w)
    {
      assert rows[..i + 1][..i] == rows[..i];
      if w in Words(rows[i]) {
        count := count + 1;
      }
      i := i + 1;
    }
    assert rows[..i] == rows;
    CoverageAtMostRows(rows, w);
  }

  // ---------------------------------------------------------------------
  // The potential stopword list
  // ---------------------------------------------------------------------

  /** The words of a stopword list, in order. */
  function WordsOf(r: seq<Stopword>): seq<string> {
    seq(|r|, k requires 0 <= k < |r| => r[k].word)
  }

  /** Proportions never increase along the list: most prevalent first. */
  predicate Ranked(r: seq<Stopword>) {
    forall a, b :: 0 <= a < b < |r| ==> r[a].proportion >= r[b].proportion
  }

  /** No word is listed twice. */
  predicate DistinctWords(r: seq<Stopword>) {
    forall a, b :: 0 <= a < b < |r| ==> r[a].word != r[b].word
  }

  /** Every entry pairs a word with its proportion, which exceeds the
      threshold. */
  ghost predicate EntriesAbove(rows: seq<string>, threshold: real, r: seq<Stopword>) {
    forall x :: x in r ==> x.proportion == Proportion(rows, x.word) && x.proportion > threshold
  }

  /** `r` is the potential stopword list of `rows` for `threshold`: every
      entry pairs a word with its proportion, which exceeds the threshold;
      every word whose proportion exceeds the threshold is listed; no word is
      listed twice; and the list is ranked most prevalent first. Every listed
      proportion then lies in (threshold, 1]. */
  ghost predicate IsStopwordList(rows: seq<string>, threshold: real, r: seq<Stopword>)
    ensures IsStopwordList(rows, threshold, r) ==>
      forall k :: 0 <= k < |r| ==> threshold < r[k].proportion <= 1.0
  {
    && EntriesAbove(rows, threshold, r)
    && (forall w :: Proportion(rows, w) > threshold ==> w in WordsOf(r))
    && DistinctWords(r)
    && Ranked(r)
  }

  /** A word is listed exactly when its proportion exceeds the threshold. */
  lemma StopwordListMembers(rows: seq<string>, threshold: real, r: seq<Stopword>, w: string)
    requires IsStopwordList(rows, threshold, r)
    ensures w in WordsOf(r) <==> Proportion(rows, w) > threshold
  {
    if w in WordsOf(r) {
      var k :| 0 <= k < |r| && WordsOf(r)[k] == w;
    }
  }

  /** Two lists for the same column and threshold hold the same entries;
      they can differ only in the order of equally prevalent words. */
  lemma StopwordListsAgree(rows: seq<string>, threshold: real, r1: seq<Stopword>, r2: seq<Stopword>)
    requires IsStopwordList(rows, threshold, r1)
    requires IsStopwordList(rows, threshold, r2)
    ensures forall e :: e in r1 <==> e in r2
  {
    forall e | e in r1
      ensures e in r2
    {
      var k :| 0 <= k < |r1| && r1[k] == e;
      assert e.word in WordsOf(r2);
      var m :| 0 <= m < |r2| && WordsOf(r2)[m] == e.word;
    }
    forall e | e in r2
      ensures e in r1
    {
      var k :| 0 <= k < |r2| && r2[k] == e;
      assert e.word in WordsOf(r1);
      var m :| 0 <= m < |r1| && WordsOf(r1)[m] == e.word;
    }
  }

  /** Raising the threshold can only drop words: every entry of the list for
      the higher threshold is an entry of the list for the lower one. */
  lemma ThresholdMonotone(rows: seq<string>, low: real, high: real,
                          rLow: seq<Stopword>, rHigh: seq<Stopword>)
    requires low <= high
    requires IsStopwordList(rows, low, rLow)
    requires IsStopwordList(rows, high, rHigh)
    ensures forall e :: e in rHigh ==> e in rLow
  {
    forall e | e in rHigh
      ensures e in rLow
    {
      var k :| 0 <= k < |rHigh| && rHigh[k] == e;
      assert e.word in WordsOf(rLow);
      var m :| 0 <= m < |rLow| && WordsOf(rLow)[m] == e.word;
    }
  }

  /** The words of a list with `e` inserted at position `k`. */
  lemma WordsOfInsert(r: seq<Stopword>, e: Stopword, k: nat)
    requires k <= |r|
    ensures WordsOf(r[..k] + [e] + r[k..]) == WordsOf(r)[..k] + [e.word] + WordsOf(r)[k..]
  {
  }

  /** Putting `e` between the entries at least as prevalent and those less
      prevalent keeps the list ranked. */
  lemma InsertKeepsRanked(r: seq<Stopword>, e: Stopword, k: nat)
    requires k <= |r| && Ranked(r)
    requires forall m :: 0 <= m < k ==> r[m].proportion >= e.proportion
    requires forall m :: k <= m < |r| ==> r[m].proportion < e.proportion
    ensures Ranked(r[..k] + [e] + r[k..])
  {
    var s := r[..k] + [e] + r[k..];
    forall a, b | 0 <= a < b < |s|
      ensures s[a].proportion >= s[b].proportion
    {
      if b < k {
        assert s[a] == r[a] && s[b] == r[b];
      } else if b == k {
        assert s[a] == r[a];
      } else if a == k {
        assert s[b] == r[b - 1];
      } else if a < k {
        assert s[a] == r[a] && s[b] == r[b - 1];
      } else {
        assert s[a] == r[a - 1] && s[b] == r[b - 1];
      }
    }
  }

  /** Inserting a word not yet listed keeps the words distinct. */
  lemma InsertKeepsDistinct(r: seq<Stopword>, e: Stopword, k: nat)
    requires k <= |r| && DistinctWords(r)
    requires e.word !in WordsOf(r)
    ensures DistinctWords(r[..k] + [e] + r[k..])
  {
    var s := r[..k] + [e] + r[k..];
    forall a, b | 0 <= a < b < |s|
      ensures s[a].word != s[b].word
    {
      if b < k {
        assert s[a] == r[a] && s[b] == r[b];
      } else if b == k {
        assert s[a] == r[a] && WordsOf(r)[a] == r[a].word;
      } else if a == k {
        assert s[b] == r[b - 1] && WordsOf(r)[b - 1] == r[b - 1].word;
      } else if a < k {
        assert s[a] == r[a] && s[b] == r[b - 1];
      } else {
        assert s[a] == r[a - 1] && s[b] == r[b - 1];
      }
    }
  }

  /** Insert `e` after every entry at least as prevalent, which keeps the
      list ranked and keeps equally prevalent words in the order they were
      met. */
  method InsertRanked(r: seq<Stopword>, e: Stopword) returns (s: seq<Stopword>)
    requires Ranked(r) && DistinctWords(r)
    requires e.word !in WordsOf(r)
    ensures Ranked(s) && DistinctWords(s)
    ensures forall x :: x in s <==> x in r || x == e
    ensures forall w :: w in WordsOf(s) <==> w in WordsOf(r) || w == e.word
    ensures |s| == |r| + 1
  {
    var k := 0;
    while k < |r| && r[k].proportion >= e.proportion
      invariant 0 <= k <= |r|
      invariant forall m :: 0 <= m < k ==> r[m].proportion >= e.proportion
    {
      k := k + 1;
    }
    InsertKeepsRanked(r, e, k);
    InsertKeepsDistinct(r, e, k);
    WordsOfInsert(r, e, k);
    assert r == r[..k] + r[k..];
    assert WordsOf(r) == WordsOf(r)[..k] + WordsOf(r)[k..];
    s := r[..k] + [e] + r[k..];
  }

  /** One step of the ranking loop, for a word met for the first time: count
      the rows containing it and insert it when its proportion exceeds the
      threshold. */
  method ConsiderWord(rows: seq<string>, threshold: real, r: seq<Stopword>, w: string)
    returns (s: seq<Stopword>)
    requires w in AllWords(rows)
    requires Ranked(r) && DistinctWords(r) && EntriesAbove(rows, threshold, r)
    requires w !in WordsOf(r)
    ensures Ranked(s) && DistinctWords(s) && EntriesAbove(rows, threshold, s)
    ensures forall v :: v in WordsOf(s) <==> v in WordsOf(r) || (v == w && Proportion(rows, w) > threshold)
    ensures |s| <= |r| + 1
  {
    var count := CountRowsContaining(rows, w);
    CoveredIffInAllWords(rows, w);
    var p := (count as real) / (|rows| as real);
    if p > threshold {
      s := InsertRanked(r, Stopword(w, p));
    } else {
      s := r;
    }
  }

  /** The potential stopwords of `rows` for `threshold`: the rows are joined
      into one text, each distinct word of it is counted over the rows once,
      and the words above the threshold are inserted into the ranked list. */
  method RankStopwords(rows: seq<string>, threshold: real) returns (r: seq<Stopword>)
    requires 0.0 <= threshold <= 1.0
    ensures IsStopwordList(rows, threshold, r)
    ensures rows == [] ==> r == []
  {
    var text := JoinRows(rows);
    var tokens := Words(text);
    r := [];
    var j := 0;
    while j < |tokens|
      invariant 0 <= j <= |tokens|
      invariant Ranked(r) && DistinctWords(r) && EntriesAbove(rows, threshold, r)
      invariant forall v :: v in WordsOf(r) ==> v in tokens[..j]
      invariant forall m :: 0 <= m < j && Proportion(rows, tokens[m]) > threshold ==>
        tokens[m] in WordsOf(r)
      invariant |r| <= j
    {
      var w := tokens[j];
      if w !in tokens[..j] {
        r := ConsiderWord(rows, threshold, r, w);
      }
      assert tokens[..j + 1] == tokens[..j] + [w];
      j := j + 1;
    }
    forall w | Proportion(rows, w) > threshold
      ensures w in WordsOf(r)
    {
      ProportionPositiveIffWord(rows, w);
      var m :| 0 <= m < |tokens| && tokens[m] == w;
    }
  }
}
