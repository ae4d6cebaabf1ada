/** Per-row string transforms of a string column: lower-casing, removal of
    the fixed punctuation set, and splitting a row into whitespace-separated
    words. Strings are sequences of characters; only the ASCII part of case
    mapping is modelled. */
module Text {

  // ---------------------------------------------------------------------
  // Lower-casing (the per-row `row.lower()`)
  // ---------------------------------------------------------------------

  /** An ASCII upper-case letter. */
  predicate IsUpper(c: char) { 'A' <= c <= 'Z' }

  /** A string without upper-case letters. */
  predicate NoUpper(s: string) {
    forall i :: 0 <= i < |s| ==> !IsUpper(s[i])
  }

  /** Case mapping of one character: 'A'..'Z' go to 'a'..'z', everything
      else is kept. */
  function LowerChar(c: char): char {
    if IsUpper(c) then (c as int + 32) as char else c
  }

  /** The lower-case form of a row: as long as the row, and without any
      upper-case letter. */
  function Lower(s: string): (r: string)
    ensures |r| == |s|
    ensures NoUpper(r)
  {
    if s == [] then [] else [LowerChar(s[0])] + Lower(s[1..])
  }

  /** Lower-casing keeps the length, maps each upper-case letter to the
      letter 32 code points above it and keeps every other character. */
  lemma {:induction false} LowerPointwise(s: string)
    ensures |Lower(s)| == |s|
    ensures forall i :: 0 <= i < |s| && IsUpper(s[i]) ==>
      'a' <= Lower(s)[i] <= 'z' && Lower(s)[i] as int == s[i] as int + 32
    ensures forall i :: 0 <= i < |s| && !IsUpper(s[i]) ==> Lower(s)[i] == s[i]
  {
    if s != [] {
      LowerPointwise(s[1..]);
      assert forall i :: 1 <= i < |s| ==> Lower(s)[i] == Lower(s[1..])[i - 1];
    }
  }

  /** A row that has no upper-case letter is left as it is. */
  lemma {:induction false} LowerKeepsLowercase(s: string)
    requires NoUpper(s)
    ensures Lower(s) == s
  {
    LowerPointwise(s);
  }

  /** Lower-casing twice is lower-casing once. */
  lemma {:induction false} LowerIdempotent(s: string)
    ensures Lower(Lower(s)) == Lower(s)
  {
    LowerKeepsLowercase(Lower(s));
  }

  /** The whole column lower-cased row by row. */
  function LowerRows(rows: seq<string>): seq<string> {
    seq(|rows|, i requires 0 <= i < |rows| => Lower(rows[i]))
  }

  /** Lower-casing a column keeps the number of rows and each row's length,
      leaves no upper-case letter, and is idempotent. */
  lemma LowerRowsProperties(rows: seq<string>)
    ensures |LowerRows(rows)| == |rows|
    ensures forall i :: 0 <= i < |rows| ==>
      |LowerRows(rows)[i]| == |rows[i]| && NoUpper(LowerRows(rows)[i])
    ensures LowerRows(LowerRows(rows)) == LowerRows(rows)
  {
    forall i | 0 <= i < |rows|
      ensures |Lower(rows[i])| == |rows[i]| && NoUpper(Lower(rows[i]))
      ensures Lower(Lower(rows[i])) == Lower(rows[i])
    {
      LowerIdempotent(rows[i]);
    }
  }

  // ---------------------------------------------------------------------
  // Punctuation removal (the per-row `replace` loop)
  // ---------------------------------------------------------------------

  /** The fixed punctuation list, as a set of characters. The backslash is
      part of it: in the source's literal the sequence backslash-comma is not
      an escape, so both characters stay. The space is not part of it. */
  function Punctuation(): (p: set<char>)
    ensures '\\' in p && ',' in p
    ensures ' ' !in p
  {
    {
      '!', '(', ')', '-', '[', ']', '{', '}', ';', ':', '\'', '"', '\\', ',',
      '<', '>', '.', '/', '?', '@', '#', '$', '%', '^', '&', '*', '_', '~'
    }
  }

  /** `s` with every character in `cs` deleted and all others kept, in order. */
  function Remove(s: string, cs: set<char>): (r: string)
    ensures |r| <= |s|
  {
    if s == [] then []
    else if s[0] in cs then Remove(s[1..], cs)
    else [s[0]] + Remove(s[1..], cs)
  }

  /** The characters of `cs` that occur in `s`. */
  function Occurring(s: string, cs: set<char>): set<char> {
    set c | c in s && c in cs
  }

  /** A row with all punctuation deleted: no punctuation is left, and the
      row never gets longer. */
  function WithoutPunctuation(s: string): (r: string)
    ensures |r| <= |s|
    ensures forall c :: c in r ==> c !in Punctuation()
  {
    RemoveExcludes(s, Punctuation());
    Remove(s, Punctuation())
  }

  /** No character of `cs` survives removal. */
  lemma {:induction false} RemoveExcludes(s: string, cs: set<char>)
    ensures forall c :: c in Remove(s, cs) ==> c !in cs
  {
    if s != [] {
      RemoveExcludes(s[1..], cs);
    }
  }

  /** Removal deletes only the characters of `cs`: every other character
      keeps its number of occurrences. */
  lemma {:induction false} RemoveContents(s: string, cs: set<char>)
    ensures forall c :: c !in cs ==> multiset(Remove(s, cs))[c] == multiset(s)[c]
  {
    if s != [] {
      RemoveContents(s[1..], cs);
      assert s == [s[0]] + s[1..];
    }
  }

  /** Removal works piece by piece, so the surviving characters keep their
      relative order. */
  lemma {:induction false} RemoveAppend(a: string, b: string, cs: set<char>)
    ensures Remove(a + b, cs) == Remove(a, cs) + Remove(b, cs)
  {
    if a == [] {
      assert a + b == b;
    } else {
      assert (a + b)[1..] == a[1..] + b;
      RemoveAppend(a[1..], b, cs);
    }
  }

  /** Deleting `a` and then `b` is deleting `a + b`. */
  lemma {:induction false} RemoveTwice(s: string, a: set<char>, b: set<char>)
    ensures Remove(Remove(s, a), b) == Remove(s, a + b)
  {
    if s != [] {
      RemoveTwice(s[1..], a, b);
    }
  }

  /** Only the characters that occur in `s` matter to removal. */
  lemma {:induction false} RemoveAgrees(s: string, a: set<char>, b: set<char>)
    requires forall c :: c in s ==> (c in a <==> c in b)
    ensures Remove(s, a) == Remove(s, b)
  {
    if s != [] {
      RemoveAgrees(s[1..], a, b);
    }
  }

  /** A row without any character of `cs` is unchanged by removal. */
  lemma {:induction false} RemoveNothing(s: string, cs: set<char>)
    requires forall c :: c in s ==> c !in cs
    ensures Remove(s, cs) == s
  {
    if s != [] {
      RemoveNothing(s[1..], cs);
    }
  }

  /** Punctuation removal on one row: no punctuation is left, every other
      character keeps its count and order, the row never gets longer,
      a second pass changes nothing, and a row without punctuation is left
      as it is. */
  lemma WithoutPunctuationProperties(s: string)
    ensures forall c :: c in Punctuation() ==> c !in WithoutPunctuation(s)
    ensures forall c :: c !in Punctuation() ==>
      multiset(WithoutPunctuation(s))[c] == multiset(s)[c]
    ensures |WithoutPunctuation(s)| <= |s|
    ensures WithoutPunctuation(WithoutPunctuation(s)) == WithoutPunctuation(s)
    ensures (forall c :: c in s ==> c !in Punctuation()) ==> WithoutPunctuation(s) == s
  {
    var p := Punctuation();
    RemoveContents(s, p);
    RemoveTwice(s, p, p);
    assert p + p == p;
    if forall c :: c in s ==> c !in Punctuation() {
      RemoveNothing(s, p);
    }
  }

  /** The `replace` loop of the source on one row, for a list of characters
      to delete: for each character of the original row that is in the
      list, every occurrence of it is deleted from the row being built
      (`row.replace(ch, "")`). The result is the row without any character
      of the list. */
  method ReplaceEach(row: string, chars: set<char>) returns (r: string)
    ensures r == Remove(row, chars)
  {
    r := row;
    var i := 0;
    assert Occurring(row[..0], chars) == {};
    RemoveNothing(row, {});
    while i < |row|
      invariant 0 <= i <= |row|
      invariant r == Remove(row, Occurring(row[..i], chars))
    {
      var ch := row[i];
      ghost var seen := Occurring(row[..i], chars);
      if ch in chars {
        RemoveTwice(row, seen, {ch});
        r := Remove(r, {ch});
      }
      assert row[..i + 1] == row[..i] + [ch];
      assert Occurring(row[..i + 1], chars) == if ch in chars then seen + {ch} else seen;
      i := i + 1;
    }
    assert row[..i] == row;
    RemoveAgrees(row, Occurring(row, chars), chars);
  }

  /** `rm_punct` on one row: the `replace` loop run with the fixed
      punctuation list yields the row with all punctuation deleted. */
  method RemovePunctuation(row: string) returns (r: string)
    ensures r == WithoutPunctuation(row)
  {
    r := ReplaceEach(row, Punctuation());
  }

  /** The whole column with punctuation removed row by row. */
  function WithoutPunctuationRows(rows: seq<string>): seq<string> {
    seq(|rows|, i requires 0 <= i < |rows| => WithoutPunctuation(rows[i]))
  }

  /** Punctuation removal on a column keeps the number of rows, never
      lengthens a row, and is idempotent. */
  lemma WithoutPunctuationRowsProperties(rows: seq<string>)
    ensures |WithoutPunctuationRows(rows)| == |rows|
    ensures forall i :: 0 <= i < |rows| ==> |WithoutPunctuationRows(rows)[i]| <= |rows[i]|
    ensures WithoutPunctuationRows(WithoutPunctuationRows(rows)) == WithoutPunctuationRows(rows)
  {
    forall i | 0 <= i < |rows|
      ensures |WithoutPunctuation(rows[i])| <= |rows[i]|
      ensures WithoutPunctuation(WithoutPunctuation(rows[i])) == WithoutPunctuation(rows[i])
    {
      WithoutPunctuationProperties(rows[i]);
    }
  }

  // ---------------------------------------------------------------------
  // Words of a row
  // ---------------------------------------------------------------------

  /** ASCII white space: space, tab, line feed, vertical tab, form feed,
      carriage return. */
  predicate IsSpace(c: char) { c == ' ' || '\t' <= c <= '\r' }

  /** Length of the leading run of non-space characters. */
  function RunLength(s: string): (k: nat)
    ensures k <= |s|
    ensures forall i :: 0 <= i < k ==> !IsSpace(s[i])
    ensures k < |s| ==> IsSpace(s[k])
  {
    if s == [] || IsSpace(s[0]) then 0 else 1 + RunLength(s[1..])
  }

  /** The words of a row: its maximal runs of non-space characters, in
      order. Every word is non-empty and holds no white space. */
  function Words(s: string): (r: seq<string>)
    ensures forall k :: 0 <= k < |r| ==> r[k] != [] && forall c :: c in r[k] ==> !IsSpace(c)
    decreases |s|
  {
    if s == [] then []
    else if IsSpace(s[0]) then Words(s[1..])
    else
      var k := RunLength(s);
      [s[..k]] + Words(s[k..])
  }

  /** A run of non-space characters stops at the first space. */
  lemma {:induction false} RunLengthBeforeSpace(a: string, b: string)
    ensures RunLength(a + " " + b) == RunLength(a)
  {
    if a != [] && !IsSpace(a[0]) {
      assert (a + " " + b)[1..] == a[1..] + " " + b;
      RunLengthBeforeSpace(a[1..], b);
    }
  }

  /** One step of `Words` on a row that starts with a word. */
  lemma WordsOfWordStart(s: string)
    requires s != [] && !IsSpace(s[0])
    ensures Words(s) == [s[..RunLength(s)]] + Words(s[RunLength(s)..])
  {
  }

  /** Joining two texts with a space never merges or splits words: the words
      of the joined text are the words of the first followed by those of the
      second. */
  lemma {:induction false} WordsOfJoin(a: string, b: string)
    ensures Words(a + " " + b) == Words(a) + Words(b)
    decreases |a|, 1
  {
    var x := a + " " + b;
    if a == [] {
      assert x[1..] == b;
    } else if IsSpace(a[0]) {
      assert x[1..] == a[1..] + " " + b;
      WordsOfJoin(a[1..], b);
    } else {
      WordsOfJoinAfterWord(a, b);
    }
  }

  /** The case of `WordsOfJoin` where the first text starts with a word: that
      word ends inside the first text, before the joining space. */
  lemma {:induction false} WordsOfJoinAfterWord(a: string, b: string)
    requires a != [] && !IsSpace(a[0])
    ensures Words(a + " " + b) == Words(a) + Words(b)
    decreases |a|, 0
  {
    var x := a + " " + b;
    var k := RunLength(a);
    RunLengthBeforeSpace(a, b);
    assert x[..k] == a[..k];
    assert x[k..] == a[k..] + " " + b;
    calc {
      Words(x);
      { WordsOfWordStart(x); }
      [a[..k]] + Words(a[k..] + " " + b);
      { WordsOfJoin(a[k..], b); }
      [a[..k]] + (Words(a[k..]) + Words(b));
      ([a[..k]] + Words(a[k..])) + Words(b);
      { WordsOfWordStart(a); }
      Words(a) + Words(b);
    }
  }
}
