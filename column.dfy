/** The string column: the current rows, the rows as given at construction,
    and the cached list of potential stopwords. */
module Column {
  import opened Wrappers
  import opened Text
  import opened Stopwords

  /** A cell of the input as the constructor sees it: text, or a value of
      some other type. */
  datatype Cell = Str(text: string) | NonStr

  /** Why construction or indexing failed. */
  datatype Error = NotAString(row: nat) | IndexOutOfRange(index: int)

  /** The constructor's per-row check: every cell must be a string. The
      first cell that is not one aborts construction. */
  method CheckCells(cells: seq<Cell>) returns (r: Result<seq<string>, Error>)
    ensures r.Success? <==> forall i :: 0 <= i < |cells| ==> cells[i].Str?
    ensures r.Success? ==>
      |r.value| == |cells| && forall i :: 0 <= i < |cells| ==> r.value[i] == cells[i].text
    ensures r.Failure? ==>
      && r.error.NotAString?
      && r.error.row < |cells|
      && cells[r.error.row].NonStr?
      && forall i :: 0 <= i < r.error.row ==> cells[i].Str?
  {
    var rows: seq<string> := [];
    var i := 0;
    while i < |cells|
      invariant 0 <= i <= |cells|
      invariant forall k :: 0 <= k < i ==> cells[k].Str?
      invariant |rows| == i && forall k :: 0 <= k < i ==> rows[k] == cells[k].text
    {
      if cells[i].NonStr? {
        return Failure(NotAString(i));
      }
      rows := rows + [cells[i].text];
      i := i + 1;
    }
    return Success(rows);
  }

  class StringColumn {
    /** The current rows, cleaned in place. */
    const data: array<string>
    /** The rows as given at construction. Being a constant, no cleaning step
        can touch them (the source's attribute aliases the working array
        instead, so in-place cleaning would change it too). */
    const originalData: seq<string>
    /** The result of the last stopword identification, if any. */
    var potentialStopwords: Option<seq<Stopword>>

    /** The column never gains or loses rows. */
    ghost predicate Valid()
      reads this
    {
      data.Length == |originalData|
    }

    /** The current rows as a sequence. */
    ghost function Rows(): seq<string>
      reads this, data
    {
      data[..]
    }

    constructor (rows: seq<string>)
      ensures Valid() && fresh(data)
      ensures Rows() == rows && originalData == rows
      ensures potentialStopwords == None
    {
      data := new string[|rows|](i requires 0 <= i < |rows| => rows[i]);
      originalData := rows;
      potentialStopwords := None;
    }

    /** The number of rows, which is always the number given at construction. */
    function Length(): (n: nat)
      reads this
      requires Valid()
      ensures n == |originalData|
    {
      data.Length
    }

    /** Row `i` of the current data. As for an array index, a negative `i`
        counts from the end; anything outside [-Length(), Length()) is an
        index error. */
    function Get(i: int): (r: Result<string, Error>)
      reads this, data
      requires Valid()
      ensures r.Success? <==> -(Length() as int) <= i < Length()
      ensures 0 <= i < Length() ==> r == Success(Rows()[i])
      ensures -(Length() as int) <= i < 0 ==> r == Success(Rows()[Length() + i])
      ensures r.Failure? ==> r.error == IndexOutOfRange(i)
    {
      if 0 <= i < data.Length then Success(data[i])
      else if -data.Length <= i < 0 then Success(data[data.Length + i])
      else Failure(IndexOutOfRange(i))
    }

    /** Lower-case every row and write it back. The source rebinds its loop
        variable instead of storing the row, so its own loop changes nothing;
        this method does what its documentation says. The cache is left as
        it is, as in the source. */
    method Lower()
      requires Valid()
      modifies data
      ensures Valid()
      ensures Rows() == LowerRows(old(Rows()))
      ensures potentialStopwords == old(potentialStopwords)
    {
      var i := 0;
      while i < data.Length
        invariant 0 <= i <= data.Length
        invariant forall k :: 0 <= k < i ==> data[k] == Text.Lower(old(data[k]))
        invariant forall k :: i <= k < data.Length ==> data[k] == old(data[k])
      {
        data[i] := Text.Lower(data[i]);
        i := i + 1;
      }
    }

    /** Remove the fixed punctuation set from every row and write it back.
        The `puncList` argument is ignored: the source overwrites it with the
        default set before use. As with `Lower`, the source never stores the
        cleaned row; this method does. */
    method RmPunct(puncList: Option<string> := None)
      requires Valid()
      modifies data
      ensures Valid()
      ensures Rows() == WithoutPunctuationRows(old(Rows()))
      ensures potentialStopwords == old(potentialStopwords)
    {
      var i := 0;
      while i < data.Length
        invariant 0 <= i <= data.Length
        invariant forall k :: 0 <= k < i ==> data[k] == WithoutPunctuation(old(data[k]))
        invariant forall k :: i <= k < data.Length ==> data[k] == old(data[k])
      {
        var row := RemovePunctuation(data[i]);
        data[i] := row;
        i := i + 1;
      }
    }

    /** `lower` as the source writes it: each row is lower-cased into the
        loop variable, which is then dropped, so the rows stay as they were. */
    method LowerAsWritten()
      requires Valid()
      ensures Rows() == old(Rows())
    {
      var i := 0;
      while i < data.Length
        invariant 0 <= i <= data.Length
      {
        var row := Text.Lower(data[i]);
        i := i + 1;
      }
    }

    /** `rm_punct` as the source writes it: the punctuation is removed from
        the loop variable only, so the rows stay as they were. */
    method RmPunctAsWritten(puncList: Option<string> := None)
      requires Valid()
      ensures Rows() == old(Rows())
    {
      var i := 0;
      while i < data.Length
        invariant 0 <= i <= data.Length
      {
        var row := RemovePunctuation(data[i]);
        i := i + 1;
      }
    }

    /** Identify the potential stopwords of the current rows for
        `minThreshold`, which must lie in [0, 1], store them in the cache and
        return them. */
    method IdentifyPotentialStopwords(minThreshold: real := DefaultThreshold)
      returns (r: seq<Stopword>)
      requires Valid()
      requires 0.0 <= minThreshold <= 1.0
      modifies this
      ensures Valid()
      ensures IsStopwordList(Rows(), minThreshold, r)
      ensures potentialStopwords == Some(r)
      ensures Rows() == old(Rows())
    {
      r := RankStopwords(data[..], minThreshold);
      potentialStopwords := Some(r);
    }
  }

  /** The as-written `lower` leaves every row as it is, while the documented
      conversion changes any column holding an upper-case letter: the row
      "Inc", for one, becomes "inc". */
  lemma LowerWriteBackMatters(rows: seq<string>, i: nat, j: nat)
    requires i < |rows| && j < |rows[i]| && IsUpper(rows[i][j])
    ensures LowerRows(rows) != rows
    ensures LowerRows(["Inc"]) == ["inc"]
  {
    LowerPointwise(rows[i]);
    assert LowerRows(rows)[i][j] != rows[i][j];
    LowerPointwise("Inc");
    assert Lower("Inc") == "inc";
  }

  /** The as-written `rm_punct` leaves every row as it is, while the
      documented removal changes any column holding a punctuation character:
      the row "Inc.", for one, becomes "Inc". */
  lemma RmPunctWriteBackMatters(rows: seq<string>, i: nat, j: nat)
    requires i < |rows| && j < |rows[i]| && rows[i][j] in Punctuation()
    ensures WithoutPunctuationRows(rows) != rows
    ensures WithoutPunctuationRows(["Inc."]) == ["Inc"]
  {
    assert rows[i][j] in rows[i];
    assert rows[i][j] !in WithoutPunctuationRows(rows)[i];
    RmPunctExample();
  }

  /** Punctuation removal turns the row "Inc." into "Inc". */
  lemma RmPunctExample()
    ensures WithoutPunctuation("Inc.") == "Inc"
  {
    var p := Punctuation();
    assert 'I' !in p && 'n' !in p && 'c' !in p && '.' in p;
    assert Remove(".", p) == [];
    assert Remove("c.", p) == "c";
    assert Remove("nc.", p) == "nc";
  }
}
