# StringColumn in Dafny

This project models `StringColumn`, the class of the FuzzyMatcher
preprocessing utility that holds one column of free-text rows (business
names, say) and cleans them before fuzzy string matching. The class keeps
three pieces of state:

- the current rows (`_data`), cleaned in place;
- the rows as first given (`_originalData`);
- a slot for the potential stopwords it has found (`potentialStopwords`).

It offers indexed access, a length, and three transforms:

- lower-casing every row;
- deleting a fixed set of punctuation characters from every row;
- finding the potential stopwords. These are the words that occur in more
  than a threshold share of the rows. They come back as (word, proportion)
  pairs, the most common word first.

Files:

- `wrappers.dfy`: `Option` and `Result`.
- `text.dfy` (module `Text`): the per-row transforms as functions, with
  lemmas about them. It also holds `RemovePunctuation`, the source's
  character-by-character `replace` loop, proved equal to the filtering
  function (through `ReplaceEach`, the same loop for any list of
  characters). Splitting a row into words is here too.
- `stopwords.dfy` (module `Stopwords`): the stopword contract as the
  predicate `IsStopwordList`, and lemmas about it. `RankStopwords` is a
  method proved to meet that contract. It joins the rows, counts for each
  distinct word the rows that contain it, and inserts the words above the
  threshold into a ranked list.
- `column.dfy` (module `Column`): the class `StringColumn`. The rows are an
  `array<string>` changed in place. The original rows are a constant
  sequence. The cache is an `Option`.

Where the code and its documentation disagree, the model follows them as
follows:

- `lower` and `rm_punct` assign each cleaned row to the loop variable and
  never store it (StringColumn.py:137-138, 163-167). As written, they change
  nothing. Their docstrings say the data is converted. The methods
  `StringColumn.Lower` and `StringColumn.RmPunct` write each row back, as
  documented. `LowerAsWritten` and `RmPunctAsWritten` model the loops as
  written. See Findings.
- On ASCII letters, `Text.Lower` computes what `row.lower()` computes; other
  characters are left as they are (see Left out). `Text.RemovePunctuation`
  computes what the `replace` loop computes.
- `rm_punct` overwrites its `punc_list` argument with the default set
  (StringColumn.py:161). `RmPunct` takes the argument and ignores it. The
  literal `'\,'` is not an escape in the source's language, so the backslash
  stays in the set. The set has 28 characters; the space is not one of them.
- The module comment says a copy of the original data is kept
  (StringColumn.py:12). The code binds `_originalData` to the same array as
  `_data` (StringColumn.py:91). Once rows are written back, that alias would
  change too. The model keeps the original rows as a constant sequence that
  no method can touch, as the comment describes.
- The body of `identify_potential_stopwords` joins the rows into one text
  with a space before each row (StringColumn.py:192-194). It then hands
  that text to a frequency counter, which counts characters, and prints the
  result. It stores nothing. The model follows the docstring
  (StringColumn.py:174-188):
  - a word is a maximal run of non-white-space characters;
  - a word's proportion is the number of rows containing it divided by the
    number of rows;
  - a word is listed when its proportion is strictly greater than the
    threshold;
  - the list is ordered by non-increasing proportion;
  - the list is stored in `potentialStopwords` and returned.
  The joining step is kept. `WordsOfJoined` proves that joining never merges
  words of two rows.
- The docstring says the threshold must lie between 0 and 1
  (StringColumn.py:181). That is the method's precondition. The default 0.1
  is kept.
- Lower-casing and punctuation removal do not reset `potentialStopwords`.
  The source never touches that attribute there, so neither does the model.
- Equally common words keep the order in which they first occur in the
  joined text. The docstring does not fix an order for ties, so
  `IsStopwordList` does not require one.

## Model

| member | source | states |
|---|---|---|
| Column.CheckCells | StringColumn.py:80-88 | construction succeeds exactly when every cell is a string, and then yields those strings in order; otherwise it fails at the first non-string cell |
| Column.StringColumn.constructor | StringColumn.py:61-92 | the current rows and the original rows both equal the given rows, and the stopword cache is empty (None) |
| Column.StringColumn.Length | StringColumn.py:115-125 | the length is the number of rows, which always equals the number of original rows |
| Column.StringColumn.Get | StringColumn.py:95-112 | row i of the current data for 0 <= i < length, counting from the end for negative i down to -length, an index error for any other i |
| Column.StringColumn.Lower | StringColumn.py:127-138 | every row is replaced by its lower-case form; row count, original rows and cache unchanged |
| Column.StringColumn.RmPunct | StringColumn.py:140-167 | every row is replaced by itself without the fixed punctuation set, whatever list is passed; row count, original rows and cache unchanged |
| Column.StringColumn.IdentifyPotentialStopwords | StringColumn.py:169-197 | for a threshold in [0,1], returns the stopword list of the current rows, stores it in the cache, and leaves the rows unchanged |
| Column.StringColumn.LowerAsWritten | StringColumn.py:137-138 | the loop as written leaves every row as it was |
| Column.StringColumn.RmPunctAsWritten | StringColumn.py:163-167 | the loop as written leaves every row as it was |
| Column.LowerWriteBackMatters | StringColumn.py:127-138 | for every column holding an upper-case letter, the documented conversion differs from the unchanged column the loop as written leaves; the row "Inc" becomes "inc" |
| Column.RmPunctWriteBackMatters | StringColumn.py:140-167 | for every column holding a punctuation character, the documented removal differs from the unchanged column the loop as written leaves; the row "Inc." becomes "Inc" |
| Column.RmPunctExample | StringColumn.py:161-167 | punctuation removal turns the row "Inc." into "Inc" |
| Text.Lower | StringColumn.py:138 | the lower-case form of a row, defined character by character ('A'..'Z' to 'a'..'z', everything else kept); its contract: same length and no upper-case letter left |
| Text.Punctuation | StringColumn.py:161 | the fixed 28-character punctuation set of the literal; its contract: the backslash and the comma are both in it, the space is not |
| Text.Remove | StringColumn.py:165-167 | a row with every character of a given set deleted and all others kept in order; its contract: never longer than the row |
| Text.RemoveExcludes | StringColumn.py:165-167 | no character of the deleted set survives |
| Text.WithoutPunctuation | StringColumn.py:161-167 | a row with the fixed punctuation set deleted; its contract: no punctuation left and never longer than the row |
| Text.ReplaceEach | StringColumn.py:163-167 | the loop that calls `replace(ch, "")` for each listed character of the original row yields the row with every listed character deleted |
| Text.Words | StringColumn.py:174-175 | the words of a row: its maximal runs of non-white-space characters, in order; its contract: every word is non-empty and has no white space |
| Stopwords.Joined | StringColumn.py:192-194 | the text the accumulation loop builds: every row, each preceded by a space; its contract: at least one character per row and every character of every row present |
| Stopwords.Proportion | StringColumn.py:175-186 | the number of rows containing a word divided by the number of rows (zero for no rows); its contract: it lies in [0,1] |
| Stopwords.IsStopwordList | StringColumn.py:174-188 | the documented result: each entry pairs a word with its proportion, which exceeds the threshold; every word above the threshold is listed; no word twice; proportions non-increasing; its contract: every listed proportion lies in (threshold, 1] |
| Text.LowerPointwise | StringColumn.py:137-138 | lower-casing keeps a row's length, maps each upper-case letter to its lower-case letter and keeps every other character |
| Text.LowerKeepsLowercase | StringColumn.py:137-138 | a row without upper-case letters is unchanged |
| Text.LowerIdempotent | StringColumn.py:137-138 | lower-casing twice equals lower-casing once |
| Text.LowerRowsProperties | StringColumn.py:127-138 | lower-casing the column keeps the row count and each row's length, leaves no upper-case letter, and is idempotent |
| Text.RemoveContents | StringColumn.py:165-167 | deleting a character set keeps the count of every character outside the set |
| Text.RemoveAppend | StringColumn.py:165-167 | deletion works piece by piece, so surviving characters keep their order |
| Text.RemoveTwice | StringColumn.py:165-167 | deleting one set and then another equals deleting their union (successive `replace` calls) |
| Text.RemoveAgrees | StringColumn.py:165-166 | only characters that occur in the row matter to deletion |
| Text.RemoveNothing | StringColumn.py:165-166 | a row holding none of the characters is unchanged |
| Text.WithoutPunctuationProperties | StringColumn.py:161-167 | a row without punctuation holds no character of the fixed set; every other character keeps its count; the row never grows; removal is idempotent; a row without punctuation is unchanged |
| Text.RemovePunctuation | StringColumn.py:161-167 | the `replace` loop run with the fixed punctuation list yields the row with every punctuation character deleted |
| Text.WithoutPunctuationRowsProperties | StringColumn.py:163-167 | removal on the column keeps the row count, never lengthens a row, and is idempotent |
| Text.WordsOfJoin | StringColumn.py:192-194 | the words of a + " " + b are the words of a followed by the words of b |
| Stopwords.WordsOfJoined | StringColumn.py:192-194 | the words of the joined text are exactly the words of the rows, row after row |
| Stopwords.JoinRows | StringColumn.py:191-194 | the accumulation loop builds the joined text, whose words are the rows' words |
| Stopwords.CoverageAtMostRows | StringColumn.py:175 | a word occurs in at most as many rows as there are |
| Stopwords.CoveredIffInAllWords | StringColumn.py:175 | a word occurs in some row if and only if it is one of the corpus's words |
| Stopwords.ProportionPositiveIffWord | StringColumn.py:175-186 | a proportion is positive exactly for words of the corpus |
| Stopwords.CountRowsContaining | StringColumn.py:174-175 | counts the rows whose words include the word, at most the number of rows |
| Stopwords.StopwordListMembers | StringColumn.py:174-188 | in a stopword list, a word is listed if and only if its proportion exceeds the threshold |
| Stopwords.StopwordListsAgree | StringColumn.py:185-188 | two stopword lists for the same rows and threshold hold the same entries |
| Stopwords.ThresholdMonotone | StringColumn.py:175-181 | raising the threshold only drops entries |
| Stopwords.InsertRanked | StringColumn.py:188 | inserting a new word keeps the list ranked most prevalent first and its words distinct, and adds exactly that entry |
| Stopwords.ConsiderWord | StringColumn.py:174-186 | a word met for the first time is added with its proportion exactly when that proportion exceeds the threshold |
| Stopwords.RankStopwords | StringColumn.py:169-197 | for a threshold in [0,1]: pairs each word with the share of rows containing it; lists exactly the words above the threshold, each once; orders them most prevalent first; an empty column gives an empty list |

## Left out

- Reading the column from a CSV file (`path`, `sep`, StringColumn.py:68-71): file I/O through a foreign library.
- Conversion of the input to an array and the one-column check (StringColumn.py:61-78). The check only prints and enforces nothing. The model takes a sequence of cells.
- Column.CheckCells: the element types of the array library are not modelled. Each cell is taken to be either a string or not, as the source's type check decides. Read from the code (not executed): converting a Python list of strings (StringColumn.py:63) gives an array of the library's own string type, for which `type(row) is str` (StringColumn.py:86) is false. So building the column from a non-empty list fails the check; only the object arrays that the CSV route produces pass it.
- Column.StringColumn.constructor: the rows are copied into a fresh array. The source stores a caller's array as it is, without copying (StringColumn.py:65-66), so with the documented write-back the caller's array would change too. That aliasing is not modelled.
- The frequency-counter call, the printing, and the commented-out plotting in `identify_potential_stopwords` (StringColumn.py:197-211): a foreign library and console output. The model states the docstring's contract instead.
- `remove_stopwords_fromlist` and `remove_stopwords_automatically`: both bodies are `pass` (StringColumn.py:230, 252), so there is no behaviour to model.
- `main` and the unused `tkinter.tix` import (StringColumn.py:18, 254-270): a driver with a fixed local path, and I/O.
- Text.Lower: only ASCII letters are case-mapped; characters such as 'É' are left as they are, where the source's `lower` maps them.
- Text.LowerPointwise: only ASCII letters are case-mapped. Full Unicode case mapping of the source's `lower` is not modelled.
- Text.Words: white space is the ASCII set (space, tab, line feed, vertical tab, form feed, carriage return). Other Unicode white space is not modelled.
- Stopwords.RankStopwords: proportions are exact rationals, not the source's floating-point numbers.
- Column.StringColumn.Get: only integer indices are modelled. Slices and other index kinds of the array library are not.

## Findings

| source | as written | input that shows it | evidently intended | confidence | as-written member | corrected member |
|---|---|---|---|---|---|---|
| StringColumn.py:137-138 | `row = row.lower()` rebinds the loop variable, so `_data` is never changed | a column with the row "Inc" still holds "Inc" after `lower()` | each row is replaced by its lower-case form ("inc"), as the docstring says | high; not executed | Column.StringColumn.LowerAsWritten, Column.LowerWriteBackMatters | Column.StringColumn.Lower |
| StringColumn.py:163-167 | `row = row.replace(ch, "")` rebinds the loop variable, so `_data` is never changed | a column with the row "Inc." still holds "Inc." after `rm_punct()` | each row is replaced by itself without punctuation ("Inc"), as the docstring says | high; not executed | Column.StringColumn.RmPunctAsWritten, Column.RmPunctWriteBackMatters | Column.StringColumn.RmPunct |
