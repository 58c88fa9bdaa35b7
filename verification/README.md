# MainDatabase: company-table cleaning and filtered lookup

This project models the core of `MainDatabase` (`src/modelA.py`), a small
store of company records kept in SQLite. It holds two tables:

- `companies`, the raw table as delivered;
- `companies_cleaned`, which `_cd` rebuilds from scratch on every run.

`_cd` copies every raw row in order and makes three changes to it:

- It reduces a non-empty `domain` to the group that `([\w-]+\.[\w]+)$`
  captures, or to NULL when that pattern does not match.
- It drops the row when both the simplified domain and the locality are
  falsy.
- It strips everything but ASCII letters from a non-empty `name` and
  lower-cases the rest.

The surviving rows then replace the cleaned table wholesale.

`_f` builds a conjunctive WHERE clause from its optional keyword filters:

- a case-insensitive `LIKE '%value%'` for each truthy text filter;
- `current_employees >= n` when a threshold is given.

It adds an optional `LIMIT` and returns the selected rows column by column,
as a map from column name to list.

The model is in Dafny:

- `Values`: cell values with Python truthiness, and errors.
- `Text`: ASCII character classes, lower-casing, LIKE containment, and the
  binary collation order.
- `Domain`: the domain regex. It has a reference semantics of
  `re.search` and a scanner that is proved equal to it.
- `Names`: the name rule.
- `Tables`: tables and column lookup.
- `Cleaning`: the specification of `_cd` on cells, rows and tables.
- `Query`: the specification of `_f`, covering the clause, its meaning, the
  limit and the reshape.
- `Database`: the class `MainDatabase`, with its two tables as fields and
  the methods `Clean` and `Query`. Their loops are proved against
  `Cleaning` and `Query`.
- `Scenarios`: concrete cases drawn from `src/test.py`.

Error behaviour follows the code:

- A truthy non-text domain or name makes `re.search`/`re.sub` raise a
  TypeError. This is an `Err(TypeError(row, column))`.
  - The domain is checked before the drop rule, so a truthy non-text domain
    raises even on a row that would otherwise be dropped.
  - The name is checked only on rows that are kept.
- A missing `domain`, `locality` or `name` column is the ValueError of
  `columns.index`. The columns are looked up in that order.
- On any error `_cd` stops before `DROP TABLE`, so the previous cleaned
  table survives.
- Querying before any cleaning is SQLite's "no such table".
- Filtering on a column the cleaned table lacks is "no such column".

The employee threshold is compared as text, because that is what the code
does. Read as numbers, `>= 5` over cells 3 and 10 would keep 10. In the
code, the bound is bound as a parameter against a text-valued column, and SQLite
compares the two under the binary collation. So `"24" >= "5"` is false and
`"10" >= "5"` is false, and neither 3 nor 10 passes. The repository's own
tests expect exactly this: with threshold 5 the row with 24 employees is
skipped. The model follows the code (`Holds`, `TextAtMost`,
`Scenarios.ThresholdExamples`).

## Model

| member | source | states |
|---|---|---|
| Values.NatText | src/modelA.py:108-110 | the text a non-negative integer is compared as: non-empty, decimal digits only, no leading zero |
| Values.NatTextValue | src/modelA.py:108-110 | that text denotes the integer itself: its digits, read in base ten, give back n |
| Values.DecimalTextValue | src/modelA.py:108-110 | the threshold's text is a minus sign exactly for a negative threshold, followed by digits denoting its magnitude |
| Text.LowerIdempotent | src/modelA.py:93-107 | lower-casing a lower-cased text changes nothing |
| Text.LikeMeansContains | src/modelA.py:93-107 | `LIKE '%lower(v)%'` (ASCII case folded on both sides) holds iff some window of the cell equals v ignoring case |
| Text.TextAtMostIsLexicographic | src/modelA.py:108-110 | the character-by-character `>=` SQLite applies to the threshold is exactly lexicographic order: after the longest common prefix the bound has ended or its next character is smaller |
| Domain.SearchFrom | src/modelA.py:57 | `re.search` tries start positions left to right; a reported start lies in the searched range |
| Domain.SimplifyIsRegexGroup | src/modelA.py:56-58 | the right-to-left scanner returns exactly the group `re.search(r'([\w-]+\.[\w]+)$', s)` captures (leftmost match, `$` also before one final newline), or None when the search fails |
| Domain.SimplifyMatches | src/modelA.py:56-58 | a simplified domain matches `[\w-]+\.\w+` in full, is a suffix of the input (less a final newline), and cannot be extended to the left |
| Domain.SimplifyNoneMeansNoMatch | src/modelA.py:57-58 | None exactly when no suffix of the input matches the pattern |
| Domain.SimplifyFixesFullMatch | src/modelA.py:56-58 | a text that matches the pattern in full simplifies to itself |
| Domain.SimplifyIdempotent | src/modelA.py:56-58 | simplifying a simplified domain changes nothing |
| Names.Letters | src/modelA.py:66 | `re.sub(r'[^a-zA-Z]', '', s)` keeps at most the input's length, and ASCII letters only |
| Names.LettersAppend | src/modelA.py:66 | the substitution works character by character: it distributes over concatenation |
| Names.LettersChar | src/modelA.py:66 | on one character the substitution keeps it iff it is an ASCII letter; with LettersAppend this fixes the result on every text |
| Names.CleanTextChar | src/modelA.py:65-66 | on one character the cleaned name is that letter lower-cased, or nothing for a non-letter; with CleanTextAppend this fixes the cleaned name of every text |
| Names.CleanTextIsLowercase | src/modelA.py:65-66 | a cleaned name consists of lower-case ASCII letters only |
| Names.CleanTextAppend | src/modelA.py:66 | the name rule works character by character: cleaning a concatenation concatenates the cleaned parts |
| Names.CleanTextFixesLowercase | src/modelA.py:66 | a text of lower-case letters is its own cleaned name |
| Names.CleanTextIdempotent | src/modelA.py:65-66 | cleaning a cleaned name changes nothing |
| Tables.ColumnIndex | src/modelA.py:43-46 | `columns.index(c)`: the first position holding c; None (ValueError) exactly when c is absent |
| Tables.ColumnIndexOfPosition | src/modelA.py:121-129 | with distinct column names, the column at position p is found at p |
| Cleaning.CleanDomain | src/modelA.py:55-58 | falsy domains unchanged; TypeError exactly for a truthy non-text value; otherwise NULL or a full match of the pattern that is a suffix of the input |
| Cleaning.CleanName | src/modelA.py:64-66 | falsy names unchanged; TypeError exactly for a truthy non-text value; a text result has lower-case letters only (which characters survive is stated by Names.CleanTextChar and Names.CleanTextAppend) |
| Cleaning.CleanCellsIdempotent | src/modelA.py:55-66 | applying either cell rule to its own output changes nothing |
| Cleaning.CleanRowKept | src/modelA.py:50-71 | a row is dropped iff its simplified domain and its raw locality are both falsy; it is kept iff neither cell raises and one of them is truthy; a kept row has the same width, the cleaned domain and name, every other cell unchanged |
| Cleaning.Collect | src/modelA.py:48-71 | the accumulation over the outcomes yields at most one row per raw row; its only error is a TypeError |
| Cleaning.CollectErrPrefix | src/modelA.py:50-58 | once the loop raises on a prefix of the rows it raises the same way on all of them |
| Cleaning.KeptPositionsSpec | src/modelA.py:60-71 | the positions of kept rows are in range, strictly increasing, and are exactly the rows whose outcome is Kept |
| Cleaning.CollectSelects | src/modelA.py:48-71 | the cleaned rows are the kept outcomes in raw order: row k is the outcome of the k-th kept raw row |
| Cleaning.CollectFails | src/modelA.py:50-66 | cleaning fails iff some row raises, and then with the position and column of the first such row, no earlier row raising |
| Cleaning.CollectAllKept | src/modelA.py:68-71 | when every row passes the loop body unchanged, the cleaned rows are the input rows |
| Cleaning.CleanRowsWidth | src/modelA.py:68-71 | every cleaned row keeps the raw width |
| Cleaning.CleanTable | src/modelA.py:26-82 | a successful clean keeps the column list, yields a well-formed table with no more rows; a MissingColumn error exactly when domain, locality or name is absent |
| Cleaning.CleanTableInvariants | src/modelA.py:26-82 | every cleaned row has a truthy domain or locality, a name of lower-case letters when it is text, and a non-empty text domain matching the pattern in full |
| Cleaning.CleanTableSelection | src/modelA.py:26-82 | the cleaned table is an order-preserving selection of raw rows: exactly those passing the drop rule, each carrying its raw cells except domain and name, which are their cleaned forms |
| Cleaning.CleanRowOfCleanCells | src/modelA.py:50-71 | a row whose domain and name are already clean and which passes the drop rule is kept unchanged |
| Cleaning.CleanRowFixesCleaned | src/modelA.py:50-71 | a cleaned row passes the loop body unchanged |
| Cleaning.CleanTableIdempotent | src/modelA.py:26-82 | cleaning the cleaned table again yields the same table |
| Database.CleanAllRows | src/modelA.py:48-71 | the row loop computes exactly the specified cleaning result, including the first TypeError |
| Database.WhereClause | src/modelA.py:90-113 | the conjuncts appended are exactly one LIKE on the lower-cased value per truthy text filter, then the threshold whenever it is not None, in the code's order |
| Database.FirstMissingColumn | src/modelA.py:112-118 | finds the first conjunct whose column the table lacks, as specified |
| Database.SelectMatches | src/modelA.py:112-119 | returns the rows satisfying every filter, in table order, cut at the limit |
| Database.AppendRow | src/modelA.py:127-129 | each column's list gains that row's cell, keys unchanged |
| Database.Reshape | src/modelA.py:125-130 | the result dictionary maps every column to the list of its cells over the selected rows |
| Database.MainDatabase.Clean | src/modelA.py:26-82 | on success the cleaned table becomes the specified clean of the raw table; on error it is left as it was; the raw table never changes |
| Database.MainDatabase.Query | src/modelA.py:84-132 | returns the specified result: no table before a clean, "no such column" for an unknown filtered column, else one key per column and lists no longer than the rows or the limit |
| Query.LikeConditionMeans | src/modelA.py:93-107 | a text filter's conjunct list holds iff the filter is not applied or the cell contains the value ignoring case |
| Query.AllHoldAppend | src/modelA.py:112-113 | joining conjuncts with AND: the concatenation holds iff both parts hold |
| Query.ConditionsMeanFilter | src/modelA.py:93-113 | the assembled WHERE clause holds of a row iff every supplied filter is satisfied; falsy text filters are skipped, a zero threshold is applied |
| Query.NullNeverMatches | src/modelA.py:93-110 | a NULL cell fails any applied filter on its column |
| Query.NoFilterMatchesAll | src/modelA.py:112-113 | without filters there is no WHERE clause: every row matches |
| Query.MissingFilterColumn | src/modelA.py:112-118 | None iff every filtered column exists; otherwise a column the table lacks |
| Query.MatchIndicesSpec | src/modelA.py:118-119 | the matches are an order-preserving selection: as many as matching positions, no more than the rows, positions increasing, a position selected iff its row matches |
| Query.MatchingRowsPrefix | src/modelA.py:115-119 | the matches among the first rows are a prefix of all matches, which is why stopping at the limit is sound |
| Query.Limit | src/modelA.py:115-116 | `LIMIT n` keeps the first min(n, length) rows; no limit keeps them all |
| Query.Column | src/modelA.py:126-129 | the list for column j has one entry per row, entry i being row i's cell j |
| Query.ColumnarByPosition | src/modelA.py:126-129 | a map with a key per column whose entry for position p is column p's cells is the result dictionary |
| Query.QueryResultShape | src/modelA.py:115-130 | a successful result has a key per column, every list of length min(limit, matches), and entry i of column p is cell p of the i-th matching row |
| Query.QueryWithoutFilters | src/modelA.py:84-132 | with no filters and no limit, every column lists all its cells, in table order |
| Query.AllRowsMatch | src/modelA.py:112-113 | without filters the matching rows are all the rows |
| Scenarios.SubdomainDropped | src/modelA.py:56-58 | `www.acme.io` simplifies to `acme.io` |
| Scenarios.TwoLabelEnding | src/test.py:115 | a domain ending in `.com.co` keeps only `com.co`, as in the expected result |
| Scenarios.DomainWithoutMatch | src/modelA.py:57-58 | `localhost` and `acme.` have no match and become NULL |
| Scenarios.NameExample | src/modelA.py:66 | `Acme-123!` cleans to `acme` |
| Scenarios.RowWithoutDomainOrLocality | src/modelA.py:60-62 | a row with neither domain nor locality is dropped |
| Scenarios.RowWithLocalityOnly | src/test.py:33-39 | a row without a domain but with a locality is kept, its name cleaned |
| Scenarios.ThresholdExamples | src/test.py:110-124 | with threshold 5 the cells "5" and "9" pass while "24" and "10" do not; "24" passes threshold 24 |

## Left out

- `__init__` and `_download_database` are left out. They download the database file and open the SQLite connection, which is network and file I/O. `Database.MainDatabase.constructor` starts from an already opened store instead.
- SQL text assembly, cursors, parameter binding, `commit` and `close` are not modelled. The WHERE clause is modelled as its list of conjuncts and the meaning SQLite gives them, not as a string.
- `CREATE TABLE ... AS SELECT * FROM companies LIMIT 0` is modelled only as copying the column list. Declared column types and affinities are not modelled.
- Database.MainDatabase.Query: requires that the text filters contain neither `%` nor `_`. With those characters the code's LIKE pattern would gain wildcards. Wildcard matching is not modelled.
- Text.Lower: folds ASCII letters only. SQLite's LIKE folds ASCII only, but Python's `str.lower()` also lowers non-ASCII letters in a filter value. Non-ASCII filter values are therefore not modelled faithfully.
- Domain.Simplify: `\w` is ASCII `[A-Za-z0-9_]`. Python's Unicode `\w` on non-ASCII domains is not modelled.
- Cell values are NULL, text or integer. REAL and BLOB cells are not modelled. Integer cells are compared in their decimal text form. Numeric affinity is not modelled: a column of INTEGER affinity would compare the threshold numerically.
- Query.Filter: the threshold is an integer and the text filters are strings. Other Python argument types (a string threshold, a non-string name filter) are not modelled.
- Database.MainDatabase.Query: the limit is a natural number. A negative `numberofdata`, which SQLite treats as no limit, and non-integer values are not modelled.
- Query.Filter: the threshold is an unbounded integer. Python's sqlite3 binding raises OverflowError for a `current_employees` outside -2^63..2^63-1; that error path is not modelled.
- Query.Limit: the limit is an unbounded natural number. A `numberofdata` beyond 2^63-1 is written into the SQL text as a literal SQLite reads as a real number, and SQLite rejects such a LIMIT; that error path is not modelled.
- Tables.ColumnIndex: column names are matched exactly. SQLite's case-insensitive column names are not modelled.
- Rows come back in table (rowid) order, since neither query has an ORDER BY. Other scan orders are not modelled.
- Concurrency and other connections to the same database file are not modelled.
