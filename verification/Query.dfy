/** The lookup of `MainDatabase._f`: the WHERE clause it assembles, what that
    clause means, the LIMIT, and the column-oriented reshape. These functions
    are the specification `MainDatabase.Query` is proved against. */
module Query {
  import opened Values
  import opened Text
  import opened Tables

  /** The optional keyword arguments of `_f`, one field per filter. */
  datatype Filter = Filter(
    name: Option<string>,
    domain: Option<string>,
    industry: Option<string>,
    locality: Option<string>,
    country: Option<string>,
    currentEmployees: Option<int>)

  const NoFilter := Filter(None, None, None, None, None, None)

  /** A text filter is applied only when its value is truthy (`if name:`). */
  predicate Applied(v: Option<string>)
  {
    v.Some? && v.value != []
  }

  /** The value holds neither LIKE wildcard, so `'%v%'` is a plain substring test. */
  predicate WildcardFree(v: Option<string>)
  {
    v.Some? ==> forall k :: 0 <= k < |v.value| ==> v.value[k] != '%' && v.value[k] != '_'
  }

  predicate FilterWildcardFree(f: Filter)
  {
    WildcardFree(f.name) && WildcardFree(f.domain) && WildcardFree(f.industry) &&
    WildcardFree(f.locality) && WildcardFree(f.country)
  }

  /** One conjunct of the WHERE clause: `column LIKE '%pattern%'` or
      `column >= bound`, where the bound is the threshold's decimal text
      (SQLite applies the column's text affinity to the parameter). */
  datatype Condition = Like(column: string, pattern: string) | AtLeast(column: string, bound: string)

  function LikeCondition(column: string, v: Option<string>): seq<Condition>
  {
    if Applied(v) then [Like(column, Lower(v.value))] else []
  }

  /** The conjuncts `_f` appends, in its order. */
  function Conditions(f: Filter): seq<Condition>
  {
    LikeCondition("name", f.name) + LikeCondition("domain", f.domain) +
    LikeCondition("industry", f.industry) + LikeCondition("locality", f.locality) +
    LikeCondition("country", f.country) +
    (if f.currentEmployees.Some? then [AtLeast("current_employees", DecimalText(f.currentEmployees.value))] else [])
  }

  /** The cell of `row` under `column` (NULL when the column is absent). */
  function Cell(columns: seq<string>, row: Row, column: string): Value
  {
    match ColumnIndex(columns, column)
    case None => Null
    case Some(j) => if j < |row| then row[j] else Null
  }

  /** One conjunct as SQLite evaluates it: NULL never satisfies it; LIKE
      folds ASCII case on both sides; `>=` compares texts under the binary
      collation. */
  predicate Holds(c: Condition, columns: seq<string>, row: Row)
  {
    match CellText(Cell(columns, row, c.column))
    case None => false
    case Some(t) =>
      match c
      case Like(_, p) => HasInfix(Lower(p), Lower(t))
      case AtLeast(_, b) => TextAtMost(b, t)
  }

  predicate AllHold(conds: seq<Condition>, columns: seq<string>, row: Row)
  {
    forall k :: 0 <= k < |conds| ==> Holds(conds[k], columns, row)
  }

  /** Reference meaning of a text filter: not applied, or the cell has text
      containing the value, ignoring case. */
  ghost predicate TextFilterOk(columns: seq<string>, row: Row, column: string, v: Option<string>)
  {
    !Applied(v) ||
    (CellText(Cell(columns, row, column)).Some? &&
     ContainsIgnoringCase(CellText(Cell(columns, row, column)).value, v.value))
  }

  /** Reference meaning of the employee threshold: not applied, or the cell
      has text that sorts at or after the threshold's decimal text. */
  ghost predicate ThresholdOk(columns: seq<string>, row: Row, bound: Option<int>)
  {
    bound.None? ||
    (CellText(Cell(columns, row, "current_employees")).Some? &&
     LexicographicallyAtMost(DecimalText(bound.value), CellText(Cell(columns, row, "current_employees")).value))
  }

  /** A row matches when it satisfies every supplied filter. */
  ghost predicate RowMatches(columns: seq<string>, row: Row, f: Filter)
  {
    TextFilterOk(columns, row, "name", f.name) &&
    TextFilterOk(columns, row, "domain", f.domain) &&
    TextFilterOk(columns, row, "industry", f.industry) &&
    TextFilterOk(columns, row, "locality", f.locality) &&
    TextFilterOk(columns, row, "country", f.country) &&
    ThresholdOk(columns, row, f.currentEmployees)
  }

  lemma LikeConditionMeans(columns: seq<string>, row: Row, column: string, v: Option<string>)
    ensures AllHold(LikeCondition(column, v), columns, row) <==> TextFilterOk(columns, row, column, v)
  {
    if Applied(v) {
      assert LikeCondition(column, v)[0] == Like(column, Lower(v.value));
      if CellText(Cell(columns, row, column)).Some? {
        var t := CellText(Cell(columns, row, column)).value;
        LowerIdempotent(v.value);
        LikeMeansContains(t, v.value);
      }
    }
  }

  lemma AllHoldAppend(a: seq<Condition>, b: seq<Condition>, columns: seq<string>, row: Row)
    ensures AllHold(a + b, columns, row) <==> AllHold(a, columns, row) && AllHold(b, columns, row)
  {
    if AllHold(a, columns, row) && AllHold(b, columns, row) {
      forall k | 0 <= k < |a + b| ensures Holds((a + b)[k], columns, row) {
        if k >= |a| {
          assert (a + b)[k] == b[k - |a|];
        }
      }
    }
    if AllHold(a + b, columns, row) {
      forall k | 0 <= k < |a| ensures Holds(a[k], columns, row) {
        assert (a + b)[k] == a[k];
      }
      forall k | 0 <= k < |b| ensures Holds(b[k], columns, row) {
        assert (a + b)[|a| + k] == b[k];
      }
    }
  }

  /** The assembled WHERE clause holds of a row exactly when the row
      satisfies every supplied filter: the conjunction is right, falsy text
      filters are skipped, a threshold of any value (0 included) is applied. */
  lemma ConditionsMeanFilter(columns: seq<string>, row: Row, f: Filter)
    ensures AllHold(Conditions(f), columns, row) <==> RowMatches(columns, row, f)
  {
    var last := if f.currentEmployees.Some? then [AtLeast("current_employees", DecimalText(f.currentEmployees.value))] else [];
    var a := LikeCondition("name", f.name);
    var b := a + LikeCondition("domain", f.domain);
    var c := b + LikeCondition("industry", f.industry);
    var d := c + LikeCondition("locality", f.locality);
    var e := d + LikeCondition("country", f.country);
    assert Conditions(f) == e + last;
    AllHoldAppend(a, LikeCondition("domain", f.domain), columns, row);
    AllHoldAppend(b, LikeCondition("industry", f.industry), columns, row);
    AllHoldAppend(c, LikeCondition("locality", f.locality), columns, row);
    AllHoldAppend(d, LikeCondition("country", f.country), columns, row);
    AllHoldAppend(e, last, columns, row);
    LikeConditionMeans(columns, row, "name", f.name);
    LikeConditionMeans(columns, row, "domain", f.domain);
    LikeConditionMeans(columns, row, "industry", f.industry);
    LikeConditionMeans(columns, row, "locality", f.locality);
    LikeConditionMeans(columns, row, "country", f.country);
    if f.currentEmployees.Some? {
      assert last[0] == AtLeast("current_employees", DecimalText(f.currentEmployees.value));
      if CellText(Cell(columns, row, "current_employees")).Some? {
        TextAtMostIsLexicographic(DecimalText(f.currentEmployees.value), CellText(Cell(columns, row, "current_employees")).value);
      }
    }
  }

  /** A NULL cell never satisfies an applied filter on its column. */
  lemma NullNeverMatches(columns: seq<string>, row: Row, f: Filter)
    ensures Applied(f.name) && Cell(columns, row, "name") == Null ==> !RowMatches(columns, row, f)
    ensures Applied(f.domain) && Cell(columns, row, "domain") == Null ==> !RowMatches(columns, row, f)
    ensures Applied(f.industry) && Cell(columns, row, "industry") == Null ==> !RowMatches(columns, row, f)
    ensures Applied(f.locality) && Cell(columns, row, "locality") == Null ==> !RowMatches(columns, row, f)
    ensures Applied(f.country) && Cell(columns, row, "country") == Null ==> !RowMatches(columns, row, f)
    ensures f.currentEmployees.Some? && Cell(columns, row, "current_employees") == Null ==> !RowMatches(columns, row, f)
  {
  }

  /** With no filters every row matches. */
  lemma NoFilterMatchesAll(columns: seq<string>, row: Row)
    ensures RowMatches(columns, row, NoFilter)
  {
  }

  /** The first conjunct whose column the table lacks (SQLite's "no such
      column"), if any. */
  function MissingFilterColumn(conds: seq<Condition>, columns: seq<string>): (r: Option<string>)
    ensures r.None? <==> forall k :: 0 <= k < |conds| ==> conds[k].column in columns
    ensures r.Some? ==> r.value !in columns
  {
    if conds == [] then None
    else if conds[0].column !in columns then Some(conds[0].column)
    else MissingFilterColumn(conds[1..], columns)
  }

  /** The matching rows, in table order. */
  ghost function MatchingRows(rows: seq<Row>, columns: seq<string>, f: Filter): seq<Row>
  {
    if rows == [] then []
    else
      var n := |rows| - 1;
      MatchingRows(rows[..n], columns, f) + (if RowMatches(columns, rows[n], f) then [rows[n]] else [])
  }

  /** Positions of the matching rows, in increasing order. */
  ghost function MatchIndices(rows: seq<Row>, columns: seq<string>, f: Filter): seq<nat>
  {
    if rows == [] then []
    else
      var n := |rows| - 1;
      MatchIndices(rows[..n], columns, f) + (if RowMatches(columns, rows[n], f) then [n] else [])
  }

  /** Matching is an order-preserving selection: the k-th match is the row at
      the k-th matching position, positions increase, and a position is
      selected exactly when its row satisfies every supplied filter. */
  lemma {:induction false} MatchIndicesSpec(rows: seq<Row>, columns: seq<string>, f: Filter)
    ensures var m, idx := MatchingRows(rows, columns, f), MatchIndices(rows, columns, f);
      |m| == |idx| <= |rows| &&
      (forall k :: 0 <= k < |idx| ==> idx[k] < |rows| && m[k] == rows[idx[k]]) &&
      (forall k, p :: 0 <= k < p < |idx| ==> idx[k] < idx[p]) &&
      (forall i :: 0 <= i < |rows| ==> (i in idx <==> RowMatches(columns, rows[i], f)))
  {
    if rows != [] {
      var n := |rows| - 1;
      var pre := rows[..n];
      MatchIndicesSpec(pre, columns, f);
      var m0, idx0 := MatchingRows(pre, columns, f), MatchIndices(pre, columns, f);
      assert forall i :: 0 <= i < n ==> pre[i] == rows[i];
      if RowMatches(columns, rows[n], f) {
        assert MatchingRows(rows, columns, f) == m0 + [rows[n]];
        assert MatchIndices(rows, columns, f) == idx0 + [n];
      } else {
        assert MatchingRows(rows, columns, f) == m0;
        assert MatchIndices(rows, columns, f) == idx0;
      }
    }
  }

  /** Matching the first `i` rows gives a prefix of the matches of all rows. */
  lemma {:induction false} MatchingRowsPrefix(rows: seq<Row>, columns: seq<string>, f: Filter, i: nat)
    requires i <= |rows|
    ensures var pre, all := MatchingRows(rows[..i], columns, f), MatchingRows(rows, columns, f);
      |pre| <= |all| && all[..|pre|] == pre
    decreases |rows|
  {
    if i < |rows| {
      var n := |rows| - 1;
      assert rows[..n][..i] == rows[..i];
      MatchingRowsPrefix(rows[..n], columns, f, i);
    } else {
      assert rows[..i] == rows;
    }
  }

  /** `LIMIT n` keeps the first n rows; no limit keeps them all. */
  function Limit<T>(s: seq<T>, limit: Option<nat>): (r: seq<T>)
    ensures limit.None? ==> r == s
    ensures limit.Some? ==> |r| == if limit.value < |s| then limit.value else |s|
    ensures r == s[..|r|]
  {
    if limit.Some? && limit.value < |s| then s[..limit.value] else s
  }

  /** The `j`-th cells of `rows`, in order. */
  function Column(rows: seq<Row>, j: nat): (r: seq<Value>)
    requires forall i :: 0 <= i < |rows| ==> j < |rows[i]|
    ensures |r| == |rows|
    ensures forall i :: 0 <= i < |rows| ==> r[i] == rows[i][j]
  {
    if rows == [] then [] else Column(rows[..|rows| - 1], j) + [rows[|rows| - 1][j]]
  }

  lemma ColumnSnoc(rows: seq<Row>, r: nat, j: nat)
    requires r < |rows| && forall i :: 0 <= i < |rows| ==> j < |rows[i]|
    ensures Column(rows[..r + 1], j) == Column(rows[..r], j) + [rows[r][j]]
  {
    assert rows[..r + 1][..r] == rows[..r];
  }

  /** The result dictionary: every column name mapped to the list of its cells. */
  function Columnar(columns: seq<string>, rows: seq<Row>): map<string, seq<Value>>
    requires forall i :: 0 <= i < |rows| ==> |rows[i]| == |columns|
  {
    map c | c in columns :: Column(rows, ColumnIndex(columns, c).value)
  }

  /** A map with a key per column whose list for the column at position p
      is that column's cells is the result dictionary. */
  lemma ColumnarByPosition(columns: seq<string>, rows: seq<Row>, out: map<string, seq<Value>>)
    requires Distinct(columns) && forall i :: 0 <= i < |rows| ==> |rows[i]| == |columns|
    requires forall c :: c in out <==> c in columns
    requires forall p :: 0 <= p < |columns| ==> out[columns[p]] == Column(rows, p)
    ensures out == Columnar(columns, rows)
  {
    forall c | c in columns
      ensures out[c] == Columnar(columns, rows)[c]
    {
      var p := ColumnIndex(columns, c).value;
      ColumnIndexOfPosition(columns, p);
    }
  }

  /** What `_f` returns on the cleaned table, when it exists. */
  ghost function QueryResult(cleaned: Option<Table>, f: Filter, limit: Option<nat>): Result<map<string, seq<Value>>>
    requires cleaned.Some? ==> WellFormed(cleaned.value)
  {
    match cleaned
    case None => Err(NoSuchTable)
    case Some(t) =>
      match MissingFilterColumn(Conditions(f), t.columns)
      case Some(c) => Err(NoSuchColumn(c))
      case None =>
        MatchIndicesSpec(t.rows, t.columns, f);
        Ok(Columnar(t.columns, Limit(MatchingRows(t.rows, t.columns, f), limit)))
  }

  /** The shape of a successful result: a key for every column; every list
      as long as the limited number of matches; entry i of the list for
      column p is cell p of the i-th matching row in table order. */
  lemma QueryResultShape(t: Table, f: Filter, limit: Option<nat>)
    requires WellFormed(t) && QueryResult(Some(t), f, limit).Ok?
    ensures var m, idx := QueryResult(Some(t), f, limit).value, MatchIndices(t.rows, t.columns, f);
      var n := if limit.Some? && limit.value < |idx| then limit.value else |idx|;
      m.Keys == (set c | c in t.columns) &&
      (forall c :: c in m ==> |m[c]| == n) &&
      forall p, i :: 0 <= p < |t.columns| && 0 <= i < n ==>
        idx[i] < |t.rows| && m[t.columns[p]][i] == t.rows[idx[i]][p]
  {
    MatchIndicesSpec(t.rows, t.columns, f);
    var m, idx := QueryResult(Some(t), f, limit).value, MatchIndices(t.rows, t.columns, f);
    var sel := Limit(MatchingRows(t.rows, t.columns, f), limit);
    forall p | 0 <= p < |t.columns|
      ensures ColumnIndex(t.columns, t.columns[p]) == Some(p)
    {
      ColumnIndexOfPosition(t.columns, p);
    }
  }

  /** With no filters and no limit the result lists every cleaned row, in
      table order. */
  lemma QueryWithoutFilters(t: Table)
    requires WellFormed(t)
    ensures QueryResult(Some(t), NoFilter, None).Ok?
    ensures var m := QueryResult(Some(t), NoFilter, None).value;
      forall p :: 0 <= p < |t.columns| ==>
        |m[t.columns[p]]| == |t.rows| && forall i :: 0 <= i < |t.rows| ==> m[t.columns[p]][i] == t.rows[i][p]
  {
    assert Conditions(NoFilter) == [];
    AllRowsMatch(t.rows, t.columns);
    assert QueryResult(Some(t), NoFilter, None) == Ok(Columnar(t.columns, t.rows));
    forall p | 0 <= p < |t.columns|
      ensures Columnar(t.columns, t.rows)[t.columns[p]] == Column(t.rows, p)
    {
      ColumnIndexOfPosition(t.columns, p);
    }
  }

  lemma {:induction false} AllRowsMatch(rows: seq<Row>, columns: seq<string>)
    ensures MatchingRows(rows, columns, NoFilter) == rows
  {
    if rows != [] {
      var n := |rows| - 1;
      AllRowsMatch(rows[..n], columns);
      NoFilterMatchesAll(columns, rows[n]);
      assert rows[..n] + [rows[n]] == rows;
    }
  }
}
