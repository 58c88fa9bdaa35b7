/** `MainDatabase`: the raw `companies` table, the `companies_cleaned` table
    that cleaning rebuilds, and the two operations over them. */
module Database {
  import opened Values
  import opened Text
  import opened Tables
  import opened Cleaning
  import opened Query

  /** The row loop of `_cd`: copy each raw row, overwrite its domain and
      name, append it unless the drop rule discards it; the first cell that
      makes the regex raise aborts the whole run. */
  method CleanAllRows(rows: seq<Row>, ix: Indices, width: nat) returns (result: Result<seq<Row>>)
    requires RowsFit(rows, ix, width)
    ensures result == CleanRows(rows, ix, width)
  {
    ghost var outs := Outcomes(rows, ix, width);
    var cleanedData: seq<Row> := [];
    var i := 0;
    while i < |rows|
      invariant 0 <= i <= |rows|
      invariant Collect(outs[..i]) == Ok(cleanedData)
    {
      var row := rows[i];
      CollectStep(outs, i);
      assert outs[i] == CleanRow(row, ix);
      var domain := CleanDomain(row[ix.domain]);
      if domain.None? {
        CollectErrPrefix(outs, i + 1);
        return Err(TypeError(i, "domain"));
      }
      var locality := row[ix.locality];
      if Truthy(domain.value) || Truthy(locality) {
        var name := CleanName(row[ix.name]);
        if name.None? {
          CollectErrPrefix(outs, i + 1);
          return Err(TypeError(i, "name"));
        }
        var cleanedRow := row[ix.domain := domain.value][ix.name := name.value];
        cleanedData := cleanedData + [cleanedRow];
      }
      i := i + 1;
    }
    assert outs[..i] == outs;
    return Ok(cleanedData);
  }

  /** The conjuncts `_f` appends to `filters`, one `if` per keyword argument:
      a LIKE on the lower-cased value for each truthy text filter, and the
      threshold whenever it is not None. */
  method WhereClause(f: Filter) returns (filters: seq<Condition>)
    ensures filters == Conditions(f)
  {
    filters := [];
    if f.name.Some? && f.name.value != [] {
      filters := filters + [Like("name", Lower(f.name.value))];
    }
    assert filters == LikeCondition("name", f.name);
    if f.domain.Some? && f.domain.value != [] {
      filters := filters + [Like("domain", Lower(f.domain.value))];
    }
    assert filters == LikeCondition("name", f.name) + LikeCondition("domain", f.domain);
    if f.industry.Some? && f.industry.value != [] {
      filters := filters + [Like("industry", Lower(f.industry.value))];
    }
    ghost var upToIndustry := LikeCondition("name", f.name) + LikeCondition("domain", f.domain) +
      LikeCondition("industry", f.industry);
    assert filters == upToIndustry;
    if f.locality.Some? && f.locality.value != [] {
      filters := filters + [Like("locality", Lower(f.locality.value))];
    }
    assert filters == upToIndustry + LikeCondition("locality", f.locality);
    if f.country.Some? && f.country.value != [] {
      filters := filters + [Like("country", Lower(f.country.value))];
    }
    assert filters == upToIndustry + LikeCondition("locality", f.locality) + LikeCondition("country", f.country);
    if f.currentEmployees.Some? {
      filters := filters + [AtLeast("current_employees", DecimalText(f.currentEmployees.value))];
    }
  }

  /** SQLite's check that every filtered column exists, in clause order. */
  method FirstMissingColumn(filters: seq<Condition>, columns: seq<string>) returns (missing: Option<string>)
    ensures missing == MissingFilterColumn(filters, columns)
  {
    var k := 0;
    while k < |filters|
      invariant 0 <= k <= |filters|
      invariant MissingFilterColumn(filters, columns) == MissingFilterColumn(filters[k..], columns)
    {
      if filters[k].column !in columns {
        return Some(filters[k].column);
      }
      assert filters[k..][1..] == filters[k + 1..];
      k := k + 1;
    }
    return None;
  }

  /** The scan SQLite runs for `_f`: the rows satisfying every conjunct, in
      table order, stopping once the limit is reached. */
  method SelectMatches(rows: seq<Row>, columns: seq<string>, f: Filter, filters: seq<Condition>, limit: Option<nat>)
    returns (selected: seq<Row>)
    requires filters == Conditions(f)
    ensures selected == Limit(MatchingRows(rows, columns, f), limit)
  {
    selected := [];
    var i := 0;
    while i < |rows| && (limit.None? || |selected| < limit.value)
      invariant 0 <= i <= |rows|
      invariant selected == MatchingRows(rows[..i], columns, f)
      invariant limit.Some? ==> |selected| <= limit.value
    {
      assert rows[..i + 1][..i] == rows[..i] && rows[..i + 1][i] == rows[i];
      ConditionsMeanFilter(columns, rows[i], f);
      if AllHold(filters, columns, rows[i]) {
        selected := selected + [rows[i]];
      }
      i := i + 1;
    }
    MatchingRowsPrefix(rows, columns, f, i);
    if i == |rows| {
      assert rows[..i] == rows;
    }
  }

  /** The inner loop of the reshape: append each value of `row` to the
      list of its column. */
  method AppendRow(columns: seq<string>, row: Row, out: map<string, seq<Value>>)
    returns (next: map<string, seq<Value>>)
    requires Distinct(columns) && |row| == |columns|
    requires forall c :: c in out <==> c in columns
    ensures forall c :: c in next <==> c in columns
    ensures forall p :: 0 <= p < |columns| ==> next[columns[p]] == out[columns[p]] + [row[p]]
  {
    next := out;
    var j := 0;
    while j < |columns|
      invariant 0 <= j <= |columns|
      invariant forall c :: c in next <==> c in columns
      invariant forall p :: 0 <= p < j ==> next[columns[p]] == out[columns[p]] + [row[p]]
      invariant forall p :: j <= p < |columns| ==> next[columns[p]] == out[columns[p]]
    {
      next := next[columns[j] := next[columns[j]] + [row[j]]];
      j := j + 1;
    }
  }

  /** The reshape of `_f`: `result = {col: [] for col in columns}`, then
      each value of each row appended to its column's list. */
  method Reshape(columns: seq<string>, rows: seq<Row>) returns (out: map<string, seq<Value>>)
    requires Distinct(columns)
    requires forall i :: 0 <= i < |rows| ==> |rows[i]| == |columns|
    ensures out == Columnar(columns, rows)
  {
    out := map c | c in columns :: [];
    var r := 0;
    while r < |rows|
      invariant 0 <= r <= |rows|
      invariant forall c :: c in out <==> c in columns
      invariant forall p :: 0 <= p < |columns| ==> out[columns[p]] == Column(rows[..r], p)
    {
      out := AppendRow(columns, rows[r], out);
      forall p | 0 <= p < |columns|
        ensures out[columns[p]] == Column(rows[..r + 1], p)
      {
        ColumnSnoc(rows, r, p);
      }
      r := r + 1;
    }
    assert rows[..r] == rows;
    ColumnarByPosition(columns, rows, out);
  }

  class MainDatabase {
    /** The `companies` table as delivered. */
    var raw: Table
    /** The `companies_cleaned` table, None until it is first created. */
    var cleaned: Option<Table>

    ghost predicate Valid()
      reads this
    {
      WellFormed(raw) && (cleaned.Some? ==> WellFormed(cleaned.value))
    }

    /** An opened store: its raw table and whatever cleaned table it already holds. */
    constructor (raw: Table, cleaned: Option<Table>)
      requires WellFormed(raw) && (cleaned.Some? ==> WellFormed(cleaned.value))
      ensures Valid() && this.raw == raw && this.cleaned == cleaned
    {
      this.raw := raw;
      this.cleaned := cleaned;
    }

    /** `_cd`: clean every raw row in order, then replace the cleaned table
        wholesale. On an error nothing has been dropped yet, so the previous
        cleaned table survives. */
    method Clean() returns (outcome: Result<()>)
      requires Valid()
      modifies this`cleaned
      ensures Valid() && raw == old(raw)
      ensures CleanTable(raw).Ok? ==> outcome == Ok(()) && cleaned == Some(CleanTable(raw).value)
      ensures CleanTable(raw).Err? ==> outcome == Err(CleanTable(raw).error) && cleaned == old(cleaned)
    {
      var columns := raw.columns;
      var rows := raw.rows;
      var domainIdx := ColumnIndex(columns, "domain");
      if domainIdx.None? {
        return Err(MissingColumn("domain"));
      }
      var localityIdx := ColumnIndex(columns, "locality");
      if localityIdx.None? {
        return Err(MissingColumn("locality"));
      }
      var nameIdx := ColumnIndex(columns, "name");
      if nameIdx.None? {
        return Err(MissingColumn("name"));
      }
      var ix := Indices(domainIdx.value, localityIdx.value, nameIdx.value);
      var cleanedData := CleanAllRows(rows, ix, |columns|);
      if cleanedData.Err? {
        return Err(cleanedData.error);
      }
      CleanRowsWidth(rows, ix, |columns|);
      cleaned := Some(Table(columns, cleanedData.value));
      outcome := Ok(());
    }

    /** `_f`: assemble the WHERE clause, select the matching cleaned rows in
        table order up to the limit, and reshape them column by column. */
    method Query(f: Filter, limit: Option<nat>) returns (result: Result<map<string, seq<Value>>>)
      requires Valid() && FilterWildcardFree(f)
      ensures result == QueryResult(cleaned, f, limit)
      ensures result.Ok? ==> cleaned.Some? && result.value.Keys == (set c | c in cleaned.value.columns)
      ensures result.Ok? ==> forall c :: c in result.value ==>
        |result.value[c]| <= |cleaned.value.rows| && (limit.Some? ==> |result.value[c]| <= limit.value)
    {
      if cleaned.None? {
        return Err(NoSuchTable);
      }
      var table := cleaned.value;
      var columns := table.columns;

      var filters := WhereClause(f);
      var missing := FirstMissingColumn(filters, columns);
      if missing.Some? {
        return Err(NoSuchColumn(missing.value));
      }

      var selected := SelectMatches(table.rows, columns, f, filters, limit);
      MatchIndicesSpec(table.rows, columns, f);
      assert forall r :: 0 <= r < |selected| ==> |selected[r]| == |columns|;
      var out := Reshape(columns, selected);
      assert |selected| <= |table.rows|;
      assert forall c :: c in out ==> |out[c]| == |selected|;
      return Ok(out);
    }
  }
}
