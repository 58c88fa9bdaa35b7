/** The cleaning rules of `MainDatabase._cd`, as functions on cells, rows and
    tables: the specification that `MainDatabase.Clean` is proved against. */
module Cleaning {
  import opened Values
  import opened Text
  import opened Domain
  import opened Names
  import opened Tables

  /** The domain step `if domain: domain = <group> if <match> else None`.
      None stands for the TypeError `re.search` raises on a non-string. */
  function CleanDomain(v: Value): (r: Option<Value>)
    ensures !Truthy(v) ==> r == Some(v)
    ensures r.None? <==> v.Int? && v.i != 0
    ensures r.Some? && Truthy(v) ==>
      (r.value == Null || (r.value.Str? && FullMatch(r.value.s) && IsSuffix(r.value.s, Subject(v.s))))
  {
    if !Truthy(v) then Some(v)
    else match v
      case Str(s) =>
        (match Simplify(s)
         case None => Some(Null)
         case Some(d) => SimplifyMatches(s); Some(Str(d)))
      case _ => None
  }

  /** The name step `if name: name = re.sub(r'[^a-zA-Z]', '', name).lower()`.
      None stands for the TypeError `re.sub` raises on a non-string. */
  function CleanName(v: Value): (r: Option<Value>)
    ensures !Truthy(v) ==> r == Some(v)
    ensures r.None? <==> v.Int? && v.i != 0
    ensures r.Some? && r.value.Str? ==>
      forall k :: 0 <= k < |r.value.s| ==> IsLowerLetter(r.value.s[k])
  {
    if !Truthy(v) then Some(v)
    else match v
      case Str(s) => CleanTextIsLowercase(s); Some(Str(CleanText(s)))
      case _ => None
  }

  /** Cleaning an already cleaned cell changes nothing. */
  lemma CleanCellsIdempotent(v: Value)
    ensures CleanDomain(v).Some? ==> CleanDomain(CleanDomain(v).value) == CleanDomain(v)
    ensures CleanName(v).Some? ==> CleanName(CleanName(v).value) == CleanName(v)
  {
    if v.Str? && v.s != [] {
      if Simplify(v.s).Some? {
        SimplifyIdempotent(v.s);
        SimplifyMatches(v.s);
      }
      CleanTextIdempotent(v.s);
    }
  }

  /** Positions of the `domain`, `locality` and `name` columns. */
  datatype Indices = Indices(domain: nat, locality: nat, name: nat)

  predicate IndicesFit(ix: Indices, width: nat)
  {
    ix.domain < width && ix.locality < width && ix.name < width &&
    ix.domain != ix.locality && ix.domain != ix.name && ix.locality != ix.name
  }

  /** What one pass of the loop body does with one raw row. */
  datatype RowOutcome = Raises(column: string) | Dropped | Kept(row: Row)

  function CleanRow(row: Row, ix: Indices): RowOutcome
    requires IndicesFit(ix, |row|)
  {
    match CleanDomain(row[ix.domain])
    case None => Raises("domain")
    case Some(domain) =>
      if !Truthy(domain) && !Truthy(row[ix.locality]) then Dropped
      else match CleanName(row[ix.name])
        case None => Raises("name")
        case Some(name) => Kept(row[ix.domain := domain][ix.name := name])
  }

  /** A row survives iff its simplified domain or its raw locality is truthy
      (and neither cell makes the regex raise); a survivor has the source's
      width, its domain and name cleaned, and every other cell unchanged. */
  lemma CleanRowKept(row: Row, ix: Indices)
    requires IndicesFit(ix, |row|)
    ensures CleanRow(row, ix).Dropped? <==>
      CleanDomain(row[ix.domain]).Some? && !Truthy(CleanDomain(row[ix.domain]).value) && !Truthy(row[ix.locality])
    ensures CleanRow(row, ix).Kept? <==>
      CleanDomain(row[ix.domain]).Some? && CleanName(row[ix.name]).Some? &&
      (Truthy(CleanDomain(row[ix.domain]).value) || Truthy(row[ix.locality]))
    ensures CleanRow(row, ix).Kept? ==>
      var r := CleanRow(row, ix).row;
      |r| == |row| &&
      r[ix.domain] == CleanDomain(row[ix.domain]).value &&
      r[ix.name] == CleanName(row[ix.name]).value &&
      (forall j :: 0 <= j < |row| && j != ix.domain && j != ix.name ==> r[j] == row[j]) &&
      (Truthy(r[ix.domain]) || Truthy(r[ix.locality]))
  {
    match CleanDomain(row[ix.domain])
    case None =>
    case Some(domain) =>
      if Truthy(domain) || Truthy(row[ix.locality]) {
        match CleanName(row[ix.name])
        case None =>
        case Some(name) =>
          var r := row[ix.domain := domain][ix.name := name];
          assert CleanRow(row, ix) == Kept(r);
      }
  }

  /** The drop rule: the simplified domain or the raw locality is truthy. */
  predicate PassesDropRule(row: Row, ix: Indices)
    requires IndicesFit(ix, |row|)
  {
    match CleanDomain(row[ix.domain])
    case None => false
    case Some(domain) => Truthy(domain) || Truthy(row[ix.locality])
  }

  /** Every row has `width` cells and the three columns fit. */
  predicate RowsFit(rows: seq<Row>, ix: Indices, width: nat)
  {
    IndicesFit(ix, width) && forall i :: 0 <= i < |rows| ==> |rows[i]| == width
  }

  /** What the loop body does with each raw row, in order. */
  function Outcomes(rows: seq<Row>, ix: Indices, width: nat): (r: seq<RowOutcome>)
    requires RowsFit(rows, ix, width)
    ensures |r| == |rows|
    ensures forall i :: 0 <= i < |rows| ==> r[i] == CleanRow(rows[i], ix)
  {
    seq(|rows|, i requires 0 <= i < |rows| => CleanRow(rows[i], ix))
  }

  /** The loop over the outcomes: the first row that raises aborts with its
      position; otherwise the kept rows in order. */
  function Collect(outs: seq<RowOutcome>): (r: Result<seq<Row>>)
    ensures r.Ok? ==> |r.value| <= |outs|
    ensures r.Err? ==> r.error.TypeError?
  {
    if outs == [] then Ok([])
    else
      var n := |outs| - 1;
      match Collect(outs[..n])
      case Err(e) => Err(e)
      case Ok(acc) =>
        match outs[n]
        case Raises(c) => Err(TypeError(n, c))
        case Dropped => Ok(acc)
        case Kept(r) => Ok(acc + [r])
  }

  /** The cleaning loop over `rows`. */
  function CleanRows(rows: seq<Row>, ix: Indices, width: nat): Result<seq<Row>>
    requires RowsFit(rows, ix, width)
  {
    Collect(Outcomes(rows, ix, width))
  }

  /** One more pass of the loop: the outcome on the first `i + 1` rows from
      the outcome on the first `i`. */
  lemma CollectStep(outs: seq<RowOutcome>, i: nat)
    requires i < |outs|
    ensures Collect(outs[..i + 1]) ==
      match Collect(outs[..i])
      case Err(e) => Err(e)
      case Ok(acc) =>
        match outs[i]
        case Raises(c) => Err(TypeError(i, c))
        case Dropped => Ok(acc)
        case Kept(r) => Ok(acc + [r])
  {
    assert outs[..i + 1][..i] == outs[..i];
  }

  /** Once the loop has aborted on a prefix, it aborts the same way on the
      whole input. */
  lemma {:induction false} CollectErrPrefix(outs: seq<RowOutcome>, i: nat)
    requires i <= |outs| && Collect(outs[..i]).Err?
    ensures Collect(outs) == Collect(outs[..i])
    decreases |outs|
  {
    if i == |outs| {
      assert outs[..i] == outs;
    } else {
      var n := |outs| - 1;
      assert outs[..n][..i] == outs[..i];
      CollectErrPrefix(outs[..n], i);
    }
  }

  /** Positions of the rows that the loop keeps, in increasing order. */
  ghost function KeptPositions(outs: seq<RowOutcome>): seq<nat>
  {
    if outs == [] then []
    else
      var n := |outs| - 1;
      KeptPositions(outs[..n]) + (if outs[n].Kept? then [n] else [])
  }

  /** The kept positions are increasing, in range, and are exactly the rows
      whose outcome is Kept. */
  lemma {:induction false} KeptPositionsSpec(outs: seq<RowOutcome>)
    ensures var idx := KeptPositions(outs);
      (forall k :: 0 <= k < |idx| ==> idx[k] < |outs|) &&
      (forall k, m :: 0 <= k < m < |idx| ==> idx[k] < idx[m]) &&
      (forall i :: 0 <= i < |outs| ==> (i in idx <==> outs[i].Kept?))
  {
    if outs != [] {
      var n := |outs| - 1;
      KeptPositionsSpec(outs[..n]);
      assert forall i :: 0 <= i < n ==> outs[..n][i] == outs[i];
    }
  }

  /** The collected rows are the kept outcomes, in order: an
      order-preserving selection. */
  lemma {:induction false} CollectSelects(outs: seq<RowOutcome>)
    requires Collect(outs).Ok?
    ensures var out, idx := Collect(outs).value, KeptPositions(outs);
      |out| == |idx| &&
      forall k :: 0 <= k < |out| ==> idx[k] < |outs| && outs[idx[k]] == Kept(out[k])
  {
    if outs != [] {
      var n := |outs| - 1;
      var pre := outs[..n];
      CollectSelects(pre);
      var acc, idx0 := Collect(pre).value, KeptPositions(pre);
      var out, idx := Collect(outs).value, KeptPositions(outs);
      assert forall k :: 0 <= k < |acc| ==> pre[idx0[k]] == outs[idx0[k]];
      match outs[n]
      case Dropped =>
        assert out == acc && idx == idx0;
      case Kept(r) =>
        assert out == acc + [r] && idx == idx0 + [n];
    }
  }

  /** The loop aborts iff some row raises, and then with the first such row. */
  lemma {:induction false} CollectFails(outs: seq<RowOutcome>)
    ensures Collect(outs).Err? <==> exists i :: 0 <= i < |outs| && outs[i].Raises?
    ensures Collect(outs).Err? ==>
      var e := Collect(outs).error;
      e.TypeError? && e.row < |outs| && outs[e.row] == Raises(e.column) &&
      forall j :: 0 <= j < e.row ==> !outs[j].Raises?
  {
    if outs != [] {
      var n := |outs| - 1;
      CollectFails(outs[..n]);
      assert forall i :: 0 <= i < n ==> outs[..n][i] == outs[i];
    }
  }

  /** When every outcome keeps its row unchanged, the loop returns the rows. */
  lemma {:induction false} CollectAllKept(outs: seq<RowOutcome>, rows: seq<Row>)
    requires |outs| == |rows|
    requires forall i :: 0 <= i < |rows| ==> outs[i] == Kept(rows[i])
    ensures Collect(outs) == Ok(rows)
  {
    if rows != [] {
      var n := |rows| - 1;
      CollectAllKept(outs[..n], rows[..n]);
      assert rows[..n] + [rows[n]] == rows;
    }
  }

  /** Every cleaned row keeps the width of the raw rows. */
  lemma CleanRowsWidth(rows: seq<Row>, ix: Indices, width: nat)
    requires RowsFit(rows, ix, width) && CleanRows(rows, ix, width).Ok?
    ensures forall k :: 0 <= k < |CleanRows(rows, ix, width).value| ==> |CleanRows(rows, ix, width).value[k]| == width
  {
    var outs := Outcomes(rows, ix, width);
    CollectSelects(outs);
    var out, idx := Collect(outs).value, KeptPositions(outs);
    forall k | 0 <= k < |out|
      ensures |out[k]| == width
    {
      CleanRowKept(rows[idx[k]], ix);
    }
  }

  /** `_cd` on a whole table: look up the three columns (ValueError when one
      is missing, checked in the order domain, locality, name), then clean
      the rows into a table with the same columns. */
  function CleanTable(t: Table): (r: Result<Table>)
    requires WellFormed(t)
    ensures r.Ok? ==> r.value.columns == t.columns && WellFormed(r.value) && |r.value.rows| <= |t.rows|
    ensures (r.Err? && r.error.MissingColumn?) <==>
      !("domain" in t.columns && "locality" in t.columns && "name" in t.columns)
  {
    match (ColumnIndex(t.columns, "domain"), ColumnIndex(t.columns, "locality"), ColumnIndex(t.columns, "name"))
    case (None, _, _) => Err(MissingColumn("domain"))
    case (_, None, _) => Err(MissingColumn("locality"))
    case (_, _, None) => Err(MissingColumn("name"))
    case (Some(d), Some(l), Some(n)) =>
      var ix := Indices(d, l, n);
      match CleanRows(t.rows, ix, |t.columns|)
      case Err(e) => Err(e)
      case Ok(rows) =>
        CleanRowsWidth(t.rows, ix, |t.columns|);
        Ok(Table(t.columns, rows))
  }

  /** The column positions `_cd` works with, when all three exist. */
  function TableIndices(t: Table): Indices
    requires WellFormed(t)
    requires "domain" in t.columns && "locality" in t.columns && "name" in t.columns
  {
    Indices(ColumnIndex(t.columns, "domain").value, ColumnIndex(t.columns, "locality").value,
            ColumnIndex(t.columns, "name").value)
  }

  /** The invariants of every cleaned row: a truthy domain or locality; a
      text name made of lower-case letters only; a non-empty text domain that
      matches `[\w-]+\.\w+` in full. */
  lemma CleanTableInvariants(t: Table)
    requires WellFormed(t) && CleanTable(t).Ok?
    ensures var c, ix := CleanTable(t).value, TableIndices(t);
      forall k :: 0 <= k < |c.rows| ==>
        (Truthy(c.rows[k][ix.domain]) || Truthy(c.rows[k][ix.locality])) &&
        (c.rows[k][ix.name].Str? ==> forall m :: 0 <= m < |c.rows[k][ix.name].s| ==> IsLowerLetter(c.rows[k][ix.name].s[m])) &&
        (c.rows[k][ix.domain].Str? && c.rows[k][ix.domain].s != [] ==> FullMatch(c.rows[k][ix.domain].s))
  {
    var c, ix := CleanTable(t).value, TableIndices(t);
    var outs := Outcomes(t.rows, ix, |t.columns|);
    CollectSelects(outs);
    var idx := KeptPositions(outs);
    forall k | 0 <= k < |c.rows|
      ensures Truthy(c.rows[k][ix.domain]) || Truthy(c.rows[k][ix.locality])
      ensures c.rows[k][ix.name].Str? ==> forall m :: 0 <= m < |c.rows[k][ix.name].s| ==> IsLowerLetter(c.rows[k][ix.name].s[m])
      ensures c.rows[k][ix.domain].Str? && c.rows[k][ix.domain].s != [] ==> FullMatch(c.rows[k][ix.domain].s)
    {
      CleanRowKept(t.rows[idx[k]], ix);
    }
  }

  /** The cleaned table is an order-preserving selection of the raw rows:
      row `k` comes from raw row `idx[k]`, has its width, carries its cells
      except domain and name, and the selected rows are exactly those whose
      simplified domain or raw locality is truthy. */
  lemma CleanTableSelection(t: Table)
    requires WellFormed(t) && CleanTable(t).Ok?
    ensures var c, ix, idx := CleanTable(t).value, TableIndices(t), KeptPositions(Outcomes(t.rows, TableIndices(t), |t.columns|));
      |c.rows| == |idx| &&
      (forall k, m :: 0 <= k < m < |idx| ==> idx[k] < idx[m]) &&
      (forall i :: 0 <= i < |t.rows| ==> (i in idx <==> PassesDropRule(t.rows[i], ix))) &&
      forall k :: 0 <= k < |c.rows| ==>
        idx[k] < |t.rows| && |c.rows[k]| == |t.rows[idx[k]]| &&
        CleanDomain(t.rows[idx[k]][ix.domain]) == Some(c.rows[k][ix.domain]) &&
        CleanName(t.rows[idx[k]][ix.name]) == Some(c.rows[k][ix.name]) &&
        forall j :: 0 <= j < |c.columns| && j != ix.domain && j != ix.name ==> c.rows[k][j] == t.rows[idx[k]][j]
  {
    var c, ix := CleanTable(t).value, TableIndices(t);
    var outs := Outcomes(t.rows, ix, |t.columns|);
    var idx := KeptPositions(outs);
    CollectSelects(outs);
    KeptPositionsSpec(outs);
    CollectFails(outs);
    forall i | 0 <= i < |t.rows|
      ensures i in idx <==> PassesDropRule(t.rows[i], ix)
    {
      CleanRowKept(t.rows[i], ix);
    }
    forall k | 0 <= k < |c.rows|
      ensures |c.rows[k]| == |t.rows[idx[k]]|
      ensures CleanDomain(t.rows[idx[k]][ix.domain]) == Some(c.rows[k][ix.domain])
      ensures CleanName(t.rows[idx[k]][ix.name]) == Some(c.rows[k][ix.name])
      ensures forall j :: 0 <= j < |c.columns| && j != ix.domain && j != ix.name ==> c.rows[k][j] == t.rows[idx[k]][j]
    {
      CleanRowKept(t.rows[idx[k]], ix);
    }
  }

  /** A row whose domain and name are already clean, and which passes the
      drop rule, passes the loop body unchanged. */
  lemma CleanRowOfCleanCells(row: Row, ix: Indices)
    requires IndicesFit(ix, |row|)
    requires CleanDomain(row[ix.domain]) == Some(row[ix.domain])
    requires CleanName(row[ix.name]) == Some(row[ix.name])
    requires Truthy(row[ix.domain]) || Truthy(row[ix.locality])
    ensures CleanRow(row, ix) == Kept(row)
  {
    assert row[ix.domain := row[ix.domain]][ix.name := row[ix.name]] == row;
  }

  /** A cleaned row passes the loop body unchanged. */
  lemma CleanRowFixesCleaned(src: Row, ix: Indices)
    requires IndicesFit(ix, |src|) && CleanRow(src, ix).Kept?
    ensures CleanRow(CleanRow(src, ix).row, ix) == Kept(CleanRow(src, ix).row)
  {
    var r := CleanRow(src, ix).row;
    CleanRowKept(src, ix);
    var d, n := CleanDomain(src[ix.domain]), CleanName(src[ix.name]);
    CleanCellsIdempotent(src[ix.domain]);
    CleanCellsIdempotent(src[ix.name]);
    assert CleanDomain(r[ix.domain]) == Some(r[ix.domain]);
    assert CleanName(r[ix.name]) == Some(r[ix.name]);
    CleanRowOfCleanCells(r, ix);
  }

  /** Cleaning the cleaned table again changes nothing. */
  lemma CleanTableIdempotent(t: Table)
    requires WellFormed(t) && CleanTable(t).Ok?
    ensures CleanTable(CleanTable(t).value) == CleanTable(t)
  {
    var c, ix := CleanTable(t).value, TableIndices(t);
    var outs := Outcomes(t.rows, ix, |t.columns|);
    CollectSelects(outs);
    var idx := KeptPositions(outs);
    var again := Outcomes(c.rows, ix, |t.columns|);
    forall k | 0 <= k < |c.rows|
      ensures again[k] == Kept(c.rows[k])
    {
      CleanRowFixesCleaned(t.rows[idx[k]], ix);
    }
    CollectAllKept(again, c.rows);
  }
}
