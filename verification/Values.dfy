/** Cell values, Python truthiness, and the error kinds the pipeline raises. */
module Values {

  datatype Option<+T> = None | Some(value: T)

  /** A cell of the store: SQL NULL (Python None), a text value or an integer. */
  datatype Value = Null | Str(s: string) | Int(i: int)

  /** One row of a table: the cells in column order. */
  type Row = seq<Value>

  /** Python truthiness of a cell: None, "" and 0 are falsy. */
  predicate Truthy(v: Value)
  {
    match v
    case Null => false
    case Str(s) => s != []
    case Int(i) => i != 0
  }

  /** The ways the two operations fail. */
  datatype Error =
    | MissingColumn(column: string)      // `columns.index` raises ValueError
    | TypeError(row: nat, column: string) // `re.search`/`re.sub` given a non-string cell
    | NoSuchTable                        // the cleaned table was never created
    | NoSuchColumn(column: string)       // a filter names a column the cleaned table lacks

  datatype Result<+T> = Ok(value: T) | Err(error: Error)

  function DigitChar(d: nat): char
    requires d < 10
  {
    ('0' as int + d) as char
  }

  /** Decimal text of a natural number, without leading zeros. */
  function NatText(n: nat): (r: string)
    ensures r != []
    ensures forall k :: 0 <= k < |r| ==> '0' <= r[k] <= '9'
    ensures |r| > 1 ==> r[0] != '0'
    decreases n
  {
    if n < 10 then [DigitChar(n)] else NatText(n / 10) + [DigitChar(n % 10)]
  }

  /** The number a text of decimal digits denotes, most significant first. */
  function DigitsValue(s: string): int
  {
    if s == [] then 0 else DigitsValue(s[..|s| - 1]) * 10 + (s[|s| - 1] as int - '0' as int)
  }

  /** The decimal text of n denotes n. */
  lemma {:induction false} NatTextValue(n: nat)
    ensures DigitsValue(NatText(n)) == n
    decreases n
  {
    if n >= 10 {
      NatTextValue(n / 10);
      var t := NatText(n / 10) + [DigitChar(n % 10)];
      assert t[..|t| - 1] == NatText(n / 10);
    }
  }

  /** The decimal text of an integer is its sign, when negative, followed by
      the digits of its magnitude. */
  lemma DecimalTextValue(n: int)
    ensures n >= 0 ==> DigitsValue(DecimalText(n)) == n
    ensures n < 0 ==> DecimalText(n)[0] == '-' && DigitsValue(DecimalText(n)[1..]) == -n
  {
    if n >= 0 {
      NatTextValue(n);
    } else {
      NatTextValue(-n);
      assert DecimalText(n)[1..] == NatText(-n);
    }
  }

  /** Decimal text of an integer, as SQLite renders it when text affinity is applied. */
  function DecimalText(n: int): string
  {
    if n < 0 then "-" + NatText(-n) else NatText(n)
  }

  /** The text SQLite compares for a cell; NULL has none. */
  function CellText(v: Value): Option<string>
  {
    match v
    case Null => None
    case Str(s) => Some(s)
    case Int(i) => Some(DecimalText(i))
  }
}
