/**
  `DataUtils::toPairs`: turns the rows of an executed statement into a list
  or into an array keyed by one column.
  A row is an ordered list of (column, value) pairs, as the driver's
  associative fetch yields it; the result is a PHP array, an ordered
  association from integer or string keys to items.
 */
module DataUtils {
  import opened Wrappers
  import opened OrderedMaps

  /** A cell as the driver returns it. */
  datatype Value = Null | Int(i: int) | Str(s: string)

  type Row = Assoc<string, Value>

  /** A PHP array key: the list index or the stringified key column. */
  datatype Key = Index(n: nat) | Name(s: string)

  /** An element of the result: one cell, or the whole row when no value column is used. */
  datatype Item = Cell(v: Value) | WholeRow(row: Row)

  type PhpArray = Assoc<Key, Item>

  /** The `LogicException` raised when the first row has no column. */
  datatype PairsError = EmptyResultSchema

  predicate IsDigit(c: char) {
    '0' <= c <= '9'
  }

  function DigitChar(d: nat): (c: char)
    requires d < 10
    ensures IsDigit(c) && c as int - '0' as int == d
  {
    ('0' as int + d) as char
  }

  /** The decimal digits of `n`, most significant first, without leading zeros. */
  function NatToString(n: nat): (r: string)
    ensures r != [] && forall i :: 0 <= i < |r| ==> IsDigit(r[i])
    ensures n > 0 ==> r[0] != '0'
  {
    if n < 10 then [DigitChar(n)] else NatToString(n / 10) + [DigitChar(n % 10)]
  }

  /** The number a string of decimal digits denotes. */
  function DigitsValue(t: string): nat
    requires forall i :: 0 <= i < |t| ==> IsDigit(t[i])
  {
    if t == [] then 0
    else
      assert IsDigit(t[|t| - 1]);
      10 * DigitsValue(t[..|t| - 1]) + (t[|t| - 1] as int - '0' as int)
  }

  /** Reading the digits back gives the number. */
  lemma {:induction false} NatToStringRoundTrip(n: nat)
    ensures DigitsValue(NatToString(n)) == n
  {
    var t := NatToString(n);
    if n >= 10 {
      NatToStringRoundTrip(n / 10);
      assert t[..|t| - 1] == NatToString(n / 10);
    }
  }

  /** PHP's `(string)` cast of a cell. */
  function AsString(v: Value): (r: string)
    ensures v.Null? ==> r == ""
    ensures v.Str? ==> r == v.s
    ensures v.Int? ==> r != [] && (r[0] == '-' <==> v.i < 0)
    ensures v.Int? && v.i > 0 ==> r[0] != '0'
    ensures v.Int? && v.i < 0 ==> |r| >= 2 && r[1] != '0'
  {
    match v
    case Null => ""
    case Int(i) => if i < 0 then "-" + NatToString(-i) else NatToString(i)
    case Str(s) => s
  }

  /** Two integers never cast to the same string. */
  lemma AsStringIntInjective(i: int, j: int)
    requires AsString(Int(i)) == AsString(Int(j))
    ensures i == j
  {
    var t := AsString(Int(i));
    if i < 0 {
      assert t[1..] == NatToString(-i) == NatToString(-j);
      NatToStringRoundTrip(-i);
      NatToStringRoundTrip(-j);
    } else {
      NatToStringRoundTrip(i);
      NatToStringRoundTrip(j);
    }
  }

  /** The cast writes integers in decimal with a leading minus sign. */
  lemma AsStringExamples()
    ensures AsString(Int(0)) == "0"
    ensures AsString(Int(-15)) == "-15"
    ensures AsString(Int(2024)) == "2024"
  {
  }

  /** The key and value columns actually used: the arguments, or, when both
      are null, the first one or two columns of the first row. */
  function ResolveColumns(first: Row, key: Option<string>, value: Option<string>): (r: (Option<string>, Option<string>))
    requires first != []
    ensures key.Some? || value.Some? ==> r == (key, value)
    ensures key.None? && value.None? ==>
      && r.1.Some? && r.1.value in Keys(first)
      && (r.0.Some? <==> |first| >= 2)
      && (r.0.Some? ==> r.0.value == Keys(first)[0] && r.1.value == Keys(first)[1])
      && (r.0.None? ==> r.1.value == Keys(first)[0])
    ensures key.None? && value.None? && Distinct(Keys(first)) && r.0.Some? ==> r.0 != r.1
  {
    if key.None? && value.None? then
      if |first| == 1 then (None, Some(first[0].0)) else (Some(first[0].0), Some(first[1].0))
    else (key, value)
  }

  predicate HasColumn(row: Row, column: Option<string>) {
    column.None? || column.value in Keys(row)
  }

  /** Every row is a PHP array, so no column name repeats, and every row has
      the columns that `toPairs` will read from it. */
  predicate ColumnsPresent(rows: seq<Row>, key: Option<string>, value: Option<string>) {
    && (forall i :: 0 <= i < |rows| ==> Distinct(Keys(rows[i])))
    && (rows != [] && rows[0] != [] ==>
      var (k, v) := ResolveColumns(rows[0], key, value);
      forall i :: 0 <= i < |rows| ==> HasColumn(rows[i], k) && HasColumn(rows[i], v))
  }

  /** `$value === null ? $row : $row[$value]`. */
  function Pick(row: Row, value: Option<string>): (r: Item)
    requires HasColumn(row, value)
    ensures r.WholeRow? <==> value.None?
    ensures r.WholeRow? ==> r.row == row
    ensures r.Cell? ==> Get(row, value.value) == Some(r.v)
  {
    if value.None? then WholeRow(row) else Cell(Get(row, value.value).value)
  }

  /** `(string) $row[$key]`. */
  function KeyOf(row: Row, key: string): Key
    requires key in Keys(row)
  {
    Name(AsString(Get(row, key).value))
  }

  /** The list built by `$return[] = …` over the rows. */
  function ListFold(rows: seq<Row>, value: Option<string>): (r: PhpArray)
    requires forall i :: 0 <= i < |rows| ==> HasColumn(rows[i], value)
    ensures |r| == |rows|
  {
    if rows == [] then []
    else
      var prefix := rows[..|rows| - 1];
      ListFold(prefix, value) + [(Index(|prefix|), Pick(rows[|rows| - 1], value))]
  }

  /** The array built by `$return[(string) $row[$key]] = …` over the rows. */
  function KeyedFold(rows: seq<Row>, key: string, value: Option<string>): PhpArray
    requires forall i :: 0 <= i < |rows| ==> key in Keys(rows[i]) && HasColumn(rows[i], value)
  {
    if rows == [] then []
    else
      var last := rows[|rows| - 1];
      Put(KeyedFold(rows[..|rows| - 1], key, value), KeyOf(last, key), Pick(last, value))
  }

  /** What `toPairs` returns or throws. */
  function ToPairsSpec(rows: seq<Row>, key: Option<string>, value: Option<string>): (r: Result<PhpArray, PairsError>)
    requires ColumnsPresent(rows, key, value)
    ensures rows == [] ==> r == Success([])
    ensures r.Failure? <==> rows != [] && rows[0] == []
    ensures r.Success? ==> |r.value| <= |rows|
  {
    if rows == [] then Success([])
    else if rows[0] == [] then Failure(EmptyResultSchema)
    else
      var (k, v) := ResolveColumns(rows[0], key, value);
      if k.None? then Success(ListFold(rows, v))
      else
        KeyedFoldLength(rows, k.value, v);
        Success(KeyedFold(rows, k.value, v))
  }

  /** `toPairs` itself, over rows already fetched from the statement. */
  method ToPairs(rows: seq<Row>, key: Option<string>, value: Option<string>) returns (r: Result<PhpArray, PairsError>)
    requires ColumnsPresent(rows, key, value)
    ensures r == ToPairsSpec(rows, key, value)
  {
    if rows == [] {
      return Success([]);
    }
    var columns := Keys(rows[0]);
    if |columns| == 0 {
      return Failure(EmptyResultSchema);
    }
    var k, v := key, value;
    if k.None? && v.None? {
      if |columns| == 1 {
        v := Some(columns[0]);
      } else {
        assert columns[1] == Keys(rows[0][1..])[0] == rows[0][1].0;
        k, v := Some(columns[0]), Some(columns[1]);
      }
    }
    assert (k, v) == ResolveColumns(rows[0], key, value);
    assert forall i :: 0 <= i < |rows| ==> HasColumn(rows[i], k) && HasColumn(rows[i], v);
    var ret: PhpArray;
    if k.None? {
      ret := ListPairs(rows, v);
    } else {
      ret := KeyedPairs(rows, k.value, v);
    }
    return Success(ret);
  }

  /** The loop of `toPairs` without a key column. */
  method ListPairs(rows: seq<Row>, value: Option<string>) returns (ret: PhpArray)
    requires forall i :: 0 <= i < |rows| ==> HasColumn(rows[i], value)
    ensures ret == ListFold(rows, value)
  {
    ret := [];
    for i := 0 to |rows|
      invariant ret == ListFold(rows[..i], value)
    {
      assert rows[..i + 1][..i] == rows[..i];
      ret := ret + [(Index(|ret|), Pick(rows[i], value))];
    }
    assert rows[..|rows|] == rows;
  }

  /** The loop of `toPairs` with a key column. */
  method KeyedPairs(rows: seq<Row>, key: string, value: Option<string>) returns (ret: PhpArray)
    requires forall i :: 0 <= i < |rows| ==> key in Keys(rows[i]) && HasColumn(rows[i], value)
    ensures ret == KeyedFold(rows, key, value)
  {
    ret := [];
    for i := 0 to |rows|
      invariant ret == KeyedFold(rows[..i], key, value)
    {
      assert KeyedFold(rows[..i + 1], key, value) == Put(ret, KeyOf(rows[i], key), Pick(rows[i], value)) by {
        assert rows[..i + 1][..i] == rows[..i];
      }
      ret := Put(ret, KeyOf(rows[i], key), Pick(rows[i], value));
    }
    assert rows[..|rows|] == rows;
  }

  /** The keyed array has at most one entry per row. */
  lemma {:induction false} KeyedFoldLength(rows: seq<Row>, key: string, value: Option<string>)
    requires forall i :: 0 <= i < |rows| ==> key in Keys(rows[i]) && HasColumn(rows[i], value)
    ensures |KeyedFold(rows, key, value)| <= |rows|
  {
    if rows != [] {
      KeyedFoldLength(rows[..|rows| - 1], key, value);
    }
  }

  /** The keys each row contributes, in row order. */
  function RowKeys(rows: seq<Row>, key: string): (ks: seq<Key>)
    requires forall i :: 0 <= i < |rows| ==> key in Keys(rows[i])
    ensures |ks| == |rows|
  {
    if rows == [] then [] else RowKeys(rows[..|rows| - 1], key) + [KeyOf(rows[|rows| - 1], key)]
  }

  /** The index of the last row whose key is `k`, if any. */
  function LastIndexOf(ks: seq<Key>, k: Key): (r: Option<nat>)
    ensures r.Some? ==> r.value < |ks| && ks[r.value] == k && forall j :: r.value < j < |ks| ==> ks[j] != k
    ensures r.None? ==> k !in ks
  {
    if ks == [] then None
    else if ks[|ks| - 1] == k then Some(|ks| - 1)
    else LastIndexOf(ks[..|ks| - 1], k)
  }

  /** List mode: one element per row, in row order, under the keys 0, 1, 2, … */
  lemma {:induction false} ListFoldShape(rows: seq<Row>, value: Option<string>)
    requires forall i :: 0 <= i < |rows| ==> HasColumn(rows[i], value)
    ensures forall i :: 0 <= i < |rows| ==> ListFold(rows, value)[i] == (Index(i), Pick(rows[i], value))
  {
    if rows != [] {
      ListFoldShape(rows[..|rows| - 1], value);
    }
  }

  /** Keyed mode: the keys are the distinct stringified key cells in the order
      they first occur; a key repeated by a later row does not move. */
  lemma {:induction false} KeyedFoldKeys(rows: seq<Row>, key: string, value: Option<string>)
    requires forall i :: 0 <= i < |rows| ==> key in Keys(rows[i]) && HasColumn(rows[i], value)
    ensures Keys(KeyedFold(rows, key, value)) == FirstOccurrences(RowKeys(rows, key))
    ensures Distinct(Keys(KeyedFold(rows, key, value)))
  {
    if rows != [] {
      var prefix := rows[..|rows| - 1];
      KeyedFoldKeys(prefix, key, value);
      PutKeepsFirstOccurrences(KeyedFold(prefix, key, value), RowKeys(prefix, key),
        KeyOf(rows[|rows| - 1], key), Pick(rows[|rows| - 1], value));
    }
  }

  /** Keyed mode: each key holds the item of the LAST row with that key. */
  lemma {:induction false} KeyedFoldLastWins(rows: seq<Row>, key: string, value: Option<string>, k: Key)
    requires forall i :: 0 <= i < |rows| ==> key in Keys(rows[i]) && HasColumn(rows[i], value)
    ensures Get(KeyedFold(rows, key, value), k) ==
      match LastIndexOf(RowKeys(rows, key), k)
      case None => None
      case Some(j) => Some(Pick(rows[j], value))
  {
    if rows != [] {
      var n := |rows| - 1;
      var prefix := rows[..n];
      var lk := KeyOf(rows[n], key);
      var pks := RowKeys(prefix, key);
      assert RowKeys(rows, key) == pks + [lk];
      KeyedFoldLastWins(prefix, key, value, k);
      assert KeyedFold(rows, key, value) == Put(KeyedFold(prefix, key, value), lk, Pick(rows[n], value));
      if lk != k {
        assert (pks + [lk])[..n] == pks;
        var p := LastIndexOf(pks, k);
        assert LastIndexOf(RowKeys(rows, key), k) == p;
        assert p.Some? ==> prefix[p.value] == rows[p.value];
      }
    }
  }

  /** Without a key column the result is the list of picked items, one per row. */
  lemma ListMode(rows: seq<Row>, key: Option<string>, value: Option<string>)
    requires ColumnsPresent(rows, key, value) && rows != [] && rows[0] != []
    requires ResolveColumns(rows[0], key, value).0.None?
    ensures var v := ResolveColumns(rows[0], key, value).1;
      && ToPairsSpec(rows, key, value).Success?
      && |ToPairsSpec(rows, key, value).value| == |rows|
      && forall i :: 0 <= i < |rows| ==> ToPairsSpec(rows, key, value).value[i] == (Index(i), Pick(rows[i], v))
  {
    ListFoldShape(rows, ResolveColumns(rows[0], key, value).1);
  }

  /** With no columns given and a single column in the first row, the result
      is the list of that column's cells. */
  lemma SingleColumnDefault(rows: seq<Row>)
    requires ColumnsPresent(rows, None, None) && rows != [] && |rows[0]| == 1
    ensures ToPairsSpec(rows, None, None).Success?
    ensures forall i :: 0 <= i < |rows| ==>
      ToPairsSpec(rows, None, None).value[i] == (Index(i), Cell(Get(rows[i], rows[0][0].0).value))
  {
    ListFoldShape(rows, Some(rows[0][0].0));
  }

  /** With a key column (given, or the first of two or more default columns),
      the keys are the distinct key cells in first-occurrence order and each
      holds the item of the last row carrying it. */
  lemma KeyedMode(rows: seq<Row>, key: Option<string>, value: Option<string>, k: Key)
    requires ColumnsPresent(rows, key, value) && rows != [] && rows[0] != []
    requires ResolveColumns(rows[0], key, value).0.Some?
    ensures var (kc, v) := ResolveColumns(rows[0], key, value);
      && ToPairsSpec(rows, key, value).Success?
      && Keys(ToPairsSpec(rows, key, value).value) == FirstOccurrences(RowKeys(rows, kc.value))
      && Get(ToPairsSpec(rows, key, value).value, k) ==
           match LastIndexOf(RowKeys(rows, kc.value), k)
           case None => None
           case Some(j) => Some(Pick(rows[j], v))
  {
    var (kc, v) := ResolveColumns(rows[0], key, value);
    KeyedFoldKeys(rows, kc.value, v);
    KeyedFoldLastWins(rows, kc.value, v, k);
  }

  /** With no columns given and two or more in the first row, the first
      column is the key and the second the value; the rest are ignored. */
  lemma TwoColumnDefault(rows: seq<Row>)
    requires ColumnsPresent(rows, None, None) && rows != [] && |rows[0]| >= 2
    ensures ToPairsSpec(rows, None, None) == Success(KeyedFold(rows, rows[0][0].0, Some(rows[0][1].0)))
    ensures rows[0][0].0 != rows[0][1].0
  {
  }
}
