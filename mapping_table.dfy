/** The character-mapping table: CSV rows folded into an insertion-ordered dictionary from
    corrupted sequence to replacement, as Python's `dict` keeps it. */
module MappingTable {
  import opened Text

  /** One CSV record as `csv.DictReader` yields it: header field name to cell text. */
  type Row = map<String, String>

  /** An insertion-ordered dictionary: its entries in iteration order. */
  type Table = seq<(String, String)>

  const CorruptedField: String := "corrupted"
  const ReplacementField: String := "replacement"

  /** Loading either yields a value or stops with Python's `KeyError` for a missing field. */
  datatype Result<T> = Ok(value: T) | KeyError(key: String)

  /** The keys of a table, in iteration order. */
  function Keys(d: Table): seq<String>
  {
    seq(|d|, i requires 0 <= i < |d| => d[i].0)
  }

  /** No key appears twice, as in any dictionary. */
  ghost predicate DistinctKeys(d: Table)
  {
    forall i, j :: 0 <= i < j < |d| ==> d[i].0 != d[j].0
  }

  /** The position of the first occurrence of `k` in `ks`. */
  function IndexOf(ks: seq<String>, k: String): (i: nat)
    requires k in ks
    ensures i < |ks| && ks[i] == k
    ensures forall j :: 0 <= j < i ==> ks[j] != k
  {
    if ks[0] == k then 0 else 1 + IndexOf(ks[1..], k)
  }

  /** The position of the last occurrence of `k` in `ks`. */
  function LastIndexOf(ks: seq<String>, k: String): (i: nat)
    requires k in ks
    ensures i < |ks| && ks[i] == k
    ensures forall j :: i < j < |ks| ==> ks[j] != k
  {
    var n := |ks| - 1;
    if ks[n] == k then n else LastIndexOf(ks[..n], k)
  }

  /** `d[k] = v` on a Python dictionary: an existing key keeps its position and takes the new
      value; a new key goes to the end. */
  function Put(d: Table, k: String, v: String): (res: Table)
    requires DistinctKeys(d)
    ensures k in Keys(d) ==> Keys(res) == Keys(d)
    ensures k !in Keys(d) ==> Keys(res) == Keys(d) + [k]
    ensures forall i :: 0 <= i < |res| && res[i].0 == k ==> res[i].1 == v
    ensures forall i :: 0 <= i < |d| && d[i].0 != k ==> res[i] == d[i]
    ensures DistinctKeys(res)
  {
    var ks := Keys(d);
    assert forall i :: 0 <= i < |d| ==> ks[i] == d[i].0;
    if k in ks then
      var i := IndexOf(ks, k);
      d[i := (k, v)]
    else
      assert Keys(d + [(k, v)]) == ks + [k];
      d + [(k, v)]
  }

  /** Every row carries both required fields. */
  predicate WellFormed(rows: seq<Row>)
  {
    forall i :: 0 <= i < |rows| ==> CorruptedField in rows[i] && ReplacementField in rows[i]
  }

  /** The `corrupted` column, top to bottom. */
  function Column(rows: seq<Row>): seq<String>
    requires WellFormed(rows)
  {
    seq(|rows|, i requires 0 <= i < |rows| => rows[i][CorruptedField])
  }

  /** The key a row without both fields raises `KeyError` for. In
      `mappings[row['corrupted']] = row['replacement']` Python evaluates the right-hand side
      first, so a missing `replacement` is reported before a missing `corrupted`. */
  function MissingField(row: Row): (f: String)
    requires !(CorruptedField in row && ReplacementField in row)
    ensures f !in row && (f == ReplacementField || f == CorruptedField)
    ensures ReplacementField !in row ==> f == ReplacementField
  {
    if ReplacementField !in row then ReplacementField else CorruptedField
  }

  /** The table built by the loading loop: rows folded, in order, into the dictionary. */
  function Load(rows: seq<Row>): (res: Result<Table>)
    ensures res.Ok? ==> DistinctKeys(res.value)
  {
    if rows == [] then Ok([])
    else
      var n := |rows| - 1;
      match Load(rows[..n])
      case KeyError(k) => KeyError(k)
      case Ok(d) =>
        var row := rows[n];
        if ReplacementField !in row then KeyError(ReplacementField)
        else if CorruptedField !in row then KeyError(CorruptedField)
        else Ok(Put(d, row[CorruptedField], row[ReplacementField]))
  }

  /** Loading succeeds exactly when every data row has both fields; in particular a
      header-only source never fails. */
  lemma {:induction false} LoadOkIffWellFormed(rows: seq<Row>)
    ensures Load(rows).Ok? <==> WellFormed(rows)
  {
    if rows != [] {
      var n := |rows| - 1;
      LoadOkIffWellFormed(rows[..n]);
      assert forall i :: 0 <= i < n ==> rows[..n][i] == rows[i];
    }
  }

  /** Loading stops at the first row missing a field, with the key Python raises for it. */
  lemma {:induction false} LoadFailsAtFirstBadRow(rows: seq<Row>, i: nat)
    requires i < |rows| && WellFormed(rows[..i])
    requires !(CorruptedField in rows[i] && ReplacementField in rows[i])
    ensures Load(rows) == KeyError(MissingField(rows[i]))
    decreases |rows|
  {
    var n := |rows| - 1;
    if i == n {
      LoadOkIffWellFormed(rows[..n]);
    } else {
      assert rows[..n][..i] == rows[..i];
      LoadFailsAtFirstBadRow(rows[..n], i);
    }
  }

  lemma ColumnPrefix(rows: seq<Row>, n: nat)
    requires WellFormed(rows) && n <= |rows|
    ensures WellFormed(rows[..n]) && Column(rows[..n]) == Column(rows)[..n]
  {
  }

  /** The keys of the loaded table are exactly the values of the `corrupted` column. */
  lemma {:induction false} LoadKeySet(rows: seq<Row>)
    requires WellFormed(rows)
    ensures Load(rows).Ok?
    ensures forall k :: k in Keys(Load(rows).value) <==> k in Column(rows)
  {
    LoadOkIffWellFormed(rows);
    if rows != [] {
      var n := |rows| - 1;
      ColumnPrefix(rows, n);
      LoadKeySet(rows[..n]);
      assert Column(rows) == Column(rows[..n]) + [rows[n][CorruptedField]];
    }
  }

  /** A key's value is the replacement of the last row carrying that key: a duplicate row
      overwrites an earlier one. */
  lemma {:induction false} LoadLastRowWins(rows: seq<Row>)
    requires WellFormed(rows)
    ensures Load(rows).Ok?
    ensures var d := Load(rows).value;
      forall i :: 0 <= i < |d| ==>
        d[i].0 in Column(rows) &&
        d[i].1 == rows[LastIndexOf(Column(rows), d[i].0)][ReplacementField]
  {
    LoadOkIffWellFormed(rows);
    LoadKeySet(rows);
    if rows != [] {
      var n := |rows| - 1;
      ColumnPrefix(rows, n);
      LoadLastRowWins(rows[..n]);
      var col, col' := Column(rows), Column(rows[..n]);
      var d, d' := Load(rows).value, Load(rows[..n]).value;
      var c := rows[n][CorruptedField];
      assert col[..n] == col';
      forall i | 0 <= i < |d|
        ensures d[i].0 in col && d[i].1 == rows[LastIndexOf(col, d[i].0)][ReplacementField]
      {
        assert Keys(d)[i] == d[i].0;
        if d[i].0 != c {
          assert i < |d'|;
          assert d'[i].0 in col';
          assert LastIndexOf(col, d[i].0) == LastIndexOf(col', d[i].0);
        }
      }
    }
  }

  lemma IndexOfExtend(ks: seq<String>, k: String, x: String)
    requires x in ks
    ensures IndexOf(ks + [k], x) == IndexOf(ks, x)
  {
    var i := IndexOf(ks, x);
    var j := IndexOf(ks + [k], x);
    assert (ks + [k])[i] == x;
    assert j <= i;
  }

  lemma IndexOfNew(ks: seq<String>, k: String)
    requires k !in ks
    ensures IndexOf(ks + [k], k) == |ks|
  {
    assert forall i :: 0 <= i < |ks| ==> (ks + [k])[i] == ks[i] && ks[i] != k;
  }

  /** Keys `ks` come in the order in which they first appear in `col`. */
  ghost predicate FirstAppearanceOrder(ks: seq<String>, col: seq<String>)
  {
    forall i, j :: 0 <= i < j < |ks| ==>
      ks[i] in col && ks[j] in col && IndexOf(col, ks[i]) < IndexOf(col, ks[j])
  }

  lemma PutKeepsFirstAppearanceOrder(ks: seq<String>, col: seq<String>, c: String)
    requires forall k :: k in ks <==> k in col
    requires FirstAppearanceOrder(ks, col)
    ensures FirstAppearanceOrder(if c in ks then ks else ks + [c], col + [c])
  {
    var col2 := col + [c];
    forall x | x in col
      ensures IndexOf(col2, x) == IndexOf(col, x)
    {
      IndexOfExtend(col, c, x);
    }
    if c !in ks {
      var ks2 := ks + [c];
      IndexOfNew(col, c);
      forall i, j | 0 <= i < j < |ks2|
        ensures ks2[i] in col2 && ks2[j] in col2 && IndexOf(col2, ks2[i]) < IndexOf(col2, ks2[j])
      {
        assert ks2[i] == ks[i] && ks[i] in col;
        if j == |ks| {
          assert ks2[j] == c;
        } else {
          assert ks2[j] == ks[j];
        }
      }
    }
  }

  /** Entries come in the order of each key's first appearance in the rows: a later
      duplicate row does not move its key. */
  lemma {:induction false} LoadFirstAppearanceOrder(rows: seq<Row>)
    requires WellFormed(rows)
    ensures Load(rows).Ok?
    ensures FirstAppearanceOrder(Keys(Load(rows).value), Column(rows))
  {
    LoadOkIffWellFormed(rows);
    if rows != [] {
      var n := |rows| - 1;
      ColumnPrefix(rows, n);
      LoadKeySet(rows[..n]);
      LoadFirstAppearanceOrder(rows[..n]);
      var ks' := Keys(Load(rows[..n]).value);
      var c := rows[n][CorruptedField];
      assert Column(rows) == Column(rows[..n]) + [c];
      PutKeepsFirstAppearanceOrder(ks', Column(rows[..n]), c);
    }
  }
}
