/** The cadastral index: the table from a lower-cased municipality name to its
    cadastral code, built from the rows of the cadastral CSV file. */
module CatastaleIndex {
  import opened Results
  import opened Text

  /** One parsed CSV row: field 0 is the cadastral code, field 1 the name. */
  type Row = seq<string>

  /** Lower-cased municipality name -> cadastral code. */
  type Index = map<string, string>

  /** The row has the name field that the index build reads. */
  predicate HasName(row: Row) {
    |row| >= 2
  }

  predicate WellFormed(rows: seq<Row>) {
    forall i :: 0 <= i < |rows| ==> HasName(rows[i])
  }

  /** The key a row is stored under. */
  function Key(row: Row): string
    requires HasName(row)
  {
    Lower(row[1])
  }

  /** The names the rows store, as keys. */
  function KeySet(rows: seq<Row>): set<string>
    requires WellFormed(rows)
  {
    set i | 0 <= i < |rows| :: Key(rows[i])
  }

  /** No row after row `j` carries the same key as row `j`. */
  predicate IsLastWithKey(rows: seq<Row>, j: nat)
    requires WellFormed(rows) && j < |rows|
  {
    forall j' :: j < j' < |rows| ==> Key(rows[j']) != Key(rows[j])
  }

  /** The index the `reduce` over `rows` produces: each row, in order, sets its
      key to its code, so the last row with a key decides the code. A row
      without a name field stops the build with the row's position. */
  function IndexFromRows(rows: seq<Row>): (r: Result<Index>)
    ensures r.Ok? <==> WellFormed(rows)
    ensures r.Err? ==> && r.error.MissingNameField?
                       && r.error.row < |rows|
                       && !HasName(rows[r.error.row])
                       && forall j :: 0 <= j < r.error.row ==> HasName(rows[j])
    decreases |rows|
  {
    if rows == [] then Ok(map[])
    else
      var last := |rows| - 1;
      assert rows[..last] + [rows[last]] == rows;
      match IndexFromRows(rows[..last])
      case Err(e) =>
        assert forall j :: 0 <= j < e.row ==> rows[..last][j] == rows[j];
        Err(e)
      case Ok(m) =>
        if HasName(rows[last]) then Ok(m[Key(rows[last]) := rows[last][0]])
        else Err(MissingNameField(last))
  }

  /** What `loadMunicipalityToCatastale` returns for the parser's outcome `csv`:
      a failed read or parse is passed on, otherwise the index is built. */
  function LoadedIndex(csv: Result<seq<Row>>): Result<Index> {
    match csv
    case Err(e) => Err(e)
    case Ok(rows) => IndexFromRows(rows)
  }

  /** The index build of `loadMunicipalityToCatastale`: one `map.set` per row. */
  method LoadMunicipalityToCatastale(csv: Result<seq<Row>>) returns (r: Result<Index>)
    ensures r == LoadedIndex(csv)
  {
    if csv.Err? {
      return Err(csv.error);
    }
    var rows := csv.value;
    var index: Index := map[];
    var i := 0;
    while i < |rows|
      invariant 0 <= i <= |rows|
      invariant IndexFromRows(rows[..i]) == Ok(index)
    {
      var row := rows[i];
      assert rows[..i + 1][..i] == rows[..i];
      if |row| < 2 {
        // row[1] is undefined: reading its name throws
        return Err(MissingNameField(i));
      }
      index := index[Lower(row[1]) := row[0]];
      i := i + 1;
    }
    assert rows[..i] == rows;
    r := Ok(index);
  }

  /** The build succeeds exactly on the rows that all have a name field. */
  lemma {:induction false} LoadFailsOnShortRow(rows: seq<Row>, i: nat)
    requires i < |rows| && !HasName(rows[i])
    ensures LoadedIndex(Ok(rows)).Err?
    ensures LoadedIndex(Ok(rows)).error.MissingNameField?
    ensures LoadedIndex(Ok(rows)).error.row <= i
  {
  }

  /** The keys of the built index are exactly the lower-cased names of the rows. */
  lemma {:induction false} IndexKeys(rows: seq<Row>)
    requires WellFormed(rows)
    ensures IndexFromRows(rows).value.Keys == KeySet(rows)
  {
    if rows != [] {
      var last := |rows| - 1;
      var prefix := rows[..last];
      assert WellFormed(prefix);
      IndexKeys(prefix);
      assert KeySet(rows) == KeySet(prefix) + {Key(rows[last])} by {
        forall k | k in KeySet(rows) ensures k in KeySet(prefix) + {Key(rows[last])} {
          var t :| 0 <= t < |rows| && Key(rows[t]) == k;
          if t < last {
            assert prefix[t] == rows[t];
          }
        }
        forall k | k in KeySet(prefix) ensures k in KeySet(rows) {
          var t :| 0 <= t < |prefix| && Key(prefix[t]) == k;
          assert rows[t] == prefix[t];
        }
      }
    }
  }

  /** Last write wins: the code stored under a key is the code of the last row
      with that key. */
  lemma {:induction false} LastWriteWins(rows: seq<Row>, j: nat)
    requires WellFormed(rows) && j < |rows| && IsLastWithKey(rows, j)
    ensures Key(rows[j]) in IndexFromRows(rows).value
    ensures IndexFromRows(rows).value[Key(rows[j])] == rows[j][0]
  {
    var last := |rows| - 1;
    if j < last {
      var prefix := rows[..last];
      assert WellFormed(prefix);
      assert prefix[j] == rows[j];
      assert IsLastWithKey(prefix, j) by {
        forall j' | j < j' < |prefix| ensures Key(prefix[j']) != Key(prefix[j]) {
          assert prefix[j'] == rows[j'];
        }
      }
      LastWriteWins(prefix, j);
    }
  }

  /** Every key has a last row carrying it. */
  lemma {:induction false} LastRowExists(rows: seq<Row>, k: string)
    requires WellFormed(rows) && k in KeySet(rows)
    ensures exists j :: 0 <= j < |rows| && Key(rows[j]) == k && IsLastWithKey(rows, j)
  {
    var last := |rows| - 1;
    if Key(rows[last]) != k {
      var prefix := rows[..last];
      assert WellFormed(prefix);
      var t :| 0 <= t < |rows| && Key(rows[t]) == k;
      assert prefix[t] == rows[t];
      LastRowExists(prefix, k);
      var j :| 0 <= j < |prefix| && Key(prefix[j]) == k && IsLastWithKey(prefix, j);
      assert rows[j] == prefix[j];
      assert IsLastWithKey(rows, j) by {
        forall j' | j < j' < |rows| ensures Key(rows[j']) != Key(rows[j]) {
          if j' < last {
            assert prefix[j'] == rows[j'];
          }
        }
      }
    }
  }

  /** Every entry of the index comes from the last row with its key; in
      particular every stored code is the code field of some row. */
  lemma EntryFromLastRow(rows: seq<Row>, k: string)
    requires WellFormed(rows) && k in IndexFromRows(rows).value
    ensures exists j :: && 0 <= j < |rows| && Key(rows[j]) == k && IsLastWithKey(rows, j)
                        && IndexFromRows(rows).value[k] == rows[j][0]
  {
    IndexKeys(rows);
    LastRowExists(rows, k);
    var j :| 0 <= j < |rows| && Key(rows[j]) == k && IsLastWithKey(rows, j);
    LastWriteWins(rows, j);
  }

  /** `rows` without row `i`. */
  function Drop(rows: seq<Row>, i: nat): (s: seq<Row>)
    requires i < |rows|
    ensures |s| == |rows| - 1
    ensures forall t :: 0 <= t < i ==> s[t] == rows[t]
    ensures forall t :: i <= t < |s| ==> s[t] == rows[t + 1]
  {
    rows[..i] + rows[i + 1..]
  }

  /** Dropping a row whose key a later row repeats keeps the key set. */
  lemma DropDuplicateKeepsKeys(rows: seq<Row>, i: nat, j: nat)
    requires WellFormed(rows) && i < j < |rows| && Key(rows[i]) == Key(rows[j])
    ensures WellFormed(Drop(rows, i)) && KeySet(Drop(rows, i)) == KeySet(rows)
  {
    var s := Drop(rows, i);
    forall k | k in KeySet(rows) ensures k in KeySet(s) {
      var t :| 0 <= t < |rows| && Key(rows[t]) == k;
      if t < i {
        assert s[t] == rows[t];
      } else if t == i {
        assert s[j - 1] == rows[j];
      } else {
        assert s[t - 1] == rows[t];
      }
    }
    forall k | k in KeySet(s) ensures k in KeySet(rows) {
      var t :| 0 <= t < |s| && Key(s[t]) == k;
      if t < i {
        assert s[t] == rows[t];
      } else {
        assert s[t] == rows[t + 1];
      }
    }
  }

  /** A row that is last with its key stays last once another row is dropped. */
  lemma DropKeepsLastRow(rows: seq<Row>, i: nat, t: nat)
    requires WellFormed(rows) && i < |rows| && t < |rows| && t != i
    requires IsLastWithKey(rows, t)
    ensures WellFormed(Drop(rows, i))
    ensures var u := if t < i then t else t - 1;
            Drop(rows, i)[u] == rows[t] && IsLastWithKey(Drop(rows, i), u)
  {
  }

  /** Dropping a row whose key a later row repeats keeps the entry of every key. */
  lemma DropDuplicateKeepsEntry(rows: seq<Row>, i: nat, j: nat, k: string)
    requires WellFormed(rows) && i < j < |rows| && Key(rows[i]) == Key(rows[j])
    requires k in KeySet(rows)
    ensures WellFormed(Drop(rows, i))
    ensures k in IndexFromRows(rows).value && k in IndexFromRows(Drop(rows, i)).value
    ensures IndexFromRows(Drop(rows, i)).value[k] == IndexFromRows(rows).value[k]
  {
    LastRowExists(rows, k);
    var t :| 0 <= t < |rows| && Key(rows[t]) == k && IsLastWithKey(rows, t);
    LastWriteWins(rows, t);
    DropKeepsLastRow(rows, i, t);
    LastWriteWins(Drop(rows, i), if t < i then t else t - 1);
  }

  /** An earlier row whose key a later row repeats has no effect: dropping it
      leaves the index unchanged. */
  lemma EarlierDuplicateIgnored(rows: seq<Row>, i: nat, j: nat)
    requires WellFormed(rows) && i < j < |rows| && Key(rows[i]) == Key(rows[j])
    ensures IndexFromRows(Drop(rows, i)) == IndexFromRows(rows)
  {
    var s := Drop(rows, i);
    DropDuplicateKeepsKeys(rows, i, j);
    var m := IndexFromRows(rows).value;
    var m' := IndexFromRows(s).value;
    assert m.Keys == m'.Keys by {
      IndexKeys(rows);
      IndexKeys(s);
    }
    forall k | k in m ensures m'[k] == m[k] {
      IndexKeys(rows);
      DropDuplicateKeepsEntry(rows, i, j, k);
    }
    SameEntriesSameMap(m, m');
  }

  lemma SameEntriesSameMap(m: Index, m': Index)
    requires m.Keys == m'.Keys
    requires forall k :: k in m ==> m'[k] == m[k]
    ensures m == m'
  {
  }

  /** A single row `(code, name)` is found under the lower-cased name. */
  lemma SingleRowLookup(code: string, name: string)
    ensures IndexFromRows([[code, name]]) == Ok(map[Lower(name) := code])
  {
  }
}
