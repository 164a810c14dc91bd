/** The record store of a crawl (`collected` in `run`, an insertion-ordered
    dictionary from record key to row), how a result batch is merged into
    it, and the CSV column list of `save_outputs`. The merge is stated for
    any key function; the crawl uses `RowKey`. */
module Store {
  import opened Seqs
  import opened Rows

  /** An insertion-ordered dictionary: the keys in the order they were first
      stored, and the row stored under each. */
  datatype Table = Table(keys: seq<string>, rows: map<string, Row>)

  ghost predicate WellFormed(t: Table) {
    Distinct(t.keys) && forall k :: k in t.rows <==> k in t.keys
  }

  const Empty := Table([], map[])

  /** `collected[key] = row`: a new key goes to the end, an existing key
      keeps its place and gets the new row. */
  function Assign(t: Table, key: string, row: Row): (r: Table)
    ensures WellFormed(t) ==> WellFormed(r)
    ensures r.rows == t.rows[key := row]
    ensures r.keys == if key in t.rows then t.keys else t.keys + [key]
  {
    if key in t.rows then Table(t.keys, t.rows[key := row]) else Table(t.keys + [key], t.rows[key := row])
  }

  /** `list(collected.values())`: the rows in key-insertion order. */
  function Values(t: Table): (vs: seq<Row>)
    requires WellFormed(t)
    ensures |vs| == |t.keys|
    ensures forall i :: 0 <= i < |vs| ==> vs[i] == t.rows[t.keys[i]]
  {
    seq(|t.keys|, i requires 0 <= i < |t.keys| => t.rows[t.keys[i]])
  }

  /** `row["_query"] = term` for every row of a batch. */
  function Tag(rows: seq<Row>, term: string): (tagged: seq<Row>)
    ensures |tagged| == |rows|
    ensures forall i :: 0 <= i < |rows| ==> tagged[i] == Put(rows[i], "_query", term)
  {
    seq(|rows|, i requires 0 <= i < |rows| => Put(rows[i], "_query", term))
  }

  /** The table after storing every row of the batch under its key, in batch
      order. */
  function MergeAll(t: Table, rows: seq<Row>, key: Row -> string): Table
    decreases |rows|
  {
    if rows == [] then t else MergeAll(Assign(t, key(rows[0]), rows[0]), rows[1..], key)
  }

  /** `new_unique_rows`: the rows whose key was not stored when they were
      reached, in batch order. */
  function Fresh(known: set<string>, rows: seq<Row>, key: Row -> string): seq<Row>
    decreases |rows|
  {
    if rows == [] then []
    else if key(rows[0]) in known then Fresh(known, rows[1..], key)
    else [rows[0]] + Fresh(known + {key(rows[0])}, rows[1..], key)
  }

  function KeysOf(rows: seq<Row>, key: Row -> string): (ks: seq<string>)
    ensures |ks| == |rows| && forall i :: 0 <= i < |rows| ==> ks[i] == key(rows[i])
  {
    seq(|rows|, i requires 0 <= i < |rows| => key(rows[i]))
  }

  predicate HasKey(rows: seq<Row>, key: Row -> string, k: string) {
    exists i :: 0 <= i < |rows| && key(rows[i]) == k
  }

  /** Storing a batch row by row: the first row, then the rest. */
  lemma MergeStep(t: Table, row: Row, rest: seq<Row>, key: Row -> string)
    ensures MergeAll(t, [row] + rest, key) == MergeAll(Assign(t, key(row), row), rest, key)
    ensures key(row) in t.rows ==> Fresh(t.rows.Keys, [row] + rest, key) == Fresh(t.rows.Keys, rest, key)
    ensures key(row) !in t.rows ==> Fresh(t.rows.Keys, [row] + rest, key) == [row] + Fresh(t.rows.Keys + {key(row)}, rest, key)
    ensures key(row) !in t.rows ==> t.rows[key(row) := row].Keys == t.rows.Keys + {key(row)}
    ensures key(row) in t.rows ==> t.rows[key(row) := row].Keys == t.rows.Keys
  {
    assert ([row] + rest)[1..] == rest;
  }

  /** A batch has a key iff its first row has it or the rest does. */
  lemma HasKeyTail(rows: seq<Row>, key: Row -> string, k: string)
    requires rows != []
    ensures HasKey(rows, key, k) <==> key(rows[0]) == k || HasKey(rows[1..], key, k)
  {
    if HasKey(rows[1..], key, k) {
      var i :| 0 <= i < |rows[1..]| && key(rows[1..][i]) == k;
      assert key(rows[i + 1]) == k;
    }
    if HasKey(rows, key, k) && key(rows[0]) != k {
      var i :| 0 <= i < |rows| && key(rows[i]) == k;
      assert rows[1..][i - 1] == rows[i];
    }
  }

  /** After the merge the table holds exactly the keys it held before and
      the keys of the batch: no key is ever dropped. */
  lemma {:induction false} MergeAllDomain(t: Table, rows: seq<Row>, key: Row -> string)
    decreases |rows|
    ensures forall k :: k in MergeAll(t, rows, key).rows <==> k in t.rows || HasKey(rows, key, k)
  {
    if rows != [] {
      var t' := Assign(t, key(rows[0]), rows[0]);
      MergeAllDomain(t', rows[1..], key);
      forall k ensures k in MergeAll(t, rows, key).rows <==> k in t.rows || HasKey(rows, key, k) {
        HasKeyTail(rows, key, k);
      }
    }
  }

  /** The merge keeps the table well formed. */
  lemma {:induction false} MergeAllWellFormed(t: Table, rows: seq<Row>, key: Row -> string)
    requires WellFormed(t)
    decreases |rows|
    ensures WellFormed(MergeAll(t, rows, key))
  {
    if rows != [] {
      MergeAllWellFormed(Assign(t, key(rows[0]), rows[0]), rows[1..], key);
    }
  }

  /** The merge keeps the old keys in place and appends the keys of the
      fresh rows, in batch order. */
  lemma {:induction false} MergeAllKeys(t: Table, rows: seq<Row>, key: Row -> string)
    decreases |rows|
    ensures MergeAll(t, rows, key).keys == t.keys + KeysOf(Fresh(t.rows.Keys, rows, key), key)
  {
    if rows != [] {
      var row, rest := rows[0], rows[1..];
      assert rows == [row] + rest;
      MergeStep(t, row, rest, key);
      var t' := Assign(t, key(row), row);
      MergeAllKeys(t', rest, key);
      if key(row) !in t.rows {
        KeysOfCons(row, Fresh(t'.rows.Keys, rest, key), key);
      }
    } else {
      assert KeysOf([], key) == [];
    }
  }

  lemma KeysOfCons(row: Row, rest: seq<Row>, key: Row -> string)
    ensures KeysOf([row] + rest, key) == [key(row)] + KeysOf(rest, key)
  {
  }

  /** Last write wins: a key of the batch holds the last batch row with that
      key; every other key keeps its row. */
  lemma {:induction false} MergeAllLastWriteWins(t: Table, rows: seq<Row>, key: Row -> string)
    decreases |rows|
    ensures var r := MergeAll(t, rows, key);
            && (forall i :: 0 <= i < |rows| && (forall j :: i < j < |rows| ==> key(rows[j]) != key(rows[i]))
                  ==> key(rows[i]) in r.rows && r.rows[key(rows[i])] == rows[i])
            && (forall k :: k in t.rows && !HasKey(rows, key, k) ==> k in r.rows && r.rows[k] == t.rows[k])
  {
    if rows != [] {
      var t' := Assign(t, key(rows[0]), rows[0]);
      MergeAllLastWriteWins(t', rows[1..], key);
      var r := MergeAll(t, rows, key);
      forall i | 0 <= i < |rows| && (forall j :: i < j < |rows| ==> key(rows[j]) != key(rows[i]))
        ensures key(rows[i]) in r.rows && r.rows[key(rows[i])] == rows[i]
      {
        if i == 0 {
          forall j | 0 <= j < |rows[1..]| ensures key(rows[1..][j]) != key(rows[0]) {
            assert rows[1..][j] == rows[j + 1];
          }
          assert !HasKey(rows[1..], key, key(rows[0]));
        } else {
          assert rows[i] == rows[1..][i - 1];
          forall j | i - 1 < j < |rows[1..]| ensures key(rows[1..][j]) != key(rows[1..][i - 1]) {
            assert rows[1..][j] == rows[j + 1];
          }
        }
      }
      forall k | k in t.rows && !HasKey(rows, key, k)
        ensures k in r.rows && r.rows[k] == t.rows[k]
      {
        HasKeyTail(rows, key, k);
      }
    }
  }

  /** Every fresh row is a batch row whose key was not stored before. */
  lemma {:induction false} FreshAreNew(known: set<string>, rows: seq<Row>, key: Row -> string)
    decreases |rows|
    ensures forall f :: f in Fresh(known, rows, key) ==> f in rows && key(f) !in known
  {
    if rows != [] {
      var k0 := key(rows[0]);
      if k0 in known {
        FreshAreNew(known, rows[1..], key);
      } else {
        FreshAreNew(known + {k0}, rows[1..], key);
      }
    }
  }

  /** The fresh rows carry pairwise different keys. */
  lemma {:induction false} FreshKeysDistinct(known: set<string>, rows: seq<Row>, key: Row -> string)
    decreases |rows|
    ensures Distinct(KeysOf(Fresh(known, rows, key), key))
  {
    if rows != [] {
      var k0 := key(rows[0]);
      if k0 in known {
        FreshKeysDistinct(known, rows[1..], key);
      } else {
        var rest := Fresh(known + {k0}, rows[1..], key);
        FreshKeysDistinct(known + {k0}, rows[1..], key);
        FreshAreNew(known + {k0}, rows[1..], key);
        var ks := KeysOf([rows[0]] + rest, key);
        forall i, j | 0 <= i < j < |ks| ensures ks[i] != ks[j] {
          assert ks[j] == KeysOf(rest, key)[j - 1];
          assert rest[j - 1] in rest;
          if i > 0 {
            assert ks[i] == KeysOf(rest, key)[i - 1];
          }
        }
      }
    } else {
      assert KeysOf([], key) == [];
    }
  }

  /** Row i is the first row of the batch with its key. */
  predicate FirstWithKey(rows: seq<Row>, key: Row -> string, i: nat)
    requires i < |rows|
  {
    forall j :: 0 <= j < i ==> key(rows[j]) != key(rows[i])
  }

  /** Every fresh row is the first batch row with its key. */
  lemma {:induction false} FreshAreFirst(known: set<string>, rows: seq<Row>, key: Row -> string)
    decreases |rows|
    ensures forall f :: f in Fresh(known, rows, key) ==>
              exists i :: 0 <= i < |rows| && rows[i] == f && FirstWithKey(rows, key, i)
  {
    if rows != [] {
      var k0 := key(rows[0]);
      var known' := if k0 in known then known else known + {k0};
      var rest := Fresh(known', rows[1..], key);
      FreshAreFirst(known', rows[1..], key);
      FreshAreNew(known', rows[1..], key);
      forall f | f in Fresh(known, rows, key)
        ensures exists i :: 0 <= i < |rows| && rows[i] == f && FirstWithKey(rows, key, i)
      {
        if f == rows[0] {
          assert FirstWithKey(rows, key, 0);
        } else {
          assert f in rest;
          var i :| 0 <= i < |rows[1..]| && rows[1..][i] == f && FirstWithKey(rows[1..], key, i);
          assert rows[i + 1] == f;
          forall j | 0 <= j < i + 1 ensures key(rows[j]) != key(f) {
            if j > 0 { assert rows[j] == rows[1..][j - 1]; }
          }
          assert FirstWithKey(rows, key, i + 1);
        }
      }
    }
  }

  /** Every key of the batch that was not stored before is the key of a
      fresh row. */
  lemma {:induction false} FreshCoverNewKeys(known: set<string>, rows: seq<Row>, key: Row -> string)
    decreases |rows|
    ensures forall i :: 0 <= i < |rows| && key(rows[i]) !in known ==>
              exists f :: f in Fresh(known, rows, key) && key(f) == key(rows[i])
  {
    if rows != [] {
      var k0 := key(rows[0]);
      var known' := if k0 in known then known else known + {k0};
      FreshCoverNewKeys(known', rows[1..], key);
      forall i | 0 <= i < |rows| && key(rows[i]) !in known
        ensures exists f :: f in Fresh(known, rows, key) && key(f) == key(rows[i])
      {
        if key(rows[i]) == k0 {
          assert rows[0] in Fresh(known, rows, key);
        } else {
          assert rows[i] == rows[1..][i - 1];
        }
      }
    }
  }

  /** One turn of the merge loop re-establishes its invariant. */
  lemma MergeLoopStep(keys: seq<string>, table: map<string, Row>, newRows: seq<Row>,
                      row: Row, rest: seq<Row>, key: Row -> string, target: Table, fresh0: seq<Row>)
    requires MergeAll(Table(keys, table), [row] + rest, key) == target
    requires newRows + Fresh(table.Keys, [row] + rest, key) == fresh0
    ensures var k := key(row);
            var keys' := if k in table then keys else keys + [k];
            var newRows' := if k in table then newRows else newRows + [row];
            && MergeAll(Table(keys', table[k := row]), rest, key) == target
            && newRows' + Fresh(table[k := row].Keys, rest, key) == fresh0
  {
    var k := key(row);
    MergeStep(Table(keys, table), row, rest, key);
    if k !in table {
      assert newRows + ([row] + Fresh(table.Keys + {k}, rest, key)) == (newRows + [row]) + Fresh(table.Keys + {k}, rest, key);
    }
  }

  /** The merge loop of `run`: store each row under its key
      (`collected[key] = row`, so the last write wins) and collect the rows
      whose key was not stored yet. */
  method MergeRows(t0: Table, rows: seq<Row>, key: Row -> string) returns (t: Table, newRows: seq<Row>)
    ensures t == MergeAll(t0, rows, key)
    ensures newRows == Fresh(t0.rows.Keys, rows, key)
  {
    ghost var target := MergeAll(t0, rows, key);
    ghost var fresh0 := Fresh(t0.rows.Keys, rows, key);
    var keys, table := t0.keys, t0.rows;
    newRows := [];
    var i := 0;
    assert rows[0..] == rows;
    while i < |rows|
      invariant 0 <= i <= |rows|
      invariant MergeAll(Table(keys, table), rows[i..], key) == target
      invariant newRows + Fresh(table.Keys, rows[i..], key) == fresh0
    {
      var row := rows[i];
      var k := key(row);
      assert rows[i..] == [row] + rows[i + 1..];
      MergeLoopStep(keys, table, newRows, row, rows[i + 1..], key, target, fresh0);
      if k !in table {
        newRows := newRows + [row];
        keys := keys + [k];
      }
      table := table[k := row];
      i := i + 1;
    }
    assert rows[i..] == [];
    t := Table(keys, table);
  }

  /** A batch of search results is tagged with its term (`row["_query"] =
      term`) and merged. */
  method MergeBatch(t0: Table, term: string, rows: seq<Row>, key: Row -> string) returns (t: Table, newRows: seq<Row>)
    ensures t == MergeAll(t0, Tag(rows, term), key)
    ensures newRows == Fresh(t0.rows.Keys, Tag(rows, term), key)
  {
    t, newRows := MergeRows(t0, Tag(rows, term), key);
  }

  /** The column names of one row, in row order. */
  function FieldNames(row: Row): (ns: seq<string>)
    ensures |ns| == |row| && forall i :: 0 <= i < |row| ==> ns[i] == row[i].name
  {
    seq(|row|, i requires 0 <= i < |row| => row[i].name)
  }

  /** The column names of all rows, row by row. */
  function Names(rows: seq<Row>): seq<string> {
    if rows == [] then [] else Names(rows[..|rows| - 1]) + FieldNames(rows[|rows| - 1])
  }

  lemma {:induction false} NamesElements(rows: seq<Row>)
    ensures forall n :: n in Names(rows) <==> exists r :: r in rows && n in FieldNames(r)
  {
    if rows != [] {
      var init := rows[..|rows| - 1];
      NamesElements(init);
      assert rows == init + [rows[|rows| - 1]];
      forall n ensures n in Names(rows) <==> exists r :: r in rows && n in FieldNames(r) {
        if n in Names(init) {
          var r :| r in init && n in FieldNames(r);
          assert r in rows;
        }
        if exists r :: r in rows && n in FieldNames(r) {
          var r :| r in rows && n in FieldNames(r);
          if r != rows[|rows| - 1] {
            assert r in init;
          }
        }
      }
    }
  }

  /** The CSV columns of `save_outputs`: every column name of every row,
      each once, in the order they are first met. */
  method ColumnUnion(rows: seq<Row>) returns (columns: seq<string>)
    ensures columns == Dedup(Names(rows))
  {
    columns := [];
    var seen: set<string> := {};
    var i := 0;
    while i < |rows|
      invariant 0 <= i <= |rows|
      invariant columns == Dedup(Names(rows[..i]))
      invariant forall n :: n in seen <==> n in columns
    {
      var row := rows[i];
      assert rows[..i + 1][..i] == rows[..i];
      ghost var before := Names(rows[..i]);
      assert FieldNames(row)[..0] == [] && before + [] == before;
      var j := 0;
      while j < |row|
        invariant 0 <= j <= |row|
        invariant columns == Dedup(before + FieldNames(row)[..j])
        invariant forall n :: n in seen <==> n in columns
      {
        var name := row[j].name;
        DedupElements(before + FieldNames(row)[..j]);
        DedupSnoc(before + FieldNames(row)[..j], name);
        assert before + FieldNames(row)[..j + 1] == (before + FieldNames(row)[..j]) + [name];
        if name !in seen {
          seen := seen + {name};
          columns := columns + [name];
        }
        j := j + 1;
      }
      assert FieldNames(row)[..|row|] == FieldNames(row);
      i := i + 1;
    }
    assert rows[..|rows|] == rows;
  }

  /** The columns list every name of every row exactly once, in the order
      of first discovery. */
  lemma ColumnsOfRows(rows: seq<Row>)
    ensures var columns := Dedup(Names(rows));
            && Distinct(columns)
            && (forall n :: n in columns <==> exists r :: r in rows && n in FieldNames(r))
            && InFirstOccurrenceOrder(columns, Names(rows))
  {
    DedupDistinct(Names(rows));
    DedupElements(Names(rows));
    NamesElements(rows);
    DedupFirstOccurrenceOrder(Names(rows));
  }
}
