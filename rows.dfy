/** Result rows and their canonical identity key (`row_key`,
    `first_row_value_by_markers`). */
module Rows {
  import opened Wrappers
  import opened Text

  /** One column of a result row. Every value is kept as text: table cells
      are text already, and the one numeric hint (`_row_index`) is only ever
      read back through its text form. */
  datatype Field = Field(name: string, value: string)

  /** A row is an insertion-ordered dictionary from column label to value. */
  type Row = seq<Field>

  /** Column labels are unique, as the keys of a dictionary are. */
  predicate IsDict(row: Row) {
    forall i, j :: 0 <= i < j < |row| ==> row[i].name != row[j].name
  }

  /** Retrieval hints (`_detail_url`, `_row_index`, `_query`, ...) are the
      columns whose label starts with an underscore. */
  predicate IsHint(name: string) {
    |name| > 0 && name[0] == '_'
  }

  /** `row.get(name)`. */
  function Get(row: Row, name: string): Option<string> {
    if row == [] then None
    else if row[0].name == name then Some(row[0].value)
    else Get(row[1..], name)
  }

  /** `row[name] = value`: overwrites the column in place, or appends it. */
  function Put(row: Row, name: string, value: string): (r: Row)
    ensures IsDict(row) ==> IsDict(r)
    ensures Get(r, name) == Some(value)
    ensures forall n :: n != name ==> Get(r, n) == Get(row, n)
    ensures forall f :: f in r ==> f in row || f == Field(name, value)
    ensures Get(row, name).None? ==> r == row + [Field(name, value)]
    ensures IsDict(row) && Get(row, name).Some? ==>
              && |r| == |row|
              && forall i :: 0 <= i < |row| ==> r[i] == if row[i].name == name then Field(name, value) else row[i]
  {
    if row == [] then [Field(name, value)]
    else if row[0].name == name then
      assert IsDict(row) ==> forall i :: 1 <= i < |row| ==> row[i].name != name;
      [Field(name, value)] + row[1..]
    else
      var rest := Put(row[1..], name, value);
      PutConsKeepsDict(row, name, value, rest);
      PutConsInPlace(row, name, value, rest);
      assert Get(row, name).None? ==> [row[0]] + rest == row + [Field(name, value)] by {
        if Get(row, name).None? {
          assert [row[0]] + (row[1..] + [Field(name, value)]) == row + [Field(name, value)];
        }
      }
      [row[0]] + rest
  }

  /** Putting behind a column with another label keeps labels unique. */
  lemma PutConsKeepsDict(row: Row, name: string, value: string, rest: Row)
    requires row != [] && row[0].name != name
    requires IsDict(row[1..]) ==> IsDict(rest)
    requires forall f :: f in rest ==> f in row[1..] || f == Field(name, value)
    ensures IsDict(row) ==> IsDict([row[0]] + rest)
  {
    if IsDict(row) {
      DictTail(row);
      assert forall f :: f in rest ==> f.name != row[0].name by {
        forall f | f in rest ensures f.name != row[0].name {
          if f in row[1..] {
            var k :| 0 <= k < |row[1..]| && row[1..][k] == f;
            assert row[k + 1] == f;
          }
        }
      }
      forall i, j | 0 <= i < j < |rest| + 1 ensures ([row[0]] + rest)[i].name != ([row[0]] + rest)[j].name {
        if i == 0 { assert rest[j - 1] in rest; }
      }
    }
  }

  /** Putting behind a column with another label overwrites in place. */
  lemma PutConsInPlace(row: Row, name: string, value: string, rest: Row)
    requires row != [] && row[0].name != name
    requires IsDict(row[1..]) && Get(row[1..], name).Some? ==>
               && |rest| == |row[1..]|
               && forall i :: 0 <= i < |row[1..]| ==> rest[i] == if row[1..][i].name == name then Field(name, value) else row[1..][i]
    ensures IsDict(row) && Get(row, name).Some? ==>
              && |[row[0]] + rest| == |row|
              && forall i :: 0 <= i < |row| ==> ([row[0]] + rest)[i] == if row[i].name == name then Field(name, value) else row[i]
  {
    DictTail(row);
    if IsDict(row) && Get(row, name).Some? {
      forall i | 0 <= i < |row|
        ensures ([row[0]] + rest)[i] == if row[i].name == name then Field(name, value) else row[i]
      {
        if i > 0 { assert row[1..][i - 1] == row[i]; }
      }
    }
  }

  /** The columns after the first of a dictionary form a dictionary. */
  lemma DictTail(row: Row)
    requires row != []
    ensures IsDict(row) ==> IsDict(row[1..])
  {
    if IsDict(row) {
      forall i, j | 0 <= i < j < |row[1..]| ensures row[1..][i].name != row[1..][j].name {
        assert row[1..][i] == row[i + 1] && row[1..][j] == row[j + 1];
      }
    }
  }

  /** `normalize(value)`: the text of the value with surrounding whitespace
      removed; a missing value is empty. */
  function Normalize(value: Option<string>): string {
    Strip(value.GetOr(""))
  }

  /** The non-hint columns, in their original order (the columns that the
      loops of `row_key` do not skip). */
  function NonHint(row: Row): (r: Row)
    ensures forall f :: f in r <==> f in row && !IsHint(f.name)
    ensures IsDict(row) ==> IsDict(r)
  {
    if row == [] then []
    else if IsHint(row[0].name) then NonHint(row[1..])
    else [row[0]] + NonHint(row[1..])
  }

  /** Registry-identifier vocabulary (registration number, seal number, id). */
  const IdMarkers: seq<string> :=
    ["nyilvantartasi", "nyilvántartási", "pecsetszam", "pecsétszám", "azonosito", "azonosító"]

  /** Display-name vocabulary. */
  const NameMarkers: seq<string> := ["nev", "név"]

  /** The casefolded column label contains one of the markers. */
  predicate Marked(name: string, markers: seq<string>) {
    markers != [] && (Contains(CaseFold(name), markers[0]) || Marked(name, markers[1..]))
  }

  /** A column the marker search stops at: a marked label with a value that
      is not blank. */
  predicate Candidate(f: Field, markers: seq<string>) {
    Marked(f.name, markers) && Normalize(Some(f.value)) != ""
  }

  /** The first column that `accept` takes, scanning in column order: the
      early-returning search loops of `row_key` and
      `first_row_value_by_markers`. */
  function FirstMatch(row: Row, accept: Field -> bool): (r: Option<Field>)
    ensures r.None? <==> forall i :: 0 <= i < |row| ==> !accept(row[i])
    ensures r.Some? ==>
              exists i :: 0 <= i < |row| && row[i] == r.value && accept(row[i])
                          && forall j :: 0 <= j < i ==> !accept(row[j])
  {
    if row == [] then None
    else if accept(row[0]) then Some(row[0])
    else
      var r := FirstMatch(row[1..], accept);
      assert forall i :: 1 <= i < |row| ==> row[i] == row[1..][i - 1];
      r
  }

  /** `first_row_value_by_markers`: the normalised value of the first
      candidate column, or "" when there is none. */
  function FirstRowValueByMarkers(row: Row, markers: seq<string>): (r: string)
    ensures r == "" <==> forall i :: 0 <= i < |row| ==> !Candidate(row[i], markers)
    ensures r != "" ==>
              exists i :: 0 <= i < |row| && Candidate(row[i], markers) && r == Normalize(Some(row[i].value))
                          && forall j :: 0 <= j < i ==> !Candidate(row[j], markers)
  {
    match FirstMatch(row, f => Candidate(f, markers))
    case None => ""
    case Some(f) => Normalize(Some(f.value))
  }

  // ---------------------------------------------------------------------
  // json.dumps(canonical, sort_keys=True, ensure_ascii=False)
  // ---------------------------------------------------------------------

  function HexDigit(n: nat): char
    requires n < 16
  {
    if n < 10 then ('0' as int + n) as char else ('a' as int + n - 10) as char
  }

  /** JSON string escaping with ensure_ascii=False: quote, backslash and the
      control characters are escaped; everything else is written as is. */
  function EscapeChar(c: char): string {
    if c == '"' then "\\\""
    else if c == '\\' then "\\\\"
    else if c == '\n' then "\\n"
    else if c == '\r' then "\\r"
    else if c == '\t' then "\\t"
    else if c == '\U{8}' then "\\b"
    else if c == '\U{c}' then "\\f"
    else if c < ' ' then "\\u00" + [HexDigit(c as int / 16), HexDigit(c as int % 16)]
    else [c]
  }

  function Escape(s: string): string {
    if s == [] then [] else EscapeChar(s[0]) + Escape(s[1..])
  }

  function JsonString(s: string): string {
    "\"" + Escape(s) + "\""
  }

  /** The members of an object, in the given order, separated by ", ". */
  function JsonMembers(fields: Row): string {
    if fields == [] then ""
    else
      var member := JsonString(fields[0].name) + ": " + JsonString(fields[0].value);
      if |fields| == 1 then member else member + ", " + JsonMembers(fields[1..])
  }

  /** Strictly increasing column labels in Python's string order. */
  predicate SortedByName(s: Row) {
    forall i, j :: 0 <= i < j < |s| ==> LexLess(s[i].name, s[j].name)
  }

  function InsertByName(f: Field, s: Row): Row {
    if s == [] then [f]
    else if LexLess(f.name, s[0].name) then [f] + s
    else [s[0]] + InsertByName(f, s[1..])
  }

  /** `sort_keys=True`: the columns ordered by label. */
  function SortByName(s: Row): Row {
    if s == [] then [] else InsertByName(s[0], SortByName(s[1..]))
  }

  lemma {:induction false} InsertByNameElements(f: Field, s: Row)
    ensures |InsertByName(f, s)| == |s| + 1
    ensures forall x :: x in InsertByName(f, s) <==> x == f || x in s
  {
    if s != [] && !LexLess(f.name, s[0].name) {
      InsertByNameElements(f, s[1..]);
      assert s == [s[0]] + s[1..];
    }
  }

  /** Sorting keeps exactly the columns it was given. */
  lemma {:induction false} SortByNameElements(s: Row)
    ensures |SortByName(s)| == |s|
    ensures forall x :: x in SortByName(s) <==> x in s
  {
    if s != [] {
      SortByNameElements(s[1..]);
      InsertByNameElements(s[0], SortByName(s[1..]));
      assert s == [s[0]] + s[1..];
    }
  }

  lemma {:induction false} InsertByNameSorted(f: Field, s: Row)
    requires SortedByName(s)
    requires forall x :: x in s ==> x.name != f.name
    ensures SortedByName(InsertByName(f, s))
  {
    if s != [] {
      if LexLess(f.name, s[0].name) {
        forall j | 1 <= j < |s| + 1
          ensures LexLess(f.name, ([f] + s)[j].name)
        {
          if j > 1 {
            LexLessTransitive(f.name, s[0].name, s[j - 1].name);
          }
        }
      } else {
        assert s[0] in s;
        LexLessTotal(f.name, s[0].name);
        InsertByNameSorted(f, s[1..]);
        var rest := InsertByName(f, s[1..]);
        InsertByNameElements(f, s[1..]);
        forall j | 0 <= j < |rest|
          ensures LexLess(s[0].name, rest[j].name)
        {
          assert rest[j] in rest;
          if rest[j] != f {
            var k :| 0 <= k < |s[1..]| && s[1..][k] == rest[j];
            assert s[k + 1] == rest[j];
          }
        }
      }
    }
  }

  lemma {:induction false} SortByNameSorted(s: Row)
    requires IsDict(s)
    ensures SortedByName(SortByName(s))
  {
    if s != [] {
      assert IsDict(s[1..]) by {
        forall i, j | 0 <= i < j < |s[1..]| ensures s[1..][i].name != s[1..][j].name {
          assert s[1..][i] == s[i + 1] && s[1..][j] == s[j + 1];
        }
      }
      SortByNameSorted(s[1..]);
      SortByNameElements(s[1..]);
      forall x | x in SortByName(s[1..]) ensures x.name != s[0].name {
        var k :| 0 <= k < |s[1..]| && s[1..][k] == x;
        assert s[k + 1] == x;
      }
      InsertByNameSorted(s[0], SortByName(s[1..]));
    }
  }

  /** In a label-sorted row, the tail holds every column but the first. */
  lemma InSortedTail(a: Row, x: Field)
    requires SortedByName(a) && a != []
    ensures x in a[1..] <==> x in a && x != a[0]
  {
    if x in a[1..] {
      var i :| 0 <= i < |a[1..]| && a[1..][i] == x;
      assert a[i + 1] == x;
      LexLessIrreflexive(x.name);
    }
    if x in a && x != a[0] {
      var j :| 0 <= j < |a| && a[j] == x;
      assert a[1..][j - 1] == x;
    }
  }

  /** Two label-sorted rows holding the same columns start alike. */
  lemma SortedSameHead(a: Row, b: Row)
    requires SortedByName(a) && SortedByName(b) && a != [] && b != []
    requires a[0] in b && b[0] in a
    ensures a[0] == b[0]
  {
    if a[0] != b[0] {
      var k :| 0 <= k < |b| && b[k] == a[0];
      var m :| 0 <= m < |a| && a[m] == b[0];
      assert LexLess(b[0].name, a[0].name);
      assert LexLess(a[0].name, b[0].name);
      LexLessAsymmetric(b[0].name, a[0].name);
      assert false;
    }
  }

  lemma SameElementsBothEmpty(a: Row, b: Row)
    requires forall x :: x in a <==> x in b
    ensures a == [] <==> b == []
  {
    if a != [] {
      assert a[0] in a;
    }
    if b != [] {
      assert b[0] in b;
    }
  }

  /** Two label-sorted rows holding the same columns are the same row. */
  lemma {:induction false} SortedRowsEqual(a: Row, b: Row)
    requires SortedByName(a) && SortedByName(b)
    requires forall x :: x in a <==> x in b
    ensures a == b
  {
    SameElementsBothEmpty(a, b);
    if a != [] {
      assert a[0] in a && a[0] in b;
      assert b[0] in b && b[0] in a;
      SortedSameHead(a, b);
      forall x ensures x in a[1..] <==> x in b[1..] {
        InSortedTail(a, x);
        InSortedTail(b, x);
      }
      SortedRowsEqual(a[1..], b[1..]);
      assert a == [a[0]] + a[1..] && b == [b[0]] + b[1..];
    }
  }

  /** The serialised object: `{"label": "value", ...}` with labels sorted. */
  function JsonObject(fields: Row): string {
    "{" + JsonMembers(SortByName(fields)) + "}"
  }

  /** sort_keys makes the serialisation independent of the column order. */
  lemma JsonObjectOrderFree(r1: Row, r2: Row)
    requires IsDict(r1) && IsDict(r2)
    requires forall f :: f in r1 <==> f in r2
    ensures JsonObject(r1) == JsonObject(r2)
  {
    SortByNameSorted(r1);
    SortByNameSorted(r2);
    SortByNameElements(r1);
    SortByNameElements(r2);
    SortedRowsEqual(SortByName(r1), SortByName(r2));
  }

  // ---------------------------------------------------------------------
  // row_key
  // ---------------------------------------------------------------------

  /** `row_key`: `id:<value>` from the first non-hint identifier column with
      a value, otherwise `name:<first name value>|row:<sorted JSON of the
      non-hint columns>`. Skipping hint columns inside the loops is the same
      as searching the row with the hints filtered out. */
  function RowKey(row: Row): string {
    var fields := NonHint(row);
    var id := FirstRowValueByMarkers(fields, IdMarkers);
    if id != "" then "id:" + id
    else "name:" + FirstRowValueByMarkers(fields, NameMarkers) + "|row:" + JsonObject(fields)
  }

  lemma {:induction false} NonHintPutHint(row: Row, name: string, value: string)
    requires IsHint(name)
    ensures NonHint(Put(row, name, value)) == NonHint(row)
  {
    if row != [] && row[0].name != name {
      NonHintPutHint(row[1..], name, value);
      assert Put(row, name, value) == [row[0]] + Put(row[1..], name, value);
    }
  }

  /** Hint columns never affect the key: setting `_query` (or any other
      underscore column) leaves it unchanged. */
  lemma RowKeyIgnoresHints(row: Row, name: string, value: string)
    requires IsHint(name)
    ensures RowKey(Put(row, name, value)) == RowKey(row)
  {
    NonHintPutHint(row, name, value);
  }

  /** Searching the non-hint columns is `row_key`'s loop over all columns
      that skips the hint ones: it stops at the first non-hint column the
      test accepts. */
  lemma {:induction false} FirstMatchSkippingHints(row: Row, accept: Field -> bool, i: nat)
    requires i < |row| && !IsHint(row[i].name) && accept(row[i])
    requires forall j :: 0 <= j < i && !IsHint(row[j].name) ==> !accept(row[j])
    ensures FirstMatch(NonHint(row), accept) == Some(row[i])
  {
    if i > 0 {
      assert forall j :: 0 <= j < i - 1 ==> row[1..][j] == row[j + 1];
      FirstMatchSkippingHints(row[1..], accept, i - 1);
      if !IsHint(row[0].name) {
        assert NonHint(row) == [row[0]] + NonHint(row[1..]);
      }
    }
  }

  /** When some non-hint identifier column has a value, the key is `id:`
      followed by the value of the first such column. */
  lemma RowKeyById(row: Row, i: nat)
    requires i < |row| && !IsHint(row[i].name) && Candidate(row[i], IdMarkers)
    requires forall j :: 0 <= j < i && !IsHint(row[j].name) ==> !Candidate(row[j], IdMarkers)
    ensures RowKey(row) == "id:" + Normalize(Some(row[i].value))
  {
    FirstMatchSkippingHints(row, f => Candidate(f, IdMarkers), i);
  }

  /** Otherwise the key is `name:`, the first non-blank name value (or
      nothing), `|row:` and the sorted serialisation of the non-hint
      columns. */
  lemma RowKeyByName(row: Row)
    requires forall f :: f in row && !IsHint(f.name) ==> !Candidate(f, IdMarkers)
    ensures RowKey(row) == "name:" + FirstRowValueByMarkers(NonHint(row), NameMarkers)
                           + "|row:" + JsonObject(NonHint(row))
  {
    var fields := NonHint(row);
    forall i | 0 <= i < |fields| ensures !Candidate(fields[i], IdMarkers) {
      assert fields[i] in fields;
    }
  }

  /** Every candidate column of the row carries the same normalised value,
      so the marker search has at most one possible answer. */
  predicate OneCandidateValue(row: Row, markers: seq<string>) {
    forall f, g :: f in row && g in row && Candidate(f, markers) && Candidate(g, markers)
                   ==> Normalize(Some(f.value)) == Normalize(Some(g.value))
  }

  /** Two rows with the same columns in different orders give the same
      answer to a search that has at most one possible answer. */
  lemma FirstValueOrderFree(a: Row, b: Row, markers: seq<string>)
    requires forall f :: f in a <==> f in b
    requires OneCandidateValue(a, markers)
    ensures FirstRowValueByMarkers(a, markers) == FirstRowValueByMarkers(b, markers)
  {
    var ra, rb := FirstRowValueByMarkers(a, markers), FirstRowValueByMarkers(b, markers);
    if ra != "" {
      var i :| 0 <= i < |a| && Candidate(a[i], markers) && ra == Normalize(Some(a[i].value));
      assert a[i] in b;
      assert rb != "";
      var k :| 0 <= k < |b| && Candidate(b[k], markers) && rb == Normalize(Some(b[k].value));
      assert b[k] in a;
    }
  }

  /** Permuting the columns of a row does not change its key, as long as the
      identifier search and the name search each have at most one possible
      answer among the non-hint columns. */
  lemma RowKeyOrderFree(r1: Row, r2: Row)
    requires IsDict(r1) && IsDict(r2)
    requires forall f :: f in r1 <==> f in r2
    requires OneCandidateValue(NonHint(r1), IdMarkers)
    requires OneCandidateValue(NonHint(r1), NameMarkers)
    ensures RowKey(r1) == RowKey(r2)
  {
    var n1, n2 := NonHint(r1), NonHint(r2);
    assert forall f :: f in n1 <==> f in n2;
    FirstValueOrderFree(n1, n2, IdMarkers);
    FirstValueOrderFree(n1, n2, NameMarkers);
    JsonObjectOrderFree(n1, n2);
  }

  /** A marker anywhere in the vocabulary marks the column. */
  lemma {:induction false} MarkedAt(name: string, markers: seq<string>, k: nat)
    requires k < |markers| && Contains(CaseFold(name), markers[k])
    ensures Marked(name, markers)
  {
    if k > 0 {
      MarkedAt(name, markers[1..], k - 1);
    }
  }

  /** A row that opens with a non-hint identifier column with a value is
      keyed by that value, whatever column follows. */
  lemma RowKeyOfLeadingId(a: Field, b: Field)
    requires !IsHint(a.name) && Candidate(a, IdMarkers)
    ensures RowKey([a, b]) == "id:" + Normalize(Some(a.value))
  {
    RowKeyById([a, b], 0);
  }

  /** ... but with two identifier columns holding different values, the
      first one in column order wins, so swapping them changes the key. */
  lemma RowKeyOrderSensitive(a: Field, b: Field)
    requires Candidate(a, IdMarkers) && Candidate(b, IdMarkers) && !IsHint(a.name) && !IsHint(b.name)
    requires a.name != b.name
    requires Normalize(Some(a.value)) != Normalize(Some(b.value))
    ensures RowKey([a, b]) != RowKey([b, a])
  {
    RowKeyOfLeadingId(a, b);
    RowKeyOfLeadingId(b, a);
    var va, vb := Normalize(Some(a.value)), Normalize(Some(b.value));
    assert ("id:" + va)[3..] == va;
    assert ("id:" + vb)[3..] == vb;
  }
}
