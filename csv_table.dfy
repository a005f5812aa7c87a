/** The CSV loader's transposition (`csv_to_dict`): from the header and the
    rows a CSV reader has produced to an ordered table of columns. Opening the
    file and the CSV quoting rules belong to the reader and are not modelled;
    the input is the reader's field names and its rows, each row a map from
    field name to value. */
module CsvTable {

  /** One parsed data row: field name to value. */
  type Row = map<string, string>

  /** The reader gives every row a value for every field name. */
  predicate RowsCover(header: seq<string>, rows: seq<Row>)
  {
    forall r, c :: r in rows && c in header ==> c in r
  }

  predicate Distinct(s: seq<string>)
  {
    forall i, j :: 0 <= i < j < |s| ==> s[i] != s[j]
  }

  /** An insertion-ordered dictionary from column name to column values:
      `names` is the key order, `columns` the entries. */
  datatype ColumnTable = ColumnTable(names: seq<string>, columns: map<string, seq<string>>)
  {
    ghost predicate Valid()
    {
      Distinct(names) && forall c :: c in columns <==> c in names
    }

    /** `items()`: the (name, values) pairs in key order. */
    function Items(): (r: seq<(string, seq<string>)>)
      requires Valid()
      ensures |r| == |names|
      ensures forall k :: 0 <= k < |r| ==> r[k].0 == names[k] && r[k].1 == columns[names[k]]
    {
      seq(|names|, k requires 0 <= k < |names| => (names[k], columns[names[k]]))
    }
  }

  /** The key order of `{column: [] for column in header}`: every name once, at
      its first occurrence. */
  function Dedup(s: seq<string>): (r: seq<string>)
    ensures Distinct(r)
    ensures forall x :: x in r <==> x in s
    decreases |s|
  {
    if s == [] then []
    else
      var d := Dedup(s[..|s| - 1]);
      if s[|s| - 1] in d then d else d + [s[|s| - 1]]
  }

  /** The position of the first occurrence of `x` in `s`. */
  function FirstIndex(s: seq<string>, x: string): (r: nat)
    requires x in s
    ensures r < |s| && s[r] == x
    ensures forall k :: 0 <= k < r ==> s[k] != x
    decreases |s|
  {
    if s[0] == x then 0 else 1 + FirstIndex(s[1..], x)
  }

  /** Appending to `s` moves no first occurrence of a name already in `s`. */
  lemma FirstIndexSnoc(s: seq<string>, y: string, x: string)
    requires x in s
    ensures FirstIndex(s + [y], x) == FirstIndex(s, x)
  {
    var p := FirstIndex(s, x);
    assert (s + [y])[p] == x;
  }

  /** The key order keeps the order of first occurrences: a name comes before
      another exactly as its first occurrence in the header comes before the
      other's. */
  lemma {:induction false} DedupFirstOccurrenceOrder(s: seq<string>)
    ensures forall i, j :: 0 <= i < j < |Dedup(s)| ==>
      FirstIndex(s, Dedup(s)[i]) < FirstIndex(s, Dedup(s)[j])
    decreases |s|
  {
    if s != [] {
      var init, last := s[..|s| - 1], s[|s| - 1];
      assert s == init + [last];
      DedupFirstOccurrenceOrder(init);
      var d0, d := Dedup(init), Dedup(s);
      forall x | x in init
        ensures FirstIndex(s, x) == FirstIndex(init, x)
      {
        FirstIndexSnoc(init, last, x);
      }
      if last !in d0 {
        assert FirstIndex(s, last) == |init|;
        forall i, j | 0 <= i < j < |d|
          ensures FirstIndex(s, d[i]) < FirstIndex(s, d[j])
        {
          assert d[i] == d0[i] && d0[i] in init;
          if j < |d0| {
            assert d[j] == d0[j] && d0[j] in init;
          }
        }
      } else {
        forall i, j | 0 <= i < j < |d|
          ensures FirstIndex(s, d[i]) < FirstIndex(s, d[j])
        {
          assert d[i] == d0[i] && d[j] == d0[j] && d0[i] in init && d0[j] in init;
        }
      }
    }
  }

  /** With no repeated name the key order is the header order. */
  lemma {:induction false} DedupDistinct(s: seq<string>)
    requires Distinct(s)
    ensures Dedup(s) == s
    decreases |s|
  {
    if s != [] {
      var init := s[..|s| - 1];
      assert Distinct(init);
      DedupDistinct(init);
      assert s[|s| - 1] !in init;
      assert init + [s[|s| - 1]] == s;
    }
  }

  function Repeat(v: string, n: nat): (r: seq<string>)
    ensures |r| == n
    ensures forall k :: 0 <= k < n ==> r[k] == v
  {
    seq(n, _ => v)
  }

  /** How many times `c` occurs in `s`. */
  function Count(s: seq<string>, c: string): nat
    decreases |s|
  {
    if s == [] then 0
    else Count(s[..|s| - 1], c) + (if s[|s| - 1] == c then 1 else 0)
  }

  lemma RepeatSnoc(v: string, n: nat)
    ensures Repeat(v, n + 1) == Repeat(v, n) + [v]
  {
  }

  lemma {:induction false} CountAbsent(s: seq<string>, c: string)
    requires c !in s
    ensures Count(s, c) == 0
    decreases |s|
  {
    if s != [] {
      CountAbsent(s[..|s| - 1], c);
    }
  }

  /** The column of name `c` after reading `rows`: for each row in order, that
      row's value for `c`, once per occurrence of `c` in the header (the inner
      loop visits every header position). */
  function ColumnOf(header: seq<string>, rows: seq<Row>, c: string): seq<string>
    requires RowsCover(header, rows) && c in header
    decreases |rows|
  {
    if rows == [] then []
    else
      var last := rows[|rows| - 1];
      ColumnOf(header, rows[..|rows| - 1], c) + Repeat(last[c], Count(header, c))
  }

  /** Reading one more row appends that row's block to every column. */
  lemma ColumnOfSnoc(header: seq<string>, rows: seq<Row>, i: nat, c: string)
    requires RowsCover(header, rows) && c in header && i < |rows|
    ensures ColumnOf(header, rows[..i + 1], c)
         == ColumnOf(header, rows[..i], c) + Repeat(rows[i][c], Count(header, c))
  {
    assert rows[..i + 1][..i] == rows[..i];
  }

  /** The table `csv_to_dict` returns. */
  function TableOf(header: seq<string>, rows: seq<Row>): (t: ColumnTable)
    requires RowsCover(header, rows)
    ensures t.Valid()
  {
    ColumnTable(Dedup(header), map c | c in header :: ColumnOf(header, rows, c))
  }

  /** A column holds one value per row for each time its name occurs in the
      header. */
  lemma {:induction false} ColumnOfLength(header: seq<string>, rows: seq<Row>, c: string)
    requires RowsCover(header, rows) && c in header
    ensures |ColumnOf(header, rows, c)| == |rows| * Count(header, c)
    decreases |rows|
  {
    if rows != [] {
      var m, n := |rows|, Count(header, c);
      ColumnOfLength(header, rows[..m - 1], c);
      assert (m - 1) * n + n == m * n;
    }
  }

  /** For a name that occurs once in the header, element `i` of its column is
      row `i`'s value. */
  lemma {:induction false} ColumnOfSingle(header: seq<string>, rows: seq<Row>, c: string)
    requires RowsCover(header, rows) && c in header && Count(header, c) == 1
    ensures |ColumnOf(header, rows, c)| == |rows|
    ensures forall i :: 0 <= i < |rows| ==> ColumnOf(header, rows, c)[i] == rows[i][c]
    decreases |rows|
  {
    if rows != [] {
      var m := |rows|;
      var init := rows[..m - 1];
      ColumnOfSingle(header, init, c);
      var col, prefix := ColumnOf(header, rows, c), ColumnOf(header, init, c);
      assert Repeat(rows[m - 1][c], 1) == [rows[m - 1][c]];
      assert col == prefix + [rows[m - 1][c]];
      forall i | 0 <= i < m
        ensures col[i] == rows[i][c]
      {
        if i < m - 1 {
          assert col[i] == prefix[i] && init[i] == rows[i];
        }
      }
    }
  }

  /** The guarantee of the loader: one entry per distinct header name, in
      header order when the names are distinct, and then every column holds
      exactly one value per data row, in row order. */
  lemma TableOfDistinct(header: seq<string>, rows: seq<Row>)
    requires RowsCover(header, rows) && Distinct(header)
    ensures TableOf(header, rows).names == header
    ensures forall c :: c in header ==>
      var col := TableOf(header, rows).columns[c];
      |col| == |rows| && forall i :: 0 <= i < |rows| ==> col[i] == rows[i][c]
  {
    DedupDistinct(header);
    forall c | c in header
      ensures var col := TableOf(header, rows).columns[c];
        |col| == |rows| && forall i :: 0 <= i < |rows| ==> col[i] == rows[i][c]
    {
      CountDistinct(header, c);
      ColumnOfSingle(header, rows, c);
    }
  }

  lemma {:induction false} CountDistinct(s: seq<string>, c: string)
    requires Distinct(s) && c in s
    ensures Count(s, c) == 1
    decreases |s|
  {
    var init := s[..|s| - 1];
    assert s == init + [s[|s| - 1]];
    assert Distinct(init);
    if s[|s| - 1] == c {
      CountAbsent(init, c);
    } else {
      CountDistinct(init, c);
    }
  }

  /** A repeated header name keeps its first position, and its column
      receives the row's value once per occurrence: header `a, b, a` over one
      row gives `a` two copies of that row's `a`. */
  lemma DuplicateHeaderExample(a: string, b: string, va: string, vb: string)
    requires a != b
    ensures var t := TableOf([a, b, a], [map[a := va, b := vb]]);
      t.names == [a, b] && t.columns[a] == [va, va] && t.columns[b] == [vb]
  {
    var header, row := [a, b, a], map[a := va, b := vb];
    ExampleHeader(a, b);
    ColumnOfOneRow(header, row, a);
    ColumnOfOneRow(header, row, b);
  }

  /** Counting and deduplicating the header `a, b, a`. */
  lemma ExampleHeader(a: string, b: string)
    requires a != b
    ensures Count([a, b, a], a) == 2 && Count([a, b, a], b) == 1
    ensures Dedup([a, b, a]) == [a, b]
  {
    var h1, h2, h3 := [a], [a, b], [a, b, a];
    assert h1[..0] == [] && h2[..1] == h1 && h3[..2] == h2;
    assert Count(h1, a) == 1 && Count(h1, b) == 0 && Dedup(h1) == h1;
    assert Count(h2, a) == 1 && Count(h2, b) == 1 && Dedup(h2) == h2;
  }

  /** Over a single row, a column is that row's value repeated once per
      occurrence of its name. */
  lemma ColumnOfOneRow(header: seq<string>, row: Row, c: string)
    requires c in header && forall d :: d in header ==> d in row
    ensures RowsCover(header, [row])
    ensures ColumnOf(header, [row], c) == Repeat(row[c], Count(header, c))
  {
    var rows := [row];
    assert rows[..0] == [];
  }

  /** The body of the row loop of `csv_to_dict`: for each header position in
      order, append the row's field to that column. */
  method AppendRow(header: seq<string>, row: Row, columns: map<string, seq<string>>)
    returns (updated: map<string, seq<string>>)
    requires forall c :: c in header ==> c in row
    requires forall c :: c in columns <==> c in header
    ensures forall c :: c in updated <==> c in header
    ensures forall c :: c in header ==> updated[c] == columns[c] + Repeat(row[c], Count(header, c))
  {
    updated := columns;
    var j := 0;
    while j < |header|
      invariant 0 <= j <= |header|
      invariant forall c :: c in updated <==> c in header
      invariant forall c :: c in header ==> updated[c] == columns[c] + Repeat(row[c], Count(header[..j], c))
    {
      var column := header[j];
      updated := updated[column := updated[column] + [row[column]]];
      forall c | c in header
        ensures updated[c] == columns[c] + Repeat(row[c], Count(header[..j + 1], c))
      {
        assert header[..j + 1][..j] == header[..j];
        if c == column {
          RepeatSnoc(row[c], Count(header[..j], c));
        }
      }
      j := j + 1;
    }
    assert header[..|header|] == header;
  }

  /** `csv_to_dict` on an already parsed file: start every column empty, then
      for each row append, for each header position, that row's field. */
  method CsvToDict(header: seq<string>, rows: seq<Row>) returns (t: ColumnTable)
    requires RowsCover(header, rows)
    ensures t == TableOf(header, rows)
    ensures t.Valid() && forall c :: c in t.columns <==> c in header
    ensures rows == [] ==> forall c :: c in header ==> t.columns[c] == []
    ensures Distinct(header) ==> t.names == header && forall c :: c in header ==>
      |t.columns[c]| == |rows| && forall i :: 0 <= i < |rows| ==> t.columns[c][i] == rows[i][c]
  {
    var names := Dedup(header);
    var columns: map<string, seq<string>> := map c | c in header :: [];
    var i := 0;
    while i < |rows|
      invariant 0 <= i <= |rows|
      invariant forall c :: c in columns <==> c in header
      invariant forall c :: c in header ==> columns[c] == ColumnOf(header, rows[..i], c)
    {
      assert rows[i] in rows;
      columns := AppendRow(header, rows[i], columns);
      forall c | c in header
        ensures columns[c] == ColumnOf(header, rows[..i + 1], c)
      {
        ColumnOfSnoc(header, rows, i, c);
      }
      i := i + 1;
    }
    assert rows[..|rows|] == rows;
    t := ColumnTable(names, columns);
    assert t == TableOf(header, rows);
    TableOfFacts(header, rows);
  }

  /** What `TableOf` guarantees, gathered for `CsvToDict`. */
  lemma TableOfFacts(header: seq<string>, rows: seq<Row>)
    requires RowsCover(header, rows)
    ensures var t := TableOf(header, rows);
      && t.Valid() && (forall c :: c in t.columns <==> c in header)
      && (rows == [] ==> forall c :: c in header ==> t.columns[c] == [])
      && (Distinct(header) ==> t.names == header && forall c :: c in header ==>
            |t.columns[c]| == |rows| && forall i :: 0 <= i < |rows| ==> t.columns[c][i] == rows[i][c])
  {
    if Distinct(header) {
      TableOfDistinct(header, rows);
    }
  }
}
