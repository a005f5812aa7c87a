/** SPL synthesis in `generate_lookup`: one template fragment per column,
    every fragment after the first wrapped in `| appendcols [...]`, the parts
    joined with newlines and followed by the output command. */
module Spl {
  import opened Wrappers
  import opened Text
  import opened CsvTable

  /** The template text before the first `{field}`; the template is
      `"\n    | makeresults\n    | eval \"{field}\"=\"{data}\"\n    | makemv delim=\",\" \"{field}\"\n    | mvexpand \"{field}\"\n    "`. */
  const Opening: string := "\n    | makeresults\n    | eval \""
  /** Between `{field}` and `{data}`. */
  const Assign: string := "\"=\""

  /** The template after `{data}`, with the column name filled in at its two
      remaining `{field}` places. */
  function Closing(field: string): string
  {
    "\"\n    | makemv delim=\",\" \"" + field + "\"\n    | mvexpand \"" + field + "\"\n    "
  }

  /** `SPL_TEMPLATE.format(field=field, data=data)`. */
  function Fragment(field: string, data: string): string
  {
    Opening + field + Assign + data + Closing(field)
  }

  /** Reads a fragment back into its column name and data string; `None` for
      text that is not a fragment. */
  function ParseFragment(s: string): (r: Option<(string, string)>)
  {
    if |s| < |Opening| || s[..|Opening|] != Opening then None
    else
      var rest := s[|Opening|..];
      var field := Split(rest, '"')[0];
      SplitHead(rest, '"');
      var afterField := rest[|field|..];
      if |afterField| < |Assign| || afterField[..|Assign|] != Assign then None
      else
        var tail := afterField[|Assign|..];
        var data := Split(tail, '"')[0];
        SplitHead(tail, '"');
        if tail[|data|..] == Closing(field) then Some((field, data)) else None
  }

  /** Whatever parses is exactly the fragment of what it parses to. */
  lemma ParseFragmentSound(s: string)
    requires ParseFragment(s).Some?
    ensures s == Fragment(ParseFragment(s).value.0, ParseFragment(s).value.1)
  {
    var rest := s[|Opening|..];
    var field := Split(rest, '"')[0];
    SplitHead(rest, '"');
    var afterField := rest[|field|..];
    var tail := afterField[|Assign|..];
    var data := Split(tail, '"')[0];
    SplitHead(tail, '"');
    Rejoin(s, |Opening|);
    Rejoin(rest, |field|);
    Rejoin(afterField, |Assign|);
    Rejoin(tail, |data|);
    FragmentOfPieces(s, rest, afterField, tail, field, data);
  }

  /** Cutting a sequence at `n` and gluing the halves gives it back. */
  lemma Rejoin(s: string, n: nat)
    requires n <= |s|
    ensures s == s[..n] + s[n..]
  {
  }

  /** Text made of the template's pieces in order is their fragment. */
  lemma FragmentOfPieces(s: string, rest: string, afterField: string, tail: string, field: string, data: string)
    requires s == Opening + rest && rest == field + afterField
    requires afterField == Assign + tail && tail == data + Closing(field)
    ensures s == Fragment(field, data)
  {
    Associate(Opening, field, Assign, data, Closing(field));
  }

  lemma Associate(a: string, b: string, c: string, d: string, e: string)
    ensures a + (b + (c + (d + e))) == a + b + c + d + e
  {
  }

  /** Round trip: a column name and data string free of `"` are read back
      from their fragment. */
  lemma ParseFragmentComplete(field: string, data: string)
    requires '"' !in field && '"' !in data
    ensures ParseFragment(Fragment(field, data)) == Some((field, data))
  {
    var s := Fragment(field, data);
    var tail := data + Closing(field);
    var afterField := Assign + tail;
    var rest := field + afterField;
    Associate(Opening, field, Assign, data, Closing(field));
    assert s == Opening + rest;
    Halves(Opening, rest);
    Halves(field, afterField);
    Halves(Assign, tail);
    Halves(data, Closing(field));
    assert Split(rest, '"')[0] == field by {
      FieldIsFirstPiece(field, data);
    }
    assert Split(tail, '"')[0] == data by {
      DataIsFirstPiece(data, field);
    }
    ParseFragmentSteps(s, rest, afterField, tail, field, data);
  }

  /** The parser's steps, one per premise. */
  lemma ParseFragmentSteps(s: string, rest: string, afterField: string, tail: string, field: string, data: string)
    requires |s| >= |Opening| && s[..|Opening|] == Opening && s[|Opening|..] == rest
    requires Split(rest, '"')[0] == field && |field| <= |rest| && rest[|field|..] == afterField
    requires |afterField| >= |Assign| && afterField[..|Assign|] == Assign && afterField[|Assign|..] == tail
    requires Split(tail, '"')[0] == data && |data| <= |tail| && tail[|data|..] == Closing(field)
    ensures ParseFragment(s) == Some((field, data))
  {
  }

  /** The two halves of a concatenation. */
  lemma Halves(a: string, b: string)
    ensures |a + b| == |a| + |b| && (a + b)[..|a|] == a && (a + b)[|a|..] == b
  {
  }

  lemma FieldIsFirstPiece(field: string, data: string)
    requires '"' !in field
    ensures Split(field + (Assign + (data + Closing(field))), '"')[0] == field
  {
    var after := "=\"" + data + Closing(field);
    assert field + (Assign + (data + Closing(field))) == field + ['"'] + after;
    SplitAtFirstSeparator(field, '"', after);
  }

  lemma DataIsFirstPiece(data: string, field: string)
    requires '"' !in data
    ensures Split(data + Closing(field), '"')[0] == data
  {
    var closing := Closing(field);
    assert data + closing == data + ['"'] + closing[1..];
    SplitAtFirstSeparator(data, '"', closing[1..]);
  }

  /** The fragment of a column carries all of its values: a name free of `"`
      and a non-empty list of values free of `"` and `,` are recovered from it. */
  lemma FragmentRecoversColumn(field: string, values: seq<string>)
    requires '"' !in field && |values| >= 1
    requires forall k :: 0 <= k < |values| ==> '"' !in values[k] && ',' !in values[k]
    ensures var p := ParseFragment(Fragment(field, Join(',', values)));
      p.Some? && p.value.0 == field && Split(p.value.1, ',') == values
  {
    JoinAvoids(',', values, '"');
    ParseFragmentComplete(field, Join(',', values));
    SplitJoin(',', values);
  }

  /** A join of pieces free of a character `c` other than the separator is
      free of `c`. */
  lemma {:induction false} JoinAvoids(sep: char, xs: seq<string>, c: char)
    requires c != sep
    requires forall k :: 0 <= k < |xs| ==> c !in xs[k]
    ensures c !in Join(sep, xs)
    decreases |xs|
  {
    if |xs| > 1 {
      JoinAvoids(sep, xs[1..], c);
    }
  }

  /** `f"| appendcols [{fragment}]"` */
  function Appended(fragment: string): string
  {
    "| appendcols [" + fragment + "]"
  }

  /** The part the loop appends for the column at position `index`. */
  function Part(index: nat, column: (string, seq<string>)): string
  {
    var fragment := Fragment(column.0, Join(',', column.1));
    if index > 0 then Appended(fragment) else fragment
  }

  function Parts(items: seq<(string, seq<string>)>): (parts: seq<string>)
    ensures |parts| == |items|
    ensures forall k :: 0 <= k < |items| ==> parts[k] == Part(k, items[k])
  {
    seq(|items|, k requires 0 <= k < |items| => Part(k, items[k]))
  }

  /** `f"| fields - _time | outputlookup {lookup_name}"` */
  function OutputCommand(lookup: string): string
  {
    "| fields - _time | outputlookup " + lookup
  }

  /** The generation query for the columns `items` and target `lookup`. */
  function GenerationQuery(items: seq<(string, seq<string>)>, lookup: string): string
  {
    Join('\n', Parts(items)) + OutputCommand(lookup)
  }

  /** The query body built column by column: the first column's fragment, then
      for every further column a newline and its wrapped fragment. */
  function Composed(items: seq<(string, seq<string>)>): string
    decreases |items|
  {
    if |items| == 0 then ""
    else if |items| == 1 then Fragment(items[0].0, Join(',', items[0].1))
    else
      var last := items[|items| - 1];
      Composed(items[..|items| - 1]) + "\n" + Appended(Fragment(last.0, Join(',', last.1)))
  }

  /** The joined parts are the column-by-column composition. */
  lemma {:induction false} PartsJoinComposed(items: seq<(string, seq<string>)>)
    ensures Join('\n', Parts(items)) == Composed(items)
    decreases |items|
  {
    if |items| > 1 {
      var init, last := items[..|items| - 1], items[|items| - 1];
      var part := Part(|items| - 1, last);
      PartsJoinComposed(init);
      PartsSnoc(items);
      JoinSnoc('\n', Parts(init), part);
      assert part == Appended(Fragment(last.0, Join(',', last.1)));
    }
  }

  lemma PartsSnoc(items: seq<(string, seq<string>)>)
    requires |items| >= 1
    ensures Parts(items) == Parts(items[..|items| - 1]) + [Part(|items| - 1, items[|items| - 1])]
  {
  }

  /** The shape of the generation query: with no column it is the output
      command alone; otherwise it starts with the first column's unwrapped
      fragment, and adding a column inserts a newline and that column's
      wrapped fragment just before the output command. */
  lemma GenerationQueryShape(items: seq<(string, seq<string>)>, lookup: string, column: (string, seq<string>))
    ensures GenerationQuery([], lookup) == OutputCommand(lookup)
    ensures Part(0, (column.0, [])) == Fragment(column.0, "")
    ensures GenerationQuery([column], lookup) == Fragment(column.0, Join(',', column.1)) + OutputCommand(lookup)
    ensures |items| >= 1 ==>
      var q := GenerationQuery(items, lookup);
      var first := Fragment(items[0].0, Join(',', items[0].1));
      |first| <= |q| && q[..|first|] == first
    ensures |items| >= 1 ==>
      GenerationQuery(items + [column], lookup)
      == Join('\n', Parts(items)) + "\n" + Appended(Fragment(column.0, Join(',', column.1))) + OutputCommand(lookup)
  {
    assert Parts([column]) == [Part(0, column)];
    if |items| >= 1 {
      var longer := items + [column];
      var part := Part(|items|, column);
      assert longer[..|items|] == items;
      PartsSnoc(longer);
      JoinSnoc('\n', Parts(items), part);
      assert part == Appended(Fragment(column.0, Join(',', column.1)));
      PartsJoinComposed(items);
      ComposedStartsWithFirst(items);
      PrefixOfConcat(Join('\n', Parts(items)), OutputCommand(lookup), |Fragment(items[0].0, Join(',', items[0].1))|);
    }
  }

  /** A prefix of `a` is a prefix of `a + b`. */
  lemma PrefixOfConcat(a: string, b: string, n: nat)
    requires n <= |a|
    ensures (a + b)[..n] == a[..n]
  {
  }

  lemma {:induction false} ComposedStartsWithFirst(items: seq<(string, seq<string>)>)
    requires |items| >= 1
    ensures var first := Fragment(items[0].0, Join(',', items[0].1));
      |first| <= |Composed(items)| && Composed(items)[..|first|] == first
    decreases |items|
  {
    if |items| > 1 {
      var init, last := items[..|items| - 1], items[|items| - 1];
      var n := |Fragment(items[0].0, Join(',', items[0].1))|;
      ComposedStartsWithFirst(init);
      assert init[0] == items[0];
      var head := Composed(init) + "\n";
      PrefixOfConcat(Composed(init), "\n", n);
      PrefixOfConcat(head, Appended(Fragment(last.0, Join(',', last.1))), n);
    }
  }

  /** The query-building loop of `generate_lookup`: for each column of the
      table in order, fill in the template and append it, wrapped unless it is
      the first; then join the parts with newlines and add the output
      command. */
  method BuildGenerationQuery(table: ColumnTable, lookup: string) returns (spl: string)
    requires table.Valid()
    ensures spl == GenerationQuery(table.Items(), lookup)
  {
    var items := table.Items();
    var parts: seq<string> := [];
    var index := 0;
    while index < |items|
      invariant 0 <= index <= |items|
      invariant parts == Parts(items[..index])
    {
      var (key, value) := items[index];
      var fragment := Fragment(key, Join(',', value));
      if index > 0 {
        parts := parts + [Appended(fragment)];
      } else {
        parts := parts + [fragment];
      }
      assert items[..index + 1][..index] == items[..index];
      index := index + 1;
    }
    assert items[..|items|] == items;
    spl := Join('\n', parts);
    spl := spl + OutputCommand(lookup);
  }
}
