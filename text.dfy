/** The two string operations the importer relies on: joining a list of
    strings with a one-character separator (`','.join`, `"\n".join`) and
    splitting a string on one character (`str.split('.')`), with their
    round trip. */
module Text {

  /** `sep.join(xs)`: the pieces of `xs` in order with `sep` between each two. */
  function Join(sep: char, xs: seq<string>): (r: string)
    decreases |xs|
  {
    if |xs| == 0 then ""
    else if |xs| == 1 then xs[0]
    else xs[0] + [sep] + Join(sep, xs[1..])
  }

  /** `s.split(sep)` with an explicit separator: the maximal runs between
      separators, so the result is never empty and `"".split(sep) == [""]`. */
  function Split(s: string, sep: char): (r: seq<string>)
    ensures |r| >= 1
    ensures forall k :: 0 <= k < |r| ==> sep !in r[k]
    decreases |s|
  {
    if s == [] then [[]]
    else if s[0] == sep then [[]] + Split(s[1..], sep)
    else
      var rest := Split(s[1..], sep);
      [[s[0]] + rest[0]] + rest[1..]
  }

  /** Joining one more piece adds one separator and the piece at the end. */
  lemma {:induction false} JoinSnoc(sep: char, xs: seq<string>, y: string)
    requires |xs| >= 1
    ensures Join(sep, xs + [y]) == Join(sep, xs) + [sep] + y
    decreases |xs|
  {
    if |xs| == 1 {
      assert xs + [y] == [xs[0], y];
      assert (xs + [y])[1..] == [y];
    } else {
      assert (xs + [y])[1..] == xs[1..] + [y];
      JoinSnoc(sep, xs[1..], y);
    }
  }

  /** A piece free of the separator splits to itself. */
  lemma {:induction false} SplitNoSeparator(s: string, sep: char)
    requires sep !in s
    ensures Split(s, sep) == [s]
    decreases |s|
  {
    if s != [] {
      assert s[0] != sep;
      SplitNoSeparator(s[1..], sep);
      assert [s[0]] + s[1..] == s;
    }
  }

  /** Splitting `x + [sep] + rest`, with `x` free of `sep`, gives `x` and then
      the split of `rest`. */
  lemma {:induction false} SplitAtFirstSeparator(x: string, sep: char, rest: string)
    requires sep !in x
    ensures Split(x + [sep] + rest, sep) == [x] + Split(rest, sep)
    decreases |x|
  {
    var s := x + [sep] + rest;
    if x == [] {
      assert s[0] == sep && s[1..] == rest;
    } else {
      assert s[0] == x[0] && x[0] != sep;
      assert s[1..] == x[1..] + [sep] + rest;
      SplitAtFirstSeparator(x[1..], sep, rest);
      assert [x[0]] + x[1..] == x;
    }
  }

  /** Round trip: splitting a join gives the pieces back, provided there is at
      least one piece and no piece contains the separator. */
  lemma {:induction false} SplitJoin(sep: char, xs: seq<string>)
    requires |xs| >= 1
    requires forall k :: 0 <= k < |xs| ==> sep !in xs[k]
    ensures Split(Join(sep, xs), sep) == xs
    decreases |xs|
  {
    if |xs| == 1 {
      SplitNoSeparator(xs[0], sep);
    } else {
      SplitJoin(sep, xs[1..]);
      SplitAtFirstSeparator(xs[0], sep, Join(sep, xs[1..]));
    }
  }

  /** Without the side condition the round trip fails: an empty list and a list
      of one empty string join to the same text, and a piece that contains the
      separator comes back as two pieces. */
  lemma JoinIsNotInjective(sep: char, x: string, y: string)
    requires sep !in x && sep !in y
    ensures Join(sep, []) == Join(sep, [""])
    ensures Split(Join(sep, [x + [sep] + y]), sep) == [x, y]
  {
    SplitAtFirstSeparator(x, sep, y);
    SplitNoSeparator(y, sep);
  }

  /** The first piece of a split is the text before the first separator: a
      prefix of `s` free of `sep`, followed in `s` by `sep` or by nothing. */
  lemma {:induction false} SplitHead(s: string, sep: char)
    ensures var h := Split(s, sep)[0];
      |h| <= |s| && h == s[..|h|] && sep !in h && (|h| == |s| || s[|h|] == sep)
    decreases |s|
  {
    if s != [] && s[0] != sep {
      SplitHead(s[1..], sep);
    }
  }

  /** Any prefix of `s` free of `sep` and followed by `sep` is the first piece. */
  lemma SplitHeadUnique(s: string, sep: char, p: string)
    requires |p| < |s| && p == s[..|p|] && sep !in p && s[|p|] == sep
    ensures Split(s, sep)[0] == p
  {
    assert s == p + [sep] + s[|p| + 1..];
    SplitAtFirstSeparator(p, sep, s[|p| + 1..]);
  }
}
