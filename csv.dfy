/** Comma-separated lines: the export writes its fields joined by ',' with
    no quoting, and a reader recovers them by splitting at every ','. */
module Csv {

  /** Index of the first `c` in `s`, or `|s|` when there is none. */
  function IndexOf(s: string, c: char): (i: nat)
    ensures i <= |s|
    ensures i < |s| ==> s[i] == c
    ensures forall j :: 0 <= j < i ==> s[j] != c
  {
    if s == [] then 0 else if s[0] == c then 0 else 1 + IndexOf(s[1..], c)
  }

  /** The fields of `s` between separators; always at least one. */
  function Split(s: string, sep: char): (fields: seq<string>)
    ensures |fields| >= 1
    decreases |s|
  {
    var i := IndexOf(s, sep);
    if i == |s| then [s] else [s[..i]] + Split(s[i + 1..], sep)
  }

  /** The fields written one after another with `sep` between them. */
  function Join(fields: seq<string>, sep: char): string
    requires |fields| >= 1
    decreases |fields|
  {
    if |fields| == 1 then fields[0] else fields[0] + [sep] + Join(fields[1..], sep)
  }

  /** Joining the pieces of a split gives the line back, whatever it holds. */
  lemma {:induction false} JoinSplit(s: string, sep: char)
    ensures Join(Split(s, sep), sep) == s
    decreases |s|
  {
    var i := IndexOf(s, sep);
    if i < |s| {
      JoinSplit(s[i + 1..], sep);
      assert s == s[..i] + [sep] + s[i + 1..];
    }
  }

  /** Splitting a joined line gives the fields back when no field holds the
      separator. */
  lemma {:induction false} SplitJoin(fields: seq<string>, sep: char)
    requires |fields| >= 1
    requires forall k :: 0 <= k < |fields| ==> sep !in fields[k]
    ensures Split(Join(fields, sep), sep) == fields
    decreases |fields|
  {
    var s := Join(fields, sep);
    if |fields| > 1 {
      var f := fields[0];
      var rest := Join(fields[1..], sep);
      assert s == f + [sep] + rest;
      IndexOfFirst(f, sep, rest);
      assert s[..|f|] == f;
      assert s[|f| + 1..] == rest;
      SplitJoin(fields[1..], sep);
    } else {
      assert sep !in s;
    }
  }

  lemma IndexOfFirst(f: string, sep: char, rest: string)
    requires sep !in f
    ensures IndexOf(f + [sep] + rest, sep) == |f|
  {
    var s := f + [sep] + rest;
    var i := IndexOf(s, sep);
    assert forall j :: 0 <= j < |f| ==> s[j] == f[j];
    assert s[|f|] == sep;
  }
}
