/** The report file's text: `lines.join("\n")`, and the line splitting that
    reads such a text back. */
module Lines {

  /** `lines.join(sep)`: the lines with `sep` between neighbours. */
  function Join(lines: seq<string>, sep: string): string
  {
    if lines == [] then ""
    else if |lines| == 1 then lines[0]
    else lines[0] + sep + Join(lines[1..], sep)
  }

  /** `s.split("\n")`: the pieces between line feeds; always at least one. */
  function SplitLines(s: string): (r: seq<string>)
    ensures |r| >= 1
  {
    if s == [] then [""]
    else
      var rest := SplitLines(s[1..]);
      if s[0] == '\n' then [""] + rest else [[s[0]] + rest[0]] + rest[1..]
  }

  predicate NoLineFeed(s: string)
  {
    forall i :: 0 <= i < |s| ==> s[i] != '\n'
  }

  /** Splitting a text that starts with a line-feed-free prefix extends the
      first piece by that prefix and leaves the other pieces alone. */
  lemma {:induction false} SplitLinesPrefix(a: string, t: string)
    requires NoLineFeed(a)
    ensures SplitLines(a + t) == [a + SplitLines(t)[0]] + SplitLines(t)[1..]
  {
    if a != [] {
      SplitLinesPrefix(a[1..], t);
      assert (a + t)[1..] == a[1..] + t;
      assert [a[0]] + (a[1..] + SplitLines(t)[0]) == a + SplitLines(t)[0];
    } else {
      var r := SplitLines(t);
      assert a + t == t && a + r[0] == r[0];
      assert r == [r[0]] + r[1..];
    }
  }

  /** A non-empty list of lines without line feeds, joined with "\n", splits
      back into the same lines. */
  lemma {:induction false} SplitJoin(lines: seq<string>)
    requires |lines| >= 1
    requires forall i :: 0 <= i < |lines| ==> NoLineFeed(lines[i])
    ensures SplitLines(Join(lines, "\n")) == lines
  {
    var a := lines[0];
    if |lines| == 1 {
      SplitLinesPrefix(a, "");
      assert a + "" == a;
    } else {
      var t := Join(lines[1..], "\n");
      SplitJoin(lines[1..]);
      assert Join(lines, "\n") == a + ("\n" + t);
      SplitLinesPrefix(a, "\n" + t);
      assert ("\n" + t)[1..] == t;
      assert SplitLines("\n" + t) == [""] + lines[1..];
      assert a + "" == a;
      assert lines == [a] + lines[1..];
    }
  }
}
