/** Python's `str.join` and `str.split` on a one-character separator, and
    character counting, with the facts that connect them. */
module Text {

  /** `sep.join(lines)`: the lines with one separator between neighbours. */
  function Join(lines: seq<string>, sep: char): (r: string)
    ensures lines == [] ==> r == ""
    ensures |lines| >= 1 ==> lines[0] <= r
    ensures |lines| >= 2 ==> lines[0] + [sep] <= r
  {
    if |lines| == 0 then ""
    else if |lines| == 1 then lines[0]
    else lines[0] + [sep] + Join(lines[1..], sep)
  }

  /** The index of the first `sep` in `s`, or `|s|` when there is none. */
  function LineEnd(s: string, sep: char): (i: nat)
    ensures i <= |s|
    ensures forall k :: 0 <= k < i ==> s[k] != sep
    ensures i < |s| ==> s[i] == sep
  {
    if |s| == 0 || s[0] == sep then 0 else 1 + LineEnd(s[1..], sep)
  }

  /** `s.split(sep)`: the maximal pieces between separators; never empty. */
  function Split(s: string, sep: char): (r: seq<string>)
    ensures |r| >= 1
    decreases |s|
  {
    var i := LineEnd(s, sep);
    if i == |s| then [s] else [s[..i]] + Split(s[i + 1..], sep)
  }

  /** The number of occurrences of `c` in `s`. */
  function Count(s: string, c: char): (n: nat)
    ensures n <= |s|
    ensures n == 0 <==> c !in s
  {
    if |s| == 0 then 0
    else (if s[0] == c then 1 else 0) + Count(s[1..], c)
  }

  lemma {:induction false} CountConcat(a: string, b: string, c: char)
    ensures Count(a + b, c) == Count(a, c) + Count(b, c)
  {
    if |a| == 0 {
      assert a + b == b;
    } else {
      assert (a + b)[1..] == a[1..] + b;
      CountConcat(a[1..], b, c);
    }
  }

  /** A string without the separator is one piece. */
  lemma SplitWithoutSep(s: string, sep: char)
    requires sep !in s
    ensures Split(s, sep) == [s]
  {
    assert LineEnd(s, sep) == |s|;
  }

  /** A separator-free line followed by a separator splits off as the first piece. */
  lemma SplitAfterLine(line: string, rest: string, sep: char)
    requires sep !in line
    ensures Split(line + [sep] + rest, sep) == [line] + Split(rest, sep)
  {
    var s := line + [sep] + rest;
    var i := LineEnd(s, sep);
    assert s[|line|] == sep;
    assert i == |line| by {
      assert forall k :: 0 <= k < |line| ==> s[k] == line[k];
    }
    assert s[..i] == line;
    assert s[i + 1..] == rest;
  }

  /** Splitting at a separator splits the text on either side independently. */
  lemma {:induction false} SplitAtSep(a: string, b: string, sep: char)
    ensures Split(a + [sep] + b, sep) == Split(a, sep) + Split(b, sep)
    decreases |a|
  {
    var i := LineEnd(a, sep);
    if i == |a| {
      SplitWithoutSep(a, sep);
      SplitAfterLine(a, b, sep);
    } else {
      var line, tail := a[..i], a[i + 1..];
      assert a == line + [sep] + tail;
      SplitAtSep(tail, b, sep);
      SplitAtSepStep(line, tail, b, sep);
    }
  }

  /** The inductive step of `SplitAtSep`: one more line in front. */
  lemma SplitAtSepStep(line: string, tail: string, b: string, sep: char)
    requires sep !in line
    requires Split(tail + [sep] + b, sep) == Split(tail, sep) + Split(b, sep)
    ensures Split(line + [sep] + tail + [sep] + b, sep) == Split(line + [sep] + tail, sep) + Split(b, sep)
  {
    var u := tail + [sep] + b;
    Reassociate(line, [sep], tail, b);
    SplitAfterLine(line, u, sep);
    SplitAfterLine(line, tail, sep);
    ConcatAssoc([line], Split(tail, sep), Split(b, sep));
  }

  /** Only re-brackets a concatenation, for `SplitAtSepStep`. */
  lemma ConcatAssoc<T>(x: seq<T>, y: seq<T>, z: seq<T>)
    ensures x + (y + z) == x + y + z
  {
  }

  /** Only re-brackets a concatenation, for `SplitAtSep`. */
  lemma Reassociate<T>(x: seq<T>, s: seq<T>, y: seq<T>, z: seq<T>)
    ensures x + s + y + s + z == x + s + (y + s + z)
  {
  }

  /** Splitting a join gives the lines back, as long as none of them holds
      the separator and there is at least one. */
  lemma {:induction false} SplitJoin(lines: seq<string>, sep: char)
    requires |lines| >= 1
    requires forall i :: 0 <= i < |lines| ==> sep !in lines[i]
    ensures Split(Join(lines, sep), sep) == lines
  {
    if |lines| == 1 {
      SplitWithoutSep(lines[0], sep);
    } else {
      var rest := lines[1..];
      assert forall i :: 0 <= i < |rest| ==> rest[i] == lines[i + 1];
      SplitAfterLine(lines[0], Join(rest, sep), sep);
      SplitJoin(rest, sep);
      HeadTail(lines);
    }
  }

  /** Only re-assembles a sequence from its head and tail, for `SplitJoin`. */
  lemma HeadTail<T>(s: seq<T>)
    requires |s| >= 1
    ensures [s[0]] + s[1..] == s
  {
  }

  /** A join of n separator-free lines holds exactly n - 1 separators. */
  lemma {:induction false} CountJoin(lines: seq<string>, sep: char)
    requires |lines| >= 1
    requires forall i :: 0 <= i < |lines| ==> sep !in lines[i]
    ensures Count(Join(lines, sep), sep) == |lines| - 1
  {
    if |lines| > 1 {
      CountConcat(lines[0] + [sep], Join(lines[1..], sep), sep);
      CountConcat(lines[0], [sep], sep);
      assert Count([sep], sep) == 1 by { assert [sep][1..] == []; }
      CountJoin(lines[1..], sep);
    }
  }
}
