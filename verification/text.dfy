/** Text primitives the migrator relies on: literal prefix tests and the
    line-per-call output of fmt.Sprintln, with a line splitter as its inverse. */
module Text {

  /** `s` begins with `prefix`, character for character: no trimming and no
      case folding (Go's strings.HasPrefix). */
  predicate HasPrefix(s: string, prefix: string)
  {
    prefix <= s
  }

  /** A line as the line scanner hands it out: it holds no line break. */
  predicate NoLineBreak(s: string)
  {
    '\n' !in s
  }

  /** The text written by one fmt.Sprintln per line: every line followed by
      a single line break. */
  function Unlines(lines: seq<string>): string
  {
    if lines == [] then [] else lines[0] + "\n" + Unlines(lines[1..])
  }

  /** Index of the first line break of `s`, or `|s|` when it has none. */
  function LineEnd(s: string): (i: nat)
    ensures i <= |s|
    ensures i < |s| ==> s[i] == '\n'
    ensures forall j :: 0 <= j < i ==> s[j] != '\n'
  {
    if s == [] || s[0] == '\n' then 0 else 1 + LineEnd(s[1..])
  }

  /** Cuts text into lines at each line break; an unterminated tail is a line
      of its own. */
  function SplitLines(s: string): seq<string>
    decreases |s|
  {
    if s == [] then []
    else
      var i := LineEnd(s);
      if i == |s| then [s] else [s[..i]] + SplitLines(s[i + 1..])
  }

  lemma {:induction false} UnlinesAppend(a: seq<string>, b: seq<string>)
    ensures Unlines(a + b) == Unlines(a) + Unlines(b)
  {
    if a != [] {
      assert (a + b)[1..] == a[1..] + b;
      UnlinesAppend(a[1..], b);
    } else {
      assert a + b == b;
    }
  }

  lemma UnlinesSingle(line: string)
    ensures Unlines([line]) == line + "\n"
  {
    assert [line][1..] == [];
  }

  /** Reading the written text back line by line gives exactly the lines
      that were written, as long as none of them holds a line break. */
  lemma {:induction false} SplitUnlines(lines: seq<string>)
    requires forall l :: l in lines ==> NoLineBreak(l)
    ensures SplitLines(Unlines(lines)) == lines
  {
    if lines != [] {
      var h := lines[0];
      var rest := Unlines(lines[1..]);
      var s := Unlines(lines);
      assert s == h + "\n" + rest;
      assert NoLineBreak(h);
      assert s[|h|] == '\n';
      assert forall j :: 0 <= j < |h| ==> s[j] == h[j];
      var i := LineEnd(s);
      assert i == |h|;
      assert s[..i] == h;
      assert s[i + 1..] == rest;
      SplitUnlines(lines[1..]);
    }
  }
}
