/** Concrete runs of the migration: the greeting example, the same example
    with a source line that begins with a comment key, and two source files
    that share a base name. The general theorems carry the proofs; the
    helpers below keep literal strings out of the recursive definitions. */
module Scenarios {
  import opened Text
  import opened Items
  import opened Scanner
  import opened Aggregator
  import opened Writer
  import opened Fanin
  import opened Migrator

  const GreetingKeys: seq<string> := ["", "# greetings", "GREETING", "FAREWELL", "UNUSED"]

  /** The greeting file as written: a blank line, the comment, the greeting
      and the farewell, one per line. */
  const GreetingText: string := "\n" + "# greetings\n" + "GREETING=hello\n" + "FAREWELL=bye\n"

  /** A five-entry key list renders entry by entry. */
  lemma RenderFive(sub: SubMap, k1: string, k2: string, k3: string, k4: string, k5: string)
    ensures RenderLines([k1, k2, k3, k4, k5], sub) ==
      RenderKey(k1, sub) + RenderKey(k2, sub) + RenderKey(k3, sub) + RenderKey(k4, sub) + RenderKey(k5, sub)
  {
    RenderLinesAppend([k1, k2, k3, k4], [k5], sub);
    RenderLinesAppend([k1, k2, k3], [k4], sub);
    RenderLinesAppend([k1, k2], [k3], sub);
    RenderLinesAppend([k1], [k2], sub);
    assert [k1, k2, k3, k4, k5] == [k1, k2, k3, k4] + [k5];
    assert [k1, k2, k3, k4] == [k1, k2, k3] + [k4];
    assert [k1, k2, k3] == [k1, k2] + [k3];
    assert [k1, k2] == [k1] + [k2];
    forall k
      ensures RenderLines([k], sub) == RenderKey(k, sub)
    {
      assert [k][..0] == [];
    }
  }

  /** Four written lines, each followed by a line break. */
  lemma UnlinesFour(a: string, b: string, c: string, d: string)
    ensures Unlines([a, b, c, d]) == a + "\n" + b + "\n" + c + "\n" + d + "\n"
  {
    assert [a, b, c, d][1..] == [b, c, d];
    assert [b, c, d][1..] == [c, d];
    assert [c, d][1..] == [d];
    UnlinesSingle(d);
    assert Unlines([c, d]) == c + "\n" + (d + "\n");
    assert Unlines([b, c, d]) == b + "\n" + (c + "\n" + (d + "\n"));
    assert Unlines([a, b, c, d]) == a + "\n" + (b + "\n" + (c + "\n" + (d + "\n")));
  }

  /** Two pass-through entries, two keys with values and one key without:
      the text is the two entries, then the two values, line by line. */
  lemma RenderTwoTwoOne(sub: SubMap, k1: string, k2: string, k3: string, k4: string, k5: string)
    requires IsPassThrough(k1) && IsPassThrough(k2)
    requires !IsPassThrough(k3) && k3 in sub
    requires !IsPassThrough(k4) && k4 in sub
    requires !IsPassThrough(k5) && k5 !in sub
    ensures Render([k1, k2, k3, k4, k5], sub) == k1 + "\n" + k2 + "\n" + sub[k3] + "\n" + sub[k4] + "\n"
  {
    RenderFive(sub, k1, k2, k3, k4, k5);
    assert RenderLines([k1, k2, k3, k4, k5], sub) == [k1, k2, sub[k3], sub[k4]];
    UnlinesFour(k1, k2, sub[k3], sub[k4]);
  }

  /** The blank entry and the comment are copied through; the other three
      entries are keys to look up. */
  lemma GreetingKeyKinds()
    ensures IsPassThrough("") && IsPassThrough("# greetings")
    ensures !IsPassThrough("GREETING") && !IsPassThrough("FAREWELL") && !IsPassThrough("UNUSED")
  {
    assert "# greetings"[..1] == "#";
    assert "GREETING"[..1][0] == 'G' && "FAREWELL"[..1][0] == 'F' && "UNUSED"[..1][0] == 'U';
  }

  /** The greeting file's four lines, each with its line break. */
  lemma GreetingLines()
    ensures "" + "\n" + "# greetings" + "\n" + "GREETING=hello" + "\n" + "FAREWELL=bye" + "\n" == GreetingText
  {
    assert "" + "\n" == "\n";
    assert "# greetings" + "\n" == "# greetings\n";
    assert "GREETING=hello" + "\n" == "GREETING=hello\n";
    assert "FAREWELL=bye" + "\n" == "FAREWELL=bye\n";
  }

  /** The greeting key list written from a sub-map holding the greeting and
      the farewell and nothing for UNUSED, whatever else it holds. */
  lemma RenderGreeting(sub: SubMap)
    requires "GREETING" in sub && sub["GREETING"] == "GREETING=hello"
    requires "FAREWELL" in sub && sub["FAREWELL"] == "FAREWELL=bye"
    requires "UNUSED" !in sub
    ensures Render(GreetingKeys, sub) == GreetingText
  {
    GreetingKeyKinds();
    RenderTwoTwoOne(sub, "", "# greetings", "GREETING", "FAREWELL", "UNUSED");
    GreetingLines();
  }

  /** A one-file run writes one output file, named after the source file,
      once some line matches some key. */
  lemma OneFileNames(keys: seq<string>, file: SourceFile, schedule: seq<int>, k: string)
    requires k in keys && |k| > 0 && SomeLineWith(file.lines, k)
    ensures Run(keys, [file], schedule).Keys == {file.name}
  {
    var files := [file];
    RunFiles(keys, files, schedule);
    var i :| 0 <= i < |file.lines| && HasPrefix(file.lines[i], k);
    assert HasMatch(file.lines, keys) by {
      assert file.lines[i] in file.lines && Selects(k, file.lines[i]);
    }
    assert files[0].name == file.name;
  }

  /** A one-file run builds, for that file, the sub-map the file builds
      when scanned alone, once some line matches some key. */
  lemma OneFileTable(keys: seq<string>, file: SourceFile, schedule: seq<int>, k: string)
    requires k in keys && |k| > 0 && SomeLineWith(file.lines, k)
    ensures var alone := Aggregate(ScanFile(file.lines, keys, file.name));
      file.name in alone && file.name in Collect(keys, [file], schedule) &&
      Collect(keys, [file], schedule)[file.name] == alone[file.name]
  {
    SingleFileLastLine(file.lines, keys, file.name, k);
    DistinctNamesCollect(keys, [file], schedule, 0);
  }

  /** A one-file run writes exactly that file, as the file's own table
      renders it, once some line matches some key. */
  lemma OneFileRun(keys: seq<string>, file: SourceFile, schedule: seq<int>, k: string)
    requires k in keys && |k| > 0 && SomeLineWith(file.lines, k)
    ensures var alone := Aggregate(ScanFile(file.lines, keys, file.name));
      file.name in alone &&
      Run(keys, [file], schedule) == map[file.name := Render(keys, alone[file.name])]
  {
    var f := file.name;
    var t := Collect(keys, [file], schedule);
    var out := Run(keys, [file], schedule);
    OneFileTable(keys, file, schedule, k);
    OneFileNames(keys, file, schedule, k);
    assert f in out;
    assert out[f] == Render(keys, t[f]);
  }

  /** The end-to-end example: one file a.txt with a greeting and a farewell
      line; whatever the arrival order, a.txt is written with a blank line,
      the comment, the greeting and the farewell, and UNUSED is dropped. */
  lemma GreetingScenario(schedule: seq<int>)
    ensures Run(GreetingKeys, [SourceFile("a.txt", ["GREETING=hello", "FAREWELL=bye"])], schedule) ==
      map["a.txt" := GreetingText]
  {
    var keys := GreetingKeys;
    var lines := ["GREETING=hello", "FAREWELL=bye"];
    var file := SourceFile("a.txt", lines);
    assert lines[0][..8] == "GREETING" && lines[1][..8] == "FAREWELL";
    assert lines[0][0] == 'G' && lines[1][0] == 'F';
    assert IsLastLineWith(lines, 0, "GREETING");
    assert IsLastLineWith(lines, 1, "FAREWELL");
    assert !SomeLineWith(lines, "UNUSED");
    SingleFileLastLine(lines, keys, "a.txt", "GREETING");
    SingleFileLastLine(lines, keys, "a.txt", "FAREWELL");
    SingleFileLastLine(lines, keys, "a.txt", "UNUSED");
    OneFileRun(keys, file, schedule, "GREETING");
    RenderGreeting(Aggregate(ScanFile(lines, keys, "a.txt"))["a.txt"]);
  }

  /** The comment key takes part in the scan, so a source line beginning
      with it fills a slot of the table; the writer still copies the comment
      through instead of looking it up, so the output is the same as
      without that line. */
  lemma CommentKeyScenario(schedule: seq<int>)
    ensures var files := [SourceFile("a.txt", ["# greetings from a.txt", "GREETING=hello", "FAREWELL=bye"])];
      Holds(Collect(GreetingKeys, files, schedule), "a.txt", "# greetings") &&
      Collect(GreetingKeys, files, schedule)["a.txt"]["# greetings"] == "# greetings from a.txt" &&
      Run(GreetingKeys, files, schedule) == map["a.txt" := GreetingText]
  {
    var keys := GreetingKeys;
    var lines := ["# greetings from a.txt", "GREETING=hello", "FAREWELL=bye"];
    var file := SourceFile("a.txt", lines);
    assert lines[0][..11] == "# greetings";
    assert lines[1][..8] == "GREETING" && lines[2][..8] == "FAREWELL";
    assert lines[0][0] == '#' && lines[1][0] == 'G' && lines[2][0] == 'F';
    assert IsLastLineWith(lines, 0, "# greetings");
    assert IsLastLineWith(lines, 1, "GREETING");
    assert IsLastLineWith(lines, 2, "FAREWELL");
    assert !SomeLineWith(lines, "UNUSED");
    SingleFileLastLine(lines, keys, "a.txt", "# greetings");
    SingleFileLastLine(lines, keys, "a.txt", "GREETING");
    SingleFileLastLine(lines, keys, "a.txt", "FAREWELL");
    SingleFileLastLine(lines, keys, "a.txt", "UNUSED");
    OneFileTable(keys, file, schedule, "GREETING");
    OneFileRun(keys, file, schedule, "GREETING");
    RenderGreeting(Aggregate(ScanFile(lines, keys, "a.txt"))["a.txt"]);
  }

  /** One line scanned with one key. */
  lemma ScanOne(line: string, key: string, f: string)
    ensures ScanFile([line], [key], f) == Emit(line, key, f)
  {
    assert [line][..0] == [];
    assert [key][..0] == [];
  }

  /** Two workers holding one record each: with no scheduled send they
      arrive worker by worker, and when worker 1 goes first the order
      flips. */
  lemma TwoWorkers(a: I18nItem, b: I18nItem)
    ensures Arrivals([[a], [b]], []) == [a, b]
    ensures Arrivals([[a], [b]], [1]) == [b, a]
  {
    var none: seq<I18nItem> := [];
    var s := [[a], [b]];
    assert s[1..] == [[b]];
    assert [[b]][1..] == [];
    assert Flatten([[b]]) == [b] + Flatten([]);
    assert Flatten(s) == [a] + Flatten([[b]]);
    assert [b][1..] == none;
    assert s[1 := none] == [[a], none];
    var p := Send(Progress(s, []), 1);
    assert p == Progress([[a], none], [b]);
    assert [1][1..] == [];
    assert Deliver(Progress(s, []), [1]) == Deliver(p, []);
    assert [[a], none][1..] == [none];
    assert [none][1..] == [];
    assert Flatten([none]) == none + Flatten([]);
    assert Flatten([[a], none]) == [a] + Flatten([none]);
  }

  /** Of two records for one slot, the second decides it. */
  lemma SecondWins(a: I18nItem, b: I18nItem)
    requires a.filename == b.filename && a.key == b.key
    ensures Holds(Aggregate([a, b]), a.filename, a.key)
    ensures Aggregate([a, b])[a.filename][a.key] == b.value
  {
    LastWriteWins([a, b], a.filename, a.key);
    assert IsLastWrite([a, b], 1, a.filename, a.key);
  }

  /** A one-key list whose key has a value renders that value alone. */
  lemma RenderOneKey(key: string, sub: SubMap)
    requires !IsPassThrough(key) && key in sub
    ensures Render([key], sub) == sub[key] + "\n"
  {
    var none: seq<string> := [];
    assert [key][..0] == none;
    assert RenderLines([key], sub) == RenderLines(none, sub) + RenderKey(key, sub);
    assert RenderLines([key], sub) == [sub[key]];
    UnlinesSingle(sub[key]);
  }

  /** With a one-key list and every source file under one base name f,
      the run writes f alone once f's slot for the key is filled. */
  lemma OneKeyNames(key: string, files: seq<SourceFile>, schedule: seq<int>, f: string)
    requires forall i :: 0 <= i < |files| ==> files[i].name == f
    requires Holds(Collect([key], files, schedule), f, key)
    ensures Run([key], files, schedule).Keys == {f}
  {
    var keys := [key];
    var v := Collect(keys, files, schedule)[f][key];
    CollectValueFromSource(keys, files, schedule, f, key);
    var i :| 0 <= i < |files| && files[i].name == f && v in files[i].lines && HasPrefix(v, key);
    assert HasMatch(files[i].lines, keys) by {
      assert v in files[i].lines && key in keys && Selects(key, v);
    }
    RunFiles(keys, files, schedule);
  }

  /** With a one-key list and every source file under one base name, the
      run writes that file alone, holding the key's value on one line. */
  lemma RunOneKey(key: string, files: seq<SourceFile>, schedule: seq<int>, f: string)
    requires !IsPassThrough(key)
    requires forall i :: 0 <= i < |files| ==> files[i].name == f
    requires Holds(Collect([key], files, schedule), f, key)
    ensures Run([key], files, schedule) == map[f := Collect([key], files, schedule)[f][key] + "\n"]
  {
    var t := Collect([key], files, schedule);
    OneKeyNames(key, files, schedule, f);
    RenderOneKey(key, t[f]);
  }

  /** The table two same-named one-line files build under each of the two
      arrival orders. */
  lemma RaceCollect(key: string, f: string, first: string, second: string)
    requires |key| > 0 && HasPrefix(first, key) && HasPrefix(second, key)
    ensures var files := [SourceFile(f, [first]), SourceFile(f, [second])];
      Holds(Collect([key], files, []), f, key) && Collect([key], files, [])[f][key] == second &&
      Holds(Collect([key], files, [1]), f, key) && Collect([key], files, [1])[f][key] == first
  {
    var keys := [key];
    var files := [SourceFile(f, [first]), SourceFile(f, [second])];
    var a := I18nItem(key, first, f);
    var b := I18nItem(key, second, f);
    ScanOne(first, key, f);
    ScanOne(second, key, f);
    assert Streams(keys, files) == [[a], [b]];
    TwoWorkers(a, b);
    SecondWins(a, b);
    SecondWins(b, a);
  }

  /** Two source files with the same base name f race for the same slot:
      each holds one line selected by the one listed key, and the record
      that arrives last wins. With the default order the second file's line
      is written; when the second worker sends first, the first file's line
      is; so when the lines differ the output depends on the arrival order. */
  lemma SharedNameRace(key: string, f: string, first: string, second: string)
    requires !IsPassThrough(key)
    requires HasPrefix(first, key) && HasPrefix(second, key)
    ensures var files := [SourceFile(f, [first]), SourceFile(f, [second])];
      Run([key], files, []) == map[f := second + "\n"] &&
      Run([key], files, [1]) == map[f := first + "\n"]
    ensures first != second ==>
      Run([key], [SourceFile(f, [first]), SourceFile(f, [second])], []) !=
      Run([key], [SourceFile(f, [first]), SourceFile(f, [second])], [1])
  {
    var files := [SourceFile(f, [first]), SourceFile(f, [second])];
    RaceCollect(key, f, first, second);
    RunOneKey(key, files, [], f);
    RunOneKey(key, files, [1], f);
    if first != second {
      assert (first + "\n")[..|first|] == first;
      assert (second + "\n")[..|second|] == second;
      assert first + "\n" != second + "\n";
    }
  }
}
