/** The whole migration of Migrator.Run (main.go:43-95) with the I/O taken
    out: each source file, already split into lines and named by its base
    name, is scanned by its own worker; the records reach the consumer in an
    order fixed by a schedule; the table they build is written out one text
    per destination file. */
module Migrator {
  import opened Text
  import opened Items
  import opened Scanner
  import opened Aggregator
  import opened Writer
  import opened Fanin

  /** A source file found by the directory walk: its base name, which is
      also the name of its destination file, and its lines. */
  datatype SourceFile = SourceFile(name: string, lines: seq<string>)

  /** The records each worker has to send, one worker per source file. */
  function Streams(keys: seq<string>, files: seq<SourceFile>): (r: seq<seq<I18nItem>>)
    ensures |r| == |files|
  {
    seq(|files|, i requires 0 <= i < |files| => ScanFile(files[i].lines, keys, files[i].name))
  }

  /** The table the consumer holds once every worker is done. */
  function Collect(keys: seq<string>, files: seq<SourceFile>, schedule: seq<int>): Table
  {
    Aggregate(Arrivals(Streams(keys, files), schedule))
  }

  /** Destination file name -> contents written. */
  function Run(keys: seq<string>, files: seq<SourceFile>, schedule: seq<int>): map<string, string>
  {
    WriteFiles(keys, Collect(keys, files, schedule))
  }

  /** Some line of the file is selected by some key of the list. */
  ghost predicate HasMatch(lines: seq<string>, keys: seq<string>)
  {
    exists l, k :: l in lines && k in keys && Selects(k, l)
  }

  /** No two source files share a base name. */
  ghost predicate DistinctNames(files: seq<SourceFile>)
  {
    forall a, b :: 0 <= a < b < |files| ==> files[a].name != files[b].name
  }

  /** Every record the consumer receives comes from some source file: its
      file name is that file's, its value one of that file's lines, and its
      key a non-empty listed key that line begins with; and conversely every
      such triple is received. */
  lemma ArrivalFromSource(keys: seq<string>, files: seq<SourceFile>, schedule: seq<int>, it: I18nItem)
    ensures it in Arrivals(Streams(keys, files), schedule) <==>
      exists i :: 0 <= i < |files| && files[i].name == it.filename &&
        it.value in files[i].lines && it.key in keys && Selects(it.key, it.value)
  {
    var streams := Streams(keys, files);
    ArrivalsPermutation(streams, schedule);
    assert it in Arrivals(streams, schedule) <==> it in multiset(Flatten(streams));
    FlattenMembership(streams, it);
    if exists w :: 0 <= w < |streams| && it in streams[w] {
      var w :| 0 <= w < |streams| && it in streams[w];
      ScanFileMembership(files[w].lines, keys, files[w].name, it);
    }
    if exists i :: 0 <= i < |files| && files[i].name == it.filename &&
        it.value in files[i].lines && it.key in keys && Selects(it.key, it.value) {
      var i :| 0 <= i < |files| && files[i].name == it.filename &&
        it.value in files[i].lines && it.key in keys && Selects(it.key, it.value);
      ScanFileMembership(files[i].lines, keys, files[i].name, it);
      assert it in streams[i];
    }
  }

  /** Whatever the arrival order, an output file is written for exactly the
      base names of source files with at least one selected line: a name
      with no match gets no file, and no file is ever skipped as empty. */
  lemma RunFiles(keys: seq<string>, files: seq<SourceFile>, schedule: seq<int>)
    ensures forall f :: f in Run(keys, files, schedule) <==>
      exists i :: 0 <= i < |files| && files[i].name == f && HasMatch(files[i].lines, keys)
  {
    var arrivals := Arrivals(Streams(keys, files), schedule);
    var t := Collect(keys, files, schedule);
    AggregateFiles(arrivals);
    SubMapsNonEmpty(arrivals);
    forall f
      ensures f in Run(keys, files, schedule) <==>
        exists i :: 0 <= i < |files| && files[i].name == f && HasMatch(files[i].lines, keys)
    {
      assert f in Run(keys, files, schedule) <==> f in t;
      if f in t {
        var it :| it in arrivals && it.filename == f;
        ArrivalFromSource(keys, files, schedule, it);
        var i :| 0 <= i < |files| && files[i].name == it.filename &&
          it.value in files[i].lines && it.key in keys && Selects(it.key, it.value);
        assert HasMatch(files[i].lines, keys);
      }
      if exists i :: 0 <= i < |files| && files[i].name == f && HasMatch(files[i].lines, keys) {
        var i :| 0 <= i < |files| && files[i].name == f && HasMatch(files[i].lines, keys);
        var l, k :| l in files[i].lines && k in keys && Selects(k, l);
        var it := I18nItem(k, l, f);
        ArrivalFromSource(keys, files, schedule, it);
        assert it in arrivals;
      }
    }
  }

  /** Whatever the arrival order, a filled slot (f, k) holds a line of some
      source file named f, and k is a non-empty listed key that line begins
      with. Which file's line wins when several share the name is left to
      the arrival order. */
  lemma CollectValueFromSource(keys: seq<string>, files: seq<SourceFile>, schedule: seq<int>, f: string, k: string)
    requires Holds(Collect(keys, files, schedule), f, k)
    ensures k in keys && |k| > 0
    ensures exists i :: (0 <= i < |files| && files[i].name == f &&
      Collect(keys, files, schedule)[f][k] in files[i].lines &&
      HasPrefix(Collect(keys, files, schedule)[f][k], k))
  {
    var arrivals := Arrivals(Streams(keys, files), schedule);
    ValueFromSomeRecord(arrivals, f, k);
    ArrivalFromSource(keys, files, schedule, I18nItem(k, Collect(keys, files, schedule)[f][k], f));
  }

  /** Position `i` holds the last line of `lines` that begins with `k`. */
  ghost predicate IsLastLineWith(lines: seq<string>, i: int, k: string)
  {
    0 <= i < |lines| && HasPrefix(lines[i], k) &&
    forall j :: i < j < |lines| ==> !HasPrefix(lines[j], k)
  }

  /** Some line of `lines` begins with `k`. */
  ghost predicate SomeLineWith(lines: seq<string>, k: string)
  {
    exists i :: 0 <= i < |lines| && HasPrefix(lines[i], k)
  }

  /** For one line's records, some record writes slot (f, k) exactly when
      k is a non-empty listed key the line begins with, and whichever of
      them writes it last carries the line itself. */
  lemma LineWrites(line: string, keys: seq<string>, f: string, k: string)
    ensures Writes(ScanLine(line, keys, f), f, k) <==> k in keys && Selects(k, line)
    ensures forall i :: IsLastWrite(ScanLine(line, keys, f), i, f, k) ==> ScanLine(line, keys, f)[i].value == line
  {
    var r := ScanLine(line, keys, f);
    if k in keys && Selects(k, line) {
      ScanLineMembership(line, keys, f, I18nItem(k, line, f));
      var i :| 0 <= i < |r| && r[i] == I18nItem(k, line, f);
      assert SameSlot(r[i], f, k);
    }
    if Writes(r, f, k) {
      var i :| 0 <= i < |r| && SameSlot(r[i], f, k);
      assert r[i] in r;
      ScanLineMembership(line, keys, f, r[i]);
    }
    forall i | IsLastWrite(r, i, f, k)
      ensures r[i].value == line
    {
      assert r[i] in r;
      ScanLineMembership(line, keys, f, r[i]);
    }
  }

  /** Scanning one more line: slot (f, k) becomes (or stays) that line when
      k is a non-empty listed key the line begins with, and is untouched
      otherwise. */
  lemma AppendLine(p: seq<string>, l: string, keys: seq<string>, f: string, k: string)
    ensures var t := Aggregate(ScanFile(p + [l], keys, f));
      var tp := Aggregate(ScanFile(p, keys, f));
      (Holds(t, f, k) <==> Holds(tp, f, k) || (k in keys && Selects(k, l))) &&
      (k in keys && Selects(k, l) ==> t[f][k] == l) &&
      (!(k in keys && Selects(k, l)) && Holds(tp, f, k) ==> t[f][k] == tp[f][k])
  {
    var sl := ScanLine(l, keys, f);
    var tp := Aggregate(ScanFile(p, keys, f));
    ScanFileSnoc(p, l, keys, f);
    AggregateFromAppend(map[], ScanFile(p, keys, f), sl);
    LastWriteWinsFrom(tp, sl, f, k);
    LineWrites(l, keys, f, k);
    if k in keys && Selects(k, l) {
      LastWriteExists(sl, f, k);
    }
  }

  /** A file scanned on its own (or any file whose base name no other file
      shares): slot (f, k) is filled exactly when k is a non-empty listed key
      some line begins with, and it holds the last such line of the file. */
  lemma {:induction false} SingleFileLastLine(lines: seq<string>, keys: seq<string>, f: string, k: string)
    ensures Holds(Aggregate(ScanFile(lines, keys, f)), f, k) <==>
      k in keys && |k| > 0 && SomeLineWith(lines, k)
    ensures forall i :: IsLastLineWith(lines, i, k) && k in keys && |k| > 0 ==>
      Aggregate(ScanFile(lines, keys, f))[f][k] == lines[i]
    decreases |lines|
  {
    if lines == [] {
      LastWriteWins([], f, k);
    } else {
      var n := |lines| - 1;
      var p := lines[..n];
      var l := lines[n];
      assert lines == p + [l];
      SingleFileLastLine(p, keys, f, k);
      AppendLine(p, l, keys, f, k);
      assert SomeLineWith(lines, k) <==> SomeLineWith(p, k) || HasPrefix(l, k) by {
        if SomeLineWith(lines, k) && !HasPrefix(l, k) {
          var i :| 0 <= i < |lines| && HasPrefix(lines[i], k);
          assert p[i] == lines[i];
        }
        if SomeLineWith(p, k) {
          var i :| 0 <= i < |p| && HasPrefix(p[i], k);
          assert lines[i] == p[i];
        }
      }
      if !(k in keys && Selects(k, l)) {
        forall i | IsLastLineWith(lines, i, k) && k in keys && |k| > 0
          ensures IsLastLineWith(p, i, k)
        {
          assert i != n;
          assert p[i] == lines[i];
          forall j | i < j < |p|
            ensures !HasPrefix(p[j], k)
          {
            assert p[j] == lines[j];
          }
        }
      }
    }
  }

  /** When no two source files share a base name, a destination file's
      sub-map is the one its source file builds when scanned alone, for
      every arrival order. */
  lemma DistinctNamesCollect(keys: seq<string>, files: seq<SourceFile>, schedule: seq<int>, i: int)
    requires DistinctNames(files)
    requires 0 <= i < |files|
    ensures var f := files[i].name;
      var alone := Aggregate(ScanFile(files[i].lines, keys, f));
      (f in Collect(keys, files, schedule) <==> f in alone) &&
      (f in alone ==> Collect(keys, files, schedule)[f] == alone[f])
  {
    var f := files[i].name;
    var streams := Streams(keys, files);
    forall v | 0 <= v < |streams| && v != i
      ensures FileItems(streams[v], f) == []
    {
      assert files[v].name != f;
      ScanFileOwnName(files[v].lines, keys, files[v].name);
      FileItemsNone(streams[v], f);
    }
    ScanFileOwnName(files[i].lines, keys, f);
    FileItemsAll(streams[i], f);
    ArrivalsKeepFileOrder(streams, schedule, i, f);
    AggregatePerFile(Arrivals(streams, schedule), f);
  }

  /** When no two source files share a base name, the file written for a
      source file's name is the same for any two arrival orders. */
  lemma DistinctNamesSameOutput(keys: seq<string>, files: seq<SourceFile>, s1: seq<int>, s2: seq<int>, i: int)
    requires DistinctNames(files)
    requires 0 <= i < |files|
    requires files[i].name in Run(keys, files, s1)
    ensures files[i].name in Run(keys, files, s2)
    ensures Run(keys, files, s1)[files[i].name] == Run(keys, files, s2)[files[i].name]
  {
    DistinctNamesCollect(keys, files, s1, i);
    DistinctNamesCollect(keys, files, s2, i);
  }

  /** When no two source files share a base name, the output does not
      depend on the arrival order at all. */
  lemma RunDeterministic(keys: seq<string>, files: seq<SourceFile>, s1: seq<int>, s2: seq<int>)
    requires DistinctNames(files)
    ensures Run(keys, files, s1) == Run(keys, files, s2)
  {
    var r1, r2 := Run(keys, files, s1), Run(keys, files, s2);
    forall f | f in r1
      ensures f in r2 && r1[f] == r2[f]
    {
      RunFiles(keys, files, s1);
      var i :| 0 <= i < |files| && files[i].name == f && HasMatch(files[i].lines, keys);
      DistinctNamesSameOutput(keys, files, s1, s2, i);
    }
    forall f | f in r2
      ensures f in r1
    {
      RunFiles(keys, files, s2);
      var i :| 0 <= i < |files| && files[i].name == f && HasMatch(files[i].lines, keys);
      DistinctNamesSameOutput(keys, files, s2, s1, i);
    }
  }
}
