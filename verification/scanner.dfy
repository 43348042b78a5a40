/** The per-file scan of searchInFile (main.go:97-121): every line is matched
    against every key of the key list, and each prefix match is sent on as a
    match record. Opening the file and splitting it into lines are outside
    the model: a file arrives as its sequence of lines. */
module Scanner {
  import opened Text
  import opened Items
  import opened Seqs

  /** A key selects a line when the key is non-empty and the line begins with
      it. Only empty keys are skipped: comment keys starting with '#' take
      part in the scan like any other key. */
  predicate Selects(key: string, line: string)
  {
    |key| > 0 && HasPrefix(line, key)
  }

  /** The record (if any) that one key produces for one line. */
  function Emit(line: string, key: string, filename: string): seq<I18nItem>
  {
    if Selects(key, line) then [I18nItem(key, line, filename)] else []
  }

  /** All records one line produces, in key-list order. */
  function ScanLine(line: string, keys: seq<string>, filename: string): (r: seq<I18nItem>)
    ensures |r| <= |keys|
  {
    if keys == [] then []
    else ScanLine(line, keys[..|keys| - 1], filename) + Emit(line, keys[|keys| - 1], filename)
  }

  /** All records one file produces: line by line, and within a line in
      key-list order. Which records occur is stated by ScanFileMembership. */
  function ScanFile(lines: seq<string>, keys: seq<string>, filename: string): seq<I18nItem>
  {
    if lines == [] then []
    else ScanFile(lines[..|lines| - 1], keys, filename) + ScanLine(lines[|lines| - 1], keys, filename)
  }

  /** A line yields a record (key, line, filename) once for every occurrence
      of the key in the key list when the key selects the line, and never
      otherwise: duplicate keys give duplicate records. */
  lemma {:induction false} ScanLineCount(line: string, keys: seq<string>, filename: string, it: I18nItem)
    ensures multiset(ScanLine(line, keys, filename))[it] ==
      if it.value == line && it.filename == filename && Selects(it.key, line)
      then multiset(keys)[it.key] else 0
    decreases |keys|
  {
    if keys != [] {
      var n := |keys| - 1;
      assert keys == keys[..n] + [keys[n]];
      ScanLineCount(line, keys[..n], filename, it);
    }
  }

  /** A record comes out of a line exactly when its key is a non-empty
      listed key that the line begins with. */
  lemma {:induction false} ScanLineMembership(line: string, keys: seq<string>, filename: string, it: I18nItem)
    ensures it in ScanLine(line, keys, filename) <==>
      it.value == line && it.filename == filename && it.key in keys && Selects(it.key, line)
  {
    ScanLineCount(line, keys, filename, it);
  }

  /** One more key appends that key's record (if any). */
  lemma ScanLineSnoc(line: string, keys: seq<string>, key: string, filename: string)
    ensures ScanLine(line, keys + [key], filename) == ScanLine(line, keys, filename) + Emit(line, key, filename)
  {
    var c := keys + [key];
    assert c[..|c| - 1] == keys;
    assert c[|c| - 1] == key;
  }

  /** Splitting the key list splits a line's records accordingly: key-list
      order is kept. */
  lemma {:induction false} ScanLineAppend(line: string, a: seq<string>, b: seq<string>, filename: string)
    ensures ScanLine(line, a + b, filename) == ScanLine(line, a, filename) + ScanLine(line, b, filename)
    decreases |b|
  {
    if b == [] {
      assert a + b == a;
    } else {
      var n := |b| - 1;
      var front, key := b[..n], b[n];
      var tail := Emit(line, key, filename);
      calc {
        ScanLine(line, a + b, filename);
        { assert a + b == (a + front) + [key]; }
        ScanLine(line, (a + front) + [key], filename);
        { ScanLineSnoc(line, a + front, key, filename); }
        ScanLine(line, a + front, filename) + tail;
        { ScanLineAppend(line, a, front, filename); }
        (ScanLine(line, a, filename) + ScanLine(line, front, filename)) + tail;
        { ConcatAssoc(ScanLine(line, a, filename), ScanLine(line, front, filename), tail); }
        ScanLine(line, a, filename) + (ScanLine(line, front, filename) + tail);
        { ScanLineSnoc(line, front, key, filename); assert b == front + [key]; }
        ScanLine(line, a, filename) + ScanLine(line, b, filename);
      }
    }
  }

  /** A line's records: those of the first key, then those of the rest. */
  lemma ScanLineCons(line: string, key: string, rest: seq<string>, filename: string)
    ensures ScanLine(line, [key] + rest, filename) == Emit(line, key, filename) + ScanLine(line, rest, filename)
  {
    ScanLineAppend(line, [key], rest, filename);
    assert [key][..0] == [];
  }

  /** One more line appends that line's records. */
  lemma ScanFileSnoc(lines: seq<string>, line: string, keys: seq<string>, filename: string)
    ensures ScanFile(lines + [line], keys, filename) == ScanFile(lines, keys, filename) + ScanLine(line, keys, filename)
  {
    var c := lines + [line];
    assert c[..|c| - 1] == lines;
    assert c[|c| - 1] == line;
  }

  /** Splitting a file splits its records accordingly: earlier lines'
      records come first. */
  lemma {:induction false} ScanFileAppend(a: seq<string>, b: seq<string>, keys: seq<string>, filename: string)
    ensures ScanFile(a + b, keys, filename) == ScanFile(a, keys, filename) + ScanFile(b, keys, filename)
    decreases |b|
  {
    if b == [] {
      assert a + b == a;
    } else {
      var n := |b| - 1;
      var front, line := b[..n], b[n];
      var tail := ScanLine(line, keys, filename);
      calc {
        ScanFile(a + b, keys, filename);
        { assert b == front + [line]; ConcatAssoc(a, front, [line]); }
        ScanFile((a + front) + [line], keys, filename);
        { ScanFileSnoc(a + front, line, keys, filename); }
        ScanFile(a + front, keys, filename) + tail;
        { ScanFileAppend(a, front, keys, filename); }
        (ScanFile(a, keys, filename) + ScanFile(front, keys, filename)) + tail;
        { ConcatAssoc(ScanFile(a, keys, filename), ScanFile(front, keys, filename), tail); }
        ScanFile(a, keys, filename) + (ScanFile(front, keys, filename) + tail);
        { ScanFileSnoc(front, line, keys, filename); assert b == front + [line]; }
        ScanFile(a, keys, filename) + ScanFile(b, keys, filename);
      }
    }
  }

  /** A file's records: those of its first line, then those of the rest. */
  lemma ScanFileCons(line: string, rest: seq<string>, keys: seq<string>, filename: string)
    ensures ScanFile([line] + rest, keys, filename) == ScanLine(line, keys, filename) + ScanFile(rest, keys, filename)
  {
    ScanFileAppend([line], rest, keys, filename);
    assert [line][..0] == [];
  }

  /** A record comes out of a file exactly when its value is one of the
      file's lines and its key is a non-empty listed key that line begins
      with. */
  lemma {:induction false} ScanFileMembership(lines: seq<string>, keys: seq<string>, filename: string, it: I18nItem)
    ensures it in ScanFile(lines, keys, filename) <==>
      it.filename == filename && it.value in lines && it.key in keys && Selects(it.key, it.value)
    decreases |lines|
  {
    if lines != [] {
      var n := |lines| - 1;
      var front := ScanFile(lines[..n], keys, filename);
      var last := ScanLine(lines[n], keys, filename);
      assert ScanFile(lines, keys, filename) == front + last;
      ScanFileMembership(lines[..n], keys, filename, it);
      ScanLineMembership(lines[n], keys, filename, it);
      assert lines == lines[..n] + [lines[n]];
      assert it.value in lines <==> it.value in lines[..n] || it.value == lines[n];
    }
  }

  /** Every record of a file is bound for the file's own name. */
  lemma ScanFileOwnName(lines: seq<string>, keys: seq<string>, filename: string)
    ensures forall j :: 0 <= j < |ScanFile(lines, keys, filename)| ==>
      ScanFile(lines, keys, filename)[j].filename == filename
  {
    var r := ScanFile(lines, keys, filename);
    forall j | 0 <= j < |r|
      ensures r[j].filename == filename
    {
      assert r[j] in r;
      ScanFileMembership(lines, keys, filename, r[j]);
    }
  }

  /** The inner loop of searchInFile (main.go:107-118): one line matched
      against every key in list order; empty keys are skipped and each
      prefix match yields a record. */
  method SearchLine(line: string, keys: seq<string>, filename: string) returns (found: seq<I18nItem>)
    ensures found == ScanLine(line, keys, filename)
  {
    found := [];
    var j := 0;
    while j < |keys|
      invariant 0 <= j <= |keys|
      invariant found == ScanLine(line, keys[..j], filename)
    {
      var key := keys[j];
      assert keys[..j + 1][..j] == keys[..j];
      if |key| != 0 && HasPrefix(line, key) {
        found := found + [I18nItem(key, line, filename)];
      }
      j := j + 1;
    }
    assert keys[..j] == keys;
  }

  /** The scanning loop of searchInFile (main.go:106-120): the file's lines
      in order, each scanned against the whole key list; the records are
      sent in exactly this order. */
  method SearchInFile(lines: seq<string>, keys: seq<string>, filename: string) returns (items: seq<I18nItem>)
    ensures items == ScanFile(lines, keys, filename)
  {
    items := [];
    var i := 0;
    while i < |lines|
      invariant 0 <= i <= |lines|
      invariant items == ScanFile(lines[..i], keys, filename)
    {
      var found := SearchLine(lines[i], keys, filename);
      assert lines[..i + 1][..i] == lines[..i];
      items := items + found;
      i := i + 1;
    }
    assert lines[..i] == lines;
  }
}
