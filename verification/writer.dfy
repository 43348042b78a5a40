/** The write phase of Run (main.go:74-94): each destination file is rebuilt
    by walking the key list in order. Blank and comment entries are copied
    through, other keys are looked up in the file's sub-map, and keys with no
    entry are dropped. */
module Writer {
  import opened Text
  import opened Seqs
  import opened Aggregator

  /** A key-list entry that is written verbatim instead of being looked up:
      an empty line or a comment starting with '#'. */
  predicate IsPassThrough(key: string)
  {
    |key| == 0 || HasPrefix(key, "#")
  }

  /** The entry produces a line in a file with sub-map `sub`. */
  predicate Emits(key: string, sub: SubMap)
  {
    IsPassThrough(key) || key in sub
  }

  /** The line (if any) one key-list entry produces. */
  function RenderKey(key: string, sub: SubMap): seq<string>
  {
    if IsPassThrough(key) then [key]
    else if key in sub then [sub[key]]
    else []
  }

  /** The lines of one output file, in key-list order: at most one per
      entry. */
  function RenderLines(keys: seq<string>, sub: SubMap): (r: seq<string>)
    ensures |r| <= |keys|
  {
    if keys == [] then []
    else RenderLines(keys[..|keys| - 1], sub) + RenderKey(keys[|keys| - 1], sub)
  }

  /** Nothing unlisted is written: every output line is either a
      pass-through entry of the key list or the looked-up value of a listed
      active key. */
  lemma {:induction false} RenderLinesSound(keys: seq<string>, sub: SubMap)
    ensures forall l :: l in RenderLines(keys, sub) ==>
      (l in keys && IsPassThrough(l)) ||
      (exists k :: k in keys && !IsPassThrough(k) && k in sub && sub[k] == l)
    decreases |keys|
  {
    if keys != [] {
      var n := |keys| - 1;
      var key := keys[n];
      RenderLinesSound(keys[..n], sub);
      assert RenderLines(keys, sub) == RenderLines(keys[..n], sub) + RenderKey(key, sub);
      assert key in keys;
      forall l | l in RenderLines(keys, sub)
        ensures (l in keys && IsPassThrough(l)) ||
          (exists k :: k in keys && !IsPassThrough(k) && k in sub && sub[k] == l)
      {
        if l in RenderLines(keys[..n], sub) {
          if l in keys[..n] && IsPassThrough(l) {
            assert l in keys;
          } else {
            var k :| k in keys[..n] && !IsPassThrough(k) && k in sub && sub[k] == l;
            assert k in keys;
          }
        }
      }
    }
  }

  /** The text of one output file: each line followed by a line break, as
      fmt.Sprintln writes it. */
  function Render(keys: seq<string>, sub: SubMap): string
  {
    Unlines(RenderLines(keys, sub))
  }

  /** The contents of every output file: one per file name whose sub-map is
      non-empty. */
  function WriteFiles(keys: seq<string>, t: Table): map<string, string>
  {
    map f | f in t && |t[f]| > 0 :: Render(keys, t[f])
  }

  /** One more entry adds that entry's line (if any) at the end. */
  lemma RenderLinesSnoc(keys: seq<string>, key: string, sub: SubMap)
    ensures RenderLines(keys + [key], sub) == RenderLines(keys, sub) + RenderKey(key, sub)
  {
    var c := keys + [key];
    assert c[..|c| - 1] == keys;
    assert c[|c| - 1] == key;
  }

  /** Splitting the key list splits the output accordingly: output follows
      key-list order. */
  lemma {:induction false} RenderLinesAppend(a: seq<string>, b: seq<string>, sub: SubMap)
    ensures RenderLines(a + b, sub) == RenderLines(a, sub) + RenderLines(b, sub)
    decreases |b|
  {
    if b == [] {
      assert a + b == a;
    } else {
      var n := |b| - 1;
      var front, key := b[..n], b[n];
      var tail := RenderKey(key, sub);
      calc {
        RenderLines(a + b, sub);
        { assert b == front + [key]; ConcatAssoc(a, front, [key]); }
        RenderLines((a + front) + [key], sub);
        { RenderLinesSnoc(a + front, key, sub); }
        RenderLines(a + front, sub) + tail;
        { RenderLinesAppend(a, front, sub); }
        (RenderLines(a, sub) + RenderLines(front, sub)) + tail;
        { ConcatAssoc(RenderLines(a, sub), RenderLines(front, sub), tail); }
        RenderLines(a, sub) + (RenderLines(front, sub) + tail);
        { RenderLinesSnoc(front, key, sub); assert b == front + [key]; }
        RenderLines(a, sub) + RenderLines(b, sub);
      }
    }
  }

  /** An output file's lines: that of the first entry, then those of the
      rest. */
  lemma RenderLinesCons(key: string, rest: seq<string>, sub: SubMap)
    ensures RenderLines([key] + rest, sub) == RenderKey(key, sub) + RenderLines(rest, sub)
  {
    RenderLinesAppend([key], rest, sub);
    assert [key][..0] == [];
  }

  /** Nothing listed is lost: every pass-through entry is written verbatim,
      and every active key with an entry has its value written. */
  lemma {:induction false} RenderLinesComplete(keys: seq<string>, sub: SubMap)
    ensures forall k :: k in keys && IsPassThrough(k) ==> k in RenderLines(keys, sub)
    ensures forall k :: k in keys && !IsPassThrough(k) && k in sub ==> sub[k] in RenderLines(keys, sub)
    decreases |keys|
  {
    if keys != [] {
      var n := |keys| - 1;
      var front := RenderLines(keys[..n], sub);
      var r := RenderLines(keys, sub);
      assert r == front + RenderKey(keys[n], sub);
      RenderLinesComplete(keys[..n], sub);
      assert keys == keys[..n] + [keys[n]];
      forall k | k in keys
        ensures IsPassThrough(k) ==> k in r
        ensures !IsPassThrough(k) && k in sub ==> sub[k] in r
      {
        if k != keys[n] {
          assert k in keys[..n];
        }
      }
    }
  }

  /** The positions of `keys` whose entry produces a line. */
  function EmittingPositions(keys: seq<string>, sub: SubMap): set<int>
  {
    set j | 0 <= j < |keys| && Emits(keys[j], sub)
  }

  /** The emitting positions of a non-empty key list: those of all but the
      last entry, plus the last position when its entry emits. */
  lemma {:induction false} EmittingPositionsStep(keys: seq<string>, sub: SubMap)
    requires keys != []
    ensures var n := |keys| - 1;
      var s := EmittingPositions(keys[..n], sub);
      n !in s &&
      EmittingPositions(keys, sub) == if Emits(keys[n], sub) then s + {n} else s
  {
    var n := |keys| - 1;
    var front := keys[..n];
    var s := EmittingPositions(front, sub);
    var s' := EmittingPositions(keys, sub);
    assert forall j :: 0 <= j < n ==> front[j] == keys[j];
    assert forall j :: j in s' && j != n ==> j in s;
    assert forall j :: j in s ==> j in s';
  }

  /** The number of output lines is the number of key-list positions that
      are pass-through entries or active keys present in the sub-map. */
  lemma {:induction false} RenderLinesCount(keys: seq<string>, sub: SubMap)
    ensures |RenderLines(keys, sub)| == |set j | 0 <= j < |keys| && Emits(keys[j], sub)|
    decreases |keys|
  {
    if keys != [] {
      var n := |keys| - 1;
      assert RenderLines(keys, sub) == RenderLines(keys[..n], sub) + RenderKey(keys[n], sub);
      RenderLinesCount(keys[..n], sub);
      EmittingPositionsStep(keys, sub);
    }
  }

  /** Two sub-maps agree on an active key: both lack it, or both hold the
      same value for it. */
  predicate AgreeOn(s1: SubMap, s2: SubMap, k: string)
  {
    (k in s1 <==> k in s2) && (k in s1 ==> s1[k] == s2[k])
  }

  /** The output depends only on the key list and on the sub-map's entries
      for the listed active keys: not on how or in which order the table was
      built, nor on entries for keys the writer never looks up. */
  lemma {:induction false} RenderLinesOnlyReadsListedKeys(keys: seq<string>, s1: SubMap, s2: SubMap)
    requires forall k :: k in keys && !IsPassThrough(k) ==> AgreeOn(s1, s2, k)
    ensures RenderLines(keys, s1) == RenderLines(keys, s2)
    decreases |keys|
  {
    if keys != [] {
      var n := |keys| - 1;
      assert forall k :: k in keys[..n] ==> k in keys;
      RenderLinesOnlyReadsListedKeys(keys[..n], s1, s2);
      if !IsPassThrough(keys[n]) {
        assert AgreeOn(s1, s2, keys[n]);
      }
    }
  }

  /** The active (non-pass-through) entries of a sub-map. */
  function ActiveEntries(sub: SubMap): SubMap
  {
    map k | k in sub && !IsPassThrough(k) :: sub[k]
  }

  /** Records stored under comment keys (the scan does not skip them) never
      reach the output: the writer copies comment entries through rather
      than looking them up. */
  lemma {:induction false} CommentRecordsNeverWritten(keys: seq<string>, sub: SubMap)
    ensures RenderLines(keys, sub) == RenderLines(keys, ActiveEntries(sub))
  {
    RenderLinesOnlyReadsListedKeys(keys, sub, ActiveEntries(sub));
  }

  /** Reading an output file back line by line yields exactly its rendered
      lines, given that neither keys nor values hold line breaks (the line
      scanner never leaves one in). */
  lemma RenderReadsBack(keys: seq<string>, sub: SubMap)
    requires forall k :: k in keys ==> NoLineBreak(k)
    requires forall k :: k in sub ==> NoLineBreak(sub[k])
    ensures SplitLines(Render(keys, sub)) == RenderLines(keys, sub)
  {
    var r := RenderLines(keys, sub);
    RenderLinesSound(keys, sub);
    forall l | l in r
      ensures NoLineBreak(l)
    {
      if !(l in keys && IsPassThrough(l)) {
        var k :| k in keys && !IsPassThrough(k) && k in sub && sub[k] == l;
      }
    }
    SplitUnlines(r);
  }

  /** The text one key-list entry contributes: the entry itself when it is
      a pass-through, the looked-up value when present, else nothing; each
      written line is followed by a line break. */
  lemma RenderStep(keys: seq<string>, j: int, sub: SubMap)
    requires 0 <= j < |keys|
    ensures Render(keys[..j + 1], sub) ==
      Render(keys[..j], sub) +
      (if IsPassThrough(keys[j]) then keys[j] + "\n"
       else if keys[j] in sub then sub[keys[j]] + "\n"
       else "")
  {
    var key := keys[j];
    assert keys[..j + 1] == keys[..j] + [key];
    RenderLinesSnoc(keys[..j], key, sub);
    UnlinesAppend(RenderLines(keys[..j], sub), RenderKey(key, sub));
    UnlinesSingle(key);
    if key in sub {
      UnlinesSingle(sub[key]);
    }
  }

  /** The write loop for one file (main.go:83-93): each pass-through entry
      and each found value is written with fmt.Sprintln; a missing key
      writes nothing. */
  method WriteFile(keys: seq<string>, sub: SubMap) returns (out: string)
    ensures out == Render(keys, sub)
  {
    out := [];
    var j := 0;
    while j < |keys|
      invariant 0 <= j <= |keys|
      invariant out == Render(keys[..j], sub)
    {
      var key := keys[j];
      RenderStep(keys, j, sub);
      if |key| == 0 || HasPrefix(key, "#") {
        out := out + (key + "\n");
      } else if key in sub {
        out := out + (sub[key] + "\n");
      }
      j := j + 1;
    }
    assert keys[..j] == keys;
  }
}
