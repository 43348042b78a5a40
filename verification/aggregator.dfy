/** The single consumer of the record stream (main.go:65-72): it folds the
    records, in whatever order they arrive, into a table
    filename -> key -> line, where a later record for the same slot
    overwrites an earlier one. */
module Aggregator {
  import opened Items

  /** One destination file's entries: key -> matched line. */
  type SubMap = map<string, string>

  /** filename -> key -> matched line. */
  type Table = map<string, SubMap>

  /** The slot (filename, key) is filled in the table. */
  predicate Holds(t: Table, f: string, k: string)
  {
    f in t && k in t[f]
  }

  /** The record writes the slot (f, k). */
  predicate SameSlot(it: I18nItem, f: string, k: string)
  {
    it.filename == f && it.key == k
  }

  /** One turn of the consume loop: create the file's sub-map on first
      sight, then set the record's key to its value. Every other slot is
      left as it was. */
  function Insert(t: Table, it: I18nItem): (r: Table)
    ensures r.Keys == t.Keys + {it.filename}
    ensures Holds(r, it.filename, it.key) && r[it.filename][it.key] == it.value
  {
    var sub := if it.filename in t then t[it.filename] else map[];
    t[it.filename := sub[it.key := it.value]]
  }

  /** Inserting a record leaves every other slot as it was. */
  lemma InsertKeepsOtherSlots(t: Table, it: I18nItem, f: string, k: string)
    requires !SameSlot(it, f, k)
    ensures Holds(Insert(t, it), f, k) <==> Holds(t, f, k)
    ensures Holds(t, f, k) ==> Insert(t, it)[f][k] == t[f][k]
  {
  }

  /** Folds `items` into `t`, first item first. */
  function AggregateFrom(t: Table, items: seq<I18nItem>): Table
  {
    if items == [] then t
    else Insert(AggregateFrom(t, items[..|items| - 1]), items[|items| - 1])
  }

  /** The table the consume loop builds from an empty map. */
  function Aggregate(items: seq<I18nItem>): Table
  {
    AggregateFrom(map[], items)
  }

  /** Position `i` holds the last record in `items` for the slot (f, k). */
  ghost predicate IsLastWrite(items: seq<I18nItem>, i: int, f: string, k: string)
  {
    0 <= i < |items| && SameSlot(items[i], f, k) &&
    forall j :: i < j < |items| ==> !SameSlot(items[j], f, k)
  }

  /** Some record in `items` writes the slot (f, k). */
  ghost predicate Writes(items: seq<I18nItem>, f: string, k: string)
  {
    exists i :: 0 <= i < |items| && SameSlot(items[i], f, k)
  }

  /** One more record is one more turn of the consume loop. */
  lemma AggregateFromSnoc(t: Table, items: seq<I18nItem>, it: I18nItem)
    ensures AggregateFrom(t, items + [it]) == Insert(AggregateFrom(t, items), it)
  {
    var c := items + [it];
    assert c[..|c| - 1] == items;
    assert c[|c| - 1] == it;
  }

  /** Folding two batches of records one after the other is folding them
      as one sequence: the consumer keeps no state besides the table. */
  lemma {:induction false} AggregateFromAppend(t: Table, a: seq<I18nItem>, b: seq<I18nItem>)
    ensures AggregateFrom(t, a + b) == AggregateFrom(AggregateFrom(t, a), b)
    decreases |b|
  {
    if b == [] {
      assert a + b == a;
    } else {
      var n := |b| - 1;
      var front, it := b[..n], b[n];
      assert b == front + [it];
      assert a + b == (a + front) + [it];
      AggregateFromSnoc(t, a + front, it);
      AggregateFromSnoc(AggregateFrom(t, a), front, it);
      AggregateFromAppend(t, a, front);
    }
  }

  /** Some record of `items` writes (f, k) exactly when one of all but
      the last does, or the last one does. */
  lemma {:induction false} WritesStep(items: seq<I18nItem>, f: string, k: string)
    requires items != []
    ensures Writes(items, f, k) <==>
      Writes(items[..|items| - 1], f, k) || SameSlot(items[|items| - 1], f, k)
  {
    var p := items[..|items| - 1];
    if Writes(items, f, k) && !SameSlot(items[|items| - 1], f, k) {
      var i :| 0 <= i < |items| && SameSlot(items[i], f, k);
      assert p[i] == items[i];
    }
    if Writes(p, f, k) {
      var i :| 0 <= i < |p| && SameSlot(p[i], f, k);
      assert items[i] == p[i];
    }
  }

  /** When the last record does not write (f, k), the last write to it in
      `items` is the last write to it among all but the last record. */
  lemma {:induction false} LastWriteStep(items: seq<I18nItem>, i: int, f: string, k: string)
    requires items != [] && !SameSlot(items[|items| - 1], f, k)
    requires IsLastWrite(items, i, f, k)
    ensures IsLastWrite(items[..|items| - 1], i, f, k)
  {
    var p := items[..|items| - 1];
    assert p[i] == items[i];
    forall j | i < j < |p|
      ensures !SameSlot(p[j], f, k)
    {
      assert p[j] == items[j];
    }
  }

  /** Last write wins, starting from any table: a slot is filled afterwards
      exactly when it was filled before or some record writes it; the last
      such record decides its value, and a slot no record writes keeps its
      old value. Values are never merged. */
  lemma {:induction false} LastWriteWinsFrom(t: Table, items: seq<I18nItem>, f: string, k: string)
    ensures Holds(AggregateFrom(t, items), f, k) <==> Holds(t, f, k) || Writes(items, f, k)
    ensures forall i :: IsLastWrite(items, i, f, k) ==> AggregateFrom(t, items)[f][k] == items[i].value
    ensures !Writes(items, f, k) && Holds(t, f, k) ==> AggregateFrom(t, items)[f][k] == t[f][k]
    decreases |items|
  {
    if items != [] {
      var n := |items| - 1;
      var p := items[..n];
      var last := items[n];
      var tp := AggregateFrom(t, p);
      assert AggregateFrom(t, items) == Insert(tp, last);
      LastWriteWinsFrom(t, p, f, k);
      WritesStep(items, f, k);
      if SameSlot(last, f, k) {
        forall i | IsLastWrite(items, i, f, k)
          ensures i == n
        {
        }
      } else {
        InsertKeepsOtherSlots(tp, last, f, k);
        forall i | IsLastWrite(items, i, f, k)
          ensures IsLastWrite(p, i, f, k)
        {
          LastWriteStep(items, i, f, k);
        }
      }
    }
  }

  /** Last write wins over the whole run: after folding any sequence of
      records, a slot is filled exactly when some record writes it, and it
      holds the value of the last such record. */
  lemma LastWriteWins(items: seq<I18nItem>, f: string, k: string)
    ensures Holds(Aggregate(items), f, k) <==> Writes(items, f, k)
    ensures forall i :: IsLastWrite(items, i, f, k) ==> Aggregate(items)[f][k] == items[i].value
  {
    LastWriteWinsFrom(map[], items, f, k);
  }

  /** Whenever some record writes a slot, one of them is the last. */
  lemma {:induction false} LastWriteExists(items: seq<I18nItem>, f: string, k: string)
    requires Writes(items, f, k)
    ensures exists i :: IsLastWrite(items, i, f, k)
    decreases |items|
  {
    var n := |items| - 1;
    if SameSlot(items[n], f, k) {
      assert IsLastWrite(items, n, f, k);
    } else {
      var p := items[..n];
      var i :| 0 <= i < |items| && SameSlot(items[i], f, k);
      assert p[i] == items[i];
      LastWriteExists(p, f, k);
      var l :| IsLastWrite(p, l, f, k);
      assert items[l] == p[l];
      forall j | l < j < |items|
        ensures !SameSlot(items[j], f, k)
      {
        if j < n {
          assert items[j] == p[j];
        }
      }
      assert IsLastWrite(items, l, f, k);
    }
  }

  /** Whatever the arrival order, a filled slot holds the value of some
      record for that very slot. */
  lemma ValueFromSomeRecord(items: seq<I18nItem>, f: string, k: string)
    requires Holds(Aggregate(items), f, k)
    ensures I18nItem(k, Aggregate(items)[f][k], f) in items
  {
    LastWriteWins(items, f, k);
    LastWriteExists(items, f, k);
    var i :| IsLastWrite(items, i, f, k);
    assert items[i] == I18nItem(k, Aggregate(items)[f][k], f);
  }

  /** The table has a sub-map for exactly the file names some record
      carries. */
  lemma {:induction false} AggregateFiles(items: seq<I18nItem>)
    ensures forall f :: f in Aggregate(items) <==> exists it :: it in items && it.filename == f
    decreases |items|
  {
    if items != [] {
      var n := |items| - 1;
      var p := items[..n];
      assert Aggregate(items) == Insert(Aggregate(p), items[n]);
      AggregateFiles(p);
      assert items == p + [items[n]];
      forall f
        ensures f in Aggregate(items) <==> exists it :: it in items && it.filename == f
      {
        if f == items[n].filename {
          assert items[n] in items;
        } else {
          assert f in Aggregate(items) <==> f in Aggregate(p);
          if exists it :: it in items && it.filename == f {
            var it :| it in items && it.filename == f;
            assert it in p;
          }
          if f in Aggregate(p) {
            var it :| it in p && it.filename == f;
            assert it in items;
          }
        }
      }
    }
  }

  /** No sub-map of the table is ever empty, so the writer's skip of empty
      sub-maps (main.go:76) never fires. */
  lemma {:induction false} SubMapsNonEmpty(items: seq<I18nItem>)
    ensures forall f :: f in Aggregate(items) ==> |Aggregate(items)[f]| > 0
    decreases |items|
  {
    if items != [] {
      var n := |items| - 1;
      var p := items[..n];
      var t := Aggregate(items);
      assert t == Insert(Aggregate(p), items[n]);
      SubMapsNonEmpty(p);
      forall f | f in t
        ensures |t[f]| > 0
      {
        if f == items[n].filename {
          assert items[n].key in t[f];
        } else {
          assert t[f] == Aggregate(p)[f];
        }
      }
    }
  }

  /** Two tables agree on file `f`: both lack it, or both hold the same
      sub-map for it. */
  predicate SameFile(t1: Table, t2: Table, f: string)
  {
    (f in t1 <==> f in t2) && (f in t1 ==> t1[f] == t2[f])
  }

  /** Inserting the same record into two tables that agree on `f` keeps
      them agreeing on `f`. */
  lemma InsertKeepsSameFile(t1: Table, t2: Table, it: I18nItem, f: string)
    requires SameFile(t1, t2, f)
    ensures SameFile(Insert(t1, it), Insert(t2, it), f)
  {
  }

  /** Inserting a record for another file leaves `f`'s sub-map alone. */
  lemma InsertOtherFile(t: Table, it: I18nItem, f: string)
    requires it.filename != f
    ensures SameFile(Insert(t, it), t, f)
  {
  }

  /** A file's sub-map depends only on the records for that file, taken in
      their arrival order: records for other files may be interleaved in
      any way without changing it. */
  lemma {:induction false} AggregatePerFile(items: seq<I18nItem>, f: string)
    ensures f in Aggregate(items) <==> f in Aggregate(FileItems(items, f))
    ensures f in Aggregate(items) ==> Aggregate(items)[f] == Aggregate(FileItems(items, f))[f]
    decreases |items|
  {
    if items != [] {
      var n := |items| - 1;
      var p := items[..n];
      var last := items[n];
      assert items == p + [last];
      AggregateFromSnoc(map[], p, last);
      FileItemsSnoc(p, last, f);
      AggregatePerFile(p, f);
      assert SameFile(Aggregate(p), Aggregate(FileItems(p, f)), f);
      if last.filename == f {
        AggregateFromSnoc(map[], FileItems(p, f), last);
        InsertKeepsSameFile(Aggregate(p), Aggregate(FileItems(p, f)), last, f);
      } else {
        assert FileItems(p, f) + [] == FileItems(p, f);
        InsertOtherFile(Aggregate(p), last, f);
      }
      assert SameFile(Aggregate(items), Aggregate(FileItems(items, f)), f);
    }
  }

  /** The consume loop of Run (main.go:66-72), written as the source does:
      look the file's sub-map up, create it when missing, then store the
      value under the key. */
  method Consume(items: seq<I18nItem>) returns (t: Table)
    ensures t == Aggregate(items)
  {
    t := map[];
    var n := 0;
    while n < |items|
      invariant 0 <= n <= |items|
      invariant t == Aggregate(items[..n])
    {
      var item := items[n];
      assert items[..n + 1][..n] == items[..n];
      if item.filename !in t {
        t := t[item.filename := map[]];
      }
      t := t[item.filename := t[item.filename][item.key := item.value]];
      n := n + 1;
    }
    assert items[..n] == items;
  }
}
