/** The match record a file scanner sends to the aggregator (main.go:16-21). */
module Items {
  import opened Seqs

  /** One match: the key that matched, the whole matching line (the value
      written out later), and the destination file name (the source file's
      base name). */
  datatype I18nItem = I18nItem(key: string, value: string, filename: string)

  /** The items of `items` bound for file `f`, in their original order. */
  function FileItems(items: seq<I18nItem>, f: string): (r: seq<I18nItem>)
    ensures |r| <= |items|
  {
    if items == [] then []
    else
      var last := items[|items| - 1];
      FileItems(items[..|items| - 1], f) + (if last.filename == f then [last] else [])
  }

  /** A record is kept exactly when it is one of `items` and is bound for
      `f`. */
  lemma {:induction false} FileItemsMembership(items: seq<I18nItem>, f: string, it: I18nItem)
    ensures it in FileItems(items, f) <==> it in items && it.filename == f
    decreases |items|
  {
    if items != [] {
      var n := |items| - 1;
      assert items == items[..n] + [items[n]];
      FileItemsMembership(items[..n], f, it);
    }
  }

  /** One more record is kept at the end exactly when it is bound for `f`. */
  lemma FileItemsSnoc(items: seq<I18nItem>, it: I18nItem, f: string)
    ensures FileItems(items + [it], f) == FileItems(items, f) + (if it.filename == f then [it] else [])
  {
    var c := items + [it];
    assert c[..|c| - 1] == items;
    assert c[|c| - 1] == it;
  }

  /** Filtering a concatenation filters each part. */
  lemma {:induction false} FileItemsAppend(a: seq<I18nItem>, b: seq<I18nItem>, f: string)
    ensures FileItems(a + b, f) == FileItems(a, f) + FileItems(b, f)
    decreases |b|
  {
    if b == [] {
      assert a + b == a;
    } else {
      var n := |b| - 1;
      var front, it := b[..n], b[n];
      var tail := if it.filename == f then [it] else [];
      calc {
        FileItems(a + b, f);
        { assert b == front + [it]; ConcatAssoc(a, front, [it]); }
        FileItems((a + front) + [it], f);
        { FileItemsSnoc(a + front, it, f); }
        FileItems(a + front, f) + tail;
        { FileItemsAppend(a, front, f); }
        (FileItems(a, f) + FileItems(front, f)) + tail;
        { ConcatAssoc(FileItems(a, f), FileItems(front, f), tail); }
        FileItems(a, f) + (FileItems(front, f) + tail);
        { FileItemsSnoc(front, it, f); assert b == front + [it]; }
        FileItems(a, f) + FileItems(b, f);
      }
    }
  }

  /** When every record is bound for `f`, the filter keeps them all. */
  lemma {:induction false} FileItemsAll(items: seq<I18nItem>, f: string)
    requires forall j :: 0 <= j < |items| ==> items[j].filename == f
    ensures FileItems(items, f) == items
    decreases |items|
  {
    if items != [] {
      var n := |items| - 1;
      FileItemsAll(items[..n], f);
      assert items == items[..n] + [items[n]];
    }
  }

  /** When no record is bound for `f`, the filter keeps none. */
  lemma {:induction false} FileItemsNone(items: seq<I18nItem>, f: string)
    requires forall j :: 0 <= j < |items| ==> items[j].filename != f
    ensures FileItems(items, f) == []
    decreases |items|
  {
    if items != [] {
      FileItemsNone(items[..|items| - 1], f);
    }
  }
}
