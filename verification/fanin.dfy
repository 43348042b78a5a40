/** The fan-in of the scanners' records onto one unbuffered channel
    (main.go:49-63, 117). Each scanner goroutine is a worker holding the
    records it still has to send, in its own order. A schedule, a sequence
    of worker indices, says whose send the consumer receives next; picking a
    worker that is idle or does not exist delivers nothing. When the schedule
    runs out, the remaining records are delivered worker by worker. Every
    interleaving that keeps each worker's own order is the outcome of some
    schedule (RunIsSchedule), so a property proved for every schedule holds
    for every arrival order the Go runtime can produce. */
module Fanin {
  import opened Items
  import opened Seqs

  /** Concatenation of all workers' records, worker by worker. */
  function Flatten(streams: seq<seq<I18nItem>>): seq<I18nItem>
  {
    if streams == [] then [] else streams[0] + Flatten(streams[1..])
  }

  /** The channel's progress: records still held by each worker, and the
      records the consumer has received so far, in order. */
  datatype Progress = Progress(pending: seq<seq<I18nItem>>, delivered: seq<I18nItem>)

  /** Worker `w` hands its next record over, if it has one. */
  function Send(p: Progress, w: int): (r: Progress)
    ensures |r.pending| == |p.pending|
    ensures |r.delivered| <= |p.delivered| + 1
  {
    if 0 <= w < |p.pending| && p.pending[w] != [] then
      Progress(p.pending[w := p.pending[w][1..]], p.delivered + [p.pending[w][0]])
    else p
  }

  /** Runs a schedule of sends. */
  function Deliver(p: Progress, schedule: seq<int>): Progress
    decreases |schedule|
  {
    if schedule == [] then p else Deliver(Send(p, schedule[0]), schedule[1..])
  }

  /** The order in which the consumer receives all records. */
  function Arrivals(streams: seq<seq<I18nItem>>, schedule: seq<int>): seq<I18nItem>
  {
    var p := Deliver(Progress(streams, []), schedule);
    p.delivered + Flatten(p.pending)
  }

  lemma {:induction false} FlattenAppend(a: seq<seq<I18nItem>>, b: seq<seq<I18nItem>>)
    ensures Flatten(a + b) == Flatten(a) + Flatten(b)
    decreases |a|
  {
    if a == [] {
      assert a + b == b;
    } else {
      assert (a + b)[1..] == a[1..] + b;
      FlattenAppend(a[1..], b);
    }
  }

  /** A record is among all workers' records exactly when some worker
      holds it. */
  lemma {:induction false} FlattenMembership(streams: seq<seq<I18nItem>>, it: I18nItem)
    ensures it in Flatten(streams) <==> exists w :: 0 <= w < |streams| && it in streams[w]
    decreases |streams|
  {
    if streams != [] {
      FlattenMembership(streams[1..], it);
      if exists w :: 0 <= w < |streams[1..]| && it in streams[1..][w] {
        var w :| 0 <= w < |streams[1..]| && it in streams[1..][w];
        assert streams[1..][w] == streams[w + 1];
      }
      if exists w :: 0 <= w < |streams| && it in streams[w] {
        var w :| 0 <= w < |streams| && it in streams[w];
        if w > 0 {
          assert streams[1..][w - 1] == streams[w];
        }
      }
    }
  }

  /** Flattening around worker `w`: its records sit between those of the
      workers before and after it. */
  lemma {:induction false} FlattenAround(s: seq<seq<I18nItem>>, w: int)
    requires 0 <= w < |s|
    ensures Flatten(s) == Flatten(s[..w]) + s[w] + Flatten(s[w + 1..])
  {
    var a, b, c := s[..w], [s[w]], s[w + 1..];
    assert s == a + b + c;
    FlattenAppend(a + b, c);
    FlattenAppend(a, b);
    assert b[1..] == [];
    assert Flatten(b) == s[w];
  }

  /** A send moves one record from a worker to the consumer: nothing is
      lost or duplicated. */
  lemma {:induction false} SendMoves(p: Progress, w: int)
    ensures multiset(Send(p, w).delivered) + multiset(Flatten(Send(p, w).pending)) ==
            multiset(p.delivered) + multiset(Flatten(p.pending))
  {
    if 0 <= w < |p.pending| && p.pending[w] != [] {
      var s := p.pending;
      var s' := s[w := s[w][1..]];
      FlattenAround(s, w);
      FlattenAround(s', w);
      assert s'[..w] == s[..w];
      assert s'[w + 1..] == s[w + 1..];
      assert s[w] == [s[w][0]] + s[w][1..];
    }
  }

  lemma {:induction false} DeliverMoves(p: Progress, schedule: seq<int>)
    ensures multiset(Deliver(p, schedule).delivered) + multiset(Flatten(Deliver(p, schedule).pending)) ==
            multiset(p.delivered) + multiset(Flatten(p.pending))
    decreases |schedule|
  {
    if schedule != [] {
      SendMoves(p, schedule[0]);
      DeliverMoves(Send(p, schedule[0]), schedule[1..]);
    }
  }

  /** Whatever the schedule, the consumer receives every record exactly
      once: the arrival order is a permutation of all workers' records. */
  lemma ArrivalsPermutation(streams: seq<seq<I18nItem>>, schedule: seq<int>)
    ensures multiset(Arrivals(streams, schedule)) == multiset(Flatten(streams))
  {
    DeliverMoves(Progress(streams, []), schedule);
  }

  /** The records for file `f` held by all workers, when only worker `w`
      holds any, are that worker's. */
  lemma {:induction false} FlattenSingleSource(s: seq<seq<I18nItem>>, w: int, f: string)
    requires 0 <= w < |s|
    requires forall v :: 0 <= v < |s| && v != w ==> FileItems(s[v], f) == []
    ensures FileItems(Flatten(s), f) == FileItems(s[w], f)
  {
    FlattenAround(s, w);
    FileItemsAppend(Flatten(s[..w]) + s[w], Flatten(s[w + 1..]), f);
    FileItemsAppend(Flatten(s[..w]), s[w], f);
    NoFileItems(s[..w], f);
    NoFileItems(s[w + 1..], f);
    forall v | 0 <= v < |s[..w]| ensures FileItems(s[..w][v], f) == [] {
      assert s[..w][v] == s[v];
    }
    var after := s[w + 1..];
    forall v | 0 <= v < |after| ensures FileItems(after[v], f) == [] {
      assert after[v] == s[w + 1 + v];
    }
  }

  /** Workers holding no record for `f` contribute none when flattened. */
  lemma {:induction false} NoFileItems(s: seq<seq<I18nItem>>, f: string)
    ensures (forall v :: 0 <= v < |s| ==> FileItems(s[v], f) == []) ==> FileItems(Flatten(s), f) == []
    decreases |s|
  {
    if s != [] && forall v :: 0 <= v < |s| ==> FileItems(s[v], f) == [] {
      assert FileItems(s[0], f) == [];
      FileItemsAppend(s[0], Flatten(s[1..]), f);
      forall v | 0 <= v < |s[1..]| ensures FileItems(s[1..][v], f) == [] {
        assert s[1..][v] == s[v + 1];
      }
      NoFileItems(s[1..], f);
    }
  }

  /** Only worker `w` holds records for `f`, and the records for `f` already
      delivered followed by those `w` still holds are `expected`. */
  ghost predicate FileOrderKept(p: Progress, w: int, f: string, expected: seq<I18nItem>)
  {
    0 <= w < |p.pending| &&
    (forall v :: 0 <= v < |p.pending| && v != w ==> FileItems(p.pending[v], f) == []) &&
    FileItems(p.delivered, f) + FileItems(p.pending[w], f) == expected
  }

  /** The send of worker `w` itself moves its next record for `f` (if it is
      one) from the worker's side to the consumer's side, keeping the order. */
  lemma {:induction false} SendFromOwner(p: Progress, w: int, f: string, expected: seq<I18nItem>)
    requires FileOrderKept(p, w, f, expected)
    requires p.pending[w] != []
    ensures FileOrderKept(Send(p, w), w, f, expected)
  {
    var h := p.pending[w][0];
    var rest := p.pending[w][1..];
    var p' := Send(p, w);
    assert p.pending[w] == [h] + rest;
    FileItemsAppend([h], rest, f);
    FileItemsAppend(p.delivered, [h], f);
    assert p'.delivered == p.delivered + [h];
    assert p'.pending == p.pending[w := rest];
    forall v | 0 <= v < |p'.pending| && v != w
      ensures FileItems(p'.pending[v], f) == []
    {
      assert p'.pending[v] == p.pending[v];
    }
  }

  /** A send of any other worker moves no record for `f`. */
  lemma {:induction false} SendFromOther(p: Progress, u: int, w: int, f: string, expected: seq<I18nItem>)
    requires FileOrderKept(p, w, f, expected)
    requires 0 <= u < |p.pending| && u != w && p.pending[u] != []
    ensures FileOrderKept(Send(p, u), w, f, expected)
  {
    var h := p.pending[u][0];
    var rest := p.pending[u][1..];
    var p' := Send(p, u);
    assert p.pending[u] == [h] + rest;
    FileItemsAppend([h], rest, f);
    assert |FileItems([h], f)| + |FileItems(rest, f)| == 0;
    FileItemsAppend(p.delivered, [h], f);
    assert p'.delivered == p.delivered + [h];
    assert p'.pending == p.pending[u := rest];
    forall v | 0 <= v < |p'.pending| && v != w
      ensures FileItems(p'.pending[v], f) == []
    {
      if v != u {
        assert p'.pending[v] == p.pending[v];
      }
    }
  }

  lemma {:induction false} SendKeepsFileOrder(p: Progress, u: int, w: int, f: string, expected: seq<I18nItem>)
    requires FileOrderKept(p, w, f, expected)
    ensures FileOrderKept(Send(p, u), w, f, expected)
  {
    if 0 <= u < |p.pending| && p.pending[u] != [] {
      if u == w {
        SendFromOwner(p, w, f, expected);
      } else {
        SendFromOther(p, u, w, f, expected);
      }
    }
  }

  lemma {:induction false} DeliverKeepsFileOrder(p: Progress, schedule: seq<int>, w: int, f: string, expected: seq<I18nItem>)
    requires FileOrderKept(p, w, f, expected)
    ensures FileOrderKept(Deliver(p, schedule), w, f, expected)
    decreases |schedule|
  {
    if schedule != [] {
      SendKeepsFileOrder(p, schedule[0], w, f, expected);
      DeliverKeepsFileOrder(Send(p, schedule[0]), schedule[1..], w, f, expected);
    }
  }

  /** Whatever the schedule, when only worker `w` produces records for file
      `f`, those records reach the consumer in the worker's own order: the
      interleaving with other workers never reorders them. */
  lemma ArrivalsKeepFileOrder(streams: seq<seq<I18nItem>>, schedule: seq<int>, w: int, f: string)
    requires 0 <= w < |streams|
    requires forall v :: 0 <= v < |streams| && v != w ==> FileItems(streams[v], f) == []
    ensures FileItems(Arrivals(streams, schedule), f) == FileItems(streams[w], f)
  {
    var p0 := Progress(streams, []);
    assert FileItems(p0.delivered, f) == [];
    assert FileOrderKept(p0, w, f, FileItems(streams[w], f));
    DeliverKeepsFileOrder(p0, schedule, w, f, FileItems(streams[w], f));
    var p := Deliver(p0, schedule);
    FlattenSingleSource(p.pending, w, f);
    FileItemsAppend(p.delivered, Flatten(p.pending), f);
  }

  /** A record as the consumer received it, labelled with the worker that
      sent it. A sequence of these is one run of the channel. */
  datatype Tagged = Tagged(worker: int, item: I18nItem)

  /** The records worker `w` sent in a run, in the order they were received. */
  function Sent(run: seq<Tagged>, w: int): seq<I18nItem>
  {
    if run == [] then []
    else (if run[0].worker == w then [run[0].item] else []) + Sent(run[1..], w)
  }

  /** The senders of a run, in order: the schedule that replays it. */
  function Workers(run: seq<Tagged>): (r: seq<int>)
    ensures |r| == |run|
  {
    if run == [] then [] else [run[0].worker] + Workers(run[1..])
  }

  /** The records of a run, in the order the consumer received them. */
  function Received(run: seq<Tagged>): (r: seq<I18nItem>)
    ensures |r| == |run|
  {
    if run == [] then [] else [run[0].item] + Received(run[1..])
  }

  /** Replaying a run whose senders still hold exactly the records they send
      in it delivers those records in the run's order and drains every
      worker. */
  lemma {:induction false} DeliverRun(p: Progress, run: seq<Tagged>)
    requires forall i :: 0 <= i < |run| ==> 0 <= run[i].worker < |p.pending|
    requires forall w :: 0 <= w < |p.pending| ==> p.pending[w] == Sent(run, w)
    ensures |Deliver(p, Workers(run)).pending| == |p.pending|
    ensures Deliver(p, Workers(run)).delivered == p.delivered + Received(run)
    ensures forall w :: 0 <= w < |p.pending| ==> Deliver(p, Workers(run)).pending[w] == []
    decreases |run|
  {
    if run == [] {
      assert Workers(run) == [];
      assert Received(run) == [];
    } else {
      var t := run[0];
      var rest := run[1..];
      var w := t.worker;
      assert p.pending[w] == [t.item] + Sent(rest, w);
      var p' := Send(p, w);
      assert p' == Progress(p.pending[w := Sent(rest, w)], p.delivered + [t.item]);
      forall v | 0 <= v < |p'.pending|
        ensures p'.pending[v] == Sent(rest, v)
      {
        if v != w {
          assert Sent(run, v) == Sent(rest, v);
        }
      }
      forall i | 0 <= i < |rest|
        ensures 0 <= rest[i].worker < |p'.pending|
      {
        assert rest[i] == run[i + 1];
      }
      DeliverRun(p', rest);
      assert Workers(run)[1..] == Workers(rest);
      assert Deliver(p, Workers(run)) == Deliver(p', Workers(rest));
      assert Received(run) == [t.item] + Received(rest);
      ConcatAssoc(p.delivered, [t.item], Received(rest));
    }
  }

  /** Workers with nothing left contribute nothing to the flush. */
  lemma {:induction false} FlattenDrained(s: seq<seq<I18nItem>>)
    requires forall v :: 0 <= v < |s| ==> s[v] == []
    ensures Flatten(s) == []
  {
    if s != [] {
      assert forall v :: 0 <= v < |s[1..]| ==> s[1..][v] == s[v + 1];
      FlattenDrained(s[1..]);
    }
  }

  /** A schedule after which no worker holds anything leaves nothing to
      flush: the arrivals are exactly what it delivered. */
  lemma DrainedArrivals(streams: seq<seq<I18nItem>>, schedule: seq<int>, received: seq<I18nItem>)
    requires Deliver(Progress(streams, []), schedule).delivered == received
    requires forall w :: 0 <= w < |Deliver(Progress(streams, []), schedule).pending| ==>
      Deliver(Progress(streams, []), schedule).pending[w] == []
    ensures Arrivals(streams, schedule) == received
  {
    var p := Deliver(Progress(streams, []), schedule);
    FlattenDrained(p.pending);
    assert Arrivals(streams, schedule) == p.delivered + Flatten(p.pending);
  }

  /** Every run of the channel is the outcome of some schedule: a run in
      which each worker sends exactly its own records, in its own order, is
      what the schedule of its senders delivers, with nothing left over. So a
      property proved for every schedule holds for every run. */
  lemma RunIsSchedule(streams: seq<seq<I18nItem>>, run: seq<Tagged>)
    requires forall i :: 0 <= i < |run| ==> 0 <= run[i].worker < |streams|
    requires forall w :: 0 <= w < |streams| ==> Sent(run, w) == streams[w]
    ensures Arrivals(streams, Workers(run)) == Received(run)
  {
    var p0 := Progress(streams, []);
    DeliverRun(p0, run);
    assert [] + Received(run) == Received(run);
    DrainedArrivals(streams, Workers(run), Received(run));
  }
}
