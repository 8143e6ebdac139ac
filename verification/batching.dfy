/**
 * The batch loop over the collected detail links: the links are cut into
 * consecutive batches of `batch_size` (the last one possibly shorter), each
 * batch's tasks are gathered in submission order, only the records are
 * kept (absent results and raised exceptions are dropped), and there is a
 * pause after every batch except the last.
 *
 * The detail task is a parameter; the pause is an event in the schedule
 * rather than a sleep.
 */
module Batching {
  import opened Wrappers
  import opened Book

  function Min(a: int, b: int): int {
    if a <= b then a else b
  }

  /**
   * `[xs[i:i + size] for i in range(from, len(xs), size)]`: no batch is empty,
   * every batch holds `size` items except possibly the last, which is shorter.
   */
  function Batches<T>(xs: seq<T>, size: nat, from: nat): (r: seq<seq<T>>)
    requires size > 0
    ensures r == [] <==> from >= |xs|
    ensures WellCut(r, size)
    decreases |xs| - from
  {
    if from >= |xs| then []
    else
      var rest := Batches(xs, size, from + size);
      WellCutCons(xs[from..Min(from + size, |xs|)], rest, size);
      [xs[from..Min(from + size, |xs|)]] + rest
  }

  function Flatten<T>(xss: seq<seq<T>>): seq<T> {
    if xss == [] then [] else xss[0] + Flatten(xss[1..])
  }

  lemma {:induction false} FlattenConcat<T>(a: seq<seq<T>>, b: seq<seq<T>>)
    ensures Flatten(a + b) == Flatten(a) + Flatten(b)
  {
    if a == [] {
      assert a + b == b;
    } else {
      assert (a + b)[1..] == a[1..] + b;
      FlattenConcat(a[1..], b);
    }
  }

  /** Concatenating the batches gives back the links, nothing lost, repeated or reordered. */
  lemma {:induction false} BatchesCover<T>(xs: seq<T>, size: nat, from: nat)
    requires size > 0 && from <= |xs|
    ensures Flatten(Batches(xs, size, from)) == xs[from..]
    decreases |xs| - from
  {
    if from < |xs| {
      var to := Min(from + size, |xs|);
      var rest := Batches(xs, size, from + size);
      if from + size <= |xs| {
        BatchesCover(xs, size, from + size);
        assert xs[from..] == xs[from..to] + xs[from + size..];
      } else {
        assert rest == [];
      }
      assert Batches(xs, size, from)[1..] == rest;
    }
  }

  /** The number of batches is the `total_batches` the scraper computes: `ceil(n / size)`. */
  lemma BatchCount<T>(xs: seq<T>, size: nat)
    requires size > 0
    ensures |Batches(xs, size, 0)| == (|xs| + size - 1) / size
  {
    var c := |Batches(xs, size, 0)|;
    BatchCountFrom(xs, size, 0);
    DivUnique(|xs| + size - 1, size, c, |xs| + size - 1 - c * size);
  }

  /** The batches from `from` on just cover the rest: `c` batches of at most `size` each, `c - 1` do not suffice. */
  lemma {:induction false} BatchCountFrom<T>(xs: seq<T>, size: nat, from: nat)
    requires size > 0
    ensures var c := |Batches(xs, size, from)|;
      from + c * size >= |xs| && (c > 0 ==> from + (c - 1) * size < |xs|)
    decreases |xs| - from
  {
    if from < |xs| {
      var c' := |Batches(xs, size, from + size)|;
      BatchCountFrom(xs, size, from + size);
      assert |Batches(xs, size, from)| == c' + 1;
      CountStep(from, size, |xs|, c');
    }
  }

  /** One more batch in front: the count bounds shift by one batch. */
  lemma CountStep(from: int, size: int, n: int, c: nat)
    requires size > 0 && from < n
    requires from + size + c * size >= n
    requires c > 0 ==> from + size + (c - 1) * size < n
    ensures from + (c + 1) * size >= n && from + c * size < n
  {
    assert (c + 1) * size == c * size + size;
    if c > 0 {
      assert c * size == (c - 1) * size + size;
    }
  }

  /** Euclidean division is determined by quotient and remainder. */
  lemma DivUnique(n: int, d: int, q: int, r: int)
    requires d > 0 && 0 <= r < d && n == d * q + r
    ensures n / d == q
  {
    var q0 := n / d;
    var r0 := n % d;
    assert n == d * q0 + r0 && 0 <= r0 < d;
    assert d * (q0 - q) == r - r0;
    if q0 > q {
      MulAtLeast(d, q0 - q);
    } else if q0 < q {
      MulAtLeast(d, q - q0);
    }
  }

  lemma MulAtLeast(d: int, k: int)
    requires d > 0 && k >= 1
    ensures d * k >= d
  {
  }

  /** Each piece is non-empty and at most `size` long; all but the last are exactly `size` long. */
  ghost predicate WellCut<T>(bs: seq<seq<T>>, size: nat) {
    forall k :: 0 <= k < |bs| ==> 0 < |bs[k]| <= size && (k < |bs| - 1 ==> |bs[k]| == size)
  }

  /** A batch in front of well-cut batches: well cut, provided it is full whenever more follow. */
  lemma WellCutCons<T>(b: seq<T>, rest: seq<seq<T>>, size: nat)
    requires 0 < |b| <= size && (rest != [] ==> |b| == size)
    requires WellCut(rest, size)
    ensures WellCut([b] + rest, size)
  {
    var bs := [b] + rest;
    forall k | 0 < k < |bs|
      ensures 0 < |bs[k]| <= size && (k < |bs| - 1 ==> |bs[k]| == size)
    {
      assert bs[k] == rest[k - 1];
    }
  }

  // ---------------------------------------------------------------------------
  // Results

  /**
   * What one detail task returns: a record, `None`, or an `Exception`
   * instance handed back by `gather(..., return_exceptions=True)`.
   */
  datatype TaskResult = Done(book: BookRecord) | NoResult | Raised(message: string)

  /** `asyncio.gather` over a batch: one result per link, in submission order. */
  function GatherBatch(task: string -> TaskResult, batch: seq<string>): (r: seq<TaskResult>)
    ensures |r| == |batch|
  {
    if batch == [] then [] else [task(batch[0])] + GatherBatch(task, batch[1..])
  }

  /** The k-th result is the k-th link's task, whatever order the tasks finish in. */
  lemma {:induction false} GatherInSubmissionOrder(task: string -> TaskResult, batch: seq<string>)
    ensures forall k :: 0 <= k < |batch| ==> GatherBatch(task, batch)[k] == task(batch[k])
  {
    if batch != [] {
      GatherInSubmissionOrder(task, batch[1..]);
      var r := GatherBatch(task, batch);
      assert forall k :: 1 <= k < |batch| ==> r[k] == GatherBatch(task, batch[1..])[k - 1] && batch[k] == batch[1..][k - 1];
    }
  }

  /** The result filter: records kept in order, `None` and exceptions dropped. */
  function KeepRecords(results: seq<TaskResult>): (r: seq<BookRecord>)
    ensures |r| <= |results|
  {
    if results == [] then []
    else if results[0].Done? then [results[0].book] + KeepRecords(results[1..])
    else KeepRecords(results[1..])
  }

  /** A record survives the filter exactly when some result carries it. */
  lemma {:induction false} KeptIffDone(results: seq<TaskResult>, b: BookRecord)
    ensures b in KeepRecords(results) <==> Done(b) in results
  {
    if results != [] {
      KeptIffDone(results[1..], b);
      assert results == [results[0]] + results[1..];
    }
  }

  /** The results that are not records: `None`s and exceptions. */
  function Failures(results: seq<TaskResult>): nat {
    if results == [] then 0 else (if results[0].Done? then 0 else 1) + Failures(results[1..])
  }

  /** A batch keeps as many records as it has results, less its failures. */
  lemma {:induction false} KeptPlusFailures(results: seq<TaskResult>)
    ensures |KeepRecords(results)| + Failures(results) == |results|
  {
    if results != [] {
      KeptPlusFailures(results[1..]);
    }
  }

  lemma {:induction false} KeepConcat(a: seq<TaskResult>, b: seq<TaskResult>)
    ensures KeepRecords(a + b) == KeepRecords(a) + KeepRecords(b)
  {
    if a == [] {
      assert a + b == b;
    } else {
      assert (a + b)[1..] == a[1..] + b;
      KeepConcat(a[1..], b);
    }
  }

  lemma {:induction false} GatherConcat(task: string -> TaskResult, a: seq<string>, b: seq<string>)
    ensures GatherBatch(task, a + b) == GatherBatch(task, a) + GatherBatch(task, b)
  {
    if a == [] {
      assert a + b == b;
    } else {
      assert (a + b)[1..] == a[1..] + b;
      GatherConcat(task, a[1..], b);
    }
  }

  // ---------------------------------------------------------------------------
  // The batch loop

  /** What the loop does, in order: gather a batch, or pause between batches. */
  datatype Event = Gathered(batch: seq<string>) | Pause

  datatype Run = Run(books: seq<BookRecord>, events: seq<Event>)

  /**
   * The loop body from offset `from` on: it starts with a batch, and batches
   * and pauses alternate.
   */
  function RunFrom(links: seq<string>, size: nat, task: string -> TaskResult, from: nat): (r: Run)
    requires size > 0
    ensures r.events == [] <==> from >= |links|
    ensures r.events != [] ==> r.events[0].Gathered?
    ensures Alternating(r.events)
    decreases |links| - from
  {
    if from >= |links| then Run([], [])
    else
      var batch := links[from..Min(from + size, |links|)];
      var kept := KeepRecords(GatherBatch(task, batch));
      var rest := RunFrom(links, size, task, from + size);
      var pause := if from + size < |links| then [Pause] else [];
      AlternatingCons(Gathered(batch), pause, rest.events);
      Run(kept + rest.books, [Gathered(batch)] + pause + rest.events)
  }

  /** Each batch is followed by a pause and each pause by a batch, except at the end. */
  ghost predicate Alternating(events: seq<Event>) {
    forall k :: 0 <= k < |events| - 1 ==> (events[k].Gathered? <==> events[k + 1].Pause?)
  }

  /** A batch, a pause exactly when more follows, then an alternating run that starts with a batch. */
  lemma AlternatingCons(g: Event, pause: seq<Event>, rest: seq<Event>)
    requires g.Gathered? && Alternating(rest)
    requires pause == [] || pause == [Pause]
    requires pause == [] <==> rest == []
    requires rest != [] ==> rest[0].Gathered?
    ensures Alternating([g] + pause + rest)
  {
    var e := [g] + pause + rest;
    forall k | 0 <= k < |e| - 1
      ensures e[k].Gathered? <==> e[k + 1].Pause?
    {
      if k >= 2 {
        assert e[k] == rest[k - 2] && e[k + 1] == rest[k - 1];
      }
    }
  }

  /**
   * The whole loop: `range(0, n, batch_size)` raises for a zero step and is
   * empty for a negative one.
   */
  function RunBatches(links: seq<string>, batchSize: int, task: string -> TaskResult): (r: Result<Run, string>)
    ensures r.Failure? <==> batchSize == 0
    ensures batchSize < 0 ==> r == Success(Run([], []))
  {
    if batchSize == 0 then Failure("range() arg 3 must not be zero")
    else if batchSize < 0 then Success(Run([], []))
    else Success(RunFrom(links, batchSize, task, 0))
  }

  /** One step of the loop: the batch at `from`, then the rest of the run. */
  lemma RunFromStep(links: seq<string>, size: nat, task: string -> TaskResult, from: nat)
    requires size > 0 && from < |links|
    ensures var batch := links[from..Min(from + size, |links|)];
      var rest := RunFrom(links, size, task, from + size);
      && RunFrom(links, size, task, from).books == KeepRecords(GatherBatch(task, batch)) + rest.books
      && RunFrom(links, size, task, from).events
           == [Gathered(batch)] + (if from + size < |links| then [Pause] else []) + rest.events
  {
  }

  /** Batching changes nothing about which records are kept, nor their order. */
  lemma {:induction false} RunKeepsLinkOrder(links: seq<string>, size: nat, task: string -> TaskResult, from: nat)
    requires size > 0 && from <= |links|
    ensures RunFrom(links, size, task, from).books == KeepRecords(GatherBatch(task, links[from..]))
    decreases |links| - from
  {
    if from + size < |links| {
      RunKeepsLinkOrder(links, size, task, from + size);
      RunKeepsStep(links, size, task, from);
    } else if from < |links| {
      LastBatchKept(links, size, task, from);
    }
  }

  /** A batch that is not the last adds its records in front of those of the rest. */
  lemma RunKeepsStep(links: seq<string>, size: nat, task: string -> TaskResult, from: nat)
    requires size > 0 && from + size < |links|
    requires RunFrom(links, size, task, from + size).books == KeepRecords(GatherBatch(task, links[from + size..]))
    ensures RunFrom(links, size, task, from).books == KeepRecords(GatherBatch(task, links[from..]))
  {
    var head, tail := links[from..from + size], links[from + size..];
    RunFromStep(links, size, task, from);
    assert links[from..] == head + tail;
    KeepGatherConcat(task, head, tail);
  }

  /** The last batch holds every remaining link. */
  lemma LastBatchKept(links: seq<string>, size: nat, task: string -> TaskResult, from: nat)
    requires size > 0 && from < |links| <= from + size
    ensures RunFrom(links, size, task, from).books == KeepRecords(GatherBatch(task, links[from..]))
  {
    RunFromStep(links, size, task, from);
    assert RunFrom(links, size, task, from + size).books == [];
    assert links[from..Min(from + size, |links|)] == links[from..];
  }

  /** Gathering and filtering work piecewise over a concatenation of links. */
  lemma KeepGatherConcat(task: string -> TaskResult, a: seq<string>, b: seq<string>)
    ensures KeepRecords(GatherBatch(task, a + b)) == KeepRecords(GatherBatch(task, a)) + KeepRecords(GatherBatch(task, b))
  {
    GatherConcat(task, a, b);
    KeepConcat(GatherBatch(task, a), GatherBatch(task, b));
  }

  /** The batches gathered, in the order they were gathered. */
  function GatheredBatches(events: seq<Event>): seq<seq<string>> {
    if events == [] then []
    else if events[0].Gathered? then [events[0].batch] + GatheredBatches(events[1..])
    else GatheredBatches(events[1..])
  }

  function PauseCount(events: seq<Event>): nat {
    if events == [] then 0 else (if events[0].Pause? then 1 else 0) + PauseCount(events[1..])
  }

  /**
   * The schedule gathers exactly the batches, pauses once fewer times than
   * it gathers, and never ends on a pause.
   */
  lemma {:induction false} ScheduleShape(links: seq<string>, size: nat, task: string -> TaskResult, from: nat)
    requires size > 0
    ensures var ev := RunFrom(links, size, task, from).events;
      && GatheredBatches(ev) == Batches(links, size, from)
      && (ev == [] <==> from >= |links|)
      && (ev != [] ==> PauseCount(ev) + 1 == |Batches(links, size, from)| && ev[|ev| - 1].Gathered?)
  {
    ScheduleGathers(links, size, task, from);
    SchedulePauses(links, size, task, from);
    ScheduleEndsGathered(links, size, task, from);
    if from < |links| {
      RunFromStep(links, size, task, from);
    }
  }

  lemma {:induction false} ScheduleGathers(links: seq<string>, size: nat, task: string -> TaskResult, from: nat)
    requires size > 0
    ensures GatheredBatches(RunFrom(links, size, task, from).events) == Batches(links, size, from)
    decreases |links| - from
  {
    if from < |links| {
      var batch := links[from..Min(from + size, |links|)];
      var pause: seq<Event> := if from + size < |links| then [Pause] else [];
      var rest := RunFrom(links, size, task, from + size).events;
      RunFromStep(links, size, task, from);
      ScheduleGathers(links, size, task, from + size);
      HeadOfSchedule(batch, pause);
      GatheredBatchesConcat([Gathered(batch)] + pause, rest);
    }
  }

  lemma {:induction false} SchedulePauses(links: seq<string>, size: nat, task: string -> TaskResult, from: nat)
    requires size > 0
    ensures from < |links| ==> PauseCount(RunFrom(links, size, task, from).events) + 1 == |Batches(links, size, from)|
    decreases |links| - from
  {
    if from < |links| {
      var batch := links[from..Min(from + size, |links|)];
      var pause: seq<Event> := if from + size < |links| then [Pause] else [];
      var rest := RunFrom(links, size, task, from + size).events;
      RunFromStep(links, size, task, from);
      SchedulePauses(links, size, task, from + size);
      HeadOfSchedule(batch, pause);
      PauseCountConcat([Gathered(batch)] + pause, rest);
      if from + size >= |links| {
        assert rest == [];
      }
    }
  }

  lemma {:induction false} ScheduleEndsGathered(links: seq<string>, size: nat, task: string -> TaskResult, from: nat)
    requires size > 0
    ensures var ev := RunFrom(links, size, task, from).events;
      from < |links| ==> ev != [] && ev[|ev| - 1].Gathered?
    decreases |links| - from
  {
    if from < |links| {
      var batch := links[from..Min(from + size, |links|)];
      var pause: seq<Event> := if from + size < |links| then [Pause] else [];
      var rest := RunFrom(links, size, task, from + size).events;
      RunFromStep(links, size, task, from);
      ScheduleEndsGathered(links, size, task, from + size);
      LastEvent([Gathered(batch)] + pause, rest);
    }
  }

  /** The events of one step before the rest of the run: one gather, then the pause if any. */
  lemma HeadOfSchedule(batch: seq<string>, pause: seq<Event>)
    requires pause == [] || pause == [Pause]
    ensures GatheredBatches([Gathered(batch)] + pause) == [batch]
    ensures PauseCount([Gathered(batch)] + pause) == |pause|
  {
    assert ([Gathered(batch)] + pause)[1..] == pause;
    if pause != [] {
      assert pause[1..] == [];
    }
  }

  /** The last event of a step followed by the rest of the run. */
  lemma LastEvent(head: seq<Event>, rest: seq<Event>)
    requires rest == [] ==> head != [] && head[|head| - 1].Gathered?
    requires rest != [] ==> rest[|rest| - 1].Gathered?
    ensures var ev := head + rest; ev != [] && ev[|ev| - 1].Gathered?
  {
  }

  lemma {:induction false} GatheredBatchesConcat(a: seq<Event>, b: seq<Event>)
    ensures GatheredBatches(a + b) == GatheredBatches(a) + GatheredBatches(b)
  {
    if a == [] {
      assert a + b == b;
    } else {
      assert (a + b)[1..] == a[1..] + b;
      GatheredBatchesConcat(a[1..], b);
    }
  }

  lemma {:induction false} PauseCountConcat(a: seq<Event>, b: seq<Event>)
    ensures PauseCount(a + b) == PauseCount(a) + PauseCount(b)
  {
    if a == [] {
      assert a + b == b;
    } else {
      assert (a + b)[1..] == a[1..] + b;
      PauseCountConcat(a[1..], b);
    }
  }

  /** Every record kept is what the task returned for one of the links. */
  lemma RecordsComeFromLinks(links: seq<string>, size: nat, task: string -> TaskResult, b: BookRecord)
    requires size > 0
    ensures b in RunFrom(links, size, task, 0).books <==> exists k :: 0 <= k < |links| && task(links[k]) == Done(b)
  {
    RunKeepsLinkOrder(links, size, task, 0);
    assert links[0..] == links;
    var results := GatherBatch(task, links);
    GatherInSubmissionOrder(task, links);
    KeptIffDone(results, b);
    if Done(b) in results {
      var k :| 0 <= k < |results| && results[k] == Done(b);
      assert task(links[k]) == Done(b);
    }
    if exists k :: 0 <= k < |links| && task(links[k]) == Done(b) {
      var k :| 0 <= k < |links| && task(links[k]) == Done(b);
      assert results[k] == Done(b);
    }
  }
}
