/**
 * The image-ingestion handler (lambdas/logImage.ts): for every inner S3
 * record of every SQS record it decodes the object key and, when the key
 * ends in `.jpeg` or `.png`, writes the item `{ fileName: key }` to the image
 * table; the first key without either suffix, or the first record that
 * cannot be unwrapped, throws and ends the invocation, leaving earlier writes
 * in place.
 */
module LogImage {
  import opened Wrappers
  import opened Events
  import opened Text
  import KeyCodec

  /** A table item: the handler writes only the partition key `fileName`. */
  datatype Item = Item(fileName: string)

  /** The image table, keyed by `fileName`. */
  type Table = map<string, Item>

  /** The DynamoDB image table: a map its `Put` updates in place. */
  class ImageTable {
    var items: Table

    constructor (initial: Table)
      ensures items == initial
    {
      items := initial;
    }

    /** PutCommand: creates the item, or replaces the one with the same `fileName`. */
    method Put(item: Item)
      modifies this
      ensures items == old(items)[item.fileName := item]
    {
      items := items[item.fileName := item];
    }
  }

  /** The extension check, case-sensitive. */
  predicate IsSupportedImage(key: string)
  {
    EndsWith(key, ".jpeg") || EndsWith(key, ".png")
  }

  /** The error a step makes the handler throw; `None` when its key is written. */
  function Rejection(s: Step): Option<Fault>
  {
    match s
    case Malformed(f) => Some(f)
    case Object(_, key) => if IsSupportedImage(key) then None else Some(InvalidImageType(key))
  }

  predicate Accepted(s: Step)
  {
    Rejection(s).None?
  }

  predicate AllAccepted(steps: seq<Step>)
  {
    forall i :: 0 <= i < |steps| ==> Accepted(steps[i])
  }

  /** The table after putting the key of every step, in order. */
  function PutAll(t: Table, steps: seq<Step>): Table
    requires AllAccepted(steps)
    decreases |steps|
  {
    if steps == [] then t else PutAll(t[steps[0].key := Item(steps[0].key)], steps[1..])
  }

  /** The keys of the objects a step sequence names. */
  function KeysOf(steps: seq<Step>): set<string>
  {
    set i | 0 <= i < |steps| && steps[i].Object? :: steps[i].key
  }

  /**
   * What one invocation does to the table, and how it ends, given the steps
   * of its batch: keys are written in order until the first rejected step.
   */
  function Ingest(t: Table, steps: seq<Step>): (Table, Outcome)
    decreases |steps|
  {
    if steps == [] then (t, Completed)
    else
      match Rejection(steps[0])
      case Some(f) => (t, Failed(f))
      case None => Ingest(t[steps[0].key := Item(steps[0].key)], steps[1..])
  }

  function IngestBatch(t: Table, batch: seq<SqsRecord>): (Table, Outcome)
  {
    Ingest(t, Steps(batch))
  }

  /**
   * The handler. `table` is the DynamoDB table; the nested loops walk the SQS
   * records and the S3 records inside each notification, and every `throw`
   * of the source is an early `return` of a `Failed` outcome.
   */
  method Handle(table: ImageTable, batch: seq<SqsRecord>) returns (outcome: Outcome)
    modifies table
    ensures (table.items, outcome) == IngestBatch(old(table.items), batch)
  {
    // What is left of the batch to walk, and the outcome of walking it from
    // the current table, is at every point the outcome of the whole batch.
    ghost var goal := IngestBatch(table.items, batch);
    assert batch[0..] == batch;
    for i := 0 to |batch|
      invariant goal == Ingest(table.items, Steps(batch[i..]))
    {
      ghost var later := Steps(batch[i + 1..]);
      UnfoldSteps(batch, i);
      var message := batch[i].message;
      if message.None? {
        IngestCons(table.items, Malformed(UnparsableBody), later);
        return Failed(UnparsableBody);
      }
      var records := message.value.records;
      if records.None? {
        assert RecordSteps(batch[i]) == [];
        assert Steps(batch[i..]) == later;
      } else {
        var rs := records.value;
        assert rs[0..] == rs;
        for j := 0 to |rs|
          invariant goal == Ingest(table.items, InnerSteps(rs[j..]) + later)
        {
          ghost var rest := InnerSteps(rs[j + 1..]) + later;
          var step := Normalize(rs[j]);
          UnfoldInnerSteps(rs, j, later);
          IngestCons(table.items, step, rest);
          if step.Malformed? {
            return Failed(step.fault);
          }
          var key := step.key;
          if !IsSupportedImage(key) {
            return Failed(InvalidImageType(key));
          }
          table.Put(Item(key));
        }
        assert InnerSteps(rs[|rs|..]) == [];
        assert [] + later == later;
      }
    }
    assert batch[|batch|..] == [];
    return Completed;
  }

  // ---------------------------------------------------------------------
  // Lemmas the handler's proof uses.

  /** One step of the walk. */
  lemma IngestCons(t: Table, s: Step, rest: seq<Step>)
    ensures Ingest(t, [s] + rest)
            == if Accepted(s) then Ingest(t[s.key := Item(s.key)], rest) else (t, Failed(Rejection(s).value))
  {
    assert ([s] + rest)[0] == s && ([s] + rest)[1..] == rest;
  }

  /** Accepted steps only write; the rest of the walk starts from the table they leave. */
  lemma {:induction false} IngestAfterAccepted(t: Table, p: seq<Step>, rest: seq<Step>)
    requires AllAccepted(p)
    ensures Ingest(t, p + rest) == Ingest(PutAll(t, p), rest)
    decreases |p|
  {
    if p != [] {
      assert (p + rest)[0] == p[0] && (p + rest)[1..] == p[1..] + rest;
      IngestAfterAccepted(t[p[0].key := Item(p[0].key)], p[1..], rest);
    } else {
      assert p + rest == rest;
    }
  }

  lemma IngestCompletes(t: Table, steps: seq<Step>)
    requires AllAccepted(steps)
    ensures Ingest(t, steps) == (PutAll(t, steps), Completed)
  {
    IngestAfterAccepted(t, steps, []);
    assert steps + [] == steps;
  }

  // ---------------------------------------------------------------------
  // What an invocation does to the table.

  /** The first thing that stops the walk: the number of leading accepted steps. */
  function AcceptedPrefix(steps: seq<Step>): (n: nat)
    ensures n <= |steps|
    ensures forall i :: 0 <= i < n ==> Accepted(steps[i])
    ensures n < |steps| ==> !Accepted(steps[n])
  {
    if steps == [] || !Accepted(steps[0]) then 0 else AcceptedPrefix(steps[1..]) + 1
  }

  /**
   * An invocation writes the keys of the steps before the first rejected one
   * and ends with that step's error, or completes when there is none.
   */
  lemma IngestClosedForm(t: Table, steps: seq<Step>)
    ensures var n := AcceptedPrefix(steps);
            Ingest(t, steps)
            == (PutAll(t, steps[..n]), if n == |steps| then Completed else Failed(Rejection(steps[n]).value))
  {
    var n := AcceptedPrefix(steps);
    if n == |steps| {
      assert steps[..n] == steps;
      IngestCompletes(t, steps);
    } else {
      assert steps == steps[..n] + [steps[n]] + steps[n + 1..];
      IngestStopsAtFirstRejection(t, steps[..n], steps[n], steps[n + 1..]);
    }
  }

  /**
   * After putting accepted steps, the table holds the old entries plus one
   * item `{ fileName: k }` for every key `k` put, however often it was put.
   */
  lemma {:induction false} PutAllContents(t: Table, steps: seq<Step>)
    requires AllAccepted(steps)
    ensures PutAll(t, steps).Keys == t.Keys + KeysOf(steps)
    ensures forall k :: k in PutAll(t, steps) ==>
              PutAll(t, steps)[k] == if k in KeysOf(steps) then Item(k) else t[k]
    decreases |steps|
  {
    if steps != [] {
      var k0 := steps[0].key;
      PutAllContents(t[k0 := Item(k0)], steps[1..]);
      assert KeysOf(steps) == {k0} + KeysOf(steps[1..]) by {
        forall k | k in KeysOf(steps) ensures k in {k0} + KeysOf(steps[1..]) {
          var i :| 0 <= i < |steps| && steps[i].Object? && steps[i].key == k;
          if i > 0 { assert steps[1..][i - 1] == steps[i]; }
        }
        forall k | k in KeysOf(steps[1..]) ensures k in KeysOf(steps) {
          var i :| 0 <= i < |steps[1..]| && steps[1..][i].Object? && steps[1..][i].key == k;
          assert steps[i + 1] == steps[1..][i];
        }
      }
    } else {
      assert KeysOf(steps) == {};
    }
  }

  /**
   * Only images are stored: every entry an invocation adds or changes, whether
   * it completes or fails, is the item `{ fileName: k }` for a key `k` that
   * ends in `.jpeg` or `.png` and that the batch named; nothing is removed.
   */
  lemma IngestStoresOnlyImages(t: Table, steps: seq<Step>)
    ensures var t' := Ingest(t, steps).0;
            && t.Keys <= t'.Keys
            && forall k :: k in t' ==>
                 (k in t && t'[k] == t[k]) || (t'[k] == Item(k) && IsSupportedImage(k) && k in KeysOf(steps))
  {
    var n := AcceptedPrefix(steps);
    var p := steps[..n];
    IngestClosedForm(t, steps);
    PutAllContents(t, p);
    forall k | k in KeysOf(p) ensures IsSupportedImage(k) && k in KeysOf(steps) {
      var i :| 0 <= i < |p| && p[i].Object? && p[i].key == k;
      assert Accepted(p[i]) && p[i] == steps[i];
    }
  }

  /**
   * The first rejected step ends the invocation: the keys accepted before it
   * stay written, nothing after it is looked at, and the handler fails with its
   * error (for a key without an image suffix, `InvalidImageType(key)`).
   */
  lemma IngestStopsAtFirstRejection(t: Table, p: seq<Step>, s: Step, rest: seq<Step>)
    requires AllAccepted(p) && !Accepted(s)
    ensures Ingest(t, p + [s] + rest).0 == PutAll(t, p)
    ensures Ingest(t, p + [s] + rest).1 == Failed(Rejection(s).value)
    ensures s.Object? ==> Ingest(t, p + [s] + rest).1 == Failed(InvalidImageType(s.key))
  {
    assert p + [s] + rest == p + ([s] + rest);
    IngestAfterAccepted(t, p, [s] + rest);
    IngestCons(PutAll(t, p), s, rest);
  }

  /**
   * An invocation completes exactly when every step is accepted, and then the
   * table is the old one with every decoded key put, in record order.
   */
  lemma IngestCompletesIff(t: Table, steps: seq<Step>)
    ensures Ingest(t, steps).1 == Completed <==> AllAccepted(steps)
    ensures AllAccepted(steps) ==> Ingest(t, steps).0 == PutAll(t, steps)
  {
    IngestClosedForm(t, steps);
    var n := AcceptedPrefix(steps);
    if n == |steps| {
      assert steps[..n] == steps;
    }
  }

  /**
   * Redelivery is harmless to the table: running the same batch again on the
   * table the first run left changes nothing further and ends the same way,
   * so a batch that fails fails on every receive.
   */
  lemma IngestRedeliveryIdempotent(t: Table, steps: seq<Step>)
    ensures Ingest(Ingest(t, steps).0, steps) == Ingest(t, steps)
  {
    var n := AcceptedPrefix(steps);
    var p := steps[..n];
    IngestClosedForm(t, steps);
    var t1 := PutAll(t, p);
    IngestClosedForm(t1, steps);
    PutAllContents(t, p);
    PutAllContents(t1, p);
    assert PutAll(t1, p) == t1;
  }

  /** Putting the same valid key twice leaves exactly one entry for it. */
  lemma PutTwiceOneEntry(t: Table, s: Step)
    requires Accepted(s)
    ensures PutAll(t, [s, s]) == PutAll(t, [s])
    ensures PutAll(t, [s, s]).Keys == t.Keys + {s.key}
  {
    var t1 := t[s.key := Item(s.key)];
    assert [s, s][0] == s && [s, s][1..] == [s] && [s][1..] == [];
    assert PutAll(t, [s]) == t1;
    assert PutAll(t, [s, s]) == PutAll(t1, [s]) == t1[s.key := Item(s.key)];
    assert t1[s.key := Item(s.key)] == t1;
  }

  /** An SQS record whose notification has no `Records` writes nothing and raises nothing. */
  lemma NoRecordsNoEffect(t: Table, a: seq<SqsRecord>, r: SqsRecord, b: seq<SqsRecord>)
    requires r.message == Some(SnsMessage(None))
    ensures IngestBatch(t, a + [r] + b) == IngestBatch(t, a + b)
    ensures IngestBatch(t, [r]) == (t, Completed)
  {
    NoRecordsNoSteps(a, r, b);
    StepsSingleton(r);
    assert Steps([] + [r] + []) == Steps([] + []);
  }

  /**
   * A batch whose every record unwraps to keys with an image suffix completes,
   * and the table afterwards is the old one with each of those keys put.
   */
  lemma IngestBatchAllValid(t: Table, batch: seq<SqsRecord>)
    requires AllAccepted(Steps(batch))
    ensures IngestBatch(t, batch).1 == Completed
    ensures IngestBatch(t, batch).0 == PutAll(t, Steps(batch))
    ensures IngestBatch(t, batch).0.Keys == t.Keys + KeysOf(Steps(batch))
  {
    IngestCompletes(t, Steps(batch));
    PutAllContents(t, Steps(batch));
  }
}
