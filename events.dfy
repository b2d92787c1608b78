/**
 * The already-parsed event records the SQS-triggered handlers walk, and the
 * unwrapping both of them apply: SQS record body -> SNS `Message` -> S3
 * `Records`, then `s3.bucket.name` and the decoded `s3.object.key` of each
 * inner record.
 */
module Events {
  import opened Wrappers
  import KeyCodec

  /**
   * One S3 notification record as the handlers probe it. `bucketName` is
   * `None` when `s3` or `s3.bucket` is missing, `objectKey` when `s3`,
   * `s3.object` or its `key` is missing: reading either then throws a TypeError.
   */
  datatype S3Record = S3Record(bucketName: Option<string>, objectKey: Option<string>)

  /** The parsed SNS notification; `records` is `None` when `Records` is absent (or falsy). */
  datatype SnsMessage = SnsMessage(records: Option<seq<S3Record>>)

  /**
   * One SQS record; `message` is `None` when `JSON.parse` throws on its body
   * or on the body's `Message` field (a missing field included).
   */
  datatype SqsRecord = SqsRecord(message: Option<SnsMessage>)

  /** The errors a handler can throw while walking a batch. */
  datatype Fault =
    | UnparsableBody          // JSON.parse of the body or of its Message threw
    | MissingField            // s3.bucket or s3.object.key is missing
    | MalformedEscape         // decodeURIComponent threw a URIError
    | InvalidImageType(key: string)

  /** How a handler invocation ends: it returns, or it throws (and Lambda reports a failure). */
  datatype Outcome = Completed | Failed(fault: Fault)

  /**
   * One inner record once unwrapped: the object it names, or the error
   * reading it throws.
   */
  datatype Step = Object(bucket: string, key: string) | Malformed(fault: Fault)

  /** Reads `s3.bucket.name` and decodes `s3.object.key` of one inner record. */
  function Normalize(r: S3Record): (s: Step)
    ensures s.Object? <==> r.bucketName.Some? && r.objectKey.Some? && KeyCodec.DecodeKey(r.objectKey.value).Some?
    ensures s.Object? ==> s.bucket == r.bucketName.value && KeyCodec.DecodeKey(r.objectKey.value) == Some(s.key)
    ensures r.bucketName.None? || r.objectKey.None? ==> s == Malformed(MissingField)
    ensures r.bucketName.Some? && r.objectKey.Some? && KeyCodec.DecodeKey(r.objectKey.value).None?
            ==> s == Malformed(MalformedEscape)
  {
    if r.bucketName.None? || r.objectKey.None? then Malformed(MissingField)
    else
      match KeyCodec.DecodeKey(r.objectKey.value)
      case None => Malformed(MalformedEscape)
      case Some(key) => Object(r.bucketName.value, key)
  }

  /** The steps of the inner records of one SNS notification, in record order. */
  function InnerSteps(rs: seq<S3Record>): (steps: seq<Step>)
    ensures |steps| == |rs|
    ensures forall i :: 0 <= i < |rs| ==> steps[i] == Normalize(rs[i])
  {
    if rs == [] then [] else [Normalize(rs[0])] + InnerSteps(rs[1..])
  }

  /**
   * The steps of one SQS record: nothing when the notification has no
   * `Records`, and the parse error when its body cannot be parsed.
   */
  function RecordSteps(r: SqsRecord): (steps: seq<Step>)
    ensures r.message.None? ==> steps == [Malformed(UnparsableBody)]
    ensures r.message.Some? && r.message.value.records.None? ==> steps == []
    ensures r.message.Some? && r.message.value.records.Some? ==>
              |steps| == |r.message.value.records.value|
              && forall i :: 0 <= i < |steps| ==> steps[i] == Normalize(r.message.value.records.value[i])
  {
    match r.message
    case None => [Malformed(UnparsableBody)]
    case Some(m) =>
      match m.records
      case None => []
      case Some(rs) => InnerSteps(rs)
  }

  /** Every step of a batch, SQS record by SQS record, in order. */
  function Steps(batch: seq<SqsRecord>): seq<Step>
  {
    if batch == [] then [] else RecordSteps(batch[0]) + Steps(batch[1..])
  }

  /** The walk of a batch from SQS record `i` on. */
  lemma UnfoldSteps(batch: seq<SqsRecord>, i: nat)
    requires i < |batch|
    ensures Steps(batch[i..]) == RecordSteps(batch[i]) + Steps(batch[i + 1..])
  {
    assert batch[i..][0] == batch[i] && batch[i..][1..] == batch[i + 1..];
  }

  /** The walk of a notification's records from record `j` on, followed by the steps of `later`. */
  lemma UnfoldInnerSteps(rs: seq<S3Record>, j: nat, later: seq<Step>)
    requires j < |rs|
    ensures InnerSteps(rs[j..]) + later == [Normalize(rs[j])] + (InnerSteps(rs[j + 1..]) + later)
  {
    assert rs[j..][0] == rs[j] && rs[j..][1..] == rs[j + 1..];
  }

  lemma {:induction false} StepsAppend(a: seq<SqsRecord>, b: seq<SqsRecord>)
    ensures Steps(a + b) == Steps(a) + Steps(b)
  {
    if a == [] {
      assert a + b == b;
    } else {
      var x := RecordSteps(a[0]);
      assert (a + b)[0] == a[0];
      assert (a + b)[1..] == a[1..] + b;
      StepsAppend(a[1..], b);
      calc {
        Steps(a + b);
        x + Steps(a[1..] + b);
        x + (Steps(a[1..]) + Steps(b));
        (x + Steps(a[1..])) + Steps(b);
        Steps(a) + Steps(b);
      }
    }
  }

  lemma StepsSingleton(r: SqsRecord)
    ensures Steps([r]) == RecordSteps(r)
  {
    assert [r][1..] == [];
    assert Steps([r]) == RecordSteps(r) + Steps([]);
  }

  /**
   * An SQS record whose notification has no `Records` contributes nothing: a
   * batch with it walks exactly the steps of the batch without it.
   */
  lemma NoRecordsNoSteps(a: seq<SqsRecord>, r: SqsRecord, b: seq<SqsRecord>)
    requires r.message == Some(SnsMessage(None))
    ensures Steps(a + [r] + b) == Steps(a + b)
  {
    StepsAppend(a + [r], b);
    StepsAppend(a, [r]);
    StepsAppend(a, b);
    StepsSingleton(r);
    calc {
      Steps(a + [r] + b);
      Steps(a + [r]) + Steps(b);
      Steps(a) + RecordSteps(r) + Steps(b);
      { assert RecordSteps(r) == []; assert Steps(a) + [] == Steps(a); }
      Steps(a) + Steps(b);
      Steps(a + b);
    }
  }
}
