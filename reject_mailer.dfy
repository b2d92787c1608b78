/**
 * The rejection notifier (lambdas/rejectMailer.ts), fed by the dead-letter
 * queue: for every inner S3 record of every SQS record it decodes the key and
 * attempts one rejection email naming the key, the bucket and the valid
 * formats. A failed send is caught and the walk goes on; a record that
 * cannot be unwrapped throws, because the unwrapping sits outside the `try`.
 */
module RejectMailer {
  import opened Wrappers
  import opened Events
  import opened Text
  import opened Ses

  const SenderName := "AWS S3 Bucket & DynamoDB System"
  const Subject := "Invalid Image Upload Rejected"

  // The fixed text around the placeholders of the message template
  // (lambdas/rejectMailer.ts:45-49), split into short literals like the page in Ses.

  const MessageHead := "\n" + Spaces(28) + "Your image file " + "upload to DynamoDB "
                       + "has been rejected, " + "The file "
  const MessageMiddle := " is not a valid " + "image format.  \n" + Spaces(28) + "[S3 Bucket path ://"
  const FormatsIntro := "]. Valid formats " + "are "
  const Jpeg := "\".jpeg\""
  const Png := "\".png\""
  const MessageTail := " , please check \n" + Spaces(28) + "your image file "
                       + "format before " + "the upload.\n" + Spaces(24)

  /** The rejection message with the decoded key and the bucket spliced in. */
  function RejectMessage(key: string, bucket: string): string
  {
    MessageHead + key + MessageMiddle + bucket + (FormatsIntro + Jpeg + " or " + Png + MessageTail)
  }

  const Heading := "\U{274C} S3 Bucket " + "Image Upload to " + "DynamoDB Rejected"

  /** `getHtmlContent`: the shared page under the rejection heading. */
  function HtmlContent(p: MailParams): string
  {
    HtmlPage(Heading, p)
  }

  /** `sendEmailParams`. */
  function SendEmailParams(cfg: Config, p: MailParams): (e: SendEmailInput)
    ensures e.toAddresses == [cfg.emailTo] && e.source == cfg.emailFrom
    ensures e.subject == Content("UTF-8", Subject) && e.htmlBody == Content("UTF-8", HtmlContent(p))
  {
    EmailParams(cfg, Subject, HtmlContent(p))
  }

  /** The email the handler builds for one object. */
  function RejectEmail(cfg: Config, bucket: string, key: string): SendEmailInput
  {
    SendEmailParams(cfg, MailParams(SenderName, cfg.emailFrom, RejectMessage(key, bucket)))
  }

  /** How the handler builds the email for an object, given its bucket and key. */
  function Rejecter(cfg: Config): (string, string) -> SendEmailInput
  {
    (bucket, key) => RejectEmail(cfg, bucket, key)
  }

  /**
   * The emails attempted once the walk of `steps` is over, after those of
   * `sent`, when the email of an object is built by `mail`, and how the
   * invocation ends: one email per object, in order, until the first
   * malformed record.
   */
  function Walk(mail: (string, string) -> SendEmailInput, sent: seq<SendEmailInput>, steps: seq<Step>): (seq<SendEmailInput>, Outcome)
    decreases |steps|
  {
    if steps == [] then (sent, Completed)
    else
      match steps[0]
      case Malformed(f) => (sent, Failed(f))
      case Object(bucket, key) => Walk(mail, sent + [mail(bucket, key)], steps[1..])
  }

  /** The walk of the rejection notifier. */
  function Notify(cfg: Config, sent: seq<SendEmailInput>, steps: seq<Step>): (seq<SendEmailInput>, Outcome)
  {
    Walk(Rejecter(cfg), sent, steps)
  }

  function NotifyBatch(cfg: Config, sent: seq<SendEmailInput>, batch: seq<SqsRecord>): (seq<SendEmailInput>, Outcome)
  {
    Notify(cfg, sent, Steps(batch))
  }

  /**
   * The handler. Every send is attempted and its failure swallowed, so the
   * emails attempted and the outcome do not depend on which were delivered.
   */
  method Handle(cfg: Config, ses: SesClient, batch: seq<SqsRecord>) returns (outcome: Outcome)
    requires IsValidConfig(cfg)
    modifies ses
    ensures old(ses.outbox) <= ses.outbox
    ensures (Emails(ses.outbox), outcome) == NotifyBatch(cfg, Emails(old(ses.outbox)), batch)
  {
    // What is left of the batch to walk, from the emails attempted so far,
    // ends at every point where the whole batch does.
    ghost var log0 := ses.outbox;
    ghost var goal := NotifyBatch(cfg, Emails(ses.outbox), batch);
    assert batch[0..] == batch;
    for i := 0 to |batch|
      invariant log0 <= ses.outbox
      invariant goal == Notify(cfg, Emails(ses.outbox), Steps(batch[i..]))
    {
      ghost var later := Steps(batch[i + 1..]);
      UnfoldSteps(batch, i);
      var message := batch[i].message;
      if message.None? {
        NotifyCons(cfg, Emails(ses.outbox), Malformed(UnparsableBody), later);
        return Failed(UnparsableBody);
      }
      var snsS3Records := message.value.records;
      if snsS3Records.None? {
        assert RecordSteps(batch[i]) == [];
        assert Steps(batch[i..]) == later;
      } else {
        var rs := snsS3Records.value;
        assert rs[0..] == rs;
        for j := 0 to |rs|
          invariant log0 <= ses.outbox
          invariant goal == Notify(cfg, Emails(ses.outbox), InnerSteps(rs[j..]) + later)
        {
          ghost var rest := InnerSteps(rs[j + 1..]) + later;
          var step := Normalize(rs[j]);
          UnfoldInnerSteps(rs, j, later);
          NotifyCons(cfg, Emails(ses.outbox), step, rest);
          if step.Malformed? {
            return Failed(step.fault);
          }
          var email := RejectEmail(cfg, step.bucket, step.key);
          ghost var before := ses.outbox;
          var delivered := ses.Send(email);
          EmailsSnoc(before, Attempt(email, delivered));
        }
        assert InnerSteps(rs[|rs|..]) == [];
        assert [] + later == later;
      }
    }
    assert batch[|batch|..] == [];
    return Completed;
  }

  /** One step of the walk. */
  lemma NotifyCons(cfg: Config, sent: seq<SendEmailInput>, s: Step, rest: seq<Step>)
    ensures Notify(cfg, sent, [s] + rest)
            == if s.Malformed? then (sent, Failed(s.fault))
               else Notify(cfg, sent + [RejectEmail(cfg, s.bucket, s.key)], rest)
  {
    assert ([s] + rest)[0] == s && ([s] + rest)[1..] == rest;
    assert s.Object? ==> Rejecter(cfg)(s.bucket, s.key) == RejectEmail(cfg, s.bucket, s.key);
  }


  // ---------------------------------------------------------------------
  // What an invocation sends.

  /** The number of leading steps that name an object. */
  function ObjectPrefix(steps: seq<Step>): (n: nat)
    ensures n <= |steps|
    ensures forall i :: 0 <= i < n ==> steps[i].Object?
    ensures n < |steps| ==> steps[n].Malformed?
  {
    if steps == [] || steps[0].Malformed? then 0 else ObjectPrefix(steps[1..]) + 1
  }

  /**
   * The walk keeps what was sent before and attempts exactly one email per
   * object, in record order, up to the first malformed record; the
   * invocation fails with that record's error, or completes when there is none.
   */
  lemma {:induction false} WalkOnePerObject(mail: (string, string) -> SendEmailInput, sent: seq<SendEmailInput>, steps: seq<Step>)
    ensures var n := ObjectPrefix(steps);
            var r := Walk(mail, sent, steps);
            && |r.0| == |sent| + n
            && r.0[..|sent|] == sent
            && (forall i :: 0 <= i < n ==> r.0[|sent| + i] == mail(steps[i].bucket, steps[i].key))
            && r.1 == if n == |steps| then Completed else Failed(steps[n].fault)
    decreases |steps|
  {
    if steps != [] && steps[0].Object? {
      var e := mail(steps[0].bucket, steps[0].key);
      var r := Walk(mail, sent, steps);
      WalkOnePerObject(mail, sent + [e], steps[1..]);
      assert r == Walk(mail, sent + [e], steps[1..]);
      assert r.0[..|sent| + 1] == sent + [e];
      assert r.0[..|sent|] == (sent + [e])[..|sent|];
      forall i | 0 <= i < ObjectPrefix(steps)
        ensures r.0[|sent| + i] == mail(steps[i].bucket, steps[i].key)
      {
        if i == 0 {
          assert r.0[|sent|] == (sent + [e])[|sent|];
        } else {
          assert steps[i] == steps[1..][i - 1];
          assert |sent| + i == |sent + [e]| + (i - 1);
        }
      }
    }
  }

  /** The same for the rejection notifier's own emails. */
  lemma NotifyOnePerObject(cfg: Config, sent: seq<SendEmailInput>, steps: seq<Step>)
    ensures var n := ObjectPrefix(steps);
            var r := Notify(cfg, sent, steps);
            && |r.0| == |sent| + n
            && r.0[..|sent|] == sent
            && (forall i :: 0 <= i < n ==> r.0[|sent| + i] == RejectEmail(cfg, steps[i].bucket, steps[i].key))
            && r.1 == if n == |steps| then Completed else Failed(steps[n].fault)
  {
    WalkOnePerObject(Rejecter(cfg), sent, steps);
  }

  /**
   * An invocation completes exactly when no record of its batch is
   * malformed, and then it attempts one email per inner record.
   */
  lemma NotifyCompletesIff(cfg: Config, sent: seq<SendEmailInput>, steps: seq<Step>)
    ensures Notify(cfg, sent, steps).1 == Completed <==> forall i :: 0 <= i < |steps| ==> steps[i].Object?
    ensures (forall i :: 0 <= i < |steps| ==> steps[i].Object?) ==> |Notify(cfg, sent, steps).0| == |sent| + |steps|
  {
    NotifyOnePerObject(cfg, sent, steps);
  }

  /** Every rejection email goes to SES_EMAIL_TO from SES_EMAIL_FROM with the rejection subject. */
  lemma RejectEmailAddressed(cfg: Config, bucket: string, key: string)
    ensures var e := RejectEmail(cfg, bucket, key);
            && e.toAddresses == [cfg.emailTo] && e.source == cfg.emailFrom
            && e.subject == Content("UTF-8", "Invalid Image Upload Rejected") && e.htmlBody.charset == "UTF-8"
  {
  }

  /**
   * The HTML body of every rejection email carries the message, which names
   * the key, the bucket and both valid formats, then the sender name and
   * the contact address.
   */
  lemma RejectEmailContents(cfg: Config, bucket: string, key: string)
    ensures Contains(RejectEmail(cfg, bucket, key).htmlBody.data, RejectMessage(key, bucket))
    ensures Contains(RejectEmail(cfg, bucket, key).htmlBody.data, key)
    ensures Contains(RejectEmail(cfg, bucket, key).htmlBody.data, bucket)
    ensures Contains(RejectEmail(cfg, bucket, key).htmlBody.data, Jpeg)
    ensures Contains(RejectEmail(cfg, bucket, key).htmlBody.data, Png)
    ensures Contains(RejectEmail(cfg, bucket, key).htmlBody.data, SenderName)
    ensures Contains(RejectEmail(cfg, bucket, key).htmlBody.data, cfg.emailFrom)
  {
    RejectPageContents(MailParams(SenderName, cfg.emailFrom, RejectMessage(key, bucket)), key, bucket);
  }

  /** The page-level half of the lemma above. */
  lemma RejectPageContents(p: MailParams, key: string, bucket: string)
    requires p.message == RejectMessage(key, bucket)
    ensures var html := HtmlContent(p);
            && Contains(html, p.message) && Contains(html, p.name) && Contains(html, p.email)
            && Contains(html, key) && Contains(html, bucket) && Contains(html, Jpeg) && Contains(html, Png)
  {
    HtmlPageShows(Heading, p);
    MessageShows(key, bucket);
    ShownInPage(Heading, p, key);
    ShownInPage(Heading, p, bucket);
    ShownInPage(Heading, p, Jpeg);
    ShownInPage(Heading, p, Png);
  }

  /** The rejection message names the key, the bucket and both valid formats. */
  lemma MessageShows(key: string, bucket: string)
    ensures var msg := RejectMessage(key, bucket);
            Contains(msg, key) && Contains(msg, bucket) && Contains(msg, Jpeg) && Contains(msg, Png)
  {
    var formats := FormatsIntro + Jpeg + " or " + Png + MessageTail;
    var before := MessageHead + key + MessageMiddle + bucket;
    ContainsSplice(MessageHead, key, MessageMiddle);
    ContainsLeft(MessageHead + key + MessageMiddle, bucket, key);
    ContainsLeft(before, formats, key);
    ContainsSplice(MessageHead + key + MessageMiddle, bucket, formats);
    ContainsSplice(FormatsIntro, Jpeg, " or ");
    ContainsLeft(FormatsIntro + Jpeg + " or ", Png, Jpeg);
    ContainsLeft(FormatsIntro + Jpeg + " or " + Png, MessageTail, Jpeg);
    ContainsRight(before, formats, Jpeg);
    ContainsSplice(FormatsIntro + Jpeg + " or ", Png, MessageTail);
    ContainsRight(before, formats, Png);
  }

  /** An SQS record whose notification has no `Records` produces no send. */
  lemma NoRecordsNoSend(cfg: Config, sent: seq<SendEmailInput>, a: seq<SqsRecord>, r: SqsRecord, b: seq<SqsRecord>)
    requires r.message == Some(SnsMessage(None))
    ensures NotifyBatch(cfg, sent, a + [r] + b) == NotifyBatch(cfg, sent, a + b)
    ensures NotifyBatch(cfg, sent, [r]) == (sent, Completed)
  {
    NoRecordsNoSteps(a, r, b);
    StepsSingleton(r);
  }
}
