/**
 * The confirmation notifier (lambdas/confirmMailer.ts), fed by the image
 * table's stream: for every INSERT record of a batch it starts one
 * confirmation email; other records are skipped. Nothing in the walk can
 * throw, and the sends are not awaited, so an invocation always returns
 * normally whatever becomes of its emails.
 */
module ConfirmMailer {
  import opened Wrappers
  import opened Text
  import opened Ses

  /**
   * One stream record as the handler reads it: `eventName` (`None` when it
   * is absent) and the text `${key}` interpolates for `record.dynamodb?.Keys`.
   * How JavaScript renders that value is not modelled: the text is an input.
   */
  datatype StreamRecord = StreamRecord(eventName: Option<string>, keysText: string)

  /** `ddbEventName && ddbEventName === "INSERT"`. */
  predicate IsInsert(r: StreamRecord)
  {
    r.eventName == Some("INSERT")
  }

  const SenderName := "DynamoDB Image Table Upload"
  const Subject := "Image Upload to DynamoDatabase Table"
  const Heading := "\U{2705} DynamoDB Image " + "Upload Approved"

  // The fixed text around the placeholder of the message template
  // (lambdas/confirmMailer.ts:41-44), split into short literals like the page in Ses.

  const MessageHead := "\n" + Spaces(40) + "Your image file " + "upload to the " + "DynamoDB Table "
                       + "has been " + "successfull, \n" + Spaces(40) + "The image file " + "information is "
  const MessageTail := " .\n" + Spaces(36)

  /** The confirmation message with the record's keys spliced in. */
  function ConfirmMessage(keysText: string): string
  {
    MessageHead + keysText + MessageTail
  }

  /** `getHtmlContent`: the shared page under the approval heading. */
  function HtmlContent(p: MailParams): string
  {
    HtmlPage(Heading, p)
  }

  /** `sendEmailParams`. */
  function SendEmailParams(cfg: Config, p: MailParams): (e: SendEmailInput)
    ensures e.toAddresses == [cfg.emailTo] && e.source == cfg.emailFrom
    ensures e.subject == Content("UTF-8", Subject) && e.htmlBody == Content("UTF-8", HtmlContent(p))
  {
    EmailParams(cfg, Subject, HtmlContent(p))
  }

  /** The email the handler builds for an INSERT record. */
  function ConfirmEmail(cfg: Config, r: StreamRecord): SendEmailInput
  {
    SendEmailParams(cfg, MailParams(SenderName, cfg.emailFrom, ConfirmMessage(r.keysText)))
  }

  /** How the handler builds the confirmation of a record. */
  function Confirmer(cfg: Config): StreamRecord -> SendEmailInput
  {
    r => ConfirmEmail(cfg, r)
  }

  /**
   * The emails started once `records` are walked, after those of `sent`,
   * when the email of an INSERT record is built by `mail`.
   */
  function Walk(mail: StreamRecord -> SendEmailInput, sent: seq<SendEmailInput>, records: seq<StreamRecord>): seq<SendEmailInput>
    decreases |records|
  {
    if records == [] then sent
    else
      var r := records[0];
      Walk(mail, if IsInsert(r) then sent + [mail(r)] else sent, records[1..])
  }

  /** The emails the confirmation notifier starts for `records`, after those of `sent`. */
  function Confirmations(cfg: Config, sent: seq<SendEmailInput>, records: seq<StreamRecord>): seq<SendEmailInput>
  {
    Walk(Confirmer(cfg), sent, records)
  }

  /** The INSERT records of a batch, in order. */
  function Inserts(records: seq<StreamRecord>): seq<StreamRecord>
  {
    if records == [] then []
    else (if IsInsert(records[0]) then [records[0]] else []) + Inserts(records[1..])
  }

  /**
   * The handler. Each send is started and not awaited, so its result (or
   * its failure) never reaches the handler: `delivered` is ignored.
   */
  method Handle(cfg: Config, ses: SesClient, records: seq<StreamRecord>)
    requires IsValidConfig(cfg)
    modifies ses
    ensures old(ses.outbox) <= ses.outbox
    ensures Emails(ses.outbox) == Confirmations(cfg, Emails(old(ses.outbox)), records)
  {
    ghost var log0 := ses.outbox;
    ghost var goal := Confirmations(cfg, Emails(ses.outbox), records);
    assert records[0..] == records;
    for i := 0 to |records|
      invariant log0 <= ses.outbox
      invariant goal == Confirmations(cfg, Emails(ses.outbox), records[i..])
    {
      var record := records[i];
      assert records[i..] == [record] + records[i + 1..];
      ConfirmationsCons(cfg, Emails(ses.outbox), record, records[i + 1..]);
      var ddbEventName := record.eventName;
      if ddbEventName.Some? && ddbEventName.value == "INSERT" {
        var email := ConfirmEmail(cfg, record);
        ghost var before := ses.outbox;
        var delivered := ses.Send(email);  // the promise is dropped: `delivered` goes unread
        EmailsSnoc(before, Attempt(email, delivered));
      }
    }
  }

  /** One step of the walk. */
  lemma ConfirmationsCons(cfg: Config, sent: seq<SendEmailInput>, r: StreamRecord, rest: seq<StreamRecord>)
    ensures Confirmations(cfg, sent, [r] + rest)
            == Confirmations(cfg, if IsInsert(r) then sent + [ConfirmEmail(cfg, r)] else sent, rest)
  {
    assert ([r] + rest)[0] == r && ([r] + rest)[1..] == rest;
    assert Confirmer(cfg)(r) == ConfirmEmail(cfg, r);
  }

  // ---------------------------------------------------------------------
  // Which records are confirmed.

  /** The walk keeps what was sent before and adds one email per INSERT record. */
  lemma {:induction false} WalkKeepsSent(mail: StreamRecord -> SendEmailInput, sent: seq<SendEmailInput>, records: seq<StreamRecord>)
    ensures |Walk(mail, sent, records)| == |sent| + |Inserts(records)|
    ensures Walk(mail, sent, records)[..|sent|] == sent
    decreases |records|
  {
    if records != [] {
      var x := records[0];
      var sent' := if IsInsert(x) then sent + [mail(x)] else sent;
      WalkKeepsSent(mail, sent', records[1..]);
      assert Walk(mail, sent, records)[..|sent|] == sent'[..|sent|];
    }
  }

  /**
   * The walk starts exactly one email per INSERT record, in record order,
   * after those sent before (which it keeps, by the lemma above).
   */
  lemma {:induction false} WalkOnePerInsert(mail: StreamRecord -> SendEmailInput, sent: seq<SendEmailInput>, records: seq<StreamRecord>)
    ensures |Walk(mail, sent, records)| == |sent| + |Inserts(records)|
    ensures forall i :: 0 <= i < |Inserts(records)| ==>
              Walk(mail, sent, records)[|sent| + i] == mail(Inserts(records)[i])
    decreases |records|
  {
    WalkKeepsSent(mail, sent, records);
    if records != [] {
      var x := records[0];
      var ins' := Inserts(records[1..]);
      if IsInsert(x) {
        var e := mail(x);
        var r := Walk(mail, sent + [e], records[1..]);
        WalkKeepsSent(mail, sent + [e], records[1..]);
        WalkOnePerInsert(mail, sent + [e], records[1..]);
        assert Inserts(records) == [x] + ins';
        assert r[|sent|] == r[..|sent| + 1][|sent|];
        forall i | 0 < i < |Inserts(records)|
          ensures r[|sent| + i] == mail(Inserts(records)[i])
        {
          assert Inserts(records)[i] == ins'[i - 1];
          assert |sent| + i == |sent + [e]| + (i - 1);
        }
      } else {
        WalkOnePerInsert(mail, sent, records[1..]);
        assert Inserts(records) == [] + ins';
      }
    }
  }

  /** The confirmation notifier keeps what was sent before and adds one email per INSERT record. */
  lemma ConfirmationsKeepSent(cfg: Config, sent: seq<SendEmailInput>, records: seq<StreamRecord>)
    ensures |Confirmations(cfg, sent, records)| == |sent| + |Inserts(records)|
    ensures Confirmations(cfg, sent, records)[..|sent|] == sent
  {
    WalkKeepsSent(Confirmer(cfg), sent, records);
  }

  /** The confirmation notifier starts one confirmation per INSERT record, in record order. */
  lemma ConfirmationsOnePerInsert(cfg: Config, sent: seq<SendEmailInput>, records: seq<StreamRecord>)
    ensures |Confirmations(cfg, sent, records)| == |sent| + |Inserts(records)|
    ensures forall i :: 0 <= i < |Inserts(records)| ==>
              Confirmations(cfg, sent, records)[|sent| + i] == ConfirmEmail(cfg, Inserts(records)[i])
  {
    WalkOnePerInsert(Confirmer(cfg), sent, records);
  }

  /** The INSERT records are exactly the records that are INSERTs, each as often as in the batch. */
  lemma {:induction false} InsertsFilter(records: seq<StreamRecord>)
    ensures forall r :: r in Inserts(records) ==> IsInsert(r)
    ensures forall r :: IsInsert(r) ==> multiset(Inserts(records))[r] == multiset(records)[r]
  {
    if records != [] {
      InsertsFilter(records[1..]);
      assert records == [records[0]] + records[1..];
      assert multiset(records) == multiset([records[0]]) + multiset(records[1..]);
    }
  }

  /** Lambda may cut a stream into batches anywhere: the emails are the same. */
  lemma {:induction false} WalkAppend(mail: StreamRecord -> SendEmailInput, sent: seq<SendEmailInput>, a: seq<StreamRecord>, b: seq<StreamRecord>)
    ensures Walk(mail, sent, a + b) == Walk(mail, Walk(mail, sent, a), b)
    decreases |a|
  {
    if a == [] {
      assert a + b == b;
    } else {
      assert (a + b)[0] == a[0] && (a + b)[1..] == a[1..] + b;
      var sent' := if IsInsert(a[0]) then sent + [mail(a[0])] else sent;
      WalkAppend(mail, sent', a[1..], b);
    }
  }

  /** The same for the confirmation notifier's own emails. */
  lemma ConfirmationsAppend(cfg: Config, sent: seq<SendEmailInput>, a: seq<StreamRecord>, b: seq<StreamRecord>)
    ensures Confirmations(cfg, sent, a + b) == Confirmations(cfg, Confirmations(cfg, sent, a), b)
  {
    WalkAppend(Confirmer(cfg), sent, a, b);
  }

  /** A batch without INSERT records sends nothing. */
  lemma {:induction false} NoInsertsNoEmails(cfg: Config, sent: seq<SendEmailInput>, records: seq<StreamRecord>)
    requires forall i :: 0 <= i < |records| ==> !IsInsert(records[i])
    ensures Confirmations(cfg, sent, records) == sent
    decreases |records|
  {
    if records != [] {
      assert !IsInsert(records[0]);
      assert forall i :: 0 <= i < |records[1..]| ==> records[1..][i] == records[i + 1];
      NoInsertsNoEmails(cfg, sent, records[1..]);
    }
  }

  // ---------------------------------------------------------------------
  // What a confirmation says.

  /** Every confirmation goes to SES_EMAIL_TO from SES_EMAIL_FROM with the approval subject. */
  lemma ConfirmEmailAddressed(cfg: Config, r: StreamRecord)
    ensures ConfirmEmail(cfg, r).toAddresses == [cfg.emailTo] && ConfirmEmail(cfg, r).source == cfg.emailFrom
    ensures ConfirmEmail(cfg, r).subject == Content("UTF-8", "Image Upload to DynamoDatabase Table")
    ensures ConfirmEmail(cfg, r).htmlBody.charset == "UTF-8"
  {
  }

  /**
   * The body of every confirmation shows the message with the record's
   * keys, the sender name and the contact address.
   */
  lemma ConfirmEmailContents(cfg: Config, r: StreamRecord)
    ensures Contains(ConfirmEmail(cfg, r).htmlBody.data, ConfirmMessage(r.keysText))
    ensures Contains(ConfirmEmail(cfg, r).htmlBody.data, r.keysText)
    ensures Contains(ConfirmEmail(cfg, r).htmlBody.data, SenderName)
    ensures Contains(ConfirmEmail(cfg, r).htmlBody.data, cfg.emailFrom)
  {
    ConfirmPageContents(MailParams(SenderName, cfg.emailFrom, ConfirmMessage(r.keysText)), r.keysText);
  }

  /** The page-level half of the lemma above. */
  lemma ConfirmPageContents(p: MailParams, keysText: string)
    requires p.message == ConfirmMessage(keysText)
    ensures Contains(HtmlContent(p), p.message)
    ensures Contains(HtmlContent(p), keysText)
    ensures Contains(HtmlContent(p), p.name)
    ensures Contains(HtmlContent(p), p.email)
  {
    HtmlPageShows(Heading, p);
    ContainsSplice(MessageHead, keysText, MessageTail);
    ShownInPage(Heading, p, keysText);
  }

  /**
   * The keys are all that tells two confirmations apart: two records get
   * the same email exactly when their keys render alike.
   */
  lemma ConfirmEmailDistinguishes(cfg: Config, r: StreamRecord, r': StreamRecord)
    ensures ConfirmEmail(cfg, r) == ConfirmEmail(cfg, r') <==> r.keysText == r'.keysText
  {
    if ConfirmEmail(cfg, r) == ConfirmEmail(cfg, r') {
      var p := MailParams(SenderName, cfg.emailFrom, ConfirmMessage(r.keysText));
      var p' := MailParams(SenderName, cfg.emailFrom, ConfirmMessage(r'.keysText));
      assert HtmlPage(Heading, p) == HtmlPage(Heading, p');
      HtmlPageInjective(Heading, p, p');
      CancelRight(MessageHead + r.keysText, MessageHead + r'.keysText, MessageTail);
      CancelLeft(MessageHead, r.keysText, r'.keysText);
    }
  }
}
