/**
 * What the two mail handlers share: the configuration they load, the shape
 * of a `SendEmailCommandInput`, and the SES client, modelled as an
 * append-only outbox in which every send attempt is recorded together with
 * whether the transport delivered it.
 */
module Ses {
  import opened Text

  /** SES_EMAIL_FROM, SES_EMAIL_TO and SES_REGION, as env.ts provides them. */
  datatype Config = Config(emailFrom: string, emailTo: string, region: string)

  /** The module-load check: a mailer module throws while loading unless all three are set. */
  predicate IsValidConfig(cfg: Config)
  {
    cfg.emailFrom != "" && cfg.emailTo != "" && cfg.region != ""
  }

  /** The `MailParams` record both templates take. */
  datatype MailParams = MailParams(name: string, email: string, message: string)

  /** A `{ Charset, Data }` pair. */
  datatype Content = Content(charset: string, data: string)

  /** The fields of `SendEmailCommandInput` the mailers fill in. */
  datatype SendEmailInput = SendEmailInput(toAddresses: seq<string>, source: string, subject: Content, htmlBody: Content)

  /**
   * `sendEmailParams` of either mailer: a single recipient, SES_EMAIL_TO,
   * sent from SES_EMAIL_FROM, with a UTF-8 subject and a UTF-8 HTML body.
   */
  function EmailParams(cfg: Config, subject: string, html: string): SendEmailInput
  {
    SendEmailInput([cfg.emailTo], cfg.emailFrom, Content("UTF-8", subject), Content("UTF-8", html))
  }

  // The fixed text of the HTML page both mailers' `getHtmlContent` return.
  // The template literal's line breaks and indentation are kept; the
  // literals are split into short pieces only because long literals are
  // costly to verify.

  const PageOpen := "\n" + Spaces(4) + "<html>\n" + Spaces(6) + "<body>\n" + Spaces(8) + "<h2>"
  const PageGreeting := "</h2>\n" + Spaces(8) + "<p>Hello,</p>\n" + Spaces(8) + "<p><strong>"
  const PageAfterMessage := "</strong></p>\n" + Spaces(8) + "<hr />\n"
                            + Spaces(8) + "<p><strong>" + "Sent by:</strong> "
  const PageAfterName := "</p>\n" + Spaces(8) + "<p><strong>" + "Contact:</strong> "
  const PageClose := "</p>\n" + Spaces(6) + "</body>\n" + Spaces(4) + "</html>\n" + Spaces(4)

  /**
   * The HTML page under a mailer's heading, showing the message in bold,
   * then the sender name and the contact address.
   */
  function HtmlPage(heading: string, p: MailParams): string
  {
    PageOpen + heading + PageGreeting + p.message + PageAfterMessage + p.name + PageAfterName + p.email + PageClose
  }

  /** The page shows each of its three parameters. */
  lemma HtmlPageShows(heading: string, p: MailParams)
    ensures var html := HtmlPage(heading, p);
            Contains(html, p.message) && Contains(html, p.name) && Contains(html, p.email)
  {
    var s0 := PageOpen + heading + PageGreeting + p.message + PageAfterMessage;
    var s1 := s0 + p.name + PageAfterName;
    ContainsSplice(PageOpen + heading + PageGreeting, p.message, PageAfterMessage);
    ContainsLeft(s0, p.name, p.message);
    ContainsLeft(s0 + p.name, PageAfterName, p.message);
    ContainsLeft(s1, p.email, p.message);
    ContainsLeft(s1 + p.email, PageClose, p.message);
    ContainsSplice(s0, p.name, PageAfterName);
    ContainsLeft(s1, p.email, p.name);
    ContainsLeft(s1 + p.email, PageClose, p.name);
    ContainsSplice(s1, p.email, PageClose);
  }

  /** From the same sender, a page tells its messages apart. */
  lemma HtmlPageInjective(heading: string, p: MailParams, p': MailParams)
    requires p.name == p'.name && p.email == p'.email
    requires HtmlPage(heading, p) == HtmlPage(heading, p')
    ensures p.message == p'.message
  {
    var open := PageOpen + heading + PageGreeting;
    var s := open + p.message + PageAfterMessage + p.name + PageAfterName;
    var s' := open + p'.message + PageAfterMessage + p.name + PageAfterName;
    CancelRight(s + p.email, s' + p.email, PageClose);
    CancelRight(s, s', p.email);
    CancelRight(open + p.message + PageAfterMessage + p.name, open + p'.message + PageAfterMessage + p.name, PageAfterName);
    CancelRight(open + p.message + PageAfterMessage, open + p'.message + PageAfterMessage, p.name);
    CancelRight(open + p.message, open + p'.message, PageAfterMessage);
    CancelLeft(open, p.message, p'.message);
  }

  /** What the message shows, the page shows. */
  lemma ShownInPage(heading: string, p: MailParams, sub: string)
    requires Contains(p.message, sub)
    ensures Contains(HtmlPage(heading, p), sub)
  {
    HtmlPageShows(heading, p);
    ContainsTransitive(HtmlPage(heading, p), p.message, sub);
  }

  /** One call of `send`, and whether the transport delivered the email. */
  datatype Attempt = Attempt(email: SendEmailInput, delivered: bool)

  /** The emails of the attempts, in the order they were sent. */
  function Emails(log: seq<Attempt>): (r: seq<SendEmailInput>)
  {
    if log == [] then [] else Emails(log[..|log| - 1]) + [log[|log| - 1].email]
  }

  lemma EmailsSnoc(log: seq<Attempt>, a: Attempt)
    ensures Emails(log + [a]) == Emails(log) + [a.email]
  {
    assert (log + [a])[..|log|] == log;
  }

  /** The SES client: sending appends to the outbox; delivery may fail. */
  class SesClient {
    var outbox: seq<Attempt>

    constructor ()
      ensures outbox == []
    {
      outbox := [];
    }

    /**
     * `sesClient.send(new SendEmailCommand(email))`. Whether the transport
     * delivers is not up to the caller: `delivered` is chosen freely.
     */
    method Send(email: SendEmailInput) returns (delivered: bool)
      modifies this
      ensures outbox == old(outbox) + [Attempt(email, delivered)]
    {
      delivered :| true;
      outbox := outbox + [Attempt(email, delivered)];
    }
  }
}
