# Image upload pipeline handlers, modelled in Dafny

This project models the three AWS Lambda handlers of an event-driven image
upload pipeline (mec-cs/ds-serverless-eda-app) and proves what they do with
a batch of events.

* **Image ingestion** (`lambdas/logImage.ts`) receives SQS records. Each
  record's body wraps an SNS notification, which wraps a list of S3 records.
  For each object key the handler does three things:
  * decodes it with `decodeURIComponent(key.replace(/\+/g, " "))`;
  * puts the item `{ fileName: key }` into the image table when the key ends
    in `.jpeg` or `.png`;
  * throws otherwise, which ends the invocation. Items already written stay.
* **Rejection notifier** (`lambdas/rejectMailer.ts`) receives the
  dead-letter queue's records. It unwraps them and decodes keys the same
  way. For every inner record it attempts one SES email that names the key,
  the bucket and the valid formats. It swallows a failed send.
* **Confirmation notifier** (`lambdas/confirmMailer.ts`) receives the image
  table's stream. It starts one SES email for every `INSERT` record and does
  not await it.

How the model is built:

* External services are plain state.
  * The image table is the class `LogImage.ImageTable`, with a
    `map<string, Item>` field keyed by `fileName`.
  * SES is the class `Ses.SesClient`: an append-only outbox of send attempts.
    Each attempt records whether the transport delivered the email, and that
    flag is chosen freely.
* Each handler is a `method` with the source's loops. Its postcondition ties
  the new state and the outcome to a reference function over the
  already-parsed batch:
  * `LogImage.Ingest`
  * `RejectMailer.Notify`
  * `ConfirmMailer.Confirmations`
* The two notifiers' walks are written once for any email builder
  (`RejectMailer.Walk`, `ConfirmMailer.Walk`). `Notify` and `Confirmations`
  are those walks with the handler's own email template.
* A thrown error is the outcome `Failed(fault)`.
* The lemmas state the handlers' properties about those reference
  functions.

Module layout:

* `wrappers.dfy`: `Option`.
* `text.dfy`: `endsWith`, substring containment, cancellation.
* `key_codec.dfy`: key decoding, its encoder partners and the round trips.
* `events.dfy`: the SQS/SNS/S3 record shapes and the two-level unwrapping.
* `log_image.dfy`: the ingestion handler.
* `ses.dfy`: the mail configuration, the shared HTML page and
  `SendEmailCommandInput`, and the SES client.
* `reject_mailer.dfy`, `confirm_mailer.dfy`: the two notifiers.

Key decoding follows `decodeURIComponent` as ECMA-262 defines it (section
19.2.6.2 of the 2023 edition, through its Decode abstract operation with an
empty set of escapes to preserve):
* a `%XX` triple below 0x80 yields that character;
* a UTF-8 lead byte is followed by its continuation triples;
* overlong forms, surrogates, values past U+10FFFF, bad hex digits and
  truncated triples throw `URIError`, modelled as `None`.

The partner encoders shown to invert it are:
* `PercentEncode`, which is `encodeURIComponent`;
* `FormEncodeKey`, a form encoding like the one S3 uses for keys in event
  notifications (space as `+`). The round trip only needs `%` and `+` to be
  escaped.

Behaviour of the code worth knowing, which the model keeps:
* **Unwrapping depth.** The code unwraps exactly two levels: the SQS body,
  then its SNS `Message`.
* **A notification without `Records`.** It is skipped without error
  (`NoRecordsNoEffect`, `NoRecordsNoSend`).
* **Records that cannot be read.** A record that cannot be unwrapped throws,
  so Lambda reports the whole batch as failed.
* **Confirmation text.** The confirmation interpolates
  `record.dynamodb?.Keys`.
* **Object removals.** The bucket also sends OBJECT_REMOVED notifications
  straight to the ingestion handler (lib/eda-app-stack.ts:103-106).
  * Such a record has no `body`, so `JSON.parse` at lambdas/logImage.ts:15
    throws, and every removal invocation fails.
  * The model represents such a record as a message that does not parse.
    Its step is `Malformed(UnparsableBody)`.

## Model

| member | source | states |
|---|---|---|
| LogImage.IsSupportedImage | lambdas/logImage.ts:31 | Holds exactly when the decoded key ends in `.jpeg` or in `.png`, compared case-sensitively |
| LogImage.ImageTable.Put | lambdas/logImage.ts:35-42 | A put stores the item under its `fileName` and leaves every other entry as it was |
| LogImage.Handle | lambdas/logImage.ts:9-59 | The nested loops leave the table and outcome that the walk of the flattened batch defines: `(table, outcome) == IngestBatch(old table, batch)` |
| LogImage.IngestClosedForm | lambdas/logImage.ts:12-58 | An invocation puts the keys of the steps before the first rejected step, in order. It then fails with that step's error, or completes if no step is rejected |
| LogImage.IngestStopsAtFirstRejection | lambdas/logImage.ts:29-57 | After accepted steps and then a rejected one, the table holds exactly the accepted puts. Nothing later is looked at. The handler fails with the step's error, which for a key without an image suffix is `InvalidImageType(key)` |
| LogImage.IngestStoresOnlyImages | lambdas/logImage.ts:31-42 | Whether the run completes or fails, no entry is removed. Every entry added or changed is `{ fileName: k }` for a key `k` from the batch that ends in `.jpeg` or `.png` |
| LogImage.PutAllContents | lambdas/logImage.ts:35-42 | After the puts, the table's keys are the old keys plus the put keys. A put key maps to `Item(k)`, and every other key keeps its old item |
| LogImage.PutTwiceOneEntry | lambdas/logImage.ts:35-42 | Putting the same valid key twice gives the same table as putting it once, with exactly one entry for it |
| LogImage.IngestCompletesIff | lambdas/logImage.ts:12-58 | An invocation completes if and only if every step is accepted. The table is then the old one with every decoded key put, in record order |
| LogImage.IngestBatchAllValid | lambdas/logImage.ts:12-58 | A batch whose keys all have an image suffix completes. The table's keys become the old keys plus the batch's keys |
| LogImage.IngestRedeliveryIdempotent | lambdas/logImage.ts:12-58 | Receiving the same batch again, on the table the first run left, changes nothing further and ends the same way |
| LogImage.NoRecordsNoEffect | lambdas/logImage.ts:18 | An SQS record whose notification has no `Records` adds no write and no error to any batch it is part of |
| Events.Normalize | lambdas/logImage.ts:23-27 | An inner record is read as an object exactly when its bucket name and key are present and the key decodes. The object then carries that bucket name and the decoded key. A missing `s3.bucket` or `s3.object.key` gives `MissingField`. A key that `decodeURIComponent` rejects gives `MalformedEscape` |
| Events.InnerSteps | lambdas/logImage.ts:22-27 | One step per inner record, in record order: step `i` is the normalization of record `i` |
| Events.RecordSteps | lambdas/logImage.ts:15-22 | A body that does not parse gives the single step `Malformed(UnparsableBody)`. A notification without `Records` gives no steps. Otherwise there is one normalized step per inner record, in order |
| Events.Steps | lambdas/logImage.ts:12 | The steps of a batch: those of each SQS record in turn, in batch order |
| Events.NoRecordsNoSteps | lambdas/logImage.ts:18 | Removing an SQS record whose notification has no `Records` leaves the walked steps of the batch unchanged |
| Events.StepsAppend | lambdas/logImage.ts:12 | The steps of two concatenated batches are the steps of the first followed by those of the second |
| KeyCodec.ReplacePlus | lambdas/logImage.ts:27 | Every `+` becomes a space and every other character is unchanged, so no `+` is left |
| KeyCodec.PercentDecode | lambdas/logImage.ts:27 | Text without `%` decodes to itself. A decoded string is never longer than its input |
| KeyCodec.DecodeKey | lambdas/logImage.ts:27 | A key without `%` decodes to the key with its `+` replaced by spaces |
| KeyCodec.CodePointOfUtf8 | lambdas/logImage.ts:27 | The UTF-8 octets of any character of U+0080 or above are a valid multi-byte sequence that decodes back to that character |
| KeyCodec.PercentRoundTrip | lambdas/logImage.ts:27 | `decodeURIComponent(encodeURIComponent(s)) == s` for every string `s` |
| KeyCodec.KeyRoundTrip | lambdas/logImage.ts:26-27 | Decoding the form-encoded key of an S3 notification yields the original key, spaces and non-ASCII characters included |
| KeyCodec.NoPlusSurvives | lambdas/logImage.ts:26-27 | A raw key in which no `%2B`/`%2b` appears decodes to a key without `+`. A raw `+` never survives as `+` |
| Ses.SesClient.Send | lambdas/rejectMailer.ts:53 | A send appends exactly one attempt with that email to the outbox. Whether it was delivered is not up to the caller |
| Ses.HtmlPageShows | lambdas/rejectMailer.ts:88-100 | The HTML page contains the message, the sender name and the contact address |
| Ses.HtmlPageInjective | lambdas/confirmMailer.ts:83-95 | For the same heading, sender and contact, equal pages have equal messages |
| RejectMailer.RejectMessage | lambdas/rejectMailer.ts:45-49 | The message template with the decoded key and the bucket name spliced in, keeping the template's line breaks and indentation |
| RejectMailer.RejectEmail | lambdas/rejectMailer.ts:42-52 | The email for one object: sender name `AWS S3 Bucket & DynamoDB System`, contact SES_EMAIL_FROM and the rejection message for its key and bucket, passed through `SendEmailParams` |
| RejectMailer.HtmlContent | lambdas/rejectMailer.ts:88-100 | The shared HTML page under the heading `❌ S3 Bucket Image Upload to DynamoDB Rejected` |
| RejectMailer.SendEmailParams | lambdas/rejectMailer.ts:62-86 | The email goes to SES_EMAIL_TO alone, from SES_EMAIL_FROM, with the UTF-8 subject `Invalid Image Upload Rejected` and the UTF-8 HTML body `HtmlContent(p)` |
| RejectMailer.Handle | lambdas/rejectMailer.ts:25-60 | The loops append to the outbox exactly the emails `NotifyBatch` defines, whichever sends fail. The outbox only grows, and the outcome is the one `NotifyBatch` defines |
| RejectMailer.WalkOnePerObject | lambdas/rejectMailer.ts:28-57 | For any way of building an object's email: earlier emails are kept, one email is attempted per inner record in order up to the first malformed one, and the walk fails with that record's error or completes |
| RejectMailer.NotifyOnePerObject | lambdas/rejectMailer.ts:28-57 | Earlier emails are kept. Exactly one rejection email is attempted per inner record, in record order, up to the first malformed record. The invocation fails with that record's error, or completes if there is none |
| RejectMailer.NotifyCompletesIff | lambdas/rejectMailer.ts:28-57 | An invocation completes if and only if no inner record is malformed. It then attempts one email per inner record |
| RejectMailer.RejectEmailAddressed | lambdas/rejectMailer.ts:62-86 | Every rejection email goes to SES_EMAIL_TO alone, from SES_EMAIL_FROM, with subject `Invalid Image Upload Rejected` and UTF-8 bodies |
| RejectMailer.MessageShows | lambdas/rejectMailer.ts:45-49 | The rejection message names the decoded key, the bucket, `".jpeg"` and `".png"` |
| RejectMailer.RejectPageContents | lambdas/rejectMailer.ts:88-100 | The HTML body shows the message, and through it the key, the bucket and both formats, plus the sender name and the contact address |
| RejectMailer.RejectEmailContents | lambdas/rejectMailer.ts:41-53 | The HTML body of the email sent for an object contains the message, key, bucket, both formats, `AWS S3 Bucket & DynamoDB System` and SES_EMAIL_FROM |
| RejectMailer.NoRecordsNoSend | lambdas/rejectMailer.ts:33 | An SQS record whose notification has no `Records` adds no send and no error to any batch |
| ConfirmMailer.IsInsert | lambdas/confirmMailer.ts:31-33 | Holds exactly when `eventName` is present and equals `"INSERT"`. A missing event name is not an insert |
| ConfirmMailer.ConfirmMessage | lambdas/confirmMailer.ts:41-44 | The message template with `keysText` spliced in, keeping the template's line breaks, its 40-space and 36-space indentation and its trailing space |
| ConfirmMailer.ConfirmEmail | lambdas/confirmMailer.ts:36-47 | The email for one INSERT record: sender name `DynamoDB Image Table Upload`, contact SES_EMAIL_FROM and the confirmation message for the record's keys, passed through `SendEmailParams` |
| ConfirmMailer.HtmlContent | lambdas/confirmMailer.ts:83-95 | The shared HTML page under the heading `✅ DynamoDB Image Upload Approved` |
| ConfirmMailer.SendEmailParams | lambdas/confirmMailer.ts:57-81 | The email goes to SES_EMAIL_TO alone, from SES_EMAIL_FROM, with the UTF-8 subject `Image Upload to DynamoDatabase Table` and the UTF-8 HTML body `HtmlContent(p)` |
| ConfirmMailer.Handle | lambdas/confirmMailer.ts:26-55 | The loop appends to the outbox exactly the emails `Confirmations` defines, whatever becomes of them. The outbox only grows, and the handler always returns normally |
| ConfirmMailer.ConfirmationsKeepSent | lambdas/confirmMailer.ts:29-54 | The walk keeps earlier emails and adds exactly as many as there are INSERT records |
| ConfirmMailer.WalkOnePerInsert | lambdas/confirmMailer.ts:29-49 | For any way of building a record's email: the `i`-th new email is built from the `i`-th INSERT record, and there are exactly as many new emails as INSERT records |
| ConfirmMailer.ConfirmationsOnePerInsert | lambdas/confirmMailer.ts:29-49 | The `i`-th new email is the confirmation of the `i`-th INSERT record, so there is one per INSERT, in record order |
| ConfirmMailer.InsertsFilter | lambdas/confirmMailer.ts:31-33 | The records confirmed are exactly those whose `eventName` is `"INSERT"`, each as often as it occurs in the batch |
| ConfirmMailer.NoInsertsNoEmails | lambdas/confirmMailer.ts:31-33 | A batch without INSERT records, whether their event names differ or are missing, sends nothing |
| ConfirmMailer.ConfirmationsAppend | lambdas/confirmMailer.ts:29-54 | Walking two concatenated batches sends what walking them one after the other sends |
| ConfirmMailer.ConfirmEmailAddressed | lambdas/confirmMailer.ts:57-81 | Every confirmation goes to SES_EMAIL_TO alone, from SES_EMAIL_FROM, with subject `Image Upload to DynamoDatabase Table` and a UTF-8 body |
| ConfirmMailer.ConfirmPageContents | lambdas/confirmMailer.ts:83-95 | The HTML body shows the message, and through it the record's keys, plus the sender name and the contact address |
| ConfirmMailer.ConfirmEmailContents | lambdas/confirmMailer.ts:36-47 | The HTML body of a confirmation contains the message, the record's keys, `DynamoDB Image Table Upload` and SES_EMAIL_FROM |
| ConfirmMailer.ConfirmEmailDistinguishes | lambdas/confirmMailer.ts:41-44 | Two records get the same confirmation if and only if their keys render alike |

## Left out

- JSON parsing (`JSON.parse` of the SQS body and of the SNS `Message`): records are already-parsed datatypes. A body or `Message` that does not parse, or is missing, is the single fault `UnparsableBody`.
- A `Records` value that is not an array: the model's notification holds a sequence of records or nothing.
- Events.Normalize: a present `s3.bucket` without a `name` is treated like a missing `s3.bucket`, and the model fails with `MissingField`. In the source, reading the missing `name` gives `undefined` and does not throw. The ingestion handler then only logs the bucket (lambdas/logImage.ts:45) and stores the key as usual. For a record `{s3:{bucket:{}, object:{key:"a.png"}}}` it writes `a.png` and goes on, while the model fails. The rejection notifier sends an email whose bucket path reads `undefined` (lambdas/rejectMailer.ts:38, 47), while the model fails there too.
- Strings are sequences of Unicode scalar values. JavaScript strings are UTF-16, so a lone surrogate cannot occur in the model. A character past U+FFFF is one `char` here but two code units there. `endsWith` checks ASCII suffixes, so it is unaffected.
- DynamoDB put failures: a put always succeeds in the model. In the source a failed put throws like an invalid key, and it is caught and rethrown at lambdas/logImage.ts:48-50.
- The AWS SDK clients, their network behaviour and HTTP status codes: they are replaced by the table map and the SES outbox. `TableName`, the region and the logged status code are not modelled.
- ConfirmMailer.Handle: each send is recorded as started. The promise is not awaited, so whether the request completes before the invocation returns is not modelled, and neither is the unhandled rejection a failed send produces. The `catch` at lambdas/confirmMailer.ts:51-53 is unreachable in the model, because nothing inside the `try` can throw for an already-parsed record.
- How JavaScript renders `record.dynamodb?.Keys` in the confirmation text: `StreamRecord.keysText` is that rendering, taken as an input. (An attribute map renders as `[object Object]`, so as written the message would not show the file name. The model does not capture this.)
- The module-load environment check (lambdas/rejectMailer.ts:11-15, lambdas/confirmMailer.ts:12-16): it is the precondition `IsValidConfig`, that SES_EMAIL_FROM, SES_EMAIL_TO and SES_REGION are non-empty.
- The infrastructure in lib/eda-app-stack.ts: SNS subscription filters, SQS batching (batch size 5) and dead-letter redelivery (`maxReceiveCount` 3), and the stream event source. None of this is code in the handlers. `LogImage.IngestRedeliveryIdempotent` states what a redelivery does to the table.
- lambdas/updateTable.ts: it only parses and logs its messages, so there is nothing to model.
- Console logging, and concurrent invocations of the same handler.
