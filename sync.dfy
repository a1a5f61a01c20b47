/**
 * The flow of `SaveMailToRedmineAsync`: find the ticket id in the subject,
 * read the ticket's journals, skip the mail when a journal already records
 * its send time, otherwise write the composed note to the ticket. Any failed
 * request ends the flow with the error shown to the user and rethrown.
 *
 * The two HTTP responses are inputs; the requests the flow makes are
 * recorded in its report.
 */
module Sync {
  import opened Wrappers
  import opened Config
  import opened Addresses
  import opened Mail
  import opened IssueId
  import opened QuoteTrim
  import opened Notes

  /** A request sent to Redmine with the `X-Redmine-API-Key` header. */
  datatype Request =
    | GetIssue(url: string, apiKey: string)
    | PutNote(url: string, apiKey: string, notes: string)

  /**
   * The response to the journal read: a non-success status with its content;
   * a request that threw before any status came back (`GetAsync` failing);
   * a document that cannot be read as an issue with journals; or the parsed
   * "issue.journals" array, absent when the document has no "issue" or no
   * "journals" property. Not JSON, a root or "issue" that is not an object,
   * or "journals" that is not an array is always unreadable. A journal that
   * is not an object, or "notes" that is neither a string nor null, is
   * unreadable only when the scan reaches it: when an earlier journal
   * records the send time, the response is `GetOk` of the journals before it.
   */
  datatype GetResponse =
    | GetFailed(status: int, content: string)
    | GetUnreachable(message: string)
    | GetUnreadable
    | GetOk(journals: Option<seq<Journal>>)

  /**
   * The response to the note write: a non-success status with its content, a
   * request that threw before any status came back (`PutAsync` failing), or success.
   */
  datatype PutResponse =
    | PutFailed(status: int, content: string)
    | PutUnreachable(message: string)
    | PutOk

  /** The exception that ends the flow. */
  datatype SyncError =
    | ReadError(status: int, content: string)
    | ParseError
    | WriteError(status: int, content: string)
    | TransportError(message: string)

  /** How the flow ended; `Failed` means its exception is rethrown to the caller. */
  datatype Outcome =
    | SkippedNoIssueId
    | SkippedDuplicate
    | Saved
    | Failed(error: SyncError)

  /** The error dialog shown to the user, with the mail's subject. */
  datatype Notification = Notification(error: SyncError, mailSubject: Option<string>)

  datatype Report = Report(requests: seq<Request>, outcome: Outcome, notification: Option<Notification>)

  function JournalsUrl(redmineUrl: string, issueId: string): string {
    redmineUrl + "/issues/" + issueId + ".json?include=journals"
  }

  function IssueUrl(redmineUrl: string, issueId: string): string {
    redmineUrl + "/issues/" + issueId + ".json"
  }

  function IssueIdOf(settings: Settings, mail: MailItem): Option<string> {
    ExtractIssueIdFromSubject(mail.subject, settings.idPrefix)
  }

  /** The journal read made for a mail that has a ticket id. */
  function ReadRequest(settings: Settings, mail: MailItem): Request
    requires IssueIdOf(settings, mail).Some?
  {
    GetIssue(JournalsUrl(settings.redmineUrl, IssueIdOf(settings, mail).value), settings.redmineApiKey)
  }

  /** The note written for a mail. */
  function NoteFor(settings: Settings, mail: MailItem): string {
    ComposeNote(mail.sentOn, mail.subject, GetSmtpAddress(mail.sender), RecipientAddresses(mail.recipients),
                TrimmedBody(mail.body, ReplyDelimiters(settings)))
  }

  /** The journals read show the mail as recorded already. */
  predicate FoundDuplicate(response: GetResponse, sentOn: string) {
    response.GetOk? && response.journals.Some? && AlreadyRecorded(response.journals.value, sentOn)
  }

  /** The mail has a ticket id, its journals were read, and none records it. */
  predicate WritesNote(settings: Settings, mail: MailItem, response: GetResponse) {
    IssueIdOf(settings, mail).Some? && response.GetOk? && !FoundDuplicate(response, mail.sentOn)
  }

  function FailWith(requests: seq<Request>, error: SyncError, mail: MailItem): Report {
    Report(requests, Failed(error), Some(Notification(error, mail.subject)))
  }

  /**
   * Saves one mail to the ticket named in its subject. `direction` ("Received"
   * or "Sent") is passed in by both callers and not used.
   */
  method SaveMailToRedmine(settings: Settings, mail: MailItem, direction: string,
                           getResponse: GetResponse, putResponse: PutResponse)
    returns (report: Report)
    // No ticket id: nothing is requested and nobody is told.
    ensures report.outcome == SkippedNoIssueId <==> IssueIdOf(settings, mail).None?
    ensures IssueIdOf(settings, mail).None? ==> report.notification.None?
    // With an id, the journals are read once; the note is written after that
    // exactly when the read succeeded and no journal records the mail.
    ensures !WritesNote(settings, mail, getResponse) ==>
      report.requests == (if IssueIdOf(settings, mail).None? then [] else [ReadRequest(settings, mail)])
    ensures WritesNote(settings, mail, getResponse) ==>
      report.requests == [ReadRequest(settings, mail),
                          PutNote(IssueUrl(settings.redmineUrl, IssueIdOf(settings, mail).value),
                                  settings.redmineApiKey, NoteFor(settings, mail))]
    ensures report.outcome == SkippedDuplicate <==>
      IssueIdOf(settings, mail).Some? && FoundDuplicate(getResponse, mail.sentOn)
    ensures report.outcome == Saved <==> WritesNote(settings, mail, getResponse) && putResponse.PutOk?
    // Only a failed request ends in an error, which is shown to the user and rethrown.
    ensures report.outcome.Failed? <==>
      IssueIdOf(settings, mail).Some? &&
      (!getResponse.GetOk? || (WritesNote(settings, mail, getResponse) && !putResponse.PutOk?))
    ensures IssueIdOf(settings, mail).Some? && getResponse.GetFailed? ==>
      report.outcome == Failed(ReadError(getResponse.status, getResponse.content))
    ensures IssueIdOf(settings, mail).Some? && getResponse.GetUnreachable? ==>
      report.outcome == Failed(TransportError(getResponse.message))
    ensures IssueIdOf(settings, mail).Some? && getResponse.GetUnreadable? ==>
      report.outcome == Failed(ParseError)
    ensures WritesNote(settings, mail, getResponse) && putResponse.PutFailed? ==>
      report.outcome == Failed(WriteError(putResponse.status, putResponse.content))
    ensures WritesNote(settings, mail, getResponse) && putResponse.PutUnreachable? ==>
      report.outcome == Failed(TransportError(putResponse.message))
    ensures report.notification ==
      if report.outcome.Failed? then Some(Notification(report.outcome.error, mail.subject)) else None
  {
    var redmineUrl := settings.redmineUrl;
    var apiKey := settings.redmineApiKey;
    var senderEmail := GetSmtpAddress(mail.sender);

    var issueId := ExtractIssueIdFromSubject(mail.subject, settings.idPrefix);
    if issueId.None? {
      return Report([], SkippedNoIssueId, None);
    }
    var id := issueId.value;
    var sentOnString := mail.sentOn;

    var requests := [GetIssue(JournalsUrl(redmineUrl, id), apiKey)];
    if getResponse.GetFailed? {
      return FailWith(requests, ReadError(getResponse.status, getResponse.content), mail);
    }
    if getResponse.GetUnreachable? {
      return FailWith(requests, TransportError(getResponse.message), mail);
    }
    if getResponse.GetUnreadable? {
      return FailWith(requests, ParseError, mail);
    }
    if getResponse.journals.Some? {
      var found := HasNoteWithSentOn(getResponse.journals.value, sentOnString);
      if found {
        return Report(requests, SkippedDuplicate, None);
      }
    }

    var trimmedBody := TrimQuotedText(mail.body, settings);
    var notes := ComposeNote(sentOnString, mail.subject, senderEmail, RecipientAddresses(mail.recipients),
                             trimmedBody);
    requests := requests + [PutNote(IssueUrl(redmineUrl, id), apiKey, notes)];
    if putResponse.PutFailed? {
      return FailWith(requests, WriteError(putResponse.status, putResponse.content), mail);
    }
    if putResponse.PutUnreachable? {
      return FailWith(requests, TransportError(putResponse.message), mail);
    }
    return Report(requests, Saved, None);
  }

  /**
   * The same mail synced twice (a mail sent to oneself arrives in both Sent
   * Items and the Inbox), where the second read sees the journal the first
   * write added: the second sync writes nothing.
   */
  method SyncSameMailTwice(settings: Settings, mail: MailItem, history: seq<Journal>,
                           firstPut: PutResponse, secondPut: PutResponse)
    returns (first: Report, second: Report)
    ensures first.outcome == Saved ==>
      second.outcome == SkippedDuplicate && forall r <- second.requests :: r.GetIssue?
  {
    first := SaveMailToRedmine(settings, mail, "Sent", GetOk(Some(history)), firstPut);
    var after := history;
    if first.outcome == Saved {
      after := history + [Journal(Some(first.requests[1].notes))];
      ComposedNoteIsRecorded(after, |history|, mail.sentOn, mail.subject, GetSmtpAddress(mail.sender),
                             RecipientAddresses(mail.recipients), TrimmedBody(mail.body, ReplyDelimiters(settings)));
    }
    second := SaveMailToRedmine(settings, mail, "Received", GetOk(Some(after)), secondPut);
  }
}
