/**
 * The "save to Redmine" ribbon action: for the first selected item, when it
 * is a mail, build the Redmine new-issue URL with the subject and the body
 * as query parameters and open it. The body is cut to 1000 characters before
 * it is escaped. `escape` stands for `Uri.EscapeDataString`.
 */
module NewTicket {
  import opened Wrappers
  import opened Text
  import opened Config
  import opened Mail
  import opened Notes

  /** An item of the explorer selection. */
  datatype SelectedItem = SelectedMail(mail: MailItem) | OtherItem

  const NewIssuePath := "/issues/new?issue[subject]="
  const DescriptionParameter := "issue[description]="

  /** The raw description: the body, or "No Body", cut to at most 1000 characters. */
  function DescriptionText(body: Option<string>): (raw: string)
    ensures |raw| <= MaxBodyLength
    ensures body.None? ==> raw == NoBody
    ensures body.Some? ==> OccursAt(body.value, raw, 0)
    ensures body.Some? && |body.value| <= MaxBodyLength ==> raw == body.value
    ensures body.Some? && |body.value| > MaxBodyLength ==> |raw| == MaxBodyLength
  {
    Truncate(if body.Some? then body.value else NoBody, MaxBodyLength)
  }

  /**
   * The new-issue URL: the base URL and path, the escaped subject, then the
   * description parameter with the escaped description at the very end.
   */
  function NewTicketUrl(redmineUrl: string, subject: Option<string>, body: Option<string>,
                        escape: string -> string): (url: string)
    ensures OccursAt(url, redmineUrl + NewIssuePath + escape(SubjectOrDefault(subject)) + "&", 0)
    ensures var tail := DescriptionParameter + escape(DescriptionText(body));
      |tail| <= |url| && OccursAt(url, tail, |url| - |tail|)
  {
    redmineUrl + NewIssuePath + escape(SubjectOrDefault(subject))
    + "&" + DescriptionParameter + escape(DescriptionText(body))
  }

  /** The URL opened for a selection, or nothing when the first selected item is not a mail. */
  function SaveToRedmine(settings: Settings, selection: seq<SelectedItem>, escape: string -> string)
    : (launched: Option<string>)
    ensures launched.Some? <==> |selection| > 0 && selection[0].SelectedMail?
    ensures launched.Some? ==>
      var mail := selection[0].mail;
      OccursAt(launched.value, settings.redmineUrl + NewIssuePath, 0)
      && launched.value == NewTicketUrl(settings.redmineUrl, mail.subject, mail.body, escape)
  {
    if |selection| > 0 && selection[0].SelectedMail? then
      var mail := selection[0].mail;
      Some(NewTicketUrl(settings.redmineUrl, mail.subject, mail.body, escape))
    else None
  }

  /**
   * Reads the two escaped query values back out of a new-issue URL: the
   * subject runs up to the first '&', the description follows its parameter name.
   */
  function SplitNewTicketUrl(redmineUrl: string, url: string): Option<(string, string)> {
    var query :- StripLabel(redmineUrl + NewIssuePath, url);
    var parts :- SplitAtFirst(query, '&');
    var description :- StripLabel(DescriptionParameter, parts.1);
    Some((parts.0, description))
  }

  /**
   * When the escaped subject holds no '&' (escaping encodes it), the URL
   * carries exactly the escaped subject and the escaped, already truncated
   * description: escaping happens after the cut.
   */
  lemma NewTicketUrlRoundTrip(redmineUrl: string, subject: Option<string>, body: Option<string>,
                              escape: string -> string)
    requires '&' !in escape(SubjectOrDefault(subject))
    ensures SplitNewTicketUrl(redmineUrl, NewTicketUrl(redmineUrl, subject, body, escape)) ==
      Some((escape(SubjectOrDefault(subject)), escape(DescriptionText(body))))
  {
    var s := escape(SubjectOrDefault(subject));
    var d := DescriptionParameter + escape(DescriptionText(body));
    var base := redmineUrl + NewIssuePath;
    assert NewTicketUrl(redmineUrl, subject, body, escape) == base + (s + "&" + d);
    assert (base + (s + "&" + d))[..|base|] == base;
    assert (base + (s + "&" + d))[|base|..] == s + "&" + d;
    SplitAtFirstAppend(s, '&', d);
    assert d[..|DescriptionParameter|] == DescriptionParameter;
  }
}
