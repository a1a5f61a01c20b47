/** The fields of an Outlook mail item that the add-in reads. */
module Mail {
  import opened Wrappers
  import opened Addresses

  /**
   * A mail item. `subject` and `body` may be null; `sentOn` is the send time
   * already formatted as "yyyy-MM-dd HH:mm:ss"; `recipients` holds each
   * recipient's address entry, which may be null.
   */
  datatype MailItem = MailItem(
    subject: Option<string>,
    body: Option<string>,
    sentOn: string,
    sender: Option<AddressEntry>,
    recipients: seq<Option<AddressEntry>>)

  const NoSubject := "No Subject"
  const NoBody := "No Body"

  /** `mail.Subject ?? "No Subject"`. */
  function SubjectOrDefault(subject: Option<string>): (r: string)
    ensures subject.Some? ==> r == subject.value
    ensures subject.None? ==> r == NoSubject
  {
    if subject.Some? then subject.value else NoSubject
  }

  /** The resolved SMTP addresses of the recipients, in order. */
  function RecipientAddresses(recipients: seq<Option<AddressEntry>>): (r: seq<string>)
    ensures |r| == |recipients|
    ensures forall k :: 0 <= k < |r| ==> r[k] == GetSmtpAddress(recipients[k])
  {
    seq(|recipients|, k requires 0 <= k < |recipients| => GetSmtpAddress(recipients[k]))
  }
}
