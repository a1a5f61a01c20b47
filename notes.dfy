/**
 * The journal note the add-in writes for a mail, and the scan of a ticket's
 * journals that decides whether that mail was already recorded. The
 * "SentOn: <time>" line that starts every note is the only de-duplication key.
 */
module Notes {
  import opened Wrappers
  import opened Text
  import opened Mail

  /** The longest body section a note carries. */
  const MaxBodyLength: nat := 1000

  /** A journal entry of a ticket; `notes` is absent when the entry has no (or a null) "notes" value. */
  datatype Journal = Journal(notes: Option<string>)

  function SentOnMarker(sentOn: string): string {
    "SentOn: " + sentOn
  }

  /** The journal's notes are non-empty and contain the marker. */
  predicate RecordsMarker(journal: Journal, marker: string) {
    journal.notes.Some? && journal.notes.value != "" && Contains(journal.notes.value, marker)
  }

  /** Some journal records the marker of this send time. */
  predicate AlreadyRecorded(journals: seq<Journal>, sentOn: string) {
    exists k :: 0 <= k < |journals| && RecordsMarker(journals[k], SentOnMarker(sentOn))
  }

  /** The source's scan: walk the journals and stop at the first that records the marker. */
  method HasNoteWithSentOn(journals: seq<Journal>, sentOn: string) returns (found: bool)
    ensures found <==> AlreadyRecorded(journals, sentOn)
  {
    var marker := SentOnMarker(sentOn);
    var k := 0;
    while k < |journals|
      invariant 0 <= k <= |journals|
      invariant forall j :: 0 <= j < k ==> !RecordsMarker(journals[j], marker)
    {
      var journal := journals[k];
      if journal.notes.Some? {
        var notes := journal.notes.value;
        if notes != "" && Contains(notes, marker) {
          return true;
        }
      }
      k := k + 1;
    }
    return false;
  }

  /**
   * The body part of a note: "No Body" for a null body, otherwise its first
   * `MaxBodyLength` characters.
   */
  function BodySection(trimmedBody: Option<string>): (r: string)
    ensures trimmedBody.None? ==> r == NoBody
    ensures trimmedBody.Some? ==> |r| <= MaxBodyLength && OccursAt(trimmedBody.value, r, 0)
    ensures trimmedBody.Some? ==>
      |r| == (if |trimmedBody.value| <= MaxBodyLength then |trimmedBody.value| else MaxBodyLength)
  {
    if trimmedBody.None? then NoBody else Truncate(trimmedBody.value, MaxBodyLength)
  }

  /** One line `tag value`, then the rest of the note. */
  function Line(tag: string, value: string, rest: string): string {
    tag + value + "\n" + rest
  }

  /**
   * The note written to the ticket for a mail: the send-time marker, subject,
   * sender and `;`-joined recipients lines, a blank line, then the body section.
   */
  function ComposeNote(sentOn: string, subject: Option<string>, sender: string, recipients: seq<string>,
                       trimmedBody: Option<string>): (note: string)
    ensures OccursAt(note, SentOnMarker(sentOn) + "\n", 0)
  {
    Line("SentOn: ", sentOn,
      Line("Subject: ", SubjectOrDefault(subject),
        Line("Sender: ", sender,
          Line("Recipients: ", Join(';', recipients),
            Line("", "", BodySection(trimmedBody))))))
  }

  /** The fields of a note read back from its text. */
  datatype NoteFields = NoteFields(
    sentOn: string, subject: string, sender: string, recipients: seq<string>, body: string)

  /** Reads one line that starts with `tag`: the text after the tag and the text after the line. */
  function ReadLine(tag: string, s: string): (r: Option<(string, string)>)
    ensures r.Some? ==> '\n' !in tag + r.value.0 && s == Line(tag, r.value.0, r.value.1)
  {
    var line :- SplitAtFirst(s, '\n');
    var value :- StripLabel(tag, line.0);
    Some((value, line.1))
  }

  lemma ReadLineAppend(tag: string, value: string, rest: string)
    requires '\n' !in tag + value
    ensures ReadLine(tag, Line(tag, value, rest)) == Some((value, rest))
  {
    SplitAtFirstAppend(tag + value, '\n', rest);
    assert (tag + value)[..|tag|] == tag;
  }

  /** Reads a note back: five lines with their labels, the fifth empty, then the body. */
  function ParseNote(note: string): (r: Option<NoteFields>)
    ensures r.Some? ==> OccursAt(note, SentOnMarker(r.value.sentOn) + "\n", 0)
  {
    var sentOn :- ReadLine("SentOn: ", note);
    assert (SentOnMarker(sentOn.0) + "\n") + sentOn.1 == note;
    var subject :- ReadLine("Subject: ", sentOn.1);
    var sender :- ReadLine("Sender: ", subject.1);
    var recipients :- ReadLine("Recipients: ", sender.1);
    var blank :- ReadLine("", recipients.1);
    if blank.0 != "" then None
    else Some(NoteFields(sentOn.0, subject.0, sender.0, Split(recipients.0, ';'), blank.1))
  }

  /**
   * A composed note reads back as the fields it was composed from, provided
   * the send time, the subject (or "No Subject") and the sender hold no line
   * break, there is at least one recipient (a joined empty list reads back as
   * one empty address), and no recipient address holds a line break or ';'.
   */
  lemma ParseComposedNote(sentOn: string, subject: Option<string>, sender: string, recipients: seq<string>,
                          trimmedBody: Option<string>)
    requires '\n' !in sentOn && '\n' !in SubjectOrDefault(subject) && '\n' !in sender
    requires recipients != []
    requires forall k :: 0 <= k < |recipients| ==> '\n' !in recipients[k] && ';' !in recipients[k]
    ensures ParseNote(ComposeNote(sentOn, subject, sender, recipients, trimmedBody)) ==
      Some(NoteFields(sentOn, SubjectOrDefault(subject), sender, recipients, BodySection(trimmedBody)))
  {
    var subjectText := SubjectOrDefault(subject);
    var joined := Join(';', recipients);
    var body := BodySection(trimmedBody);
    var rest4 := Line("", "", body);
    var rest3 := Line("Recipients: ", joined, rest4);
    var rest2 := Line("Sender: ", sender, rest3);
    var rest1 := Line("Subject: ", subjectText, rest2);
    JoinAvoids(';', recipients, '\n');
    ReadLineAppend("SentOn: ", sentOn, rest1);
    ReadLineAppend("Subject: ", subjectText, rest2);
    ReadLineAppend("Sender: ", sender, rest3);
    ReadLineAppend("Recipients: ", joined, rest4);
    ReadLineAppend("", "", body);
    SplitJoin(';', recipients);
  }

  /** A note that reads back with a send time records that send time's marker. */
  lemma ParsedNoteRecordsMarker(note: string, fields: NoteFields)
    requires ParseNote(note) == Some(fields)
    ensures RecordsMarker(Journal(Some(note)), SentOnMarker(fields.sentOn))
  {
    var marker := SentOnMarker(fields.sentOn);
    assert note[..|marker|] == (marker + "\n")[..|marker|] == marker;
    assert OccursAt(note, marker, 0);
  }

  /**
   * The marker the note starts with is the one the scan looks for: a history
   * holding a composed note counts as having recorded its send time.
   */
  lemma ComposedNoteIsRecorded(journals: seq<Journal>, k: nat, sentOn: string, subject: Option<string>,
                               sender: string, recipients: seq<string>, trimmedBody: Option<string>)
    requires k < |journals|
    requires journals[k].notes == Some(ComposeNote(sentOn, subject, sender, recipients, trimmedBody))
    ensures AlreadyRecorded(journals, sentOn)
  {
  }
}
