# Redmine Outlook add-in: mail-to-ticket notes

This project models the part of the Redmine Outlook add-in that turns a mail
into a note on a Redmine ticket (`CrmOutlookAddIn/ThisAddIn.cs`). The Outlook
event hooks, the HTTP client and the dialogs are not modelled. What is left
is a handful of string functions and one decision flow:

- **IssueId**: the ticket id is the run of digits after the configured id prefix in the subject.
  The prefix is matched case-insensitively, and the leftmost match counts.
- **QuoteTrim**: the quoted earlier message is cut off the body. The cut falls at the first
  reply delimiter, in list order, that matches the body. What is kept is trimmed.
- **Notes**: the note written to the ticket starts with a `SentOn: <time>` line. The journal scan
  looks for that same line to decide whether the mail is already on the ticket.
- **Sync**: the flow of `SaveMailToRedmineAsync`. The two HTTP responses are inputs. The report
  gives the requests made, the outcome, and the error dialog shown, if any.
- **Addresses**: resolution of an Outlook address entry to an SMTP address, with an `"Unknown"` fallback.
- **NewTicket**: the URL the ribbon's "save to Redmine" button opens to create a new ticket.

Supporting modules: `Wrappers` (Option), `Text` (the .NET string operations
used: ordinal `Contains`, `Trim`, `Substring` truncation, `Join`), `Config`
(the settings, passed in as a value) and `Mail` (the mail item fields read).

The main result ties the note writer to the scan. `Notes.ComposedNoteIsRecorded`
proves that a history holding a composed note counts as having recorded its send
time. `Sync.SyncSameMailTwice` proves that a second sync of a mail that was just
saved makes no write. `Notes.ParseComposedNote` reads a composed note back into
the fields it was built from.

Facts about the code that the model keeps:

- A failed journal read throws. The error dialog is shown and the exception is rethrown, as for a
  failed write (`ThisAddIn.cs:148-151`, `:213-217`).
- Reply delimiters are matched case-sensitively, with the `Multiline` option only (`:260`). Only
  the id prefix is matched ignoring case (`:232`).
- An empty reply delimiter is not skipped (`:249-260`). It matches at index 0, so a body that
  reaches it is cut to `""` (`QuoteTrim.EmptyDelimiterEmptiesBody`).
- Quote trimming is not idempotent (`QuoteTrim.TrimmingIsNotIdempotent`).
- The send time is formatted to the second, as `yyyy-MM-dd HH:mm:ss` (`:138`). The model takes it
  as an already formatted string.

## Model

| member | source | states |
|---|---|---|
| `Text.Trim` | CrmOutlookAddIn/ThisAddIn.cs:263 | the result is a piece of the input; everything cut off both ends is whitespace, and the result neither starts nor ends with whitespace |
| `Text.TrimOfIsUnique` | CrmOutlookAddIn/ThisAddIn.cs:263 | at most one string satisfies that description, so it defines the trim |
| `Text.Truncate` | CrmOutlookAddIn/ThisAddIn.cs:306-309 | the result is the first `min(length, n)` characters of the input |
| `Text.Contains` | CrmOutlookAddIn/ThisAddIn.cs:166 | ordinal substring test: the empty string is always contained, a contained string is no longer than the text, and text that starts with `t` contains it |
| `Text.Join` | CrmOutlookAddIn/ThisAddIn.cs:189 | `string.Join`: empty for no parts, otherwise starts with the first part and has the parts' total length plus one separator between each two |
| `Text.SplitJoin` | CrmOutlookAddIn/ThisAddIn.cs:189 | the `;`-joined recipient list splits back into the addresses when none contains `;` |
| `Mail.SubjectOrDefault` | CrmOutlookAddIn/ThisAddIn.cs:187 | the subject when it is not null, "No Subject" otherwise |
| `Mail.RecipientAddresses` | CrmOutlookAddIn/ThisAddIn.cs:189 | one resolved address per recipient, in order, each the `GetSmtpAddress` of that recipient's address entry |
| `Addresses.GetSmtpAddress` | CrmOutlookAddIn/ThisAddIn.cs:270-289 | "Unknown" for a null entry or an Exchange entry without an Exchange user; otherwise the Exchange user's primary SMTP address (Exchange types) or the entry's address (other types) |
| `IssueId.FirstIdMatch` | CrmOutlookAddIn/ThisAddIn.cs:232 | returns the leftmost index where the prefix (ignoring case) is followed by a digit, or none when there is no such index |
| `IssueId.DigitRun` | CrmOutlookAddIn/ThisAddIn.cs:232-233 | the greedy `\d+`: the digits read from the subject at the given index, followed by a non-digit or the end |
| `IssueId.ExtractIssueIdFromSubject` | CrmOutlookAddIn/ThisAddIn.cs:222-234 | absent exactly when the subject is null, empty or has no match; otherwise a non-empty, all-digit, maximal run right after the leftmost match of the prefix |
| `IssueId.IdIsUnique` | CrmOutlookAddIn/ThisAddIn.cs:232-233 | the description of the extracted id fixes both the match position and the id |
| `IssueId.ExtractIgnoresPrefixCase` | CrmOutlookAddIn/ThisAddIn.cs:232 | prefixes that differ only in letter case extract the same id |
| `QuoteTrim.FirstDelimiterMatch` | CrmOutlookAddIn/ThisAddIn.cs:260 | returns the leftmost index where a delimiter matches (with a leading `^` matching only at a line start), or none |
| `QuoteTrim.CutAtFirstDelimiter` | CrmOutlookAddIn/ThisAddIn.cs:258-267 | the result is a piece of the body and no longer than it |
| `QuoteTrim.TrimQuotedText` | CrmOutlookAddIn/ThisAddIn.cs:241-268 | the loop over the four configured delimiters returns what `TrimmedBody` describes: a null or empty body unchanged, otherwise the cut body |
| `QuoteTrim.NoMatchLeavesBodyUnchanged` | CrmOutlookAddIn/ThisAddIn.cs:258-267 | when no delimiter matches anywhere, the body is returned unchanged |
| `QuoteTrim.FirstMatchingDelimiterDecides` | CrmOutlookAddIn/ThisAddIn.cs:258-264 | the first delimiter in list order that matches decides the cut: the result is `Trim(body[..i])` for its leftmost match `i` |
| `QuoteTrim.EmptyDelimiterEmptiesBody` | CrmOutlookAddIn/ThisAddIn.cs:249-263 | an empty delimiter is not skipped: once reached, it cuts the body to the empty string |
| `QuoteTrim.TrimmingIsNotIdempotent` | CrmOutlookAddIn/ThisAddIn.cs:249-264 | with the first configured reply delimiter `[b]` and the second `[a]` (the third and fourth being anything), the body `x a y b` trims to `x a y`, which trims again to `x` (for distinct non-whitespace characters, neither delimiter being `^`) |
| `Notes.HasNoteWithSentOn` | CrmOutlookAddIn/ThisAddIn.cs:157-173 | the journal loop reports a duplicate exactly when some journal has non-empty notes containing `"SentOn: " + sentOn`; journals without notes are ignored |
| `Notes.BodySection` | CrmOutlookAddIn/ThisAddIn.cs:190 | "No Body" for a null body, otherwise the first `min(length, 1000)` characters of the trimmed body |
| `Notes.ComposeNote` | CrmOutlookAddIn/ThisAddIn.cs:186-190 | the note begins with the line `"SentOn: " + sentOn` |
| `Notes.ParseComposedNote` | CrmOutlookAddIn/ThisAddIn.cs:186-190 | a composed note reads back as its send time, subject (or "No Subject"), sender, the recipient list and the body section. This holds when the send time, subject and sender hold no line break, there is at least one recipient, and no address holds a line break or `;` |
| `Notes.ParseNote` | CrmOutlookAddIn/ThisAddIn.cs:186 | any note that reads back starts with the line `"SentOn: " + sentOn` of the send time read |
| `Notes.ParsedNoteRecordsMarker` | CrmOutlookAddIn/ThisAddIn.cs:163-170 | a note that reads back with a send time is one the journal scan counts as recording that send time |
| `Notes.ComposedNoteIsRecorded` | CrmOutlookAddIn/ThisAddIn.cs:157-190 | a history holding a composed note makes the duplicate check true for the same send time |
| `Sync.SaveMailToRedmine` | CrmOutlookAddIn/ThisAddIn.cs:122-219 | no id: no request and no dialog. Otherwise exactly one GET of the journals, then a PUT of the composed note exactly when the read succeeded and found no duplicate. Each failure ends in `Failed` with its own error: a status from the read or the write, a request that threw, or an unreadable document. The dialog is then shown and the error rethrown. The skip paths are silent |
| `Sync.SyncSameMailTwice` | CrmOutlookAddIn/ThisAddIn.cs:70-84 | after a saved sync, a second sync of the same mail against the history with the new journal skips as a duplicate and makes no PUT |
| `NewTicket.DescriptionText` | CrmOutlookAddIn/ThisAddIn.cs:305-309 | the description is the body or "No Body", kept whole when it has at most 1000 characters and otherwise cut to exactly its first 1000 |
| `NewTicket.NewTicketUrl` | CrmOutlookAddIn/ThisAddIn.cs:314 | the URL starts with `{url}/issues/new?issue[subject]=`, the escaped subject and `&`, and ends with `issue[description]=` and the escaped description |
| `NewTicket.SaveToRedmine` | CrmOutlookAddIn/ThisAddIn.cs:291-323 | a URL is opened exactly when the first selected item is a mail. The URL starts with `{url}/issues/new?issue[subject]=` |
| `NewTicket.NewTicketUrlRoundTrip` | CrmOutlookAddIn/ThisAddIn.cs:302-314 | the URL carries the escaped subject and the escaped description, and the body is truncated before it is escaped |

## Left out

- Outlook plumbing is not modelled: start-up folder hooks, the `ItemAdd` handlers, `InternalStartup` and the ribbon. These are host wiring. The fire-and-forget call of the sync is concurrency.
- The settings store and its first-run initialisation are left out. The settings are a `Config.Settings` value. `UseProxy` only configures the HTTP handler, so it is left out too.
- The trace listener and all trace logging are left out. They are I/O only.
- The HTTP GET and PUT, JSON parsing and serialisation are not modelled. The responses are inputs (`Sync.GetResponse`, `Sync.PutResponse`), and the parsed journals are given as values. A request that throws before a status comes back is `GetUnreachable` or `PutUnreachable`. A document that is not JSON, whose root or "issue" is not an object, or whose "journals" is not an array is `GetUnreadable`. A journal that is not an object, or "notes" that is neither a string nor null, throws only when the scan reaches it (`ThisAddIn.cs:161-171`): the document is `GetUnreadable` when no earlier journal records the send time, and otherwise `GetOk` of the journals before the malformed one, on which the scan stops as the code does at `:169`. A null or missing "notes" value is an absent note.
- The error dialog is recorded as a `Notification` in the report, not shown.
- NewTicket.SaveToRedmine: the browser launch is modelled as the URL it returns. No exception in `SaveToRedmine` is modelled: neither a failing `Process.Start` nor a null `ActiveExplorer()`, nor any other. The catch at `ThisAddIn.cs:325-330`, which shows the error dialog with the escaped subject (or null when the subject is not yet set) and rethrows, is not modelled either.
- `Uri.EscapeDataString` is the parameter `escape`. The model does not define what it computes.
- `DateTime.ToString` is not modelled. The mail's send time is an already formatted string.
- IssueId.ExtractIssueIdFromSubject: the id prefix is literal text, not a regular expression. Case folding covers ASCII letters only, and `\d` covers ASCII digits only. .NET's IgnoreCase and `\d` also cover other Unicode letters and digits.
- QuoteTrim.TrimQuotedText: each reply delimiter is literal text with an optional leading `^` (line start, as the `Multiline` option makes it). Other regular-expression syntax is not modelled. A null delimiter makes `Regex.Match` throw; the model's delimiters are never null.
- Lengths are counted in Unicode scalar values. .NET counts UTF-16 code units, so a 1000-unit cut can split a surrogate pair in .NET but not in the model.
- `RedmineUser` and `CustomField` are not modelled because nothing uses them. `RibbonExtender.cs` is not modelled because it only loads the ribbon XML.
