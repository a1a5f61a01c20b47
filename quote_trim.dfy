/**
 * Removal of the quoted previous message from a mail body: the reply
 * delimiters are tried in order, and the first one that matches anywhere in
 * the body cuts the body just before the match; the part kept is trimmed.
 *
 * A delimiter is matched case-sensitively as literal text, except that a
 * leading '^' anchors it to the start of a line (the `Multiline` option:
 * the start of the body or just after a '\n'). An empty delimiter, or a
 * lone '^', matches at index 0.
 */
module QuoteTrim {
  import opened Wrappers
  import opened Text
  import opened Config

  /** The delimiter matches the body at index `i`. */
  predicate DelimiterMatchAt(body: string, delimiter: string, i: nat) {
    if |delimiter| > 0 && delimiter[0] == '^' then
      OccursAt(body, delimiter[1..], i) && (i == 0 || body[i - 1] == '\n')
    else
      OccursAt(body, delimiter, i)
  }

  /** The leftmost index at or after `from` where the delimiter matches. */
  function FirstDelimiterMatch(body: string, delimiter: string, from: nat): (r: Option<nat>)
    decreases |body| + 1 - from
    ensures r.Some? ==> from <= r.value <= |body| && DelimiterMatchAt(body, delimiter, r.value)
    ensures r.Some? ==> forall j: nat :: from <= j < r.value ==> !DelimiterMatchAt(body, delimiter, j)
    ensures r.None? ==> forall j: nat :: from <= j ==> !DelimiterMatchAt(body, delimiter, j)
  {
    if from > |body| then None
    else if DelimiterMatchAt(body, delimiter, from) then Some(from)
    else FirstDelimiterMatch(body, delimiter, from + 1)
  }

  /** Matches nowhere in the body. */
  ghost predicate NoMatch(body: string, delimiter: string) {
    forall i: nat :: !DelimiterMatchAt(body, delimiter, i)
  }

  /**
   * The body cut at the first delimiter, in list order, that matches: it is
   * always a piece of the body, never longer than it.
   */
  function CutAtFirstDelimiter(body: string, delimiters: seq<string>): (r: string)
    ensures |r| <= |body| && Contains(body, r)
  {
    if delimiters == [] then
      assert OccursAt(body, body, 0);
      body
    else
      match FirstDelimiterMatch(body, delimiters[0], 0)
      case Some(i) =>
        TrimmedPrefixIsPiece(body, i);
        Trim(body[..i])
      case None => CutAtFirstDelimiter(body, delimiters[1..])
  }

  /** The trimmed text before index `i` is a piece of the body, no longer than it. */
  lemma TrimmedPrefixIsPiece(body: string, i: nat)
    requires i <= |body|
    ensures |Trim(body[..i])| <= |body| && Contains(body, Trim(body[..i]))
  {
    var r := Trim(body[..i]);
    var a: nat :| IsTrimOf(body[..i], r, a);
    assert body[a..a + |r|] == body[..i][a..a + |r|];
    assert OccursAt(body, r, a);
  }

  /** What `TrimQuotedText` returns: a null or empty body unchanged, otherwise the cut body. */
  function TrimmedBody(body: Option<string>, delimiters: seq<string>): Option<string> {
    if body.None? || body.value == "" then body
    else Some(CutAtFirstDelimiter(body.value, delimiters))
  }

  /** The source's loop: try the delimiters in order and return at the first match. */
  method TrimQuotedText(body: Option<string>, settings: Settings) returns (r: Option<string>)
    ensures r == TrimmedBody(body, ReplyDelimiters(settings))
  {
    if body.None? || body.value == "" {
      return body;
    }
    var b := body.value;
    var replyDelimiters := ReplyDelimiters(settings);
    var k := 0;
    while k < |replyDelimiters|
      invariant 0 <= k <= |replyDelimiters|
      invariant CutAtFirstDelimiter(b, replyDelimiters[k..]) == CutAtFirstDelimiter(b, replyDelimiters)
    {
      var m := FirstDelimiterMatch(b, replyDelimiters[k], 0);
      if m.Some? {
        return Some(Trim(b[..m.value]));
      }
      assert replyDelimiters[k..][1..] == replyDelimiters[k + 1..];
      k := k + 1;
    }
    return body;
  }

  /** When no delimiter matches anywhere, the body comes back unchanged. */
  lemma {:induction false} NoMatchLeavesBodyUnchanged(body: string, delimiters: seq<string>)
    requires forall k :: 0 <= k < |delimiters| ==> NoMatch(body, delimiters[k])
    ensures CutAtFirstDelimiter(body, delimiters) == body
  {
    if delimiters != [] {
      NoMatchLeavesBodyUnchanged(body, delimiters[1..]);
    }
  }

  /**
   * The first delimiter in list order that matches decides the cut: the
   * result is the trimmed text before its leftmost match, whatever the later
   * delimiters would match.
   */
  lemma {:induction false} FirstMatchingDelimiterDecides(body: string, delimiters: seq<string>, k: nat, i: nat)
    requires k < |delimiters|
    requires forall j :: 0 <= j < k ==> NoMatch(body, delimiters[j])
    requires i <= |body| && DelimiterMatchAt(body, delimiters[k], i)
    requires forall j: nat :: j < i ==> !DelimiterMatchAt(body, delimiters[k], j)
    ensures CutAtFirstDelimiter(body, delimiters) == Trim(body[..i])
  {
    if k == 0 {
      var m := FirstDelimiterMatch(body, delimiters[0], 0);
      assert m.Some? && m.value == i;
    } else {
      assert FirstDelimiterMatch(body, delimiters[0], 0).None?;
      FirstMatchingDelimiterDecides(body, delimiters[1..], k - 1, i);
    }
  }

  /**
   * An empty delimiter matches at index 0, so once it is reached every
   * non-empty body is cut down to nothing.
   */
  lemma EmptyDelimiterEmptiesBody(body: string, delimiters: seq<string>, k: nat)
    requires k < |delimiters| && delimiters[k] == ""
    requires forall j :: 0 <= j < k ==> NoMatch(body, delimiters[j])
    ensures CutAtFirstDelimiter(body, delimiters) == ""
  {
    assert DelimiterMatchAt(body, "", 0);
    FirstMatchingDelimiterDecides(body, delimiters, k, 0);
  }

  /**
   * Trimming twice can cut more than trimming once: a later delimiter that
   * did not decide the first cut may match inside the text that was kept.
   * With the first configured delimiter `[b]` and the second `[a]`, the body
   * `x a y b` is cut at `b` to `x a y`, which the second delimiter cuts
   * again, to `x`; the third and fourth delimiters are never reached.
   */
  lemma TrimmingIsNotIdempotent(settings: Settings, x: char, a: char, y: char, b: char)
    requires settings.replyDelimiter1 == [b] && settings.replyDelimiter2 == [a]
    requires a != b && x != a && x != b && y != b && a != '^' && b != '^'
    requires !IsWhiteSpace(x) && !IsWhiteSpace(y)
    ensures TrimmedBody(Some([x, a, y, b]), ReplyDelimiters(settings)) == Some([x, a, y])
    ensures TrimmedBody(Some([x, a, y]), ReplyDelimiters(settings)) == Some([x])
  {
    FirstCutOfExample(ReplyDelimiters(settings), x, a, y, b);
    SecondCutOfExample(ReplyDelimiters(settings), x, a, y, b);
  }

  lemma FirstCutOfExample(delimiters: seq<string>, x: char, a: char, y: char, b: char)
    requires |delimiters| >= 1 && delimiters[0] == [b]
    requires x != b && a != b && y != b && b != '^'
    requires !IsWhiteSpace(x) && !IsWhiteSpace(y)
    ensures CutAtFirstDelimiter([x, a, y, b], delimiters) == [x, a, y]
  {
    var body := [x, a, y, b];
    CharDelimiterCuts(body, delimiters, 0, b, 3);
    assert body[..3] == [x, a, y];
    TrimKeepsUnpaddedText([x, a, y]);
  }

  lemma SecondCutOfExample(delimiters: seq<string>, x: char, a: char, y: char, b: char)
    requires |delimiters| >= 2 && delimiters[0] == [b] && delimiters[1] == [a]
    requires x != b && a != b && y != b && x != a && a != '^' && b != '^'
    requires !IsWhiteSpace(x)
    ensures CutAtFirstDelimiter([x, a, y], delimiters) == [x]
  {
    var kept := [x, a, y];
    CharDelimiterMissing(kept, b);
    CharDelimiterCuts(kept, delimiters, 1, a, 1);
    assert kept[..1] == [x];
    TrimKeepsUnpaddedText([x]);
  }

  /** A one-character delimiter other than '^' matches first where its character first occurs. */
  lemma CharDelimiterCuts(body: string, delimiters: seq<string>, k: nat, c: char, i: nat)
    requires k < |delimiters| && delimiters[k] == [c] && c != '^'
    requires forall j :: 0 <= j < k ==> NoMatch(body, delimiters[j])
    requires i < |body| && body[i] == c
    requires forall j :: 0 <= j < i ==> body[j] != c
    ensures CutAtFirstDelimiter(body, delimiters) == Trim(body[..i])
  {
    assert DelimiterMatchAt(body, [c], i) by { assert body[i..i + 1] == [c]; }
    forall j: nat | j < i ensures !DelimiterMatchAt(body, [c], j) {
      assert body[j..j + 1][0] == body[j];
    }
    FirstMatchingDelimiterDecides(body, delimiters, k, i);
  }

  /** A one-character delimiter other than '^' whose character the body lacks matches nowhere. */
  lemma CharDelimiterMissing(body: string, c: char)
    requires c != '^' && c !in body
    ensures NoMatch(body, [c])
  {
  }

  /** Text that neither starts nor ends with whitespace is its own trim. */
  lemma TrimKeepsUnpaddedText(s: string)
    requires s == [] || (!IsWhiteSpace(s[0]) && !IsWhiteSpace(s[|s| - 1]))
    ensures Trim(s) == s
  {
  }
}
