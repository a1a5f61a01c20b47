/**
 * Extraction of the ticket id from a mail subject: the regular expression
 * `<idprefix>(\d+)` matched case-insensitively, with the configured prefix
 * taken as literal text.
 */
module IssueId {
  import opened Wrappers
  import opened Text

  /** The prefix occurs at index `i` of the subject, ignoring case. */
  predicate PrefixAt(subject: string, prefix: string, i: nat) {
    i + |prefix| <= |subject|
    && forall k :: 0 <= k < |prefix| ==> FoldCase(subject[i + k]) == FoldCase(prefix[k])
  }

  /** `<prefix>\d+` matches at index `i`: the prefix, then at least one digit. */
  predicate IdMatchAt(subject: string, prefix: string, i: nat) {
    PrefixAt(subject, prefix, i) && i + |prefix| < |subject| && IsDigit(subject[i + |prefix|])
  }

  /** The leftmost index at or after `from` where `<prefix>\d+` matches. */
  function FirstIdMatch(subject: string, prefix: string, from: nat): (r: Option<nat>)
    decreases |subject| - from
    ensures r.Some? ==> from <= r.value && IdMatchAt(subject, prefix, r.value)
    ensures r.Some? ==> forall j: nat :: from <= j < r.value ==> !IdMatchAt(subject, prefix, j)
    ensures r.None? ==> forall j: nat :: from <= j ==> !IdMatchAt(subject, prefix, j)
  {
    if from >= |subject| then None
    else if IdMatchAt(subject, prefix, from) then Some(from)
    else FirstIdMatch(subject, prefix, from + 1)
  }

  /** The maximal run of digits starting at index `from` (the greedy `\d+`). */
  function DigitRun(s: string, from: nat): (r: string)
    requires from <= |s|
    decreases |s| - from
    ensures OccursAt(s, r, from)
    ensures forall k :: 0 <= k < |r| ==> IsDigit(r[k])
    ensures from + |r| == |s| || !IsDigit(s[from + |r|])
  {
    if from < |s| && IsDigit(s[from]) then [s[from]] + DigitRun(s, from + 1) else ""
  }

  /**
   * `id` is the ticket id of `subject`: `<prefix>\d+` matches at `i` and at no
   * earlier index, and `id` is the whole run of digits right after the prefix.
   */
  predicate IsIdAt(subject: string, prefix: string, i: nat, id: string) {
    IdMatchAt(subject, prefix, i)
    && (forall j: nat :: j < i ==> !IdMatchAt(subject, prefix, j))
    && id != []
    && OccursAt(subject, id, i + |prefix|)
    && (forall k :: 0 <= k < |id| ==> IsDigit(id[k]))
    && (i + |prefix| + |id| == |subject| || !IsDigit(subject[i + |prefix| + |id|]))
  }

  /**
   * The ticket id in a mail subject: absent for a null or empty subject or
   * when `<prefix>\d+` matches nowhere, otherwise the digits of the leftmost match.
   */
  function ExtractIssueIdFromSubject(subject: Option<string>, prefix: string): (r: Option<string>)
    ensures r.None? <==>
      subject.None? || subject.value == "" || forall i: nat :: !IdMatchAt(subject.value, prefix, i)
    ensures r.Some? ==> exists i: nat :: IsIdAt(subject.value, prefix, i, r.value)
  {
    if subject.None? || subject.value == "" then None
    else
      var s := subject.value;
      match FirstIdMatch(s, prefix, 0)
      case None => None
      case Some(i) =>
        var id := DigitRun(s, i + |prefix|);
        assert id[0] == s[i + |prefix|];
        assert IsIdAt(s, prefix, i, id);
        Some(id)
  }

  /** The id a subject carries is unique: no two different ids satisfy `IsIdAt`. */
  lemma IdIsUnique(subject: string, prefix: string, i1: nat, id1: string, i2: nat, id2: string)
    requires IsIdAt(subject, prefix, i1, id1) && IsIdAt(subject, prefix, i2, id2)
    ensures i1 == i2 && id1 == id2
  {
  }

  /** Prefixes equal up to case match at the same places. */
  predicate SameIgnoringCase(p: string, q: string) {
    |p| == |q| && forall k :: 0 <= k < |p| ==> FoldCase(p[k]) == FoldCase(q[k])
  }

  lemma {:induction false} FirstIdMatchIgnoresPrefixCase(subject: string, p: string, q: string, from: nat)
    requires SameIgnoringCase(p, q)
    decreases |subject| - from
    ensures FirstIdMatch(subject, p, from) == FirstIdMatch(subject, q, from)
  {
    if from < |subject| {
      assert IdMatchAt(subject, p, from) == IdMatchAt(subject, q, from);
      FirstIdMatchIgnoresPrefixCase(subject, p, q, from + 1);
    }
  }

  /** The configured prefix is matched without regard to case. */
  lemma ExtractIgnoresPrefixCase(subject: Option<string>, p: string, q: string)
    requires SameIgnoringCase(p, q)
    ensures ExtractIssueIdFromSubject(subject, p) == ExtractIssueIdFromSubject(subject, q)
  {
    if subject.Some? {
      FirstIdMatchIgnoresPrefixCase(subject.value, p, q, 0);
    }
  }
}
