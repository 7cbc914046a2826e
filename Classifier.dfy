/**
 * The error classifier, `errMsg` (main.go:188-199) with `needApproveRegexp` (main.go:184).
 * The regular expression "At least ([0-9]+) approving review is required by reviewers with
 * write access" is case-sensitive and unanchored; it is replaced by a leftmost scan.
 */
module Classifier {
  import opened Wrappers
  import opened Text

  /** The literal text before the captured digits. */
  const AtLeast := "At least "
  /** The literal text after the captured digits: a space, then the rest of the sentence. */
  const Required := " " + "approving review is required by reviewers with write access"
  /** What `errMsg` says of a nil error. */
  const Succeeded := "Succeeded!"

  /** The end of the run of decimal digits that starts at `j`. */
  function DigitsEnd(s: string, j: nat): (k: nat)
    requires j <= |s|
    ensures j <= k <= |s|
    ensures forall m :: j <= m < k ==> IsDigit(s[m])
    ensures k < |s| ==> !IsDigit(s[k])
    decreases |s| - j
  {
    if j == |s| || !IsDigit(s[j]) then j else DigitsEnd(s, j + 1)
  }

  /**
   * The pattern's meaning: it matches `s[i..k + |Required|]`, and the group `([0-9]+)`
   * captures `s[i + |AtLeast|..k]`, one or more digits.
   */
  ghost predicate ApprovalSpan(s: string, i: nat, k: nat) {
    HasPrefixAt(s, i, AtLeast) && i + |AtLeast| < k && HasPrefixAt(s, k, Required) &&
    forall m :: i + |AtLeast| <= m < k ==> IsDigit(s[m])
  }

  /** What the scan tests at each offset: the words, a maximal run of digits, the rest. */
  predicate ApprovalAt(s: string, i: nat) {
    HasPrefixAt(s, i, AtLeast) &&
    var k := DigitsEnd(s, i + |AtLeast|);
    i + |AtLeast| < k && HasPrefixAt(s, k, Required)
  }

  /** At a given start the digits can end in one place only, as the next text starts with a space. */
  lemma ApprovalSpanEnd(s: string, i: nat, k: nat)
    ensures ApprovalSpan(s, i, k) ==> k == DigitsEnd(s, i + |AtLeast|)
  {
    if ApprovalSpan(s, i, k) {
      var d := DigitsEnd(s, i + |AtLeast|);
      assert Required[0] == ' ';
      assert !IsDigit(s[k]);
      assert d < |s| ==> !IsDigit(s[d]);
    }
  }

  /** The scan's test agrees with the pattern's meaning. */
  lemma ApprovalAtIffSpan(s: string, i: nat)
    ensures ApprovalAt(s, i) <==> exists k: nat :: ApprovalSpan(s, i, k)
  {
    if ApprovalAt(s, i) {
      assert ApprovalSpan(s, i, DigitsEnd(s, i + |AtLeast|));
    }
    forall k: nat | ApprovalSpan(s, i, k) ensures ApprovalAt(s, i) {
      ApprovalSpanEnd(s, i, k);
    }
  }

  /** Leftmost search: the first offset at or after `from` where the pattern matches. */
  function FindApproval(s: string, from: nat): (r: Option<nat>)
    requires from <= |s|
    ensures r.Some? ==> from <= r.value <= |s| && ApprovalAt(s, r.value)
    ensures r.Some? ==> forall j: nat :: from <= j < r.value ==> !ApprovalAt(s, j)
    ensures r.None? ==> forall j: nat :: from <= j ==> !ApprovalAt(s, j)
    decreases |s| - from
  {
    if ApprovalAt(s, from) then Some(from)
    else if from == |s| then None
    else FindApproval(s, from + 1)
  }

  /** The captured digits of a match at `i`. */
  function CapturedCount(s: string, i: nat): (n: string)
    requires ApprovalAt(s, i)
    ensures |n| > 0 && AllDigits(n)
  {
    s[i + |AtLeast|..DigitsEnd(s, i + |AtLeast|)]
  }

  /** The group of `needApproveRegexp.FindStringSubmatch(msg)`, `None` when nothing matches. */
  function RequiredApprovals(msg: string): (n: Option<string>)
    ensures n.Some? ==> |n.value| > 0 && AllDigits(n.value)
  {
    match FindApproval(msg, 0)
    case None => None
    case Some(i) => Some(CapturedCount(msg, i))
  }

  /** `errMsg`: the comment to post for an error, `None` standing for nil. */
  function ErrMsg(err: Option<string>): (m: string)
  {
    match err
    case None => Succeeded
    case Some(msg) =>
      match RequiredApprovals(msg)
      case Some(n) => "Need " + n + " approving review"
      case None => msg
  }

  // ---------------------------------------------------------------------------
  // What errMsg promises, in terms of the pattern's meaning
  // ---------------------------------------------------------------------------

  /** The leftmost match decides the count that is found. */
  lemma LeftmostCount(msg: string, i: nat, k: nat)
    requires ApprovalSpan(msg, i, k)
    requires forall j: nat, k': nat :: j < i ==> !ApprovalSpan(msg, j, k')
    ensures RequiredApprovals(msg) == Some(msg[i + |AtLeast|..k])
  {
    ApprovalSpanEnd(msg, i, k);
    ApprovalAtIffSpan(msg, i);
    forall j: nat | j < i ensures !ApprovalAt(msg, j) {
      ApprovalAtIffSpan(msg, j);
    }
  }

  /** The leftmost match decides the count that is reported. */
  lemma LeftmostApproval(msg: string, i: nat, k: nat)
    requires ApprovalSpan(msg, i, k)
    requires forall j: nat, k': nat :: j < i ==> !ApprovalSpan(msg, j, k')
    ensures RequiredApprovals(msg) == Some(msg[i + |AtLeast|..k])
    ensures ErrMsg(Some(msg)) == "Need " + msg[i + |AtLeast|..k] + " approving review"
  {
    LeftmostCount(msg, i, k);
  }

  /** Without a match, the error's own text is posted. */
  lemma NoApproval(msg: string)
    requires forall i: nat, k: nat :: !ApprovalSpan(msg, i, k)
    ensures RequiredApprovals(msg) == None
    ensures ErrMsg(Some(msg)) == msg
  {
    if FindApproval(msg, 0).Some? {
      ApprovalAtIffSpan(msg, FindApproval(msg, 0).value);
    }
  }

  /** A found count comes from a real match, the leftmost one. */
  lemma ApprovalFound(msg: string)
    requires RequiredApprovals(msg).Some?
    ensures exists i: nat, k: nat ::
      (ApprovalSpan(msg, i, k) &&
       RequiredApprovals(msg) == Some(msg[i + |AtLeast|..k]) &&
       forall j: nat, k': nat :: j < i ==> !ApprovalSpan(msg, j, k'))
  {
    var i := FindApproval(msg, 0).value;
    var k := DigitsEnd(msg, i + |AtLeast|);
    assert ApprovalSpan(msg, i, k);
    forall j: nat, k': nat | j < i ensures !ApprovalSpan(msg, j, k') {
      ApprovalAtIffSpan(msg, j);
    }
  }

  /** A match shifts with the text it sits in. */
  lemma ApprovalSpanShift(p: string, s: string, i: nat, k: nat)
    ensures ApprovalSpan(p + s, |p| + i, |p| + k) <==> ApprovalSpan(s, i, k)
  {
    var t := p + s;
    if |p| + i + |AtLeast| <= |t| {
      assert t[|p| + i..|p| + i + |AtLeast|] == s[i..i + |AtLeast|];
    }
    if |p| + k + |Required| <= |t| {
      assert t[|p| + k..|p| + k + |Required|] == s[k..k + |Required|];
    }
    if ApprovalSpan(s, i, k) {
      forall m | |p| + i + |AtLeast| <= m < |p| + k ensures IsDigit(t[m]) {
        assert t[m] == s[m - |p|];
      }
    }
    if ApprovalSpan(t, |p| + i, |p| + k) {
      forall m | i + |AtLeast| <= m < k ensures IsDigit(s[m]) {
        assert t[m + |p|] == s[m];
      }
    }
  }

  /** No match can start inside a prefix without the letter 'A'. */
  lemma NoApprovalInPrefix(p: string, s: string)
    requires forall k :: 0 <= k < |p| ==> p[k] != 'A'
    ensures forall j: nat, k: nat :: j < |p| ==> !ApprovalSpan(p + s, j, k)
  {
    forall j: nat, k: nat | j < |p| ensures !ApprovalSpan(p + s, j, k) {
      assert (p + s)[j] == p[j];
      NotPrefixAt(p + s, j, AtLeast, 0);
    }
  }

  /**
   * A prefix without the letter 'A' cannot hide or change the count: wrapping an error as
   * "failed to merge pull request: %w" does, and the approval count still comes through.
   */
  lemma RequiredApprovalsBehindPrefix(p: string, s: string)
    requires forall k :: 0 <= k < |p| ==> p[k] != 'A'
    ensures RequiredApprovals(p + s) == RequiredApprovals(s)
  {
    if RequiredApprovals(s).Some? {
      ApprovalFound(s);
      var i: nat, k: nat :| ApprovalSpan(s, i, k) &&
        RequiredApprovals(s) == Some(s[i + |AtLeast|..k]) &&
        forall j: nat, k': nat :: j < i ==> !ApprovalSpan(s, j, k');
      ApprovalBehindPrefix(p, s, i, k);
    } else {
      NoApprovalBehindPrefix(p, s);
    }
  }

  lemma ApprovalBehindPrefix(p: string, s: string, i: nat, k: nat)
    requires forall k :: 0 <= k < |p| ==> p[k] != 'A'
    requires ApprovalSpan(s, i, k)
    requires forall j: nat, k': nat :: j < i ==> !ApprovalSpan(s, j, k')
    ensures RequiredApprovals(p + s) == Some(s[i + |AtLeast|..k])
  {
    var t := p + s;
    assert ApprovalSpan(t, |p| + i, |p| + k) by {
      ApprovalSpanShift(p, s, i, k);
    }
    assert forall j: nat, k': nat :: j < |p| + i ==> !ApprovalSpan(t, j, k') by {
      NothingBeforeBehindPrefix(p, s, i);
    }
    var n := t[|p| + i + |AtLeast|..|p| + k];
    LeftmostCount(t, |p| + i, |p| + k);
    assert n == s[i + |AtLeast|..k] by {
      SliceBehindPrefix(p, s, i + |AtLeast|, k);
    }
    assert RequiredApprovals(t).Some? && RequiredApprovals(t).value == n;
  }

  lemma NothingBeforeBehindPrefix(p: string, s: string, i: nat)
    requires forall k :: 0 <= k < |p| ==> p[k] != 'A'
    requires forall j: nat, k': nat :: j < i ==> !ApprovalSpan(s, j, k')
    ensures forall j: nat, k': nat :: j < |p| + i ==> !ApprovalSpan(p + s, j, k')
  {
    forall j: nat, k': nat | j < |p| + i ensures !ApprovalSpan(p + s, j, k') {
      NoApprovalInPrefix(p, s);
      if j >= |p| && k' >= |p| {
        ApprovalSpanShift(p, s, j - |p|, k' - |p|);
      }
    }
  }

  lemma NoApprovalBehindPrefix(p: string, s: string)
    requires forall k :: 0 <= k < |p| ==> p[k] != 'A'
    requires RequiredApprovals(s).None?
    ensures RequiredApprovals(p + s).None?
  {
    var t := p + s;
    forall j: nat, k: nat ensures !ApprovalSpan(t, j, k) {
      NoApprovalInPrefix(p, s);
      if j >= |p| && k >= |p| {
        ApprovalSpanShift(p, s, j - |p|, k - |p|);
        ApprovalAtIffSpan(s, j - |p|);
      }
    }
    NoApproval(t);
  }

  // ---------------------------------------------------------------------------
  // Examples
  // ---------------------------------------------------------------------------

  /** A nil error reads as success. */
  lemma NilIsSucceeded()
    ensures ErrMsg(None) == "Succeeded!"
  {
  }

  /** GitHub's message for a pull request short of `n` approvals. */
  lemma ExampleApproval(n: string)
    requires |n| > 0 && AllDigits(n)
    ensures ErrMsg(Some(AtLeast + n + Required)) == "Need " + n + " approving review"
  {
    var msg := AtLeast + n + Required;
    var k := |AtLeast| + |n|;
    assert msg[..|AtLeast|] == AtLeast;
    assert msg[k..k + |Required|] == Required;
    assert msg[|AtLeast|..k] == n;
    assert forall m :: |AtLeast| <= m < k ==> msg[m] == n[m - |AtLeast|];
    LeftmostApproval(msg, 0, k);
  }

  /** An error without the letter 'A' is posted as it is. */
  lemma PlainErrorPostedAsIs(msg: string)
    requires forall k :: 0 <= k < |msg| ==> msg[k] != 'A'
    ensures ErrMsg(Some(msg)) == msg
  {
    NoApprovalInPrefix(msg, "");
    ConcatEmpty(msg);
    NoApproval(msg);
  }
}
