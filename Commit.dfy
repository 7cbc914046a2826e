/**
 * The commit message: `generateCommitSubject` (main.go:127-129), `newCommitBody`
 * (main.go:150-161), `generateCommitBody` (main.go:131-138) and the fixed template `bodyTpl`
 * (main.go:169-181), whose trim markers are applied here by hand; the module Template
 * executes the template itself and shows the two agree.
 */
module Commit {
  import opened Wrappers
  import opened Text
  import opened ReleaseNote

  /** A label of a pull request; `GetName` of a label without a name reads as "". */
  datatype Label = Label(name: string)

  /**
   * The pull request as the API returns it. Go's nil-safe getters read an absent title
   * or body as "" and an absent number as 0.
   */
  datatype PullRequest = PullRequest(number: int, title: string, body: string, labels: seq<Label>)

  /** `commitBody` (main.go:163-167): the data the template is executed on. */
  datatype CommitBody = CommitBody(labels: seq<string>, message: string, releaseNote: string)

  // ---------------------------------------------------------------------------
  // The subject
  // ---------------------------------------------------------------------------

  /** `generateCommitSubject`: `fmt.Sprintf("%s (#%d)", title, number)`. */
  function CommitSubject(pr: PullRequest): string {
    pr.title + " (#" + IntToDecimal(pr.number) + ")"
  }

  /** The start of the run of digits that ends just before `k`. */
  function DigitsStart(s: string, k: nat): (j: nat)
    requires k <= |s|
    ensures j <= k && (j == 0 || !IsDigit(s[j - 1]))
    ensures forall m :: j <= m < k ==> IsDigit(s[m])
    decreases k
  {
    if k > 0 && IsDigit(s[k - 1]) then DigitsStart(s, k - 1) else k
  }

  /** Reads a subject back from its end: the title, and the number in " (#<n>)". */
  function ParseSubject(s: string): Option<(string, int)> {
    if |s| == 0 || s[|s| - 1] != ')' then None
    else
      var k := |s| - 1;
      var j := DigitsStart(s, k);
      if j == k then None
      else
        var n: int := DigitsValue(s[j..k]);
        var t, v := if j > 0 && s[j - 1] == '-' then j - 1 else j, if j > 0 && s[j - 1] == '-' then -n else n;
        if t >= 3 && s[t - 3..t] == " (#" then Some((s[..t - 3], v)) else None
  }

  lemma {:induction false} DigitsStartAt(s: string, j: nat, k: nat)
    requires j <= k <= |s|
    requires forall m :: j <= m < k ==> IsDigit(s[m])
    requires j == 0 || !IsDigit(s[j - 1])
    ensures DigitsStart(s, k) == j
    decreases k
  {
    if k > j {
      DigitsStartAt(s, j, k - 1);
    }
  }

  /** Reading back `title + " (#" + sign + digits + ")"`, where `sign` is "" or "-". */
  lemma {:induction false} ParseDigits(title: string, sign: string, digits: string, n: nat)
    requires sign == "" || sign == "-"
    requires digits == NatToDecimal(n)
    ensures ParseSubject(title + " (#" + sign + digits + ")") ==
      Some((title, if sign == "-" then -(n as int) else n))
  {
    var pre := title + " (#";
    var s := pre + sign + digits + ")";
    var j, k := |pre| + |sign|, |s| - 1;
    assert s[k] == ')';
    forall m | j <= m < k ensures IsDigit(s[m]) {
      assert s[m] == digits[m - j];
    }
    assert s[j - 1] == (if sign == "-" then '-' else '#');
    DigitsStartAt(s, j, k);
    assert s[j..k] == digits;
    DigitsValueOfDecimal(n);
    assert s[..|pre|] == pre;
    assert s[|title|..|pre|] == " (#" by {
      assert pre[|title|..] == " (#";
    }
    assert s[..|title|] == title;
  }

  /** The subject loses nothing: title and number can be read back from it. */
  lemma SubjectRoundTrip(pr: PullRequest)
    ensures ParseSubject(CommitSubject(pr)) == Some((pr.title, pr.number))
  {
    var n := pr.number;
    if n < 0 {
      ParseDigits(pr.title, "-", NatToDecimal(-n), -n);
      assert IntToDecimal(n) == "-" + NatToDecimal(-n);
      assert CommitSubject(pr) == pr.title + " (#" + "-" + NatToDecimal(-n) + ")";
    } else {
      ParseDigits(pr.title, "", NatToDecimal(n), n);
      ConcatEmpty(NatToDecimal(n));
      assert pr.title + " (#" + "" == pr.title + " (#";
    }
  }

  /** Different pull requests get different subjects unless title and number agree. */
  lemma SubjectInjective(a: PullRequest, b: PullRequest)
    requires CommitSubject(a) == CommitSubject(b)
    ensures a.title == b.title && a.number == b.number
  {
    SubjectRoundTrip(a);
    SubjectRoundTrip(b);
  }

  // ---------------------------------------------------------------------------
  // The body
  // ---------------------------------------------------------------------------

  /** The names of the labels, in the pull request's order. */
  function LabelNames(labels: seq<Label>): (names: seq<string>)
    ensures |names| == |labels|
    ensures forall i :: 0 <= i < |labels| ==> names[i] == labels[i].name
  {
    if labels == [] then [] else LabelNames(labels[..|labels| - 1]) + [labels[|labels| - 1].name]
  }

  /** What `newCommitBody` computes. */
  function CommitBodyOf(pr: PullRequest): CommitBody {
    var x := SplitReleaseNote(pr.body);
    CommitBody(LabelNames(pr.labels), x.description, x.releaseNote)
  }

  /**
   * `newCommitBody` as written: the label names are appended one by one, then the body is
   * split into description and release note.
   */
  method NewCommitBody(pr: PullRequest) returns (b: CommitBody)
    ensures |b.labels| == |pr.labels| && forall i :: 0 <= i < |pr.labels| ==> b.labels[i] == pr.labels[i].name
    ensures Split(b.message, b.releaseNote) == SplitReleaseNote(pr.body)
    ensures b == CommitBodyOf(pr)
  {
    var labels: seq<string> := [];
    for i := 0 to |pr.labels|
      invariant labels == LabelNames(pr.labels[..i])
    {
      assert pr.labels[..i + 1][..i] == pr.labels[..i];
      labels := labels + [pr.labels[i].name];
    }
    assert pr.labels[..|pr.labels|] == pr.labels;
    var x := SplitReleaseNote(pr.body);
    b := CommitBody(labels, x.description, x.releaseNote);
  }

  /** The heading of the labels section. */
  const LabelsHeading := "\nLabels:"
  /** What precedes each label name. */
  const LabelBullet := "\n  * "

  /** One bullet line per label, in order. */
  function LabelLines(labels: seq<string>): string {
    if labels == [] then "" else LabelBullet + labels[0] + LabelLines(labels[1..])
  }

  /** The fenced release-note block that ends every body; its fences are the ones the extraction looks for. */
  function NoteFence(note: string): string {
    Open + "* " + note + Close
  }

  /** The message paragraph: present only for a non-empty message. */
  function MessageBlock(message: string): string {
    if message != "" then "\n" + message else ""
  }

  /** The labels section: present only when there are labels. */
  function LabelsBlock(labels: seq<string>): string {
    if labels != [] then LabelsHeading + LabelLines(labels) else ""
  }

  /**
   * `bodyTpl` executed on `b`. The trim markers remove the newlines around the `if` and
   * `range` actions, and the `-}}` that closes the labels section also removes the three
   * newlines before the fence, so the fence follows the last label line directly.
   */
  function RenderCommitBody(b: CommitBody): string {
    MessageBlock(b.message) + "\n" + LabelsBlock(b.labels) + NoteFence(b.releaseNote)
  }

  /** `generateCommitBody`: the template executed on `newCommitBody(pr)`. */
  function GenerateCommitBody(pr: PullRequest): string {
    RenderCommitBody(CommitBodyOf(pr))
  }

  // ---------------------------------------------------------------------------
  // What the body promises
  // ---------------------------------------------------------------------------

  /** Label lines of two lists are the lines of each, one after the other. */
  lemma {:induction false} LabelLinesAppend(a: seq<string>, b: seq<string>)
    ensures LabelLines(a + b) == LabelLines(a) + LabelLines(b)
    decreases |a|
  {
    if a == [] {
      assert a + b == b;
      ConcatEmpty(LabelLines(b));
    } else {
      assert (a + b)[0] == a[0];
      assert (a + b)[1..] == a[1..] + b;
      LabelLinesAppend(a[1..], b);
      var h := LabelBullet + a[0];
      assert LabelLines(a + b) == h + (LabelLines(a[1..]) + LabelLines(b));
      assert LabelLines(a) == h + LabelLines(a[1..]);
    }
  }

  /** Label `i` has its own line, after the lines of the labels before it and before the rest. */
  lemma LabelLineAt(labels: seq<string>, i: nat)
    requires i < |labels|
    ensures LabelLines(labels) ==
      LabelLines(labels[..i]) + LabelBullet + labels[i] + LabelLines(labels[i + 1..])
  {
    var front, tail := LabelLines(labels[..i]), LabelLines(labels[i + 1..]);
    LabelLinesSplit(labels, i);
    LabelLinesFrom(labels, i);
    ConcatAssoc(front, LabelBullet + labels[i], tail);
    ConcatAssoc(front, LabelBullet, labels[i]);
  }

  lemma LabelLinesSplit(labels: seq<string>, i: nat)
    requires i <= |labels|
    ensures LabelLines(labels) == LabelLines(labels[..i]) + LabelLines(labels[i..])
  {
    TakeDrop(labels, i);
    LabelLinesAppend(labels[..i], labels[i..]);
  }

  lemma LabelLinesFrom(labels: seq<string>, i: nat)
    requires i < |labels|
    ensures LabelLines(labels[i..]) == LabelBullet + labels[i] + LabelLines(labels[i + 1..])
  {
    var rest := labels[i..];
    assert rest[0] == labels[i] && rest[1..] == labels[i + 1..];
  }

  /** The body always ends with the release-note fence holding `* <note>`. */
  lemma BodyEndsWithFence(b: CommitBody)
    ensures var r, f := RenderCommitBody(b), NoteFence(b.releaseNote);
      |f| <= |r| && r[|r| - |f|..] == f
  {
  }

  /**
   * The body opens with the message paragraph exactly when the message is non-empty;
   * otherwise it opens with a single newline, followed by the labels section or the fence.
   */
  lemma BodyOpening(b: CommitBody)
    ensures var r := RenderCommitBody(b);
      (b.message != "" ==> r[..|b.message| + 2] == "\n" + b.message + "\n") &&
      (b.message == "" ==> r == "\n" + LabelsBlock(b.labels) + NoteFence(b.releaseNote))
  {
    var r := RenderCommitBody(b);
    if b.message != "" {
      assert r == ("\n" + b.message + "\n") + (LabelsBlock(b.labels) + NoteFence(b.releaseNote));
    } else {
      assert MessageBlock(b.message) == "";
      ConcatEmpty("\n");
    }
  }

  /**
   * Between the message and the fence: nothing when there are no labels, otherwise the
   * heading and one bullet line per label, in order.
   */
  lemma BodyLabels(b: CommitBody)
    ensures b.labels == [] ==> RenderCommitBody(b) == MessageBlock(b.message) + "\n" + NoteFence(b.releaseNote)
    ensures b.labels != [] ==>
      RenderCommitBody(b) == MessageBlock(b.message) + "\n" + LabelsHeading + LabelLines(b.labels) + NoteFence(b.releaseNote)
  {
    if b.labels == [] {
      ConcatEmpty(MessageBlock(b.message) + "\n");
    } else {
      var m := MessageBlock(b.message) + "\n";
      assert m + (LabelsHeading + LabelLines(b.labels)) == m + LabelsHeading + LabelLines(b.labels);
    }
  }

  /**
   * Running the extraction again on a generated body finds its fence, provided the message
   * and the label names hold no backquote: the note comes back with the template's "* "
   * bullet, and what remains is the message and labels part.
   */
  lemma BodyNoteReadBack(b: CommitBody)
    requires forall k :: 0 <= k < |b.message| ==> b.message[k] != '`'
    requires forall i, k :: 0 <= i < |b.labels| && 0 <= k < |b.labels[i]| ==> b.labels[i][k] != '`'
    requires b.releaseNote != [] && !IsSpace(b.releaseNote[|b.releaseNote| - 1])
    requires forall k :: 0 <= k < |b.releaseNote| ==> b.releaseNote[k] != '\n'
    ensures SplitReleaseNote(RenderCommitBody(b)) ==
      Split(MessageBlock(b.message) + "\n" + LabelsBlock(b.labels), "* " + b.releaseNote)
  {
    var pre := MessageBlock(b.message) + "\n" + LabelsBlock(b.labels);
    var line := "* " + b.releaseNote;
    NoBackquoteInHead(b);
    assert RenderCommitBody(b) == pre + Open + line + Close by {
      ConcatAssoc(pre, Open + "* ", b.releaseNote);
      ConcatAssoc(pre, Open, "* ");
    }
    assert !IsSpace(line[0]) && !IsSpace(line[|line| - 1]);
    SplitOfFinalBlock(pre, line);
  }

  /**
   * `BodyNoteReadBack` for the body `generateCommitBody` produces: the note a split yields
   * always meets the note conditions, so only the message and label names need to be free
   * of backquotes.
   */
  lemma GeneratedNoteReadBack(pr: PullRequest)
    requires var b := CommitBodyOf(pr); forall k :: 0 <= k < |b.message| ==> b.message[k] != '`'
    requires forall i, k :: 0 <= i < |pr.labels| && 0 <= k < |pr.labels[i].name| ==> pr.labels[i].name[k] != '`'
    ensures var b := CommitBodyOf(pr);
      SplitReleaseNote(GenerateCommitBody(pr)) ==
      Split(MessageBlock(b.message) + "\n" + LabelsBlock(b.labels), "* " + b.releaseNote)
  {
    var b := CommitBodyOf(pr);
    NoteIsTrimmedLine(pr.body);
    assert b.releaseNote != [] && !IsSpace(b.releaseNote[|b.releaseNote| - 1]);
    BodyNoteReadBack(b);
  }

  /** The part of the body before the fence holds no backquote when message and labels hold none. */
  lemma NoBackquoteInHead(b: CommitBody)
    requires forall k :: 0 <= k < |b.message| ==> b.message[k] != '`'
    requires forall i, k :: 0 <= i < |b.labels| && 0 <= k < |b.labels[i]| ==> b.labels[i][k] != '`'
    ensures var pre := MessageBlock(b.message) + "\n" + LabelsBlock(b.labels);
      forall k :: 0 <= k < |pre| ==> pre[k] != '`'
  {
    NoBackquoteInLabelLines(b.labels);
  }

  lemma {:induction false} NoBackquoteInLabelLines(labels: seq<string>)
    requires forall i, k :: 0 <= i < |labels| && 0 <= k < |labels[i]| ==> labels[i][k] != '`'
    ensures forall k :: 0 <= k < |LabelLines(labels)| ==> LabelLines(labels)[k] != '`'
    decreases |labels|
  {
    if labels != [] {
      NoBackquoteInLabelLines(labels[1..]);
      var h := LabelBullet + labels[0];
      assert forall k :: 0 <= k < |h| ==> h[k] != '`' by {
        assert forall k :: 0 <= k < |labels[0]| ==> labels[0][k] != '`';
      }
    }
  }

  // ---------------------------------------------------------------------------
  // Examples
  // ---------------------------------------------------------------------------

  lemma ExampleSubject()
    ensures CommitSubject(PullRequest(42, "Add feature", "", [])) == "Add feature (#42)"
  {
    assert NatToDecimal(42) == "42" by {
      assert NatToDecimal(4) == "4";
    }
  }

  /** A pull request with an empty body and no labels gets only the fence, holding "* NONE". */
  lemma ExampleEmptyBody(number: int, title: string)
    ensures GenerateCommitBody(PullRequest(number, title, "", [])) == "\n```release-note\n* NONE\n```"
  {
    assert SplitReleaseNote("") == Split("", NoNote);
    assert LabelNames([]) == [];
    ConcatEmpty("\n");
  }

  /**
   * Labels "bug" and "P1" under an empty body: no message paragraph, a Labels section with
   * two bullet lines, and the fence, which the trim marker of the closing `-}}` joins to
   * the last bullet line.
   */
  lemma ExampleLabels(number: int, title: string)
    ensures GenerateCommitBody(PullRequest(number, title, "", [Label("bug"), Label("P1")])) ==
      "\n" + "\nLabels:" + "\n  * bug" + "\n  * P1" + "```release-note\n* NONE\n```"
  {
    var b := CommitBodyOf(PullRequest(number, title, "", [Label("bug"), Label("P1")]));
    assert b == CommitBody(["bug", "P1"], "", NoNote) by {
      assert SplitReleaseNote("") == Split("", NoNote);
      assert LabelNames([Label("bug"), Label("P1")]) == ["bug", "P1"];
    }
    var lines := "\n  * bug" + "\n  * P1";
    assert LabelLines(["bug", "P1"]) == lines by {
      assert ["bug", "P1"][1..] == ["P1"];
      assert LabelLines(["P1"]) == "\n  * P1" by {
        ConcatEmpty("\n  * P1");
      }
    }
    assert NoteFence(NoNote) == "```release-note\n* NONE\n```";
    assert MessageBlock(b.message) + "\n" == "\n" by {
      ConcatEmpty("\n");
    }
    ConcatAssoc("\n" + LabelsHeading, lines, NoteFence(NoNote));
  }
}
