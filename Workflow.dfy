/**
 * One run of the action: `main` (main.go:36-68) with `ghClient.merge` (main.go:102-125).
 * The GitHub API and the `gh` command are collaborators whose answers are given up front;
 * the run is the sequence of calls it makes to them and how it ends.
 */
module Workflow {
  import opened Wrappers
  import opened Text
  import opened Gate
  import opened Commit
  import opened Classifier

  /** A call to a collaborator. */
  datatype Call =
    | GetPullRequest(owner: string, repo: string, number: int)
    | MergePullRequest(owner: string, repo: string, number: int,
        commitMessage: string, commitTitle: string, mergeMethod: string)
    | RunCommand(argv: seq<string>)
    | CreateComment(owner: string, repo: string, number: int, body: string)

  /** What `PullRequests.Get` answers. */
  datatype Fetch = Fetched(pr: PullRequest) | FetchFailed(err: string)

  /**
   * The collaborators' answers: the pull request, the error of whichever merge call is made
   * (the API call or the `gh` command), and the error of posting the comment.
   */
  datatype Answers = Answers(fetch: Fetch, mergeError: Option<string>, commentError: Option<string>)

  /**
   * How a run ends: normally after posting the success comment, by a panic with the error
   * after posting the error comment, or by a panic because the comment could not be posted.
   */
  datatype Outcome =
    | Success(message: string)
    | ReportedFailure(reason: string)
    | CommentDeliveryPanic(reason: string)

  datatype Trace = Trace(calls: seq<Call>, outcome: Outcome)

  /** The comment for a merged pull request (main.go:62). */
  function SuccessMessage(prNumber: int): string {
    "Merged PR #" + IntToDecimal(prNumber) + " successfully!"
  }

  /** The command line for an automatic merge (main.go:114). */
  function GhArgs(e: Env, subject: string, body: string): seq<string> {
    ["gh", "pr", "merge", IntToDecimal(e.prNumber), "--" + e.mergeMethod, "--auto",
     "--subject", subject, "--body", body, "--repo", e.owner + "/" + e.repo]
  }

  /** The merge call for a fetched pull request: the `gh` command or the API. */
  function MergeCall(e: Env, pr: PullRequest): Call {
    var subject, body := CommitSubject(pr), GenerateCommitBody(pr);
    if e.enableAutoMerge then RunCommand(GhArgs(e, subject, body))
    else MergePullRequest(e.owner, e.repo, e.prNumber, body, subject, e.mergeMethod)
  }

  /** `ghClient.merge`: its calls, and its error wrapped as on main.go:105 and main.go:122. */
  function Merge(e: Env, w: Answers): (seq<Call>, Option<string>) {
    var get := GetPullRequest(e.owner, e.repo, e.prNumber);
    match w.fetch
    case FetchFailed(err) => ([get], Some("failed to get pull request: " + err))
    case Fetched(pr) =>
      ([get, MergeCall(e, pr)],
       match w.mergeError
       case None => None
       case Some(err) => Some("failed to merge pull request: " + err))
  }

  /** Posting `msg`, then ending with `done` unless posting fails (main.go:47-52, 55-60, 63-67). */
  function Report(e: Env, w: Answers, msg: string, done: Outcome): (seq<Call>, Outcome) {
    ([CreateComment(e.owner, e.repo, e.prNumber, msg)],
     match w.commentError
     case Some(err) => CommentDeliveryPanic("failed to send message: " + err)
     case None => done)
  }

  /** `main`, once the inputs are loaded. */
  function Run(e: Env, w: Answers): Trace {
    match Authorize(e)
    case Some(err) =>
      var (post, out) := Report(e, w, ErrMsg(Some(err)), ReportedFailure(err));
      Trace(post, out)
    case None =>
      var (calls, merr) := Merge(e, w);
      match merr
      case Some(err) =>
        var (post, out) := Report(e, w, ErrMsg(Some(err)), ReportedFailure(err));
        Trace(calls + post, out)
      case None =>
        var msg := SuccessMessage(e.prNumber);
        var (post, out) := Report(e, w, msg, Success(msg));
        Trace(calls + post, out)
  }

  // ---------------------------------------------------------------------------
  // What a run promises
  // ---------------------------------------------------------------------------

  predicate IsMerge(c: Call) {
    c.MergePullRequest? || c.RunCommand?
  }

  /** The merge is attempted only after the gate lets the run through and the pull request is fetched. */
  predicate Proceeds(e: Env, w: Answers) {
    Authorize(e) == None && w.fetch.Fetched?
  }

  /** Exactly one comment is posted, and it is the last call of the run. */
  lemma OneCommentLast(e: Env, w: Answers)
    ensures var c := Run(e, w).calls;
      |c| > 0 && c[|c| - 1].CreateComment? && forall k :: 0 <= k < |c| - 1 ==> !c[k].CreateComment?
  {
  }

  /** The calls of a run, case by case: the gate, the fetch, the merge, the comment. */
  lemma CallsOfRun(e: Env, w: Answers)
    ensures var c := Run(e, w).calls;
      (Authorize(e).Some? ==> |c| == 1) &&
      (Authorize(e).None? ==> c[0] == GetPullRequest(e.owner, e.repo, e.prNumber)) &&
      (Authorize(e).None? && w.fetch.FetchFailed? ==> |c| == 2) &&
      (Proceeds(e, w) ==> |c| == 3 && c[1] == MergeCall(e, w.fetch.pr))
  {
  }

  /** Some merge call is made exactly when the gate passes and the pull request is fetched. */
  lemma MergeAttemptedIff(e: Env, w: Answers)
    ensures (exists k :: 0 <= k < |Run(e, w).calls| && IsMerge(Run(e, w).calls[k])) <==> Proceeds(e, w)
  {
    var c := Run(e, w).calls;
    CallsOfRun(e, w);
    if Proceeds(e, w) {
      assert IsMerge(c[1]);
    }
  }

  /** The `gh` command is run exactly when automatic merge is enabled; otherwise the API merges. */
  lemma CommandIffAutoMerge(e: Env, w: Answers)
    requires Proceeds(e, w)
    ensures Run(e, w).calls[1].RunCommand? <==> e.enableAutoMerge
    ensures Run(e, w).calls[1].MergePullRequest? <==> !e.enableAutoMerge
  {
    CallsOfRun(e, w);
  }

  /** The subject a merge call carries. */
  function SubjectOf(c: Call): string {
    match c
    case MergePullRequest(_, _, _, _, title, _) => title
    case RunCommand(argv) => if |argv| > 7 then argv[7] else ""
    case _ => ""
  }

  /** The body a merge call carries. */
  function BodyOf(c: Call): string {
    match c
    case MergePullRequest(_, _, _, message, _, _) => message
    case RunCommand(argv) => if |argv| > 9 then argv[9] else ""
    case _ => ""
  }

  /** Whichever way it merges, the merge call carries the commit subject and body of `pr`. */
  lemma MergeCallCarries(e: Env, pr: PullRequest)
    ensures SubjectOf(MergeCall(e, pr)) == CommitSubject(pr)
    ensures BodyOf(MergeCall(e, pr)) == GenerateCommitBody(pr)
    ensures MergeCall(e, pr).RunCommand? <==> e.enableAutoMerge
  {
    var subject, body := CommitSubject(pr), GenerateCommitBody(pr);
    if e.enableAutoMerge {
      var argv := GhArgs(e, subject, body);
      assert argv[7] == subject && argv[9] == body;
    }
  }

  /** Both ways of merging carry the same subject and body, made from the fetched pull request. */
  lemma SameCommitMessage(e: Env, w: Answers)
    requires Proceeds(e, w)
    ensures var c := Run(e, w).calls[1];
      SubjectOf(c) == CommitSubject(w.fetch.pr) && BodyOf(c) == GenerateCommitBody(w.fetch.pr)
    ensures var other := e.(enableAutoMerge := !e.enableAutoMerge);
      SubjectOf(Run(other, w).calls[1]) == SubjectOf(Run(e, w).calls[1]) &&
      BodyOf(Run(other, w).calls[1]) == BodyOf(Run(e, w).calls[1])
  {
    var other := e.(enableAutoMerge := !e.enableAutoMerge);
    CallsOfRun(e, w);
    assert Authorize(other) == Authorize(e);
    CallsOfRun(other, w);
    MergeCallCarries(e, w.fetch.pr);
    MergeCallCarries(other, w.fetch.pr);
  }

  /** The `gh` command names the pull request by its decimal number, which reads back to it. */
  lemma CommandNamesPullRequest(e: Env, w: Answers)
    requires Proceeds(e, w) && e.enableAutoMerge
    ensures var argv := Run(e, w).calls[1].argv;
      |argv| == 12 && ParseInt(argv[3]) == Some(e.prNumber) && argv[11] == e.owner + "/" + e.repo
  {
    var pr := w.fetch.pr;
    var argv := GhArgs(e, CommitSubject(pr), GenerateCommitBody(pr));
    assert Run(e, w).calls[1] == RunCommand(argv) by {
      CallsOfRun(e, w);
    }
    GhArgsNamePullRequest(e, CommitSubject(pr), GenerateCommitBody(pr));
  }

  /** The command line's fourth word is the pull request's number, and its last the repository. */
  lemma GhArgsNamePullRequest(e: Env, subject: string, body: string)
    ensures var argv := GhArgs(e, subject, body);
      |argv| == 12 && ParseInt(argv[3]) == Some(e.prNumber) && argv[11] == e.owner + "/" + e.repo
  {
    DecimalRoundTrip(e.prNumber);
  }

  /** The run succeeds exactly when the merge returned nil and the success comment was posted. */
  lemma SuccessIff(e: Env, w: Answers)
    ensures Run(e, w).outcome.Success? <==> Proceeds(e, w) && w.mergeError.None? && w.commentError.None?
    ensures Run(e, w).outcome.Success? ==> Run(e, w).outcome.message == SuccessMessage(e.prNumber)
  {
  }

  /** A failed comment always ends the run with a panic naming the comment's error. */
  lemma CommentFailureIff(e: Env, w: Answers)
    ensures Run(e, w).outcome.CommentDeliveryPanic? <==> w.commentError.Some?
    ensures w.commentError.Some? ==>
      Run(e, w).outcome.reason == "failed to send message: " + w.commentError.value
  {
  }

  /** The error the run reports, by stage: the gate's, the fetch's, the merge's. */
  lemma ReportedFailureReason(e: Env, w: Answers)
    requires w.commentError.None?
    ensures Authorize(e).Some? ==> Run(e, w).outcome == ReportedFailure(Authorize(e).value)
    ensures Authorize(e).None? && w.fetch.FetchFailed? ==>
      Run(e, w).outcome == ReportedFailure("failed to get pull request: " + w.fetch.err)
    ensures Proceeds(e, w) && w.mergeError.Some? ==>
      Run(e, w).outcome == ReportedFailure("failed to merge pull request: " + w.mergeError.value)
  {
  }

  /** The comment a run posts. */
  function PostedComment(e: Env, w: Answers): string {
    var c := Run(e, w).calls;
    OneCommentLast(e, w);
    c[|c| - 1].body
  }

  /**
   * The comment posted at each stage, whether or not posting it succeeds: `errMsg` of the
   * gate's error, of the wrapped fetch error or of the wrapped merge error, or the success text.
   */
  lemma CommentByStage(e: Env, w: Answers)
    ensures Authorize(e).Some? ==> PostedComment(e, w) == ErrMsg(Some(Authorize(e).value))
    ensures Authorize(e).None? && w.fetch.FetchFailed? ==>
      PostedComment(e, w) == ErrMsg(Some("failed to get pull request: " + w.fetch.err))
    ensures Proceeds(e, w) && w.mergeError.Some? ==>
      PostedComment(e, w) == ErrMsg(Some("failed to merge pull request: " + w.mergeError.value))
    ensures Proceeds(e, w) && w.mergeError.None? ==> PostedComment(e, w) == SuccessMessage(e.prNumber)
  {
  }

  /** A run that fails with a reported error has posted `errMsg` of that very error. */
  lemma FailureComment(e: Env, w: Answers)
    requires Run(e, w).outcome.ReportedFailure?
    ensures PostedComment(e, w) == ErrMsg(Some(Run(e, w).outcome.reason))
  {
  }

  /** The comment of a failed run is never the success message: they differ in their first letter. */
  lemma SuccessCommentIff(e: Env, w: Answers)
    ensures PostedComment(e, w) == SuccessMessage(e.prNumber) <==> Proceeds(e, w) && w.mergeError.None?
  {
    var msg := PostedComment(e, w);
    assert SuccessMessage(e.prNumber)[0] == 'M';
    if Authorize(e).Some? {
      var err := Authorize(e).value;
      assert err[0] == 'c' || err[0] == 'a';
      ErrMsgOpening(err);
    } else if !Proceeds(e, w) {
      var err := "failed to get pull request: " + w.fetch.err;
      assert err[0] == 'f';
      ErrMsgOpening(err);
    } else if w.mergeError.Some? {
      var err := "failed to merge pull request: " + w.mergeError.value;
      assert err[0] == 'f';
      ErrMsgOpening(err);
    }
  }

  /** The comment for an error opens with "Need" or with the error's own first letter. */
  lemma ErrMsgOpening(err: string)
    requires err != []
    ensures var m := ErrMsg(Some(err)); m != [] && (m[0] == 'N' || m[0] == err[0])
    ensures var m := ErrMsg(Some(err)); (|m| >= 4 && m[..4] == "Need") || m[0] == err[0]
  {
  }

  /**
   * The wrap of a failed merge does not hide GitHub's approval message: the comment is the
   * count of approvals needed when GitHub's error states it, and the wrapped error otherwise.
   */
  lemma MergeFailureComment(e: Env, w: Answers)
    requires Proceeds(e, w) && w.mergeError.Some?
    ensures var err := w.mergeError.value;
      PostedComment(e, w) ==
        match RequiredApprovals(err)
        case Some(n) => "Need " + n + " approving review"
        case None => "failed to merge pull request: " + err
  {
    var p := "failed to merge pull request: ";
    assert forall k :: 0 <= k < |p| ==> p[k] != 'A';
    RequiredApprovalsBehindPrefix(p, w.mergeError.value);
  }

  /**
   * The end-to-end run of a pull request "Fix crash", number 7, with an empty body and no
   * labels, triggered by `/merge` from an allowed actor, merged through the API.
   */
  lemma ExampleFixCrash(owner: string, repo: string, mergeMethod: string, actor: string)
    ensures var e := Env(owner, repo, 7, "/merge", mergeMethod, [actor], actor, false);
      var w := Answers(Fetched(PullRequest(7, "Fix crash", "", [])), None, None);
      Run(e, w) == Trace(
        [ GetPullRequest(owner, repo, 7),
          MergePullRequest(owner, repo, 7, "\n```release-note\n* NONE\n```", "Fix crash (#7)", mergeMethod),
          CreateComment(owner, repo, 7, "Merged PR #7 successfully!") ],
        Success("Merged PR #7 successfully!"))
  {
    var e := Env(owner, repo, 7, "/merge", mergeMethod, [actor], actor, false);
    var pr := PullRequest(7, "Fix crash", "", []);
    var w := Answers(Fetched(pr), None, None);
    assert Authorize(e) == None by {
      assert e.actor in e.mergers;
    }
    assert IntToDecimal(7) == "7" by {
      assert NatToDecimal(7) == "7";
    }
    var body, msg := "\n```release-note\n* NONE\n```", "Merged PR #7 successfully!";
    var merge := MergePullRequest(owner, repo, 7, body, "Fix crash (#7)", mergeMethod);
    assert MergeCall(e, pr) == merge by {
      assert CommitSubject(pr) == "Fix crash (#7)";
      ExampleEmptyBody(7, "Fix crash");
    }
    var get := GetPullRequest(owner, repo, 7);
    var post := CreateComment(owner, repo, 7, msg);
    assert Merge(e, w) == ([get, merge], None);
    assert Report(e, w, SuccessMessage(7), Success(SuccessMessage(7))) == ([post], Success(msg)) by {
      assert SuccessMessage(7) == msg;
    }
    assert [get, merge] + [post] == [get, merge, post];
  }
}
