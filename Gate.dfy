/**
 * The authorization gate, `validateEnv` (main.go:70-84): a run may proceed only when it was
 * triggered by the comment `/merge` and, if a list of mergers is configured, by one of them.
 */
module Gate {
  import opened Wrappers

  /** The trigger comment (main.go:32). */
  const MergeComment := "/merge"

  /**
   * The action's inputs after `envconfig` has loaded them (main.go:19-29); the token is
   * only used to build the API client and is not modelled.
   */
  datatype Env = Env(
    owner: string,
    repo: string,
    prNumber: int,
    comment: string,
    mergeMethod: string,
    mergers: seq<string>,
    actor: string,
    enableAutoMerge: bool)

  /** The error for a comment that is not the trigger (main.go:72). */
  function BadComment(comment: string): string {
    "comment must be " + MergeComment + ", got " + comment
  }

  /** The error for an actor missing from a non-empty mergers list (main.go:83). */
  function NotAMerger(actor: string): string {
    "actor " + actor + " is not in mergers list"
  }

  /** The rule `validateEnv` implements; `None` stands for Go's nil error. */
  function Authorize(e: Env): Option<string> {
    if e.comment != MergeComment then Some(BadComment(e.comment))
    else if |e.mergers| == 0 || e.actor in e.mergers then None
    else Some(NotAMerger(e.actor))
  }

  /** `validateEnv` as written: the comment check, then a scan of the mergers with an early return. */
  method ValidateEnv(e: Env) returns (err: Option<string>)
    ensures err.None? <==> e.comment == MergeComment && (|e.mergers| == 0 || e.actor in e.mergers)
    ensures e.comment != MergeComment ==> err == Some(BadComment(e.comment))
    ensures e.comment == MergeComment && |e.mergers| > 0 && e.actor !in e.mergers ==>
      err == Some(NotAMerger(e.actor))
    ensures err == Authorize(e)
  {
    if e.comment != MergeComment {
      return Some(BadComment(e.comment));
    }
    if |e.mergers| == 0 {
      return None;
    }
    for i := 0 to |e.mergers|
      invariant e.actor !in e.mergers[..i]
    {
      if e.actor == e.mergers[i] {
        return None;
      }
    }
    assert e.mergers[..|e.mergers|] == e.mergers;
    return Some(NotAMerger(e.actor));
  }

  /** The comment is checked first: a wrong comment is reported even for an allowed actor. */
  lemma CommentCheckedFirst(e: Env)
    requires e.comment != MergeComment
    ensures Authorize(e) == Some(BadComment(e.comment))
  {
  }

  /** The two failures can be told apart by their text. */
  lemma ErrorsDistinct(comment: string, actor: string)
    ensures BadComment(comment) != NotAMerger(actor)
  {
    assert BadComment(comment)[0] == 'c';
    assert NotAMerger(actor)[0] == 'a';
  }
}
