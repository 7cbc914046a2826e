# github-actions-merger, modelled in Dafny

The action merges a pull request when someone comments `/merge` on it. A run goes like this:

1. It checks that the comment is the trigger and that the commenting actor is allowed to merge.
2. It fetches the pull request.
3. It writes a commit subject `title (#number)`.
4. It writes a commit body from the pull request's description and labels. The body pulls a fenced `release-note` block out of the description and always ends with a fence holding `* <note>`.
5. It merges, through the GitHub API or through `gh pr merge --auto`.
6. It posts one comment on the pull request. The comment says the merge succeeded or explains why it failed; GitHub's "At least N approving review is required…" error becomes "Need N approving review".

Modules, one per part of `main.go`:

- `Gate`: `validateEnv`. `ValidateEnv` is the loop as written, proved against the rule `Authorize`.
- `ReleaseNote`: `splitReleaseNote`. The regular expression is replaced by an explicit leftmost scan. The ghost predicate `MatchSpan` states what the pattern means, and lemmas tie the scan to it.
- `Classifier`: `errMsg`. The approval pattern gets the same treatment: a scan, plus the ghost predicate `ApprovalSpan` for its meaning.
- `Commit`: the subject; `newCommitBody`, a method with the label loop; `RenderCommitBody`, the template with its trim markers applied.
- `Template`: the subset of Go's text/template that the body template uses: trim markers, parse, execute. Run on the template's own items, it yields `RenderCommitBody`.
- `Workflow`: `main` together with `ghClient.merge`. This is a function from the inputs and the collaborators' answers to the calls made and the way the run ends.
- `Text`: Go's `strings.ReplaceAll` with an empty replacement, `strings.TrimSpace` with `unicode.IsSpace`, and `%d` / `strconv.Itoa`.

Behaviour of the code worth knowing:

- `strings.ReplaceAll` cuts out every non-overlapping copy of the first matched block. Only copies of that block go, so a second, different block survives in the description, where a second extraction would meet it (`ReleaseNote.ExampleSecondBlockSurvives`).
- A note whose text is `NONE` is extracted like any other note. The result cannot be told apart from a body with no note (`ReleaseNote.ExampleNoteSaysNone`).
- Labels keep the order the API returns them in.
- The `-}}` that closes the labels section (main.go:178) removes the three newlines before the fence: one ends the raw string, two come from the `"\n\n"` of main.go:180. This happens with or without labels. With labels, the fence follows the last label line directly, as in `  * P1```release-note` (`Commit.ExampleLabels`). Without labels, it follows the newline of main.go:172-173 (`Commit.ExampleEmptyBody`).

## Model

| member | source | states |
|---|---|---|
| Gate.ValidateEnv | main.go:70-84 | the error is nil exactly when the comment is `/merge` and the mergers list is empty or holds the actor; otherwise it is the comment error, or, if the comment is right, the actor error, each with the source's text |
| Gate.Authorize | main.go:70-84 | no contract of its own: it is the rule that `ValidateEnv`, the loop as written, is proved to compute; `CommentCheckedFirst` states its first test |
| Gate.BadComment | main.go:72 | no contract of its own: the comment error's text; `ErrorsDistinct` separates it from the actor error |
| Gate.NotAMerger | main.go:83 | no contract of its own: the actor error's text; `ErrorsDistinct` separates it from the comment error |
| Gate.CommentCheckedFirst | main.go:71-73 | a wrong comment is reported whoever the actor is |
| Gate.ErrorsDistinct | main.go:72-83 | the comment error and the actor error never have the same text |
| Text.RemoveAll | main.go:209 | removing a non-empty string never lengthens the text |
| Text.RemoveAllAbsent | main.go:209 | a text with no occurrence comes back unchanged |
| Text.RemoveAllLeftmost | main.go:209 | the text before the leftmost occurrence is kept, that occurrence goes, and the rest is processed after it without rescanning |
| Text.RemoveAllShrinks | main.go:209 | with an occurrence present, the text shrinks by at least the removed string's length |
| Text.IsSpace | main.go:208 | no contract of its own: the code points Go's `unicode.IsSpace` accepts; `TrimSpace`'s contract is stated with it |
| Text.TrimSpace | main.go:208 | the result has no white space at either end, and it is empty exactly when the input is all white space |
| Text.TrimSpaceUnchanged | main.go:208 | a string with no white space at its ends comes back unchanged |
| Text.TrimSpaceIsInfix | main.go:208 | the result is one contiguous piece of the input, with only white space around it |
| Text.NatToDecimal | main.go:128 | decimal digits, non-empty, with no leading zero except for 0 itself |
| Text.IntToDecimal | main.go:128 | no contract of its own: `%d` and `strconv.Itoa`; `DecimalRoundTrip` reads it back, sign included, and `DecimalInjective` follows |
| Text.DecimalRoundTrip | main.go:114 | reading back the decimal text of a number gives the number, sign included |
| Text.DecimalInjective | main.go:128 | different numbers have different decimal texts |
| ReleaseNote.MatchSpan | main.go:185 | no contract of its own: the meaning of the release-note pattern: the opening fence with its newline, one or more characters other than newline, then the closing fence after a newline; `BlockAtIffMatch` ties the scan to it, and `SplitNoMatch`, `SplitBlankNote` and `SplitNote` are stated against it |
| ReleaseNote.MatchSpanEnd | main.go:185 | once the start of a match is fixed, its end is fixed too: the end of the captured line |
| ReleaseNote.BlockAtIffMatch | main.go:185 | the scan's test at an offset holds exactly when the pattern matches there |
| ReleaseNote.FindBlock | main.go:204 | the offset found is the leftmost one where the pattern matches; none is found only when the pattern matches nowhere |
| ReleaseNote.Capture | main.go:204 | the captured group is non-empty and holds no newline |
| ReleaseNote.Matched | main.go:204-209 | the whole matched text, the one passed to ReplaceAll: the opening fence, the captured line and the closing fence; `LeftmostMatchFound` shows it is the slice of the leftmost match |
| ReleaseNote.SplitReleaseNote | main.go:203-212 | the note is never empty and the description is never longer than the body |
| ReleaseNote.SplitNoMatch | main.go:205-207 | with no match, the result is the whole body and "NONE" |
| ReleaseNote.LeftmostMatchFound | main.go:204 | the leftmost match is the one found, and its group and matched text are the corresponding slices of the body |
| ReleaseNote.SplitAt | main.go:208-211 | the note is never empty and the description is never longer than the body; `SplitNote` and `SplitBlankNote` give its value for each kind of capture |
| ReleaseNote.SplitBlankNote | main.go:208-211 | when the leftmost capture is white space only, the body is returned untouched with "NONE" |
| ReleaseNote.SplitNote | main.go:208-209 | when the leftmost capture has content, the note is the trimmed capture and the description is the body with every copy of the matched block removed |
| ReleaseNote.CutBlock | main.go:209 | the text before the match is kept, the match goes, copies after it go too, and the body shrinks by at least the block |
| ReleaseNote.LeftmostBlockIsLeftmostOccurrence | main.go:209 | the matched text does not occur earlier in the body, so the removal starts at the match |
| ReleaseNote.NoteIsTrimmedLine | main.go:203-212 | the note is "NONE" or a single line with no newline and no white space at either end |
| ReleaseNote.BlockAfterPlainText | main.go:185 | a block preceded by text without backquotes is the leftmost match |
| ReleaseNote.SplitOfLayout | main.go:203-212 | for text without backquotes followed by a block and more text, the result is the body and "NONE" when the block's line is blank, and otherwise the text before the block followed by the text after it with every copy of the block removed, with the trimmed line as the note |
| ReleaseNote.SplitOfFinalBlock | main.go:203-212 | a body ending with its only block, after text without backquotes, splits into that text and the block's line when the line has no white space at its ends |
| ReleaseNote.ExampleFixBug | main.go:203-212 | "fix bug\n\n" plus a block holding "fixed the thing" splits into "fix bug\n\n" and "fixed the thing" |
| ReleaseNote.ExampleEmptyBlock | main.go:185 | an empty line between the fences is not a match |
| ReleaseNote.ExampleTwoLines | main.go:185 | a note over two lines is not a match |
| ReleaseNote.ExampleBlankNote | main.go:208-211 | a blank note leaves the body untouched and gives "NONE" |
| ReleaseNote.ExampleNoteSaysNone | main.go:208-209 | a note reading "NONE" is cut out like any other |
| ReleaseNote.SoleBlock | main.go:203-212 | a body that is a single block gives an empty description and the trimmed line, or the body and "NONE" when the line is blank |
| ReleaseNote.ExampleSecondBlockSurvives | main.go:209 | a second, different block stays in the description |
| Classifier.ApprovalSpan | main.go:184 | no contract of its own: the meaning of the approval pattern: "At least ", one or more ASCII digits, then the rest of GitHub's sentence from " approving review"; `ApprovalAtIffSpan` ties the scan to it, and `LeftmostApproval`, `NoApproval` and `RequiredApprovalsBehindPrefix` are stated against it |
| Classifier.ApprovalSpanEnd | main.go:184 | once the start of an approval match is fixed, its digits can end in one place only |
| Classifier.ApprovalAtIffSpan | main.go:184 | the scan's test at an offset holds exactly when the approval pattern matches there |
| Classifier.FindApproval | main.go:194 | the offset found is the leftmost match; none is found only when nothing matches |
| Classifier.RequiredApprovals | main.go:194-195 | a found count is a non-empty run of digits |
| Classifier.ErrMsg | main.go:190-199 | no contract of its own: `NilIsSucceeded`, `LeftmostApproval` and `NoApproval` give its three cases, measured against the pattern's meaning `ApprovalSpan` |
| Classifier.LeftmostCount | main.go:194-195 | the leftmost match decides the count that is found: its captured digits |
| Classifier.LeftmostApproval | main.go:194-196 | the leftmost match decides the count, and the comment is "Need <count> approving review" |
| Classifier.NoApproval | main.go:197-198 | with no match, the error's own text is the comment |
| Classifier.ApprovalFound | main.go:194-196 | a found count comes from a real match, the leftmost one |
| Classifier.ApprovalSpanShift | main.go:184 | a match keeps its meaning when text is put in front of it |
| Classifier.NoApprovalInPrefix | main.go:184 | no match starts inside text without the letter 'A' |
| Classifier.RequiredApprovalsBehindPrefix | main.go:194 | text without 'A' in front of an error changes neither whether a count is found nor which count |
| Classifier.NilIsSucceeded | main.go:191-193 | a nil error gives "Succeeded!" |
| Classifier.ExampleApproval | main.go:184-196 | GitHub's sentence with count n gives "Need n approving review" |
| Classifier.PlainErrorPostedAsIs | main.go:194-198 | an error without the letter 'A' is posted unchanged |
| Commit.SubjectRoundTrip | main.go:127-129 | title and number can be read back from the subject `title (#n)` |
| Commit.SubjectInjective | main.go:127-129 | equal subjects mean equal titles and numbers |
| Commit.ExampleSubject | main.go:127-129 | "Add feature" number 42 gives "Add feature (#42)" |
| Commit.LabelNames | main.go:151-154 | one name per label, in the labels' order |
| Commit.CommitSubject | main.go:127-129 | no contract of its own: `SubjectRoundTrip` reads title and number back from it, and `SubjectInjective` follows |
| Commit.CommitBodyOf | main.go:150-161 | no contract of its own: it is what `NewCommitBody`, the loop as written, is proved to return |
| Commit.RenderCommitBody | main.go:169-181 | no contract of its own: `Template.TemplateRendersCommitBody` derives it from the raw template; `BodyOpening`, `BodyLabels`, `LabelLineAt` and `BodyEndsWithFence` describe its parts |
| Commit.GenerateCommitBody | main.go:131-138 | no contract of its own: `Template.TemplateRendersCommitBody` shows the template never fails, and `GeneratedNoteReadBack` reads the note back from the result |
| Commit.NewCommitBody | main.go:150-161 | the labels of the result are the label names in order; message and note come from the release-note split of the body |
| Commit.LabelLinesAppend | main.go:175-177 | the label lines of two lists are the lines of each, one after the other |
| Commit.LabelLineAt | main.go:175-177 | label i has its own bullet line, after the lines for the labels before it |
| Commit.BodyEndsWithFence | main.go:180 | the body always ends with the release-note fence holding `* <note>` |
| Commit.BodyOpening | main.go:170-173 | the body opens with the message paragraph exactly when the message is non-empty; otherwise it is a newline followed by the labels section or the fence |
| Commit.BodyLabels | main.go:173-178 | with no labels, nothing comes between the message part and the fence; otherwise "Labels:" and one bullet line per label, in order |
| Commit.BodyNoteReadBack | main.go:169-181 | for any `commitBody` whose message and labels hold no backquote and whose note is non-empty, holds no newline and does not end in white space, extracting the note again from the rendered body finds that note, with the template's "* ", and gives back what comes before the fence |
| Commit.GeneratedNoteReadBack | main.go:131-138 | for a body `generateCommitBody` produces from a pull request whose description part and label names hold no backquote, extracting the note again finds the note with the template's "* "; the note conditions always hold, by `NoteIsTrimmedLine` |
| Commit.ExampleEmptyBody | main.go:169-180 | an empty body with no labels gives "\n```release-note\n* NONE\n```" |
| Commit.ExampleLabels | main.go:169-180 | labels "bug" and "P1" give a Labels section with two bullet lines, followed directly by the fence |
| Template.Actions | main.go:169-180 | no contract of its own: the nine actions of `bodyTpl` in order, with their trim markers |
| Template.RawTexts | main.go:169-180 | no contract of its own: the ten texts between those actions, as the lexer reads the raw string and the `"\n\n"` appended to it |
| Template.BodyItems | main.go:169-180 | no contract of its own: texts and actions interleaved; `TrimRawTexts`, `ParseItems` and `TemplateRendersCommitBody` are stated for it |
| Template.Execute | main.go:133-137 | no contract of its own: `bodyTpl.Execute(o, body)` followed by `o.String()`, with trimming, parsing and execution, each of which can fail; `TemplateRendersCommitBody` shows that for `BodyItems` it never does |
| Template.TrimRawTexts | main.go:169-180 | the trim markers remove exactly the white space they touch: the newlines around `if`, `range` and `end`, and the three newlines before the fence |
| Template.ParseItems | main.go:169-180 | the items parse, whatever their texts, into an `if` on the message, an `if` on the labels holding a `range`, and the fence |
| Template.ExecTree | main.go:169-181 | executing that tree on any `commitBody` does not fail, and it yields the message, labels and fence parts |
| Template.TemplateRendersCommitBody | main.go:131-138 | executing the template on any `commitBody` does not fail, and it yields `RenderCommitBody`, so the error branch of `generateCommitBody` is never taken |
| Workflow.OneCommentLast | main.go:36-68 | every run posts exactly one comment, and it is the last call |
| Workflow.Run | main.go:36-68 | no contract of its own: `OneCommentLast`, `CallsOfRun`, `SuccessIff`, `CommentFailureIff`, `ReportedFailureReason`, `CommentByStage` and `FailureComment` state its calls, comment and outcome |
| Workflow.Merge | main.go:102-125 | no contract of its own: `CallsOfRun` and `MergeAttemptedIff` state its calls, and `ReportedFailureReason` its wrapped errors |
| Workflow.Report | main.go:47-66 | no contract of its own: `CommentFailureIff` states what a failed comment does to the outcome, and `OneCommentLast` that its comment is the last call |
| Workflow.MergeCall | main.go:112-120 | no contract of its own: `MergeCallCarries` and `CommandIffAutoMerge` state which call it is and what it carries |
| Workflow.GhArgs | main.go:114 | no contract of its own: `GhArgsNamePullRequest` states its length, number and repository words |
| Workflow.SuccessMessage | main.go:62 | no contract of its own: `SuccessIff` and `SuccessCommentIff` state when it is posted and reported |
| Workflow.CallsOfRun | main.go:46-63 | a rejected run only comments; otherwise the run fetches first, and a fetched pull request gets one merge call before the comment |
| Workflow.MergeAttemptedIff | main.go:46-106 | a merge call is made exactly when validation passes and the fetch succeeds |
| Workflow.CommandIffAutoMerge | main.go:112-120 | the `gh` command is used exactly when automatic merge is enabled, and the API otherwise |
| Workflow.MergeCallCarries | main.go:112-120 | either merge call carries the commit subject and body of the fetched pull request |
| Workflow.SameCommitMessage | main.go:114-119 | switching automatic merge on or off changes neither the subject nor the body |
| Workflow.GhArgsNamePullRequest | main.go:114 | the command line has 12 words; the fourth reads back to the pull request number and the last is owner/repo |
| Workflow.CommandNamesPullRequest | main.go:114 | the `gh` command line has 12 words, `gh` included; its fourth word reads back to the pull request number, and its last is owner/repo |
| Workflow.SuccessIff | main.go:62-67 | a run succeeds exactly when validation, fetch and merge pass and the success comment is posted; its message is "Merged PR #n successfully!" |
| Workflow.CommentFailureIff | main.go:47-66 | a comment that fails to post ends the run with a panic naming that error, at every stage |
| Workflow.ReportedFailureReason | main.go:46-61 | once the comment is posted, a failed run reports the validation error, the wrapped fetch error or the wrapped merge error |
| Workflow.CommentByStage | main.go:46-66 | the comment posted is `errMsg` of the gate's error, of the wrapped fetch error or of the wrapped merge error, or the success text, whether or not posting it succeeds |
| Workflow.FailureComment | main.go:46-61 | a run that ends with a reported error has posted `errMsg` of that same error |
| Workflow.SuccessCommentIff | main.go:54-63 | the success message is posted exactly when the merge returned nil |
| Workflow.ErrMsgOpening | main.go:194-198 | an error comment is non-empty and opens with the word "Need" or with the error's own first letter |
| Workflow.MergeFailureComment | main.go:121-123 | after a failed merge, the comment is "Need n approving review" when GitHub's error states the count, and the wrapped error otherwise |
| Workflow.ExampleFixCrash | main.go:36-68 | the run for "Fix crash", number 7, with an empty body: fetch, then a merge with subject "Fix crash (#7)" and body holding "* NONE", then the comment "Merged PR #7 successfully!" |

## Left out

- Loading the inputs with `envconfig` and its failure panic (main.go:37-42): the run starts from loaded inputs.
- The token, the OAuth client and `newGHClient` (main.go:86-100): these only build the collaborators.
- The HTTP calls and the `gh` command: their answers are given to `Run` up front. The model also does not capture how `gh` reports a failure. `sendMsg`'s "failed to send message: " wrap is modelled.
- The ten-minute deadline on the context (main.go:33, 43-44): no clock is modelled.
- The `fmt.Printf` logging (main.go:40, 48, 51, 56, 59, 64, 67): it does not affect calls or outcome.
- The template failure branch (main.go:108-110, 134-136): `Template.TemplateRendersCommitBody` shows it cannot be taken, so it is not an outcome of `Run`.
- General regular-expression and template engines: only the two patterns and the constructs the body template uses are modelled.
- Byte-level UTF-8: strings are sequences of code points, so the handling of invalid UTF-8 in `TrimSpace` and in the patterns is not modelled.
- Nil fields of the fetched pull request: absent text reads as "" and an absent number as 0, as Go's getters return.
- Integer width: pull request numbers are unbounded integers; Go's 64-bit `int` never wraps for real pull request numbers.
