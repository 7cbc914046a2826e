/**
 * Release-note extraction, `splitReleaseNote` (main.go:201-212) with `releaseNoteRegexp`
 * (main.go:185). The regular expression "```release-note\n(.+?)\n```" is replaced by an
 * explicit leftmost scan. Since `.` does not match a newline, a match is the opening fence
 * line, then exactly one non-empty line, then a newline and three backquotes.
 */
module ReleaseNote {
  import opened Wrappers
  import opened Text

  /** The literal text before the captured group. */
  const Open := "```release-note\n"
  /** The literal text after the captured group. */
  const Close := "\n```"
  /** The release note reported when the body carries none. */
  const NoNote := "NONE"

  /** What `splitReleaseNote` returns: the description and the release note. */
  datatype Split = Split(description: string, releaseNote: string)

  /** The offset of the first newline at or after `j`, or `|s|` when there is none. */
  function LineEnd(s: string, j: nat): (k: nat)
    requires j <= |s|
    ensures j <= k <= |s|
    ensures forall m :: j <= m < k ==> s[m] != '\n'
    ensures k < |s| ==> s[k] == '\n'
    decreases |s| - j
  {
    if j == |s| || s[j] == '\n' then j else LineEnd(s, j + 1)
  }

  /**
   * The pattern's meaning: it matches `s[i..e + |Close|]`, and the group `(.+?)` captures
   * `s[i + |Open|..e]`, a non-empty run of characters other than newline.
   */
  ghost predicate MatchSpan(s: string, i: nat, e: nat) {
    HasPrefixAt(s, i, Open) && i + |Open| < e && HasPrefixAt(s, e, Close) &&
    forall m :: i + |Open| <= m < e ==> s[m] != '\n'
  }

  /** What the scan tests at each offset: the opening fence, one non-empty line, the closing fence. */
  predicate BlockAt(s: string, i: nat) {
    HasPrefixAt(s, i, Open) &&
    var e := LineEnd(s, i + |Open|);
    i + |Open| < e && HasPrefixAt(s, e, Close)
  }

  /** At a given start the pattern can end in one place only: the end of the captured line. */
  lemma MatchSpanEnd(s: string, i: nat, e: nat)
    ensures MatchSpan(s, i, e) ==> e == LineEnd(s, i + |Open|)
  {
    if MatchSpan(s, i, e) {
      var k := LineEnd(s, i + |Open|);
      assert s[e] == Close[0];
      assert k < |s| ==> s[k] == '\n';
    }
  }

  /** The scan's test agrees with the pattern's meaning. */
  lemma BlockAtIffMatch(s: string, i: nat)
    ensures BlockAt(s, i) <==> exists e: nat :: MatchSpan(s, i, e)
  {
    if BlockAt(s, i) {
      assert MatchSpan(s, i, LineEnd(s, i + |Open|));
    }
    forall e: nat | MatchSpan(s, i, e) ensures BlockAt(s, i) {
      MatchSpanEnd(s, i, e);
    }
  }

  /** Leftmost search: the first offset at or after `from` where a block starts. */
  function FindBlock(s: string, from: nat): (r: Option<nat>)
    requires from <= |s|
    ensures r.Some? ==> from <= r.value <= |s| && BlockAt(s, r.value)
    ensures r.Some? ==> forall j: nat :: from <= j < r.value ==> !BlockAt(s, j)
    ensures r.None? ==> forall j: nat :: from <= j ==> !BlockAt(s, j)
    decreases |s| - from
  {
    if BlockAt(s, from) then Some(from)
    else if from == |s| then None
    else FindBlock(s, from + 1)
  }

  /** The group the pattern captures for a block starting at `i`: the rest of that line. */
  function Capture(body: string, i: nat): (c: string)
    requires BlockAt(body, i)
    ensures |c| > 0 && forall m :: 0 <= m < |c| ==> c[m] != '\n'
  {
    body[i + |Open|..LineEnd(body, i + |Open|)]
  }

  /** The whole text the pattern matches for a block starting at `i`. */
  function Matched(body: string, i: nat): (m: string)
    requires BlockAt(body, i)
    ensures |m| == |Open| + |Capture(body, i)| + |Close|
  {
    body[i..LineEnd(body, i + |Open|) + |Close|]
  }

  /** `splitReleaseNote`. */
  function SplitReleaseNote(body: string): (x: Split)
    ensures x.releaseNote != ""
    ensures |x.description| <= |body|
  {
    match FindBlock(body, 0)
    case None => Split(body, NoNote)
    case Some(i) => SplitAt(body, i)
  }

  /** What `splitReleaseNote` does once the leftmost block has been found at `i`. */
  function SplitAt(body: string, i: nat): (x: Split)
    requires BlockAt(body, i)
    ensures x.releaseNote != ""
    ensures |x.description| <= |body|
  {
    var note := TrimSpace(Capture(body, i));
    if note != "" then Split(RemoveAll(body, Matched(body, i)), note)
    else Split(body, NoNote)
  }

  /** A block of the same text seen earlier would itself be a block: the leftmost block is the leftmost occurrence of its text. */
  lemma LeftmostBlockIsLeftmostOccurrence(s: string, i: nat)
    requires BlockAt(s, i)
    requires forall j: nat :: j < i ==> !BlockAt(s, j)
    ensures forall j: nat :: j < i ==> !HasPrefixAt(s, j, Matched(s, i))
  {
    var e := LineEnd(s, i + |Open|);
    var blk := Matched(s, i);
    forall j: nat | j < i ensures !HasPrefixAt(s, j, blk) {
      if j + |blk| <= |s| && s[j..j + |blk|] == blk {
        var e' := j + (e - i);
        assert s[j..j + |Open|] == blk[..|Open|] == Open;
        assert s[e'..e' + |Close|] == blk[e - i..] == Close;
        forall m | j + |Open| <= m < e' ensures s[m] != '\n' {
          assert s[m] == blk[m - j] == s[i + (m - j)];
        }
        assert MatchSpan(s, j, e');
        BlockAtIffMatch(s, j);
        assert false;
      }
    }
  }

  // ---------------------------------------------------------------------------
  // What splitReleaseNote promises, in terms of the pattern's meaning
  // ---------------------------------------------------------------------------

  /** No match: the whole body is the description and the note is "NONE". */
  lemma SplitNoMatch(body: string)
    requires forall i: nat, e: nat :: !MatchSpan(body, i, e)
    ensures SplitReleaseNote(body) == Split(body, NoNote)
  {
    if FindBlock(body, 0).Some? {
      var i := FindBlock(body, 0).value;
      BlockAtIffMatch(body, i);
    }
  }

  /** The scan stops at the leftmost match. */
  lemma LeftmostMatchFound(body: string, i: nat, e: nat)
    requires MatchSpan(body, i, e)
    requires forall j: nat, e': nat :: j < i ==> !MatchSpan(body, j, e')
    ensures FindBlock(body, 0) == Some(i)
    ensures Capture(body, i) == body[i + |Open|..e] && Matched(body, i) == body[i..e + |Close|]
  {
    MatchSpanEnd(body, i, e);
    BlockAtIffMatch(body, i);
    forall j: nat | j < i ensures !BlockAt(body, j) {
      BlockAtIffMatch(body, j);
    }
  }

  /** The leftmost match, with a capture that is white space only: the body is returned untouched. */
  lemma SplitBlankNote(body: string, i: nat, e: nat)
    requires MatchSpan(body, i, e)
    requires forall j: nat, e': nat :: j < i ==> !MatchSpan(body, j, e')
    requires TrimSpace(body[i + |Open|..e]) == ""
    ensures SplitReleaseNote(body) == Split(body, NoNote)
  {
    LeftmostMatchFound(body, i, e);
  }

  /**
   * The leftmost match, with a capture that has content: the note is the trimmed capture
   * and the description is the body with every non-overlapping copy of the matched block
   * cut out.
   */
  lemma SplitNote(body: string, i: nat, e: nat)
    requires MatchSpan(body, i, e)
    requires forall j: nat, e': nat :: j < i ==> !MatchSpan(body, j, e')
    requires TrimSpace(body[i + |Open|..e]) != ""
    ensures SplitReleaseNote(body) ==
      Split(RemoveAll(body, body[i..e + |Close|]), TrimSpace(body[i + |Open|..e]))
  {
    LeftmostMatchFound(body, i, e);
    assert SplitReleaseNote(body) == SplitAt(body, i);
  }

  /**
   * How the matched block is cut out: the text before the match is kept as it is, the
   * match itself goes, and the rest of the body loses every further copy of the block;
   * the body shrinks by at least the length of the block.
   */
  lemma CutBlock(body: string, i: nat, e: nat)
    requires MatchSpan(body, i, e)
    requires forall j: nat, e': nat :: j < i ==> !MatchSpan(body, j, e')
    ensures var blk := body[i..e + |Close|];
      RemoveAll(body, blk) == body[..i] + RemoveAll(body[e + |Close|..], blk) &&
      |RemoveAll(body, blk)| <= |body| - |blk|
  {
    var blk := body[i..e + |Close|];
    assert BlockAt(body, i) && (forall j: nat :: j < i ==> !BlockAt(body, j)) && blk == Matched(body, i) by {
      LeftmostMatchFound(body, i, e);
    }
    CutMatched(body, i, blk);
    assert body[i + |blk|..] == body[e + |Close|..];
  }

  lemma CutMatched(body: string, i: nat, blk: string)
    requires BlockAt(body, i)
    requires forall j: nat :: j < i ==> !BlockAt(body, j)
    requires blk == Matched(body, i)
    ensures RemoveAll(body, blk) == body[..i] + RemoveAll(body[i + |blk|..], blk)
    ensures |RemoveAll(body, blk)| <= |body| - |blk|
  {
    LeftmostBlockIsLeftmostOccurrence(body, i);
    assert HasPrefixAt(body, i, blk);
    RemoveAllLeftmost(body, blk, i);
    RemoveAllShrinks(body, blk, i);
  }

  /**
   * The release note is never empty: it is "NONE" or a single trimmed line, with no
   * white space at either end and no newline.
   */
  lemma NoteIsTrimmedLine(body: string)
    ensures var n := SplitReleaseNote(body).releaseNote;
      n == NoNote ||
      (n != [] && !IsSpace(n[0]) && !IsSpace(n[|n| - 1]) && forall k :: 0 <= k < |n| ==> n[k] != '\n')
  {
    var n := SplitReleaseNote(body).releaseNote;
    if n != NoNote {
      var i := FindBlock(body, 0).value;
      var line := Capture(body, i);
      assert n == TrimSpace(line);
      var a := TrimSpaceIsInfix(line);
      forall k | 0 <= k < |n| ensures n[k] != '\n' {
        assert n[k] == line[a + k];
      }
    }
  }

  // ---------------------------------------------------------------------------
  // A body laid out as: text without backquotes, one block, anything
  // ---------------------------------------------------------------------------

  lemma BlockAfterPlainText(pre: string, line: string, post: string)
    requires forall k :: 0 <= k < |pre| ==> pre[k] != '`'
    requires |line| > 0 && forall k :: 0 <= k < |line| ==> line[k] != '\n'
    ensures var body := pre + Open + line + Close + post;
      MatchSpan(body, |pre|, |pre| + |Open| + |line|) &&
      (forall j: nat, e': nat :: j < |pre| ==> !MatchSpan(body, j, e')) &&
      body[|pre| + |Open|..|pre| + |Open| + |line|] == line &&
      body[|pre|..|pre| + |Open| + |line| + |Close|] == Open + line + Close &&
      body[..|pre|] == pre && body[|pre| + |Open| + |line| + |Close|..] == post
  {
    var body := pre + Open + line + Close + post;
    var i, e := |pre|, |pre| + |Open| + |line|;
    assert body[i..i + |Open|] == Open;
    assert body[e..e + |Close|] == Close;
    assert body[i + |Open|..e] == line;
    assert MatchSpan(body, i, e);
    forall j: nat, e': nat | j < i ensures !MatchSpan(body, j, e') {
      assert body[j] == pre[j];
      if j + |Open| <= |body| {
        assert body[j..j + |Open|][0] == body[j];
      }
    }
    assert body[i..e + |Close|] == Open + line + Close;
    assert body[..i] == pre;
    assert body[e + |Close|..] == post;
  }

  /**
   * When the first block of a body follows text without backquotes, the block's line
   * decides: white space only leaves the body as it is; anything else becomes the note and
   * the block is cut out of the body, here and in the rest of the body.
   */
  lemma SplitOfLayout(pre: string, line: string, post: string)
    requires forall k :: 0 <= k < |pre| ==> pre[k] != '`'
    requires |line| > 0 && forall k :: 0 <= k < |line| ==> line[k] != '\n'
    ensures var body, blk := pre + Open + line + Close + post, Open + line + Close;
      SplitReleaseNote(body) ==
        if TrimSpace(line) == "" then Split(body, NoNote)
        else Split(pre + RemoveAll(post, blk), TrimSpace(line))
  {
    var body, blk := pre + Open + line + Close + post, Open + line + Close;
    var i, e := |pre|, |pre| + |Open| + |line|;
    BlockAfterPlainText(pre, line, post);
    assert body[i + |Open|..e] == line;
    if TrimSpace(line) == "" {
      SplitBlankNote(body, i, e);
    } else {
      assert SplitReleaseNote(body) == Split(RemoveAll(body, blk), TrimSpace(line)) by {
        SplitNote(body, i, e);
        assert body[i..e + |Close|] == blk;
      }
      assert RemoveAll(body, blk) == pre + RemoveAll(post, blk) by {
        CutBlock(body, i, e);
        assert body[i..e + |Close|] == blk;
        assert body[..i] == pre && body[e + |Close|..] == post;
      }
    }
  }

  /**
   * A body that ends with its only block, after text without backquotes, around a line
   * with no white space at either end: the note is that line and the text before the
   * block is the description.
   */
  lemma SplitOfFinalBlock(pre: string, line: string)
    requires forall k :: 0 <= k < |pre| ==> pre[k] != '`'
    requires |line| > 0 && forall k :: 0 <= k < |line| ==> line[k] != '\n'
    requires !IsSpace(line[0]) && !IsSpace(line[|line| - 1])
    ensures SplitReleaseNote(pre + Open + line + Close) == Split(pre, line)
  {
    var blk := Open + line + Close;
    assert TrimSpace(line) == line by {
      TrimSpaceUnchanged(line);
    }
    assert pre + Open + line + Close + "" == pre + Open + line + Close by {
      ConcatEmpty(pre + Open + line + Close);
    }
    assert pre + RemoveAll("", blk) == pre by {
      assert RemoveAll("", blk) == "";
      ConcatEmpty(pre);
    }
    SplitOfLayout(pre, line, "");
  }

  // ---------------------------------------------------------------------------
  // Examples
  // ---------------------------------------------------------------------------

  /** The usual case: the note is taken out and the text before it is kept. */
  lemma ExampleFixBug()
    ensures SplitReleaseNote("fix bug\n\n" + "```release-note\n" + "fixed the thing" + "\n```") ==
      Split("fix bug\n\n", "fixed the thing")
  {
    var pre, line := "fix bug\n\n", "fixed the thing";
    assert forall k :: 0 <= k < |pre| ==> pre[k] != '`';
    assert forall k :: 0 <= k < |line| ==> line[k] != '\n';
    SplitOfFinalBlock(pre, line);
  }

  /** An empty line between the fences is no match: `.+?` needs a character. */
  lemma ExampleEmptyBlock()
    ensures SplitReleaseNote("```release-note\n\n```") == Split("```release-note\n\n```", NoNote)
  {
  }

  /** A note over two lines is no match: `.` does not match a newline. */
  lemma ExampleTwoLines()
    ensures SplitReleaseNote("```release-note\na\nb\n```") == Split("```release-note\na\nb\n```", NoNote)
  {
    var body := "```release-note\na\nb\n```";
    forall i: nat, e: nat ensures !MatchSpan(body, i, e) {
      if i == 0 {
        assert LineEnd(body, |Open|) == 17;
        NotPrefixAt(body, 17, Close, 1);
        MatchSpanEnd(body, 0, e);
      } else if i <= 2 {
        NotPrefixAt(body, i, Open, 3 - i);
      } else if i <= 7 {
        NotPrefixAt(body, i, Open, 0);
      } else {
        NotPrefixAt(body, i, Open, 15);
      }
    }
    SplitNoMatch(body);
  }

  /** A blank note leaves the block in place: the body is returned untouched. */
  lemma ExampleBlankNote()
    ensures SplitReleaseNote("```release-note\n" + "  " + "\n```") == Split("```release-note\n  \n```", NoNote)
  {
    var line := "  ";
    assert SplitReleaseNote("" + Open + line + Close + "") == Split("" + Open + line + Close + "", NoNote) by {
      assert forall k :: 0 <= k < |line| ==> line[k] != '\n';
      assert TrimSpace(line) == "";
      SplitOfLayout("", line, "");
    }
    assert "" + Open + line + Close + "" == "```release-note\n" + "  " + "\n```";
  }

  /**
   * A note that reads "NONE" is a note like any other: the block is cut out, and the
   * result cannot be told apart from a body that had no note.
   */
  lemma ExampleNoteSaysNone()
    ensures SplitReleaseNote(Open + "NONE" + Close) == Split("", NoNote)
  {
    var line := "NONE";
    assert forall k :: 0 <= k < |line| ==> line[k] != '\n';
    assert TrimSpace(line) == line by { TrimSpaceUnchanged(line); }
    SoleBlock(line);
  }

  /** A body that is nothing but one block. */
  lemma SoleBlock(line: string)
    requires |line| > 0 && forall k :: 0 <= k < |line| ==> line[k] != '\n'
    ensures SplitReleaseNote(Open + line + Close) ==
      if TrimSpace(line) == "" then Split(Open + line + Close, NoNote) else Split("", TrimSpace(line))
  {
    SplitOfLayout("", line, "");
    ConcatEmpty(Open);
    ConcatEmpty(Open + line + Close);
    assert RemoveAll("", Open + line + Close) == "";
  }

  /**
   * Only copies of the first block are cut out: a second, different block stays in the
   * description, so extracting again from the description finds another note.
   */
  lemma ExampleSecondBlockSurvives()
    ensures var second := "\n" + Open + "b" + Close;
      SplitReleaseNote(Open + "a" + Close + second) == Split(second, "a") &&
      SplitReleaseNote(second) == Split("\n", "b")
  {
    FirstOfTwoBlocks("\n" + Open + "b" + Close);
    SecondOfTwoBlocks();
  }

  lemma FirstOfTwoBlocks(post: string)
    requires post == "\n" + Open + "b" + Close
    ensures SplitReleaseNote(Open + "a" + Close + post) == Split(post, "a")
  {
    var blk := Open + "a" + Close;
    forall i: nat ensures !HasPrefixAt(post, i, blk) {
      if i == 0 {
        NotPrefixAt(post, 0, blk, 0);
      } else if i == 1 {
        NotPrefixAt(post, 1, blk, 16);
      } else {
        NotPrefixAt(post, i, blk, 20);
      }
    }
    RemoveAllAbsent(post, blk);
    TrimSpaceUnchanged("a");
    SplitOfLayout("", "a", post);
    ConcatEmpty(Open);
    ConcatEmpty(post);
  }

  lemma SecondOfTwoBlocks()
    ensures SplitReleaseNote("\n" + Open + "b" + Close) == Split("\n", "b")
  {
    TrimSpaceUnchanged("b");
    SplitOfLayout("\n", "b", "");
    ConcatEmpty("\n" + Open + "b" + Close);
    ConcatEmpty("\n");
  }
}
