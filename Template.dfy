/**
 * The part of Go's text/template that `bodyTpl` (main.go:169-181) uses: the lexed items of
 * the template with their `{{-` / `-}}` trim markers, the parse into a tree of `if`, `range`
 * and print actions, and its execution on a `commitBody`. Executed on the template's own
 * items, it yields exactly `Commit.RenderCommitBody`, and execution never fails, so the error
 * return of `generateCommitBody` (main.go:134-136) is never taken.
 */
module Template {
  import opened Wrappers
  import opened Commit
  import ReleaseNote
  import Text

  /** The fields of `commitBody` the template names. */
  datatype FieldName = LabelsField | MessageField | NoteField

  /** A pipeline: `.` or `.Field`. */
  datatype Expr = Dot | Field(name: FieldName)

  /** An action, without its delimiters and trim markers. */
  datatype Action = If(cond: Expr) | Range(over: Expr) | End | Print(e: Expr)

  /** A lexed item: text, or an action with its left (`{{-`) and right (`-}}`) trim markers. */
  datatype Item = TextItem(s: string) | Act(trimLeft: bool, a: Action, trimRight: bool)

  /** The parse tree. */
  datatype Node =
    | TextNode(s: string)
    | PrintNode(e: Expr)
    | IfNode(cond: Expr, body: seq<Node>)
    | RangeNode(over: Expr, body: seq<Node>)

  /** The values a pipeline can produce here. */
  datatype Value = Str(s: string) | List(items: seq<string>) | Record(b: CommitBody)

  // ---------------------------------------------------------------------------
  // Lexing and trim markers
  // ---------------------------------------------------------------------------

  /** The white space a trim marker removes: space, tab, carriage return and newline. */
  predicate IsBlank(c: char) {
    c == ' ' || c == '\t' || c == '\r' || c == '\n'
  }

  /** `s` without its leading white space (what `-}}` removes from the text after it). */
  function DropLeading(s: string): string {
    if s != [] && IsBlank(s[0]) then DropLeading(s[1..]) else s
  }

  /** `s` without its trailing white space (what `{{-` removes from the text before it). */
  function DropTrailing(s: string): string {
    if s != [] && IsBlank(s[|s| - 1]) then DropTrailing(s[..|s| - 1]) else s
  }

  /** Item `k` after the trim markers of its neighbours have been applied. */
  function TrimAt(items: seq<Item>, k: nat): Item
    requires k < |items|
  {
    match items[k]
    case Act(_, _, _) => items[k]
    case TextItem(s) =>
      var afterTrim := k > 0 && items[k - 1].Act? && items[k - 1].trimRight;
      var beforeTrim := k + 1 < |items| && items[k + 1].Act? && items[k + 1].trimLeft;
      TextItem(TrimText(s, afterTrim, beforeTrim))
  }

  /** A text after a `-}}` (`left`) and before a `{{-` (`right`). */
  function TrimText(s: string, left: bool, right: bool): string {
    var s1 := if left then DropLeading(s) else s;
    if right then DropTrailing(s1) else s1
  }

  /** All items with the trim markers applied. */
  function ApplyTrim(items: seq<Item>): seq<Item> {
    seq(|items|, k requires 0 <= k < |items| => TrimAt(items, k))
  }

  /**
   * The items of `bodyTpl`, with the ten pieces of text between its actions taken from `t`:
   *
   *     t[0] {{- if .Message }} t[1] {{ .Message }} t[2] {{- end }} t[3] {{if .Labels}} t[4]
   *     {{- range .Labels }} t[5] {{ . }} t[6] {{- end -}} t[7] {{- end -}} t[8]
   *     {{ .ReleaseNote }} t[9]
   */
  function Items(t: seq<string>): seq<Item>
    requires |t| == 10
  {
    seq(19, k requires 0 <= k < 19 => if k % 2 == 0 then TextItem(t[k / 2]) else Actions()[k / 2])
  }

  /** The nine actions of `bodyTpl`, in order. */
  function Actions(): seq<Item> {
    [ Act(true, If(Field(MessageField)), false), Act(false, Print(Field(MessageField)), false),
      Act(true, End, false), Act(false, If(Field(LabelsField)), false),
      Act(true, Range(Field(LabelsField)), false), Act(false, Print(Dot), false),
      Act(true, End, true), Act(true, End, true), Act(false, Print(Field(NoteField)), false) ]
  }

  /**
   * The text of `bodyTpl` between its actions, as the lexer reads the raw string literal of
   * main.go:169-179 followed by the interpreted string of main.go:180: the text after the
   * last `-}}` is a newline from the first and two more from the second.
   */
  function RawTexts(): seq<string> {
    ["\n", "\n", "\n", "\n", "\nLabels:" + "\n", "\n  * ", "\n", "\n", "\n" + "\n\n" + "```release-note\n" + "* ", "\n```"]
  }

  /** `bodyTpl` as the lexer reads it. */
  function BodyItems(): seq<Item> {
    Items(RawTexts())
  }

  // ---------------------------------------------------------------------------
  // Parsing
  // ---------------------------------------------------------------------------

  /**
   * Parses items up to an unmatched `end` or the end of input, returning the nodes and the
   * items left over (which are empty or start with that `end`); `None` for an `if` or
   * `range` without its `end`.
   */
  function Parse(items: seq<Item>): (r: Option<(seq<Node>, seq<Item>)>)
    ensures r.Some? ==> |r.value.1| <= |items|
    ensures r.Some? && r.value.1 != [] ==> r.value.1[0].Act? && r.value.1[0].a == End
    decreases |items|
  {
    if items == [] then Some(([], []))
    else match items[0]
      case TextItem(s) => Prepend(TextNode(s), Parse(items[1..]))
      case Act(_, a, _) =>
        match a
        case End => Some(([], items))
        case Print(e) => Prepend(PrintNode(e), Parse(items[1..]))
        case If(c) =>
          (match Parse(items[1..])
           case None => None
           case Some((body, rest)) =>
             if rest == [] then None
             else Prepend(IfNode(c, body), Parse(rest[1..])))
        case Range(o) =>
          match Parse(items[1..])
          case None => None
          case Some((body, rest)) =>
            if rest == [] then None
            else Prepend(RangeNode(o, body), Parse(rest[1..]))
  }

  function Prepend(n: Node, r: Option<(seq<Node>, seq<Item>)>): Option<(seq<Node>, seq<Item>)> {
    match r
    case None => None
    case Some((ns, rest)) => Some(([n] + ns, rest))
  }

  /** A whole template: every action closed, no `end` left unmatched. */
  function ParseTemplate(items: seq<Item>): Option<seq<Node>> {
    match Parse(items)
    case Some((nodes, rest)) => if rest == [] then Some(nodes) else None
    case None => None
  }

  // ---------------------------------------------------------------------------
  // Execution
  // ---------------------------------------------------------------------------

  /** Evaluates a pipeline; a field of anything but the record is an execution error. */
  function Eval(e: Expr, dot: Value): Option<Value> {
    match e
    case Dot => Some(dot)
    case Field(f) =>
      match dot
      case Record(b) =>
        Some(match f
          case LabelsField => List(b.labels)
          case MessageField => Str(b.message)
          case NoteField => Str(b.releaseNote))
      case _ => None
  }

  /** Go's truth of a value: a non-empty string or slice; a struct is always true. */
  predicate Truth(v: Value) {
    match v
    case Str(s) => s != ""
    case List(items) => items != []
    case Record(_) => true
  }

  function JoinSpaced(items: seq<string>): string {
    if items == [] then "" else if |items| == 1 then items[0] else items[0] + " " + JoinSpaced(items[1..])
  }

  /** How a value prints (fmt's `%v`): `[a b]` for a slice, `{labels message note}` for the record. */
  function Show(v: Value): string {
    match v
    case Str(s) => s
    case List(items) => "[" + JoinSpaced(items) + "]"
    case Record(b) => "{" + "[" + JoinSpaced(b.labels) + "]" + " " + b.message + " " + b.releaseNote + "}"
  }

  function Append(a: Option<string>, b: Option<string>): Option<string> {
    if a.Some? && b.Some? then Some(a.value + b.value) else None
  }

  /** Executes nodes with `dot` as the current value; `None` is an execution error. */
  function Exec(nodes: seq<Node>, dot: Value): Option<string>
    decreases nodes, 0
  {
    if nodes == [] then Some("")
    else Append(ExecNode(nodes[0], dot), Exec(nodes[1..], dot))
  }

  function ExecNode(n: Node, dot: Value): Option<string>
    decreases n, 0
  {
    match n
    case TextNode(s) => Some(s)
    case PrintNode(e) =>
      (match Eval(e, dot)
       case None => None
       case Some(v) => Some(Show(v)))
    case IfNode(c, body) =>
      (match Eval(c, dot)
       case None => None
       case Some(v) => if Truth(v) then Exec(body, dot) else Some(""))
    case RangeNode(o, body) =>
      (match Eval(o, dot)
       case Some(List(items)) => ExecRange(body, items)
       case _ => None)
  }

  /** The body of a `range`, once per element, with the element as `dot`. */
  function ExecRange(body: seq<Node>, items: seq<string>): Option<string>
    decreases body, |items|
  {
    if items == [] then Some("")
    else Append(Exec(body, Str(items[0])), ExecRange(body, items[1..]))
  }

  /** `bodyTpl.Execute(o, body)` followed by `o.String()`. */
  function Execute(items: seq<Item>, b: CommitBody): Option<string> {
    match ParseTemplate(ApplyTrim(items))
    case None => None
    case Some(nodes) => Exec(nodes, Record(b))
  }

  // ---------------------------------------------------------------------------
  // `bodyTpl` executes to `RenderCommitBody`
  // ---------------------------------------------------------------------------

  /** The template's texts once the trim markers are applied. */
  const TrimmedTexts: seq<string> :=
    ["", "\n", "", "\n", "\nLabels:", "\n  * ", "", "", "```release-note\n" + "* ", "\n```"]

  /** The tree that the items parse to, whatever their texts. */
  function Tree(t: seq<string>): seq<Node>
    requires |t| == 10
  {
    [ TextNode(t[0]), IfNode(Field(MessageField), MessageNodes(t)),
      TextNode(t[3]), IfNode(Field(LabelsField), LabelsNodes(t)) ] + FenceNodes(t)
  }

  /** Inside `{{- if .Message }}`. */
  function MessageNodes(t: seq<string>): seq<Node>
    requires |t| == 10
  {
    [TextNode(t[1]), PrintNode(Field(MessageField)), TextNode(t[2])]
  }

  /** Inside `{{if .Labels}}`. */
  function LabelsNodes(t: seq<string>): seq<Node>
    requires |t| == 10
  {
    [TextNode(t[4]), RangeNode(Field(LabelsField), LineNodes(t)), TextNode(t[7])]
  }

  /** Inside `{{- range .Labels }}`. */
  function LineNodes(t: seq<string>): seq<Node>
    requires |t| == 10
  {
    [TextNode(t[5]), PrintNode(Dot), TextNode(t[6])]
  }

  /** After the labels section. */
  function FenceNodes(t: seq<string>): seq<Node>
    requires |t| == 10
  {
    [TextNode(t[8]), PrintNode(Field(NoteField)), TextNode(t[9])]
  }

  lemma ConsFour<T>(a: T, b: T, c: T, d: T, rest: seq<T>)
    ensures [a] + ([b] + ([c] + ([d] + rest))) == [a, b, c, d] + rest
  {
  }

  lemma AppendEmpty<T>(s: seq<T>)
    ensures s + [] == s
  {
  }

  /** The trimmed texts, computed from the raw ones. */
  function TrimTexts(t: seq<string>): (r: seq<string>)
    requires |t| == 10
  {
    [ TrimText(t[0], false, true), TrimText(t[1], false, false), TrimText(t[2], false, true),
      TrimText(t[3], false, false), TrimText(t[4], false, true), TrimText(t[5], false, false),
      TrimText(t[6], false, true), TrimText(t[7], true, true), TrimText(t[8], true, false),
      TrimText(t[9], false, false) ]
  }

  /** Which texts a trim marker touches, and how. */
  lemma TrimItems(t: seq<string>)
    requires |t| == 10
    ensures ApplyTrim(Items(t)) == Items(TrimTexts(t))
  {
    TrimItemsFrom0(t);
    TrimItemsFrom5(t);
    TrimItemsFrom10(t);
    TrimItemsFrom15(t);
  }

  lemma TrimItemsFrom0(t: seq<string>)
    requires |t| == 10
    ensures forall k :: 0 <= k < 5 ==> ApplyTrim(Items(t))[k] == Items(TrimTexts(t))[k]
  {
    var a, b := ApplyTrim(Items(t)), Items(TrimTexts(t));
    assert a[0] == b[0];
    assert a[1] == b[1];
    assert a[2] == b[2];
    assert a[3] == b[3];
    assert a[4] == b[4];
  }

  lemma TrimItemsFrom5(t: seq<string>)
    requires |t| == 10
    ensures forall k :: 5 <= k < 10 ==> ApplyTrim(Items(t))[k] == Items(TrimTexts(t))[k]
  {
    var a, b := ApplyTrim(Items(t)), Items(TrimTexts(t));
    assert a[5] == b[5];
    assert a[6] == b[6];
    assert a[7] == b[7];
    assert a[8] == b[8];
    assert a[9] == b[9];
  }

  lemma TrimItemsFrom10(t: seq<string>)
    requires |t| == 10
    ensures forall k :: 10 <= k < 15 ==> ApplyTrim(Items(t))[k] == Items(TrimTexts(t))[k]
  {
    var a, b := ApplyTrim(Items(t)), Items(TrimTexts(t));
    assert a[10] == b[10];
    assert a[11] == b[11];
    assert a[12] == b[12];
    assert a[13] == b[13];
    assert a[14] == b[14];
  }

  lemma TrimItemsFrom15(t: seq<string>)
    requires |t| == 10
    ensures forall k :: 15 <= k < 19 ==> ApplyTrim(Items(t))[k] == Items(TrimTexts(t))[k]
  {
    var a, b := ApplyTrim(Items(t)), Items(TrimTexts(t));
    assert a[15] == b[15];
    assert a[16] == b[16];
    assert a[17] == b[17];
    assert a[18] == b[18];
  }

  lemma {:induction false} DropBlankPrefix(p: string, s: string)
    requires forall k :: 0 <= k < |p| ==> IsBlank(p[k])
    requires s == [] || !IsBlank(s[0])
    ensures DropLeading(p + s) == s
    decreases |p|
  {
    if p != [] {
      assert (p + s)[1..] == p[1..] + s;
      DropBlankPrefix(p[1..], s);
    }
  }

  lemma {:induction false} DropBlankSuffix(s: string, p: string)
    requires forall k :: 0 <= k < |p| ==> IsBlank(p[k])
    requires s == [] || !IsBlank(s[|s| - 1])
    ensures DropTrailing(s + p) == s
    decreases |p|
  {
    if p != [] {
      assert (s + p)[..|s + p| - 1] == s + p[..|p| - 1];
      DropBlankSuffix(s, p[..|p| - 1]);
    }
  }

  lemma TrimRawTexts()
    ensures ApplyTrim(BodyItems()) == Items(TrimmedTexts)
  {
    TrimItems(RawTexts());
    assert DropTrailing("\n") == "";
    assert DropLeading("") == "";
    assert DropTrailing("\nLabels:" + "\n") == "\nLabels:" by {
      DropBlankSuffix("\nLabels:", "\n");
    }
    assert DropLeading("\n" + "\n\n" + "```release-note\n" + "* ") == "```release-note\n" + "* " by {
      var fence := "```release-note\n" + "* ";
      assert "\n" + "\n\n" + "```release-note\n" + "* " == ("\n" + "\n\n") + fence;
      DropBlankPrefix("\n" + "\n\n", fence);
    }
    assert TrimTexts(RawTexts()) == TrimmedTexts;
  }

  lemma ParseTextAt(items: seq<Item>, k: nat)
    requires k < |items| && items[k].TextItem?
    ensures Parse(items[k..]) == Prepend(TextNode(items[k].s), Parse(items[k + 1..]))
  {
    assert items[k..][1..] == items[k + 1..];
  }

  lemma ParsePrintAt(items: seq<Item>, k: nat)
    requires k < |items| && items[k].Act? && items[k].a.Print?
    ensures Parse(items[k..]) == Prepend(PrintNode(items[k].a.e), Parse(items[k + 1..]))
  {
    assert items[k..][1..] == items[k + 1..];
  }

  lemma ParseEndAt(items: seq<Item>, k: nat)
    requires k < |items| && items[k].Act? && items[k].a == End
    ensures Parse(items[k..]) == Some(([], items[k..]))
  {
  }

  /** An `if` or `range` at `k` whose body ends at the `end` at `j`. */
  lemma ParseBlockAt(items: seq<Item>, k: nat, body: seq<Node>, j: nat)
    requires k < j < |items| && items[k].Act? && (items[k].a.If? || items[k].a.Range?)
    requires Parse(items[k + 1..]) == Some((body, items[j..]))
    ensures Parse(items[k..]) == Prepend(
      if items[k].a.If? then IfNode(items[k].a.cond, body) else RangeNode(items[k].a.over, body),
      Parse(items[j + 1..]))
  {
    assert items[k..][1..] == items[k + 1..];
    assert items[j..][1..] == items[j + 1..];
  }

  lemma ParseFence(t: seq<string>)
    requires |t| == 10
    ensures Parse(Items(t)[16..]) == Some((FenceNodes(t), []))
  {
    var items := Items(t);
    assert items[19..] == [];
    ParseTextAt(items, 18);
    AppendEmpty([TextNode(t[9])]);
    ParsePrintAt(items, 17);
    ParseTextAt(items, 16);
    assert [TextNode(t[8])] + ([PrintNode(Field(NoteField))] + [TextNode(t[9])]) == FenceNodes(t);
  }

  lemma ParseLabels(t: seq<string>)
    requires |t| == 10
    ensures Parse(Items(t)[7..]) == Some(([IfNode(Field(LabelsField), LabelsNodes(t))] + FenceNodes(t), []))
  {
    var items := Items(t);
    ParseFence(t);
    ParseEndAt(items, 15);
    ParseTextAt(items, 14);
    AppendEmpty([TextNode(t[7])]);
    ParseEndAt(items, 13);
    ParseTextAt(items, 12);
    AppendEmpty([TextNode(t[6])]);
    ParsePrintAt(items, 11);
    ParseTextAt(items, 10);
    var line := LineNodes(t);
    assert [TextNode(t[5])] + ([PrintNode(Dot)] + [TextNode(t[6])]) == line;
    assert Parse(items[10..]) == Some((line, items[13..]));
    ParseBlockAt(items, 9, line, 13);
    ParseTextAt(items, 8);
    var labels := LabelsNodes(t);
    assert [TextNode(t[4])] + ([RangeNode(Field(LabelsField), line)] + [TextNode(t[7])]) == labels;
    assert Parse(items[8..]) == Some((labels, items[15..]));
    ParseBlockAt(items, 7, labels, 15);
  }

  /** The items parse to the tree, whatever their texts. */
  lemma ParseItems(t: seq<string>)
    requires |t| == 10
    ensures ParseTemplate(Items(t)) == Some(Tree(t))
  {
    var items := Items(t);
    ParseLabels(t);
    var tail := [IfNode(Field(LabelsField), LabelsNodes(t))] + FenceNodes(t);
    ParseTextAt(items, 6);
    ParseEndAt(items, 5);
    ParseTextAt(items, 4);
    AppendEmpty([TextNode(t[2])]);
    ParsePrintAt(items, 3);
    ParseTextAt(items, 2);
    var message := MessageNodes(t);
    assert [TextNode(t[1])] + ([PrintNode(Field(MessageField))] + [TextNode(t[2])]) == message;
    assert Parse(items[2..]) == Some((message, items[5..]));
    ParseBlockAt(items, 1, message, 5);
    ParseTextAt(items, 0);
    assert items[0..] == items;
    ConsFour(TextNode(t[0]), IfNode(Field(MessageField), message), TextNode(t[3]),
      IfNode(Field(LabelsField), LabelsNodes(t)), FenceNodes(t));
    assert Parse(items) == Some(([TextNode(t[0])] + ([IfNode(Field(MessageField), message)] + ([TextNode(t[3])] + tail)), []));
  }

  /** One line per element: `before`, the element, `after`. */
  function Lines(before: string, after: string, items: seq<string>): string {
    if items == [] then "" else before + items[0] + after + Lines(before, after, items[1..])
  }

  /** What the template yields for texts `t`, read off the tree. */
  function Expected(t: seq<string>, b: CommitBody): string
    requires |t| == 10
  {
    t[0] + (if b.message != "" then t[1] + b.message + t[2] else "") + t[3] +
    (if b.labels != [] then t[4] + Lines(t[5], t[6], b.labels) + t[7] else "") +
    t[8] + b.releaseNote + t[9]
  }

  lemma ExecCons(n: Node, rest: seq<Node>, dot: Value)
    ensures Exec([n] + rest, dot) == Append(ExecNode(n, dot), Exec(rest, dot))
  {
    assert ([n] + rest)[0] == n && ([n] + rest)[1..] == rest;
  }

  /** Three nodes that do not fail: their outputs, one after the other. */
  lemma ExecThree(x: Node, y: Node, z: Node, dot: Value, a: string, b: string, c: string)
    requires ExecNode(x, dot) == Some(a) && ExecNode(y, dot) == Some(b) && ExecNode(z, dot) == Some(c)
    ensures Exec([x, y, z], dot) == Some(a + b + c)
  {
    assert [x, y, z] == [x] + ([y] + ([z] + []));
    ExecCons(z, [], dot);
    ExecCons(y, [z], dot);
    ExecCons(x, [y, z], dot);
    assert [y] + ([z] + []) == [y, z];
    Text.ConcatEmpty(c);
    assert a + (b + c) == a + b + c;
  }

  lemma {:induction false} ExecLines(t: seq<string>, items: seq<string>)
    requires |t| == 10
    ensures ExecRange(LineNodes(t), items) == Some(Lines(t[5], t[6], items))
    decreases |items|
  {
    if items != [] {
      ExecThree(TextNode(t[5]), PrintNode(Dot), TextNode(t[6]), Str(items[0]), t[5], items[0], t[6]);
      ExecLines(t, items[1..]);
    }
  }

  lemma ExecMessage(t: seq<string>, b: CommitBody)
    requires |t| == 10
    ensures ExecNode(IfNode(Field(MessageField), MessageNodes(t)), Record(b)) ==
      Some(if b.message != "" then t[1] + b.message + t[2] else "")
  {
    if b.message != "" {
      ExecThree(TextNode(t[1]), PrintNode(Field(MessageField)), TextNode(t[2]), Record(b), t[1], b.message, t[2]);
    }
  }

  lemma ExecLabels(t: seq<string>, b: CommitBody)
    requires |t| == 10
    ensures ExecNode(IfNode(Field(LabelsField), LabelsNodes(t)), Record(b)) ==
      Some(if b.labels != [] then t[4] + Lines(t[5], t[6], b.labels) + t[7] else "")
  {
    if b.labels != [] {
      ExecLines(t, b.labels);
      ExecThree(TextNode(t[4]), RangeNode(Field(LabelsField), LineNodes(t)), TextNode(t[7]), Record(b),
        t[4], Lines(t[5], t[6], b.labels), t[7]);
    }
  }

  lemma Reassociate(a: string, b: string, c: string, d: string, x: string, y: string, z: string)
    ensures a + (b + (c + (d + (x + y + z)))) == a + b + c + d + x + y + z
  {
  }

  /** The tree, executed on the record, yields `Expected`: no step of it fails. */
  lemma ExecTree(t: seq<string>, b: CommitBody)
    requires |t| == 10
    ensures Exec(Tree(t), Record(b)) == Some(Expected(t, b))
  {
    var dot := Record(b);
    var m := if b.message != "" then t[1] + b.message + t[2] else "";
    var l := if b.labels != [] then t[4] + Lines(t[5], t[6], b.labels) + t[7] else "";
    ExecMessage(t, b);
    ExecLabels(t, b);
    ExecThree(TextNode(t[8]), PrintNode(Field(NoteField)), TextNode(t[9]), dot, t[8], b.releaseNote, t[9]);
    var n0, n1, n3 := TextNode(t[0]), IfNode(Field(MessageField), MessageNodes(t)), TextNode(t[3]);
    var n4 := IfNode(Field(LabelsField), LabelsNodes(t));
    ConsFour(n0, n1, n3, n4, FenceNodes(t));
    ExecCons(n4, FenceNodes(t), dot);
    ExecCons(n3, [n4] + FenceNodes(t), dot);
    ExecCons(n1, [n3] + ([n4] + FenceNodes(t)), dot);
    ExecCons(n0, [n1] + ([n3] + ([n4] + FenceNodes(t))), dot);
    Reassociate(t[0], m, t[3], l, t[8], b.releaseNote, t[9]);
  }

  /** With nothing after each element, the lines are `Commit.LabelLines`. */
  lemma {:induction false} LinesAreLabelLines(items: seq<string>)
    ensures Lines(LabelBullet, "", items) == LabelLines(items)
    decreases |items|
  {
    if items != [] {
      LinesAreLabelLines(items[1..]);
      Text.ConcatEmpty(LabelBullet + items[0]);
    }
  }

  lemma ExpectedIsRender(b: CommitBody)
    ensures Expected(TrimmedTexts, b) == RenderCommitBody(b)
  {
    var t := TrimmedTexts;
    var m := if b.message != "" then t[1] + b.message + t[2] else "";
    assert m == MessageBlock(b.message) by {
      Text.ConcatEmpty("\n" + b.message);
    }
    var l := if b.labels != [] then t[4] + Lines(t[5], t[6], b.labels) + t[7] else "";
    assert l == LabelsBlock(b.labels) by {
      LinesAreLabelLines(b.labels);
      Text.ConcatEmpty(LabelsHeading + LabelLines(b.labels));
    }
    Text.ConcatEmpty(m);
    assert Expected(t, b) == m + "\n" + l + (ReleaseNote.Open + "* ") + b.releaseNote + ReleaseNote.Close;
  }

  /**
   * `bodyTpl.Execute` on any `commitBody`: it never fails, and it yields the body that
   * `Commit.RenderCommitBody` describes.
   */
  lemma TemplateRendersCommitBody(b: CommitBody)
    ensures Execute(BodyItems(), b) == Some(RenderCommitBody(b))
  {
    TrimRawTexts();
    ParseItems(TrimmedTexts);
    ExecTree(TrimmedTexts, b);
    ExpectedIsRender(b);
  }
}
