/** The text that `process_data` generates for the connector: the banner
    lines that frame it, the line reading the dispatched action, and one
    `if` branch per dummy-data rule returning that rule's canned result.

    Every generated line carries its indentation as a multiple of the
    anchor's indent unit `tab`: two units for the frame and the `if` lines,
    three for a branch's body. */
module Generator {
  import opened Wrappers
  import opened Text

  /** One dummy-data rule as collected before patching. `summary`, the
      `data` items and `message` are the strings Python's `str()` renders
      for the payload's values. `parameter` is absent when the rule is used
      for every request; `parameterValue` is only read when it is present. */
  datatype Rule = Rule(
    actionId: string,
    parameter: Option<string>,
    parameterValue: string,
    summary: string,
    data: seq<string>,
    message: string)

  const Banner: string := "#####################################"
  const StartTitle: string := "#### start DABCAT generated code ####"
  const StopTitle: string := "#### stop DABCAT generated code #####"
  const ReadAction: string := "action = self.get_action_identifier()"
  const NewResult: string := "action_result = self.add_action_result(ActionResult(dict(param)))"
  const EmptyData: string := "action_result.add_data([])"

  /** The indentation `tab` repeated `depth` times. */
  function Indent(tab: string, depth: nat): (r: string)
    ensures |r| == depth * |tab|
  {
    if depth == 0 then [] else Indent(tab, depth - 1) + tab
  }

  /** `PREAMBLE.format(tab=tab)`. */
  function Preamble(tab: string): string {
    Line(Indent(tab, 2), Banner) + (Line(Indent(tab, 2), StartTitle) + Line(Indent(tab, 2), Banner))
  }

  /** `POSTAMBLE.format(tab=tab)`. */
  function Postamble(tab: string): string {
    Line(Indent(tab, 2), Banner) + (Line(Indent(tab, 2), StopTitle) + Line(Indent(tab, 2), Banner))
  }

  /** The line that binds the dispatched action identifier. */
  function ActionLine(tab: string): string {
    Line(Indent(tab, 2), ReadAction)
  }

  /** Python's truth test of `dummy_data.get('parameter')`: present and not empty. */
  predicate HasGuard(r: Rule) {
    r.parameter.Some? && r.parameter.value != ""
  }

  /** The parameter test appended to a branch's condition. */
  function Guard(r: Rule): (g: string)
    ensures g == "" <==> !HasGuard(r)
    ensures HasGuard(r) ==>
      g == " and param.get('" + r.parameter.value + "', '') == '" + r.parameterValue + "'"
  {
    if HasGuard(r) then " and param.get('" + r.parameter.value + "', '') == '" + r.parameterValue + "'"
    else ""
  }

  /** The start every branch condition line shares. */
  function IfPrefix(tab: string): string {
    Indent(tab, 2) + "if action == "
  }

  /** A branch's condition, without indentation and newline. */
  function Condition(r: Rule): string {
    "if action == '" + r.actionId + "'" + Guard(r) + ":"
  }

  function SummaryCall(r: Rule): string {
    "action_result.update_summary(" + r.summary + ")"
  }

  function DataCall(item: string): string {
    "action_result.add_data(" + item + ")"
  }

  function ReturnCall(r: Rule): string {
    "return action_result.set_status(phantom.APP_SUCCESS, '" + r.message + "')"
  }

  /** The list comprehension of `add_data` lines, one per item. */
  function AddDataLines(indent: string, data: seq<string>): string {
    if data == [] then [] else Line(indent, DataCall(data[0])) + AddDataLines(indent, data[1..])
  }

  /** The `add_data` part of a branch: one empty-list line when there is no
      item, one line per item otherwise. */
  function DataLines(tab: string, data: seq<string>): string {
    if |data| == 0 then Line(Indent(tab, 3), EmptyData) else AddDataLines(Indent(tab, 3), data)
  }

  /** The branch emitted for one rule. */
  function Branch(r: Rule, tab: string): string {
    Line(Indent(tab, 2), Condition(r))
      + (Line(Indent(tab, 3), NewResult)
      + (Line(Indent(tab, 3), SummaryCall(r))
      + (DataLines(tab, r.data)
      + Line(Indent(tab, 3), ReturnCall(r)))))
  }

  /** The branches for `rules`, in order; every rule contributes one, since
      `processed_actions` stays empty and so never filters a rule out. */
  function Branches(rules: seq<Rule>, tab: string): string {
    if rules == [] then []
    else Branches(rules[..|rules| - 1], tab) + Branch(rules[|rules| - 1], tab)
  }

  /** One more rule adds its branch at the end. */
  lemma BranchesSnoc(rules: seq<Rule>, i: nat, tab: string)
    requires i < |rules|
    ensures Branches(rules[..i + 1], tab) == Branches(rules[..i], tab) + Branch(rules[i], tab)
  {
    assert rules[..i + 1][..i] == rules[..i];
  }

  /** The whole generated block, `addition` once the loop and the postamble
      are done. */
  function Block(rules: seq<Rule>, tab: string): string {
    Preamble(tab) + (ActionLine(tab) + (Branches(rules, tab) + Postamble(tab)))
  }

  // ---------------------------------------------------------------------
  // The block read back as lines

  /** A rule whose rendered strings keep to one line each. */
  predicate SingleLine(r: Rule) {
    && NoNewline(r.actionId)
    && (r.parameter.Some? ==> NoNewline(r.parameter.value))
    && NoNewline(r.parameterValue)
    && NoNewline(r.summary)
    && (forall k :: 0 <= k < |r.data| ==> NoNewline(r.data[k]))
    && NoNewline(r.message)
  }

  /** An indent unit as the anchor yields it. */
  predicate IndentUnit(tab: string) {
    1 <= |tab| && AllSpaces(tab)
  }

  lemma IndentSpaces(tab: string, depth: nat)
    requires AllSpaces(tab)
    ensures AllSpaces(Indent(tab, depth))
  {
    if depth > 0 {
      IndentSpaces(tab, depth - 1);
      var a, b := Indent(tab, depth - 1), tab;
      assert forall k :: 0 <= k < |a + b| ==> (a + b)[k] == if k < |a| then a[k] else b[k - |a|];
    }
  }

  lemma IndentStep(tab: string)
    ensures Indent(tab, 3) == Indent(tab, 2) + tab
    ensures Indent(tab, 2) == tab + tab
  {
    assert Indent(tab, 1) == [] + tab;
  }

  lemma SpacesNoNewline(s: string)
    requires AllSpaces(s)
    ensures NoNewline(s)
  {
  }

  lemma EndsLineAppend(a: string, b: string)
    requires EndsLine(a) && EndsLine(b)
    ensures EndsLine(a + b)
  {
    if b == [] { assert a + b == a; }
  }

  lemma LinesSnoc(d: string, indent: string, content: string)
    requires NoNewline(indent) && NoNewline(content)
    requires EndsLine(d)
    ensures Lines(d + Line(indent, content)) == Lines(d) + [indent + content]
  {
    LinesAppend(d, Line(indent, content));
    LinesOfLine(indent, content);
  }

  lemma AddDataEndsLine(indent: string, data: seq<string>)
    ensures EndsLine(AddDataLines(indent, data))
  {
    if data != [] {
      AddDataEndsLine(indent, data[1..]);
      EndsLineAppend(Line(indent, DataCall(data[0])), AddDataLines(indent, data[1..]));
    }
  }

  /** The `add_data` part reads back as one empty-list line when the rule
      has no data, and otherwise as one line per item holding that item, in
      order; never both. */
  lemma {:induction false} DataLinesShape(tab: string, data: seq<string>)
    requires AllSpaces(tab)
    requires forall k :: 0 <= k < |data| ==> NoNewline(data[k])
    ensures var ls := Lines(DataLines(tab, data));
      && |ls| == (if |data| == 0 then 1 else |data|)
      && (|data| == 0 ==> ls == [Indent(tab, 3) + EmptyData])
      && (forall k :: 0 <= k < |data| ==> ls[k] == Indent(tab, 3) + DataCall(data[k]))
  {
    IndentSpaces(tab, 3);
    SpacesNoNewline(Indent(tab, 3));
    if |data| == 0 {
      LinesOfLine(Indent(tab, 3), EmptyData);
    } else {
      AddDataShape(Indent(tab, 3), data);
    }
  }

  lemma {:induction false} AddDataShape(indent: string, data: seq<string>)
    requires NoNewline(indent)
    requires forall k :: 0 <= k < |data| ==> NoNewline(data[k])
    ensures var ls := Lines(AddDataLines(indent, data));
      && |ls| == |data|
      && (forall k :: 0 <= k < |data| ==> ls[k] == indent + DataCall(data[k]))
    decreases |data|
  {
    if data != [] {
      JoinNoNewline("action_result.add_data(" + data[0], ")");
      JoinNoNewline("action_result.add_data(", data[0]);
      LinesCons(indent, DataCall(data[0]), AddDataLines(indent, data[1..]));
      AddDataShape(indent, data[1..]);
    }
  }

  lemma HeaderNoNewline(r: Rule, tab: string)
    requires SingleLine(r) && AllSpaces(tab)
    ensures NoNewline(Condition(r))
  {
    var g := Guard(r);
    if HasGuard(r) {
      JoinNoNewline(" and param.get('", r.parameter.value);
      JoinNoNewline(" and param.get('" + r.parameter.value, "', '') == '");
      JoinNoNewline(" and param.get('" + r.parameter.value + "', '') == '", r.parameterValue);
      JoinNoNewline(" and param.get('" + r.parameter.value + "', '') == '" + r.parameterValue, "'");
    }
    JoinNoNewline("if action == '", r.actionId);
    JoinNoNewline("if action == '" + r.actionId, "'");
    JoinNoNewline("if action == '" + r.actionId + "'", g);
    JoinNoNewline("if action == '" + r.actionId + "'" + g, ":");
  }

  lemma FrameTextNoNewline()
    ensures NoNewline(Banner) && NoNewline(StartTitle) && NoNewline(StopTitle)
  {
    JoinNoNewline("#### start ", "DABCAT generated code ####");
    JoinNoNewline("#### stop ", "DABCAT generated code #####");
  }

  lemma BodyTextNoNewline()
    ensures NoNewline(NewResult) && NoNewline(EmptyData) && NoNewline(ReadAction)
  {
    JoinNoNewline("action_result = self.", "add_action_result(");
    JoinNoNewline("action_result = self.add_action_result(", "ActionResult(dict(param)))");
    JoinNoNewline("action = self.", "get_action_identifier()");
  }

  lemma FixedNoNewline()
    ensures NoNewline(NewResult) && NoNewline(EmptyData) && NoNewline(ReadAction)
    ensures NoNewline(Banner) && NoNewline(StartTitle) && NoNewline(StopTitle)
  {
    FrameTextNoNewline();
    BodyTextNoNewline();
  }

  lemma BodyNoNewline(r: Rule)
    requires SingleLine(r)
    ensures NoNewline(SummaryCall(r)) && NoNewline(ReturnCall(r))
  {
    JoinNoNewline("action_result.update_summary(", r.summary);
    JoinNoNewline("action_result.update_summary(" + r.summary, ")");
    JoinNoNewline("return action_result.set_status(", "phantom.APP_SUCCESS, '");
    JoinNoNewline("return action_result.set_status(phantom.APP_SUCCESS, '", r.message);
    JoinNoNewline("return action_result.set_status(phantom.APP_SUCCESS, '" + r.message, "')");
  }

  /** Three one-line pieces, a block of whole lines and a last line read
      back as those lines in order. */
  lemma LinesOfFrame(i2: string, h: string, i3: string, a: string, b: string, d: string, c: string)
    requires NoNewline(i2) && NoNewline(h) && NoNewline(i3)
    requires NoNewline(a) && NoNewline(b) && NoNewline(c)
    requires EndsLine(d)
    ensures Lines(Line(i2, h) + (Line(i3, a) + (Line(i3, b) + (d + Line(i3, c)))))
      == [i2 + h] + ([i3 + a] + ([i3 + b] + (Lines(d) + [i3 + c])))
  {
    LinesSnoc(d, i3, c);
    LinesCons(i3, b, d + Line(i3, c));
    LinesCons(i3, a, Line(i3, b) + (d + Line(i3, c)));
    LinesCons(i2, h, Line(i3, a) + (Line(i3, b) + (d + Line(i3, c))));
  }

  /** The lines of a branch: the fixed lines around the `add_data` lines. */
  lemma BranchAsLines(r: Rule, tab: string)
    requires SingleLine(r) && AllSpaces(tab)
    ensures Lines(Branch(r, tab)) ==
      [Indent(tab, 2) + Condition(r)] + ([Indent(tab, 3) + NewResult] + ([Indent(tab, 3) + SummaryCall(r)]
      + (Lines(DataLines(tab, r.data)) + [Indent(tab, 3) + ReturnCall(r)])))
  {
    var t2, t3 := Indent(tab, 2), Indent(tab, 3);
    IndentSpaces(tab, 2);
    IndentSpaces(tab, 3);
    HeaderNoNewline(r, tab);
    BodyNoNewline(r);
    FixedNoNewline();
    if |r.data| != 0 { AddDataEndsLine(t3, r.data); }
    LinesOfFrame(t2, Condition(r), t3, NewResult, SummaryCall(r), DataLines(tab, r.data), ReturnCall(r));
  }

  lemma FrameIndex(c0: string, c1: string, c2: string, d: seq<string>, c3: string)
    ensures var ls := [c0] + ([c1] + ([c2] + (d + [c3])));
      && |ls| == 4 + |d|
      && ls[0] == c0 && ls[1] == c1 && ls[2] == c2 && ls[|ls| - 1] == c3
      && (forall k :: 0 <= k < |d| ==> ls[3 + k] == d[k])
  {
  }

  /** A branch reads back as its condition line at two indent units, then
      the body at three: the result object, the summary, the `add_data`
      lines (one per item, or the single empty-list line), and last the
      success return carrying the message. */
  lemma BranchShape(r: Rule, tab: string)
    requires SingleLine(r) && AllSpaces(tab)
    ensures var ls := Lines(Branch(r, tab));
      && |ls| == 4 + (if |r.data| == 0 then 1 else |r.data|)
      && ls[0] == Indent(tab, 2) + Condition(r)
      && (forall k :: 1 <= k < |ls| ==> StartsWith(ls[k], Indent(tab, 3)))
      && ls[1] == Indent(tab, 3) + NewResult
      && ls[2] == Indent(tab, 3) + SummaryCall(r)
      && (|r.data| == 0 ==> ls[3] == Indent(tab, 3) + EmptyData)
      && (forall k :: 0 <= k < |r.data| ==> ls[3 + k] == Indent(tab, 3) + DataCall(r.data[k]))
      && ls[|ls| - 1] == Indent(tab, 3) + ReturnCall(r)
  {
    var t3 := Indent(tab, 3);
    BranchAsLines(r, tab);
    DataLinesShape(tab, r.data);
    var d := Lines(DataLines(tab, r.data));
    FrameIndex(Indent(tab, 2) + Condition(r), t3 + NewResult, t3 + SummaryCall(r), d, t3 + ReturnCall(r));
    var ls := Lines(Branch(r, tab));
    forall k | 1 <= k < |ls|
      ensures StartsWith(ls[k], t3)
    {
      if 3 <= k < |ls| - 1 {
        if |r.data| == 0 {
          StartsWithJoin(t3, EmptyData);
        } else {
          StartsWithJoin(t3, DataCall(r.data[k - 3]));
        }
      } else if k == 1 {
        StartsWithJoin(t3, NewResult);
      } else if k == 2 {
        StartsWithJoin(t3, SummaryCall(r));
      } else {
        StartsWithJoin(t3, ReturnCall(r));
      }
    }
  }

  /** The three lines of a banner framed by `Banner` lines. */
  lemma FrameLines(tab: string, title: string)
    requires AllSpaces(tab) && NoNewline(title)
    ensures Lines(Line(Indent(tab, 2), Banner) + (Line(Indent(tab, 2), title) + Line(Indent(tab, 2), Banner)))
      == [Indent(tab, 2) + Banner] + ([Indent(tab, 2) + title] + [Indent(tab, 2) + Banner])
  {
    var t2 := Indent(tab, 2);
    IndentSpaces(tab, 2);
    FixedNoNewline();
    LinesOfLine(t2, Banner);
    LinesCons(t2, title, Line(t2, Banner));
    LinesCons(t2, Banner, Line(t2, title) + Line(t2, Banner));
  }

  lemma BranchesEndLine(rules: seq<Rule>, tab: string)
    ensures EndsLine(Branches(rules, tab))
  {
    if rules != [] {
      BranchesEndLine(rules[..|rules| - 1], tab);
      EndsLineAppend(Branches(rules[..|rules| - 1], tab), Branch(rules[|rules| - 1], tab));
    }
  }

  /** The block ends with a newline, so text after it starts a line. */
  lemma BlockEndsLine(rules: seq<Rule>, tab: string)
    ensures |Block(rules, tab)| > 0 && Block(rules, tab)[|Block(rules, tab)| - 1] == '\n'
  {
    var post := Postamble(tab);
    assert EndsLine(post) && post != [];
    BranchesEndLine(rules, tab);
    EndsLineAppend(Branches(rules, tab), post);
    EndsLineAppend(ActionLine(tab), Branches(rules, tab) + post);
    EndsLineAppend(Preamble(tab), ActionLine(tab) + (Branches(rules, tab) + post));
  }

  /** The block read back as lines: the preamble's three, the action line,
      the branches' lines and the postamble's three. */
  lemma BlockAsLines(rules: seq<Rule>, tab: string)
    requires AllSpaces(tab)
    ensures Lines(Block(rules, tab)) ==
      Lines(Preamble(tab)) + ([Indent(tab, 2) + ReadAction] + (Lines(Branches(rules, tab)) + Lines(Postamble(tab))))
  {
    IndentSpaces(tab, 2);
    FixedNoNewline();
    BranchesEndLine(rules, tab);
    LinesAppend(Branches(rules, tab), Postamble(tab));
    LinesCons(Indent(tab, 2), ReadAction, Branches(rules, tab) + Postamble(tab));
    LinesAppend(Preamble(tab), ActionLine(tab) + (Branches(rules, tab) + Postamble(tab)));
  }

  /** With no rule the block is the bare frame: seven lines, all fixed. */
  lemma EmptyBlock(tab: string)
    requires AllSpaces(tab)
    ensures var t2 := Indent(tab, 2);
      Lines(Block([], tab)) ==
        [t2 + Banner, t2 + StartTitle, t2 + Banner, t2 + ReadAction, t2 + Banner, t2 + StopTitle, t2 + Banner]
  {
    var t2 := Indent(tab, 2);
    BlockAsLines([], tab);
    FrameTextNoNewline();
    FrameLines(tab, StartTitle);
    FrameLines(tab, StopTitle);
    assert Lines(Branches([], tab)) == [];
    SevenLines(t2 + Banner, t2 + StartTitle, t2 + ReadAction, t2 + StopTitle);
  }

  lemma SevenLines(b: string, s: string, a: string, e: string)
    ensures ([b] + ([s] + [b])) + ([a] + ([] + ([b] + ([e] + [b])))) == [b, s, b, a, b, e, b]
  {
  }

  /** `x` and `p` differ at position `k`, so `x` does not start with `p`. */
  lemma DiffersAt(x: string, p: string, k: nat)
    requires k < |x| && k < |p| && x[k] != p[k]
    ensures !StartsWith(x, p)
  {
  }

  lemma StartingNone(ls: seq<string>, p: string)
    requires forall k :: 0 <= k < |ls| ==> !StartsWith(ls[k], p)
    ensures Starting(ls, p) == []
  {
    if ls != [] {
      StartingNone(ls[1..], p);
    }
  }

  /** Only a condition line starts like one: frame lines carry `#` and body
      lines a further space where the `i` of `if` would be. */
  lemma ConditionStarts(r: Rule, tab: string)
    ensures StartsWith(Indent(tab, 2) + Condition(r), IfPrefix(tab))
  {
    var t2 := Indent(tab, 2);
    var c := Condition(r);
    assert c[..13] == "if action == ";
    assert (t2 + c)[..|IfPrefix(tab)|] == t2 + c[..13];
  }

  lemma FixedNotCondition(tab: string, text: string)
    requires |text| > 0 && text[0] != 'i'
    ensures !StartsWith(Indent(tab, 2) + text, IfPrefix(tab))
  {
    var t2 := Indent(tab, 2);
    assert (t2 + text)[|t2|] == text[0];
    assert IfPrefix(tab)[|t2|] == 'i';
    DiffersAt(t2 + text, IfPrefix(tab), |t2|);
  }

  lemma BodyNotCondition(x: string, tab: string)
    requires IndentUnit(tab) && StartsWith(x, Indent(tab, 3))
    ensures !StartsWith(x, IfPrefix(tab))
  {
    var t2 := Indent(tab, 2);
    IndentStep(tab);
    assert x[|t2|] == Indent(tab, 3)[|t2|] == tab[0] == ' ';
    assert IfPrefix(tab)[|t2|] == 'i';
    DiffersAt(x, IfPrefix(tab), |t2|);
  }

  /** Exactly one line of a branch is a condition line: its first. */
  lemma BranchConditions(r: Rule, tab: string)
    requires SingleLine(r) && IndentUnit(tab)
    ensures Starting(Lines(Branch(r, tab)), IfPrefix(tab)) == [Indent(tab, 2) + Condition(r)]
  {
    BranchShape(r, tab);
    var ls := Lines(Branch(r, tab));
    ConditionStarts(r, tab);
    forall k | 0 <= k < |ls[1..]|
      ensures !StartsWith(ls[1..][k], IfPrefix(tab))
    {
      BodyNotCondition(ls[k + 1], tab);
    }
    StartingNone(ls[1..], IfPrefix(tab));
  }

  /** The condition line of each rule, in rule order. */
  function Conditions(rules: seq<Rule>, tab: string): (cs: seq<string>)
    ensures |cs| == |rules|
  {
    if rules == [] then []
    else Conditions(rules[..|rules| - 1], tab) + [Indent(tab, 2) + Condition(rules[|rules| - 1])]
  }

  lemma {:induction false} ConditionsAt(rules: seq<Rule>, tab: string, k: nat)
    requires k < |rules|
    ensures Conditions(rules, tab)[k] == Indent(tab, 2) + Condition(rules[k])
  {
    var init := rules[..|rules| - 1];
    if k < |init| {
      ConditionsAt(init, tab, k);
      assert rules[k] == init[k];
    }
  }

  /** The condition lines of the branches: one per rule, in rule order. */
  lemma {:induction false} BranchesConditions(rules: seq<Rule>, tab: string)
    requires forall k :: 0 <= k < |rules| ==> SingleLine(rules[k])
    requires IndentUnit(tab)
    ensures Starting(Lines(Branches(rules, tab)), IfPrefix(tab)) == Conditions(rules, tab)
  {
    if rules != [] {
      var init, last := rules[..|rules| - 1], rules[|rules| - 1];
      BranchesConditions(init, tab);
      BranchesEndLine(init, tab);
      LinesAppend(Branches(init, tab), Branch(last, tab));
      StartingAppend(Lines(Branches(init, tab)), Lines(Branch(last, tab)), IfPrefix(tab));
      BranchConditions(last, tab);
    }
  }

  /** No line of a banner frame is a condition line. */
  lemma FrameNone(tab: string, title: string)
    requires IndentUnit(tab) && NoNewline(title) && |title| > 0 && title[0] == '#'
    ensures Starting(Lines(Line(Indent(tab, 2), Banner) + (Line(Indent(tab, 2), title) + Line(Indent(tab, 2), Banner))), IfPrefix(tab)) == []
  {
    FrameLines(tab, title);
    FixedNotCondition(tab, Banner);
    FixedNotCondition(tab, title);
    var t2 := Indent(tab, 2);
    StartingNone([t2 + Banner] + ([t2 + title] + [t2 + Banner]), IfPrefix(tab));
  }

  /** No line of the fixed frame is a condition line. */
  lemma FrameNoConditions(tab: string)
    requires IndentUnit(tab)
    ensures Starting(Lines(Preamble(tab)), IfPrefix(tab)) == []
    ensures Starting(Lines(Postamble(tab)), IfPrefix(tab)) == []
    ensures Starting([Indent(tab, 2) + ReadAction], IfPrefix(tab)) == []
  {
    FrameTextNoNewline();
    assert StartTitle[0] == '#' && StopTitle[0] == '#';
    FrameNone(tab, StartTitle);
    FrameNone(tab, StopTitle);
    FixedNotCondition(tab, ReadAction);
    StartingNone([Indent(tab, 2) + ReadAction], IfPrefix(tab));
  }

  /** Read back as lines, the generated block holds exactly one condition
      line per rule, in the rules' order: a rule whose action identifier an
      earlier rule already used still gets its own branch. */
  lemma BlockConditions(rules: seq<Rule>, tab: string)
    requires forall k :: 0 <= k < |rules| ==> SingleLine(rules[k])
    requires IndentUnit(tab)
    ensures Starting(Lines(Block(rules, tab)), IfPrefix(tab)) == Conditions(rules, tab)
  {
    var p := IfPrefix(tab);
    BlockAsLines(rules, tab);
    FrameNoConditions(tab);
    var pre, post := Lines(Preamble(tab)), Lines(Postamble(tab));
    var act := [Indent(tab, 2) + ReadAction];
    var bs := Lines(Branches(rules, tab));
    StartingAppend(bs, post, p);
    StartingAppend(act, bs + post, p);
    StartingAppend(pre, act + (bs + post), p);
    BranchesConditions(rules, tab);
  }

  /** The same, position by position. */
  lemma BlockConditionAt(rules: seq<Rule>, tab: string, k: nat)
    requires forall k :: 0 <= k < |rules| ==> SingleLine(rules[k])
    requires IndentUnit(tab)
    requires k < |rules|
    ensures |Starting(Lines(Block(rules, tab)), IfPrefix(tab))| == |rules|
    ensures Starting(Lines(Block(rules, tab)), IfPrefix(tab))[k] == Indent(tab, 2) + Condition(rules[k])
  {
    BlockConditions(rules, tab);
    ConditionsAt(rules, tab, k);
  }
}
