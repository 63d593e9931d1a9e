/** `process_data`: the generated block is spliced into the connector right
    after the anchor line, and the four token rewrites are run over the
    result. The global `IMPORTANT_FILES` of the program is replaced by
    parameters and a result: the connector text and the rules go in, the
    patched text (or the failure to find an anchor) comes out. */
module Patcher {
  import opened Wrappers
  import opened Text
  import opened Anchor
  import opened Generator
  import opened Rewrite

  /** `process_data` reads `.groups()` off a failed search and raises. */
  datatype PatchError = AnchorNotFound

  /** The connector with a generated block put in at the cut `a.end`,
      before the rewrites. */
  function Splice(s: string, a: AnchorMatch, block: string): string
    requires a.end <= |s|
  {
    s[..a.end] + (block + s[a.end..])
  }

  /** What `process_data` leaves in `IMPORTANT_FILES['connector_data']`:
      it fails exactly when the connector has no anchor. */
  function Patch(s: string, rules: seq<Rule>): (r: Result<string, PatchError>)
    ensures r.Err? <==> forall i, e :: !AnchorSpan(s, i, e)
  {
    var m := FindAnchor(s);
    if m.None? then Err(AnchorNotFound)
    else
      AnchorTab(s);
      Ok(RewriteAll(Splice(s, m.value, Block(rules, m.value.tab))))
  }

  /** The loop of `process_data`: the block is accumulated branch by branch
      into `addition`, the connector is cut and rejoined around it, and the
      four passes are run one after the other. `processed` stays empty, so
      no rule is ever skipped. */
  method ProcessData(connector: string, rules: seq<Rule>) returns (r: Result<string, PatchError>)
    ensures r == Patch(connector, rules)
  {
    var m := FindAnchor(connector);
    if m.None? {
      return Err(AnchorNotFound);
    }
    AnchorTab(connector);
    var tab := m.value.tab;
    var part1 := connector[..m.value.end];
    var part2 := connector[m.value.end..];

    var processed: seq<string> := [];
    var head := Preamble(tab) + ActionLine(tab);
    var addition := head;
    for i := 0 to |rules|
      invariant processed == []
      invariant addition == head + Branches(rules[..i], tab)
    {
      if rules[i].actionId !in processed {
        BranchesSnoc(rules, i, tab);
        Assoc(head, Branches(rules[..i], tab), Branch(rules[i], tab));
        addition := addition + Branch(rules[i], tab);
      }
    }
    assert rules[..|rules|] == rules;
    Assoc(head, Branches(rules, tab), Postamble(tab));
    Assoc(Preamble(tab), ActionLine(tab), Branches(rules, tab) + Postamble(tab));
    addition := addition + Postamble(tab);
    assert addition == Block(rules, tab);

    var finalData := part1 + addition + part2;
    Assoc(part1, addition, part2);
    finalData := Sub(Wholesale, finalData);
    finalData := Sub(LeftAppend, finalData);
    finalData := Sub(RightAppend, finalData);
    finalData := Sub(Insert, finalData);
    r := Ok(finalData);
  }

  /** When the spliced text holds none of the four opening delimiters, the
      patched connector is exactly the text before the cut, the block, and
      the text after the cut. */
  lemma PatchPlain(s: string, rules: seq<Rule>)
    requires FindAnchor(s).Some?
    requires var a := FindAnchor(s).value;
      a.end <= |s| &&
      var t := Splice(s, a, Block(rules, a.tab));
      && (forall q :: !OccursAt(t, q, Wholesale.open))
      && (forall q :: !OccursAt(t, q, LeftAppend.open))
      && (forall q :: !OccursAt(t, q, RightAppend.open))
      && (forall q :: !OccursAt(t, q, Insert.open))
    ensures var a := FindAnchor(s).value;
      Patch(s, rules) == Ok(s[..a.end] + (Block(rules, a.tab) + s[a.end..]))
  {
    var a := FindAnchor(s).value;
    RewriteNoTokens(Splice(s, a, Block(rules, a.tab)));
  }

  /** The cut falls right after the anchor line's `):` and newline; the
      text before it and the text after it are kept whole around the block,
      and nothing else is added. */
  lemma SpliceFrame(s: string, block: string)
    requires FindAnchor(s).Some?
    ensures var a := FindAnchor(s).value;
      var t := Splice(s, a, block);
      && a.end <= |s|
      && OccursAt(s, a.end - |Terminator|, Terminator)
      && s[..a.end] + s[a.end..] == s
      && |t| == |s| + |block|
      && t[..a.end] == s[..a.end]
      && t[a.end..a.end + |block|] == block
      && t[a.end + |block|..] == s[a.end..]
  {
    var a := FindAnchor(s).value;
    AnchorTab(s);
    ThreeParts(s[..a.end], block, s[a.end..]);
    assert s[..a.end] + s[a.end..] == s;
  }

  /** Where the three parts of `x + (y + z)` lie. */
  lemma ThreeParts(x: string, y: string, z: string)
    ensures var t := x + (y + z);
      && |t| == |x| + |y| + |z|
      && t[..|x|] == x
      && t[|x|..|x| + |y|] == y
      && t[|x| + |y|..] == z
  {
  }

  /** Read as lines, the block is inserted as whole lines between the anchor
      line (the last line of the first part) and the rest of the connector. */
  lemma SpliceLines(s: string, rules: seq<Rule>)
    requires FindAnchor(s).Some?
    ensures var a := FindAnchor(s).value;
      var block := Block(rules, a.tab);
      && a.end <= |s|
      && Lines(Splice(s, a, block)) == Lines(s[..a.end]) + (Lines(block) + Lines(s[a.end..]))
  {
    var a := FindAnchor(s).value;
    AnchorTab(s);
    BlockEndsLine(rules, a.tab);
    SpliceLinesOf(s, a, Block(rules, a.tab));
  }

  lemma SpliceLinesOf(s: string, a: AnchorMatch, block: string)
    requires 3 <= a.end <= |s| && OccursAt(s, a.end - |Terminator|, Terminator)
    requires |block| > 0 && block[|block| - 1] == '\n'
    ensures Lines(Splice(s, a, block)) == Lines(s[..a.end]) + (Lines(block) + Lines(s[a.end..]))
  {
    assert s[..a.end][a.end - 1] == Terminator[2] == '\n';
    LinesAppend(block, s[a.end..]);
    LinesAppend(s[..a.end], block + s[a.end..]);
  }

  /** Patching does not notice an earlier patch: the spliced text has the
      same anchor, so splicing again puts the second block directly after
      the anchor line, ahead of the first. */
  lemma SpliceAgain(s: string, first: string, second: string)
    requires FindAnchor(s).Some?
    ensures var a := FindAnchor(s).value;
      && a.end <= |s|
      && FindAnchor(Splice(s, a, first)) == Some(a)
      && Splice(Splice(s, a, first), a, second) == s[..a.end] + (second + (first + s[a.end..]))
  {
    var a := FindAnchor(s).value;
    AnchorTab(s);
    var t := Splice(s, a, first);
    ThreeParts(s[..a.end], first, s[a.end..]);
    AnchorPrefix(s, t);
    assert t[a.end..] == first + s[a.end..];
  }

  /** Patching a patched connector again: the anchor is found at the same
      place, and when neither text holds an opening delimiter the second
      block lands directly after the anchor line, ahead of the first. */
  lemma PatchAgain(s: string, first: seq<Rule>, second: seq<Rule>)
    requires FindAnchor(s).Some?
    requires var a := FindAnchor(s).value;
      a.end <= |s| &&
      var once := Splice(s, a, Block(first, a.tab));
      var twice := s[..a.end] + (Block(second, a.tab) + (Block(first, a.tab) + s[a.end..]));
      && (forall q :: !OccursAt(once, q, Wholesale.open))
      && (forall q :: !OccursAt(once, q, LeftAppend.open))
      && (forall q :: !OccursAt(once, q, RightAppend.open))
      && (forall q :: !OccursAt(once, q, Insert.open))
      && (forall q :: !OccursAt(twice, q, Wholesale.open))
      && (forall q :: !OccursAt(twice, q, LeftAppend.open))
      && (forall q :: !OccursAt(twice, q, RightAppend.open))
      && (forall q :: !OccursAt(twice, q, Insert.open))
    ensures var a := FindAnchor(s).value;
      && Patch(s, first).Ok?
      && Patch(Patch(s, first).value, second)
         == Ok(s[..a.end] + (Block(second, a.tab) + (Block(first, a.tab) + s[a.end..])))
  {
    var a := FindAnchor(s).value;
    PatchPlain(s, first);
    SpliceAgain(s, Block(first, a.tab), Block(second, a.tab));
    PatchPlain(Splice(s, a, Block(first, a.tab)), second);
  }
}
