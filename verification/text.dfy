/** Character-level scanning shared by the anchor matcher, the token
    rewriter and the substring replacer, and the split of a text into its
    newline-terminated lines (the view in which indentation is judged). */
module Text {

  /** `n` literal spaces: Python's `' ' * n`. */
  function Spaces(n: nat): (r: string)
    ensures |r| == n
    ensures forall k :: 0 <= k < n ==> r[k] == ' '
  {
    seq(n, _ => ' ')
  }

  predicate AllSpaces(s: string) {
    forall k :: 0 <= k < |s| ==> s[k] == ' '
  }

  /** `p` occurs in `s` starting at index `i`. */
  predicate OccursAt(s: string, i: int, p: string) {
    0 <= i && i + |p| <= |s| && s[i..i + |p|] == p
  }

  /** `p` occurs at the very start of `s`. */
  predicate StartsWith(s: string, p: string) {
    OccursAt(s, 0, p)
  }

  /** The first index at or after `from` holding `c`, or `|s|` when there is none. */
  function FindChar(s: string, from: nat, c: char): (j: nat)
    requires from <= |s|
    ensures from <= j <= |s|
    ensures forall k :: from <= k < j ==> s[k] != c
    ensures j < |s| ==> s[j] == c
    decreases |s| - from
  {
    if from == |s| || s[from] == c then from else FindChar(s, from + 1, c)
  }

  /** The end of the run of literal spaces that starts at `from`. */
  function SpaceRunEnd(s: string, from: nat): (j: nat)
    requires from <= |s|
    ensures from <= j <= |s|
    ensures forall k :: from <= k < j ==> s[k] == ' '
    ensures j < |s| ==> s[j] != ' '
    decreases |s| - from
  {
    if from == |s| || s[from] != ' ' then from else SpaceRunEnd(s, from + 1)
  }

  /** One output line: indentation, content and the terminating newline. */
  function Line(indent: string, content: string): string {
    indent + content + "\n"
  }

  predicate NoNewline(s: string) {
    forall k :: 0 <= k < |s| ==> s[k] != '\n'
  }

  /** The lines of `s`, each without its newline; a final line without a
      newline is kept, and a text that ends in a newline has no empty last
      line. */
  function Lines(s: string): seq<string>
    decreases |s|
  {
    if s == [] then []
    else
      var j := FindChar(s, 0, '\n');
      if j == |s| then [s] else [s[..j]] + Lines(s[j + 1..])
  }

  /** A newline-free line followed by its newline reads back as that one line. */
  lemma LinesOfLine(indent: string, content: string)
    requires NoNewline(indent) && NoNewline(content)
    ensures Lines(Line(indent, content)) == [indent + content]
  {
    var s := Line(indent, content);
    var j := FindChar(s, 0, '\n');
    assert s[|indent + content|] == '\n';
    assert j == |indent + content| by {
      forall k | 0 <= k < |indent + content|
        ensures s[k] != '\n'
      {
        if k < |indent| { assert s[k] == indent[k]; }
        else { assert s[k] == content[k - |indent|]; }
      }
    }
    assert s[..j] == indent + content;
    assert s[j + 1..] == [];
  }

  /** The text is empty or its last character ends a line. */
  predicate EndsLine(s: string) {
    s == [] || s[|s| - 1] == '\n'
  }

  /** Splitting `a + b` into lines splits `a` and `b` separately. */
  predicate LinesSplit(a: string, b: string) {
    Lines(a + b) == Lines(a) + Lines(b)
  }

  /** The split carried back over the first line of `a`. */
  lemma LinesSplitStep(a: string, b: string, j: nat)
    requires j < |a| && FindChar(a, 0, '\n') == j
    requires LinesSplit(a[j + 1..], b)
    ensures LinesSplit(a, b)
  {
    var rest := a[j + 1..];
    FindCharPrefix(a, b, 0, '\n');
    AppendSlices(a, b, j);
    LinesHead(a + b, j, a[..j], rest + b);
    LinesHead(a, j, a[..j], rest);
    Regather(Lines(a + b), Lines(rest + b), Lines(rest), Lines(b), Lines(a), a[..j]);
  }

  lemma AppendSlices(a: string, b: string, j: nat)
    requires j < |a|
    ensures (a + b)[..j] == a[..j] && (a + b)[j + 1..] == a[j + 1..] + b
  {
  }

  /** The first line of a text that has a newline at `j`, and the rest. */
  lemma LinesHead(s: string, j: nat, head: string, tail: string)
    requires j < |s| && FindChar(s, 0, '\n') == j
    requires head == s[..j] && tail == s[j + 1..]
    ensures Lines(s) == [head] + Lines(tail)
  {
  }

  lemma Regather<T>(whole: seq<T>, restWhole: seq<T>, restLeft: seq<T>, right: seq<T>, left: seq<T>, h: T)
    requires whole == [h] + restWhole && restWhole == restLeft + right && left == [h] + restLeft
    ensures whole == left + right
  {
  }

  lemma {:induction false} LinesSplitHolds(a: string, b: string)
    requires EndsLine(a)
    ensures LinesSplit(a, b)
    decreases |a|
  {
    if a == [] {
      assert a + b == b;
    } else {
      var j := FindChar(a, 0, '\n');
      assert j < |a|;
      LinesSplitHolds(a[j + 1..], b);
      LinesSplitStep(a, b, j);
    }
  }

  /** Splitting distributes over a concatenation whose left part ends a line. */
  lemma LinesAppend(a: string, b: string)
    requires EndsLine(a)
    ensures Lines(a + b) == Lines(a) + Lines(b)
  {
    LinesSplitHolds(a, b);
  }

  /** Searching in `a + b` finds what searching in `a` finds, when that is a hit. */
  lemma {:induction false} FindCharPrefix(a: string, b: string, from: nat, c: char)
    requires from <= |a|
    requires FindChar(a, from, c) < |a|
    ensures FindChar(a + b, from, c) == FindChar(a, from, c)
    decreases |a| - from
  {
    if a[from] != c {
      FindCharPrefix(a, b, from + 1, c);
    }
  }

  /** A newline-free line in front of more text is the first of its lines. */
  lemma LinesCons(indent: string, content: string, rest: string)
    requires NoNewline(indent) && NoNewline(content)
    ensures Lines(Line(indent, content) + rest) == [indent + content] + Lines(rest)
  {
    LinesAppend(Line(indent, content), rest);
    LinesOfLine(indent, content);
  }

  lemma Assoc(a: string, b: string, c: string)
    ensures (a + b) + c == a + (b + c)
  {
  }

  lemma StartsWithJoin(a: string, b: string)
    ensures StartsWith(a + b, a)
  {
    assert (a + b)[..|a|] == a;
  }

  lemma JoinNoNewline(a: string, b: string)
    requires NoNewline(a) && NoNewline(b)
    ensures NoNewline(a + b)
  {
    assert forall k :: 0 <= k < |a + b| ==> (a + b)[k] == if k < |a| then a[k] else b[k - |a|];
  }

  /** The lines of `ls` that start with `p`, in order. */
  function Starting(ls: seq<string>, p: string): (r: seq<string>)
    ensures forall k :: 0 <= k < |r| ==> StartsWith(r[k], p)
    ensures |r| <= |ls|
  {
    if ls == [] then []
    else (if StartsWith(ls[0], p) then [ls[0]] else []) + Starting(ls[1..], p)
  }

  lemma {:induction false} StartingAppend(a: seq<string>, b: seq<string>, p: string)
    ensures Starting(a + b, p) == Starting(a, p) + Starting(b, p)
    decreases |a|
  {
    if a == [] {
      assert a + b == b;
    } else {
      assert (a + b)[1..] == a[1..] + b;
      StartingAppend(a[1..], b, p);
    }
  }
}
