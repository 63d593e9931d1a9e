/** The anchor locator of `process_data`: the leftmost match of the pattern
    `[ ]+def handle_action\([^)]+\):\n` in the connector text, where the new
    block goes, and the indent unit `tab` read off that match.

    The pattern is matched by hand. Two facts about it make the matcher
    deterministic: the space run must be followed by `d`, so it is the whole
    run of spaces from the start position; and `[^)]+` must be followed by
    `)`, so the argument list ends at the first `)` after the opening
    parenthesis. `AnchorShape` states the pattern's language independently
    of the matcher, by positions in the text. */
module Anchor {
  import opened Wrappers
  import opened Text

  const Keyword: string := "def handle_action("
  const Terminator: string := "):\n"

  /** The text from `i` to `j + |Terminator|` matches the pattern: `n >= 1`
      spaces, the keyword, a non-empty argument list without `)`, and `):`
      plus a newline, whose `)` sits at `j`. */
  ghost predicate AnchorShape(s: string, i: int, n: int, j: int) {
    && 0 <= i && 1 <= n && i + n + |Keyword| < j && j + |Terminator| <= |s|
    && (forall k :: i <= k < i + n ==> s[k] == ' ')
    && OccursAt(s, i + n, Keyword)
    && (forall k :: i + n + |Keyword| <= k < j ==> s[k] != ')')
    && OccursAt(s, j, Terminator)
  }

  /** `s[i..e]` is a match of the anchor pattern. */
  ghost predicate AnchorSpan(s: string, i: int, e: int) {
    exists n, j :: AnchorShape(s, i, n, j) && e == j + |Terminator|
  }

  /** What the locator reports: where the match starts, the offset just past
      its newline (where the text is cut), and the indent unit. */
  datatype AnchorMatch = AnchorMatch(start: nat, end: nat, tab: string)

  /** The end of the match of the pattern that starts at `i`, if one does. */
  function MatchAt(s: string, i: nat): Option<nat>
    requires i <= |s|
  {
    var d := SpaceRunEnd(s, i);
    if d == i || !OccursAt(s, d, Keyword) then None
    else
      var j := FindChar(s, d + |Keyword|, ')');
      if d + |Keyword| < j && OccursAt(s, j, Terminator) then Some(j + |Terminator|) else None
  }

  /** Every match of the pattern starting at `i` is found by the matcher. */
  lemma MatchAtComplete(s: string, i: nat, n: int, j: int)
    requires i <= |s| && AnchorShape(s, i, n, j)
    ensures MatchAt(s, i) == Some(j + |Terminator|)
  {
    assert s[i + n] == s[i + n..i + n + |Keyword|][0] == Keyword[0];
    assert SpaceRunEnd(s, i) == i + n;
    assert s[j] == s[j..j + |Terminator|][0] == Terminator[0];
    assert FindChar(s, i + n + |Keyword|, ')') == j;
  }

  /** The matcher agrees with the pattern's language, in both directions; in
      particular a match starting at `i` has only one possible end. */
  lemma MatchAtSpec(s: string, i: nat)
    requires i <= |s|
    ensures forall e :: MatchAt(s, i) == Some(e) <==> AnchorSpan(s, i, e)
  {
    forall e | AnchorSpan(s, i, e)
      ensures MatchAt(s, i) == Some(e)
    {
      var n, j :| AnchorShape(s, i, n, j) && e == j + |Terminator|;
      MatchAtComplete(s, i, n, j);
    }
    if MatchAt(s, i).Some? {
      MatchAtSound(s, i);
    }
  }

  /** What the matcher finds is a match of the pattern. */
  lemma MatchAtSound(s: string, i: nat)
    requires i <= |s| && MatchAt(s, i).Some?
    ensures MatchAt(s, i).value >= |Terminator|
    ensures AnchorShape(s, i, SpaceRunEnd(s, i) - i, MatchAt(s, i).value - |Terminator|)
  {
  }

  /** The leftmost match at or after `from`, as `re.search` reports it. */
  function FindAnchorFrom(s: string, from: nat): (r: Option<AnchorMatch>)
    requires from <= |s|
    ensures r.None? ==> forall i :: from <= i <= |s| ==> MatchAt(s, i).None?
    ensures r.Some? ==>
      && from <= r.value.start <= |s|
      && MatchAt(s, r.value.start) == Some(r.value.end)
      && (forall i :: from <= i < r.value.start ==> MatchAt(s, i).None?)
      && r.value.tab == Spaces(SpaceRunEnd(s, r.value.start) - r.value.start)
    decreases |s| - from
  {
    var m := MatchAt(s, from);
    if m.Some? then Some(AnchorMatch(from, m.value, Spaces(SpaceRunEnd(s, from) - from)))
    else if from == |s| then None else FindAnchorFrom(s, from + 1)
  }

  /** No match starts in `[from, to)` of the text. */
  lemma NoAnchorBetween(s: string, from: nat, to: nat)
    requires to <= |s| + 1
    requires forall i :: from <= i < to ==> MatchAt(s, i).None?
    ensures forall i, e :: from <= i < to ==> !AnchorSpan(s, i, e)
  {
    forall i, e | from <= i < to
      ensures !AnchorSpan(s, i, e)
    {
      MatchAtSpec(s, i);
    }
  }

  /** With no match anywhere the text has no anchor. */
  lemma NoAnchor(s: string)
    requires FindAnchorFrom(s, 0).None?
    ensures forall i, e :: !AnchorSpan(s, i, e)
  {
    NoAnchorBetween(s, 0, |s| + 1);
  }

  /** The indent unit read off a match: the spaces from its start up to
      the keyword, at least one of them. */
  lemma MatchTab(s: string, i: nat)
    requires i <= |s| && MatchAt(s, i).Some?
    ensures var tab := Spaces(SpaceRunEnd(s, i) - i);
      && 1 <= |tab| && AllSpaces(tab)
      && OccursAt(s, i, tab)
      && OccursAt(s, i + |tab|, Keyword)
      && MatchAt(s, i).value <= |s|
      && OccursAt(s, MatchAt(s, i).value - |Terminator|, Terminator)
  {
    var tab := Spaces(SpaceRunEnd(s, i) - i);
    assert s[i..i + |tab|] == tab;
  }

  /** A match preceded by a space is not leftmost: one also starts there. */
  lemma MatchExtendsLeft(s: string, i: nat)
    requires 0 < i <= |s| && MatchAt(s, i).Some? && s[i - 1] == ' '
    ensures MatchAt(s, i - 1).Some?
  {
    assert SpaceRunEnd(s, i - 1) == SpaceRunEnd(s, i);
  }

  /** No space precedes the found match. */
  lemma NoSpaceBefore(s: string)
    requires FindAnchorFrom(s, 0).Some?
    ensures var a := FindAnchorFrom(s, 0).value;
      a.start == 0 || s[a.start - 1] != ' '
  {
    var a := FindAnchorFrom(s, 0).value;
    if a.start > 0 && s[a.start - 1] == ' ' {
      MatchExtendsLeft(s, a.start);
      assert false;
    }
  }

  /** The found match is the leftmost match and its end is forced. */
  lemma FoundAnchorLeftmost(s: string)
    requires FindAnchorFrom(s, 0).Some?
    ensures var a := FindAnchorFrom(s, 0).value;
      && AnchorSpan(s, a.start, a.end)
      && (forall i, e :: i < a.start ==> !AnchorSpan(s, i, e))
      && (forall e :: AnchorSpan(s, a.start, e) ==> e == a.end)
      && (a.start == 0 || s[a.start - 1] != ' ')
  {
    var a := FindAnchorFrom(s, 0).value;
    NoAnchorBetween(s, 0, a.start);
    MatchAtSpec(s, a.start);
    NoSpaceBefore(s);
  }

  /** The anchor of the connector text, or `None` where `process_data` would
      crash on `handle_action_match.groups()`. The match is the leftmost one,
      it can end in only one place, and no space precedes it. */
  function FindAnchor(s: string): (r: Option<AnchorMatch>)
    ensures r.None? <==> forall i, e :: !AnchorSpan(s, i, e)
    ensures r.Some? ==>
      && AnchorSpan(s, r.value.start, r.value.end)
      && (forall i, e :: i < r.value.start ==> !AnchorSpan(s, i, e))
      && (forall e :: AnchorSpan(s, r.value.start, e) ==> e == r.value.end)
      && (r.value.start == 0 || s[r.value.start - 1] != ' ')
  {
    var r := FindAnchorFrom(s, 0);
    if r.Some? then FoundAnchorLeftmost(s); r else NoAnchor(s); r
  }

  /** The indent unit is the whole run of spaces in front of `def`: at least
      one space and no other character; the cut falls right after the
      matched line's newline. */
  lemma AnchorTab(s: string)
    requires FindAnchor(s).Some?
    ensures var a := FindAnchor(s).value;
      && 1 <= |a.tab| && AllSpaces(a.tab)
      && OccursAt(s, a.start, a.tab)
      && OccursAt(s, a.start + |a.tab|, Keyword)
      && a.end <= |s| && OccursAt(s, a.end - |Terminator|, Terminator)
  {
    MatchTab(s, FindAnchor(s).value.start);
  }

  // ---------------------------------------------------------------------
  // What the anchor depends on

  /** `s` and `t` hold the same first `k` characters. */
  predicate Agree(s: string, t: string, k: nat) {
    k <= |s| && k <= |t| && forall q :: 0 <= q < k ==> s[q] == t[q]
  }

  lemma {:induction false} SpaceRunAgree(s: string, t: string, i: nat, k: nat)
    requires i <= k && Agree(s, t, k)
    requires SpaceRunEnd(s, i) < k
    ensures SpaceRunEnd(t, i) == SpaceRunEnd(s, i)
    decreases k - i
  {
    if s[i] == ' ' {
      SpaceRunAgree(s, t, i + 1, k);
    }
  }

  lemma {:induction false} FindCharAgree(s: string, t: string, from: nat, c: char, k: nat)
    requires from <= k && Agree(s, t, k)
    requires FindChar(s, from, c) < k
    ensures FindChar(t, from, c) == FindChar(s, from, c)
    decreases k - from
  {
    if s[from] != c {
      FindCharAgree(s, t, from + 1, c, k);
    }
  }

  lemma SliceAgree(s: string, t: string, k: nat, lo: nat, hi: nat)
    requires lo <= hi <= k && Agree(s, t, k)
    ensures s[lo..hi] == t[lo..hi]
  {
  }

  lemma MatchAtIs(s: string, i: nat, d: nat, j: nat)
    requires i <= |s| && d == SpaceRunEnd(s, i)
    requires d > i && OccursAt(s, d, Keyword)
    requires j == FindChar(s, d + |Keyword|, ')')
    requires d + |Keyword| < j && OccursAt(s, j, Terminator)
    ensures MatchAt(s, i) == Some(j + |Terminator|)
  {
  }

  lemma MatchAtNoKeyword(s: string, i: nat, d: nat)
    requires i <= |s| && d == SpaceRunEnd(s, i)
    requires d == i || !OccursAt(s, d, Keyword)
    ensures MatchAt(s, i).None?
  {
  }

  lemma MatchAtNoClose(s: string, i: nat, d: nat, j: nat)
    requires i <= |s| && d == SpaceRunEnd(s, i)
    requires d > i && OccursAt(s, d, Keyword)
    requires j == FindChar(s, d + |Keyword|, ')')
    requires !(d + |Keyword| < j && OccursAt(s, j, Terminator))
    ensures MatchAt(s, i).None?
  {
  }

  /** Texts that agree up to `k` hold `p` at `q` alike, when `p` ends by `k`. */
  lemma OccursAgree(s: string, t: string, k: nat, q: nat, p: string)
    requires q + |p| <= k && Agree(s, t, k)
    ensures OccursAt(s, q, p) == OccursAt(t, q, p)
  {
    SliceAgree(s, t, k, q, q + |p|);
  }

  /** Whether a match starts at `i`, and where it ends, depends only on the
      text up to a `):` plus newline that lies after the keyword position. */
  lemma MatchAtAgree(s: string, t: string, i: nat, c: nat, k: nat)
    requires i <= k && Agree(s, t, k)
    requires SpaceRunEnd(s, i) + |Keyword| <= c && c + |Terminator| <= k && s[c] == ')'
    ensures SpaceRunEnd(t, i) == SpaceRunEnd(s, i)
    ensures MatchAt(t, i) == MatchAt(s, i)
  {
    var d := SpaceRunEnd(s, i);
    SpaceRunAgree(s, t, i, k);
    OccursAgree(s, t, k, d, Keyword);
    if d == i || !OccursAt(s, d, Keyword) {
      MatchAtNoKeyword(s, i, d);
      MatchAtNoKeyword(t, i, d);
    } else {
      var j := FindChar(s, d + |Keyword|, ')');
      assert j <= c;
      FindCharAgree(s, t, d + |Keyword|, ')', k);
      OccursAgree(s, t, k, j, Terminator);
      if d + |Keyword| < j && OccursAt(s, j, Terminator) {
        MatchAtIs(s, i, d, j);
        MatchAtIs(t, i, d, j);
      } else {
        MatchAtNoClose(s, i, d, j);
        MatchAtNoClose(t, i, d, j);
      }
    }
  }

  /** The search reports the first position where a match starts. */
  lemma {:induction false} FindAnchorFromFirst(t: string, from: nat, p: nat, e: nat)
    requires from <= p <= |t|
    requires forall i :: from <= i < p ==> MatchAt(t, i).None?
    requires MatchAt(t, p) == Some(e)
    ensures FindAnchorFrom(t, from).Some?
    ensures FindAnchorFrom(t, from).value.start == p && FindAnchorFrom(t, from).value.end == e
    decreases p - from
  {
    if from < p {
      FindAnchorFromFirst(t, from + 1, p, e);
    }
  }

  lemma PrefixAgree(s: string, t: string, k: nat)
    requires k <= |s| && k <= |t| && t[..k] == s[..k]
    ensures Agree(s, t, k)
  {
    forall q | 0 <= q < k
      ensures s[q] == t[q]
    {
      assert s[q] == s[..k][q];
      assert t[q] == t[..k][q];
    }
  }

  /** The `)` of a match lies after its keyword. */
  lemma MatchClose(s: string, i: nat)
    requires i <= |s| && MatchAt(s, i).Some?
    ensures MatchAt(s, i).value >= |Terminator|
    ensures var c := MatchAt(s, i).value - |Terminator|;
      SpaceRunEnd(s, i) + |Keyword| < c && c < |s| && s[c] == ')'
  {
    var d := SpaceRunEnd(s, i);
    var c := FindChar(s, d + |Keyword|, ')');
    assert OccursAt(s, c, Terminator);
    assert s[c] == s[c..c + |Terminator|][0];
  }

  /** No match starts before `start` in `t` either, when none does in `s`,
      `s` has no space right before `start`, and the two texts agree up to
      a `):` plus newline beyond `start`'s keyword position. */
  lemma EarlierAgree(s: string, t: string, start: nat, c: nat, k: nat)
    requires start <= k && Agree(s, t, k)
    requires start == 0 || s[start - 1] != ' '
    requires start + |Keyword| <= c && c + |Terminator| <= k && s[c] == ')'
    requires forall i :: 0 <= i < start ==> MatchAt(s, i).None?
    ensures forall i :: 0 <= i < start ==> MatchAt(t, i).None?
  {
    forall i | 0 <= i < start
      ensures MatchAt(t, i).None?
    {
      assert SpaceRunEnd(s, i) < start;
      MatchAtAgree(s, t, i, c, k);
    }
  }

  lemma SameTab(s: string, t: string, i: nat)
    requires i <= |s| && i <= |t| && SpaceRunEnd(s, i) == SpaceRunEnd(t, i)
    ensures Spaces(SpaceRunEnd(s, i) - i) == Spaces(SpaceRunEnd(t, i) - i)
  {
  }

  /** The search's answer depends only on the text up to the cut. */
  lemma SearchPrefix(s: string, t: string)
    requires FindAnchorFrom(s, 0).Some?
    requires FindAnchorFrom(s, 0).value.end <= |t|
    requires t[..FindAnchorFrom(s, 0).value.end] == s[..FindAnchorFrom(s, 0).value.end]
    ensures FindAnchorFrom(t, 0).Some?
    ensures FindAnchorFrom(t, 0).value.start == FindAnchorFrom(s, 0).value.start
    ensures FindAnchorFrom(t, 0).value.end == FindAnchorFrom(s, 0).value.end
    ensures FindAnchorFrom(t, 0).value.tab == FindAnchorFrom(s, 0).value.tab
  {
    var a := FindAnchorFrom(s, 0).value;
    PrefixAgree(s, t, a.end);
    NoSpaceBefore(s);
    FirstMatchAgree(s, t, a.start, a.end);
    FindAnchorFromFirst(t, 0, a.start, a.end);
    var b := FindAnchorFrom(t, 0).value;
    SameTab(s, t, a.start);
    assert b.tab == a.tab;
  }

  /** The first match of `s`, and the absence of any before it, carry over
      to a text that agrees with `s` up to the match's end. */
  lemma FirstMatchAgree(s: string, t: string, start: nat, end: nat)
    requires start <= |s| && Agree(s, t, end)
    requires MatchAt(s, start) == Some(end)
    requires forall i :: 0 <= i < start ==> MatchAt(s, i).None?
    requires start == 0 || s[start - 1] != ' '
    ensures start <= |t| && MatchAt(t, start) == Some(end)
    ensures SpaceRunEnd(t, start) == SpaceRunEnd(s, start)
    ensures forall i :: 0 <= i < start ==> MatchAt(t, i).None?
  {
    MatchClose(s, start);
    var c := end - |Terminator|;
    MatchAtAgree(s, t, start, c, end);
    EarlierAgree(s, t, start, c, end);
  }

  /** The anchor, and the indent unit read off it, depend only on the text
      up to the cut: whatever follows the anchor line, the same anchor is
      found. */
  lemma AnchorPrefix(s: string, t: string)
    requires FindAnchor(s).Some?
    requires FindAnchor(s).value.end <= |t|
    requires t[..FindAnchor(s).value.end] == s[..FindAnchor(s).value.end]
    ensures FindAnchor(t) == FindAnchor(s)
  {
    FindAnchorIsSearch(s);
    FindAnchorIsSearch(t);
    SearchPrefix(s, t);
    SameMatch(FindAnchorFrom(t, 0).value, FindAnchorFrom(s, 0).value);
  }

  lemma SameMatch(x: AnchorMatch, y: AnchorMatch)
    requires x.start == y.start && x.end == y.end && x.tab == y.tab
    ensures x == y
  {
  }

  lemma FindAnchorIsSearch(s: string)
    ensures FindAnchor(s) == FindAnchorFrom(s, 0)
  {
  }
}
