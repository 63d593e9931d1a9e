/** The four token-rewrite passes `process_data` runs over the patched
    connector. Each pass is a `re.sub` of a pattern of one fixed shape,

        open  key  close        with key = one or more characters other than `stop`,

    by a replacement that wraps the captured key in `param['…']`. In every
    shape `close` begins with `stop`, so the key of a match starting at a
    given position ends at the first `stop` after `open`: a match, when
    there is one, is determined by where it starts. `re.sub` replaces the
    leftmost match, resumes right after it, and copies every character it
    passes over; `SubFrom` is that scan. */
module Rewrite {
  import opened Wrappers
  import opened Text

  datatype Shape = Shape(open: string, stop: char, close: string, before: string, after: string)

  /** The shapes this module relies on: non-empty delimiters, and a closing
      delimiter that starts with the character the key may not contain. */
  predicate WellFormed(sh: Shape) {
    |sh.open| > 0 && |sh.close| > 0 && sh.close[0] == sh.stop
  }

  /** `u'***key***'` becomes `param['key']`. */
  const Wholesale: Shape := Shape("u'***", '*', "***'", "param['", "']")
  /** `<<<key<<<'` becomes `' + param['key']`. */
  const LeftAppend: Shape := Shape("<<<", '<', "<<<'", "' + param['", "']")
  /** `'>>>key>>>` becomes `param['key'] + '`. */
  const RightAppend: Shape := Shape("'>>>", '>', ">>>", "param['", "'] + '")
  /** `u'<<<key>>>'` becomes `' + param['key'] + '`. */
  const Insert: Shape := Shape("u'<<<", '>', ">>>'", "' + param['", "'] + '")

  /** What a match is replaced by: the template with `\1` bound to the key. */
  function Replacement(sh: Shape, key: string): (r: string)
    ensures OccursAt(r, |sh.before|, key)
    ensures |r| == |sh.before| + |key| + |sh.after|
  {
    var r := sh.before + key + sh.after;
    assert r[|sh.before|..|sh.before| + |key|] == key;
    r
  }

  /** A match of the shape's pattern starts at `i` and its closing
      delimiter at `j`; the key is `s[i + |open|..j]`. */
  ghost predicate TokenAt(sh: Shape, s: string, i: int, j: int) {
    && OccursAt(s, i, sh.open)
    && i + |sh.open| < j
    && OccursAt(s, j, sh.close)
    && (forall k :: i + |sh.open| <= k < j ==> s[k] != sh.stop)
  }

  /** Where the closing delimiter of the match starting at `i` lies, if a
      match starts there. */
  function MatchToken(sh: Shape, s: string, i: nat): (m: Option<nat>)
    requires i <= |s|
    ensures m.Some? ==> i + |sh.open| < m.value && m.value + |sh.close| <= |s|
  {
    if !OccursAt(s, i, sh.open) then None
    else
      var j := FindChar(s, i + |sh.open|, sh.stop);
      if i + |sh.open| < j && OccursAt(s, j, sh.close) then Some(j) else None
  }

  /** The matcher finds exactly the matches of the pattern, in both directions. */
  lemma MatchTokenSpec(sh: Shape, s: string, i: nat)
    requires WellFormed(sh) && i <= |s|
    ensures forall j :: MatchToken(sh, s, i) == Some(j) <==> TokenAt(sh, s, i, j)
  {
    forall j | TokenAt(sh, s, i, j)
      ensures MatchToken(sh, s, i) == Some(j)
    {
      assert s[j] == sh.close[0];
      assert FindChar(s, i + |sh.open|, sh.stop) == j;
    }
  }

  /** `re.sub` from position `i` on: a match is replaced and the scan goes on
      after it, any other character is copied. */
  function SubFrom(sh: Shape, s: string, i: nat): string
    requires i <= |s|
    decreases |s| - i
  {
    if i == |s| then []
    else
      var m := MatchToken(sh, s, i);
      if m.Some? then Replacement(sh, s[i + |sh.open|..m.value]) + SubFrom(sh, s, m.value + |sh.close|)
      else [s[i]] + SubFrom(sh, s, i + 1)
  }

  /** One pass over the whole text. */
  function Sub(sh: Shape, s: string): string {
    SubFrom(sh, s, 0)
  }

  /** The four passes in the order `process_data` runs them. */
  function RewriteAll(s: string): string {
    Sub(Insert, Sub(RightAppend, Sub(LeftAppend, Sub(Wholesale, s))))
  }

  /** The scan from `i` copies `s[i..p]` and then goes on as the scan from `p`. */
  predicate CopiesUpTo(sh: Shape, s: string, i: nat, p: nat)
    requires i <= p <= |s|
  {
    SubFrom(sh, s, i) == s[i..p] + SubFrom(sh, s, p)
  }

  /** A position where no match starts is copied, in front of the rest. */
  lemma CopyStep(sh: Shape, s: string, i: nat, p: nat)
    requires WellFormed(sh) && i < p <= |s|
    requires forall j :: !TokenAt(sh, s, i, j)
    requires CopiesUpTo(sh, s, i + 1, p)
    ensures CopiesUpTo(sh, s, i, p)
  {
    MatchTokenSpec(sh, s, i);
    assert SubFrom(sh, s, i) == [s[i]] + SubFrom(sh, s, i + 1);
    assert s[i..p] == [s[i]] + s[i + 1..p];
    Assoc([s[i]], s[i + 1..p], SubFrom(sh, s, p));
  }

  lemma {:induction false} CopiesUpToHolds(sh: Shape, s: string, i: nat, p: nat)
    requires WellFormed(sh) && i <= p <= |s|
    requires forall q, j :: i <= q < p ==> !TokenAt(sh, s, q, j)
    ensures CopiesUpTo(sh, s, i, p)
    decreases p - i
  {
    if i < p {
      CopiesUpToHolds(sh, s, i + 1, p);
      CopyStep(sh, s, i, p);
    }
  }

  /** Characters before the next match are copied unchanged. */
  lemma SubSkip(sh: Shape, s: string, i: nat, p: nat)
    requires WellFormed(sh) && i <= p <= |s|
    requires forall q, j :: i <= q < p ==> !TokenAt(sh, s, q, j)
    ensures SubFrom(sh, s, i) == s[i..p] + SubFrom(sh, s, p)
  {
    CopiesUpToHolds(sh, s, i, p);
  }

  /** A match is replaced by the template around its key, and the scan
      resumes right after its closing delimiter. */
  lemma SubToken(sh: Shape, s: string, p: nat, j: nat)
    requires WellFormed(sh) && p <= |s|
    requires TokenAt(sh, s, p, j)
    ensures j + |sh.close| <= |s|
    ensures SubFrom(sh, s, p) == Replacement(sh, s[p + |sh.open|..j]) + SubFrom(sh, s, j + |sh.close|)
  {
    MatchTokenSpec(sh, s, p);
  }

  /** The leftmost match of the text is the first thing replaced: the text
      before it is kept, the match becomes the template around its key, and
      the rest is rewritten the same way. */
  lemma SubLeftmost(sh: Shape, s: string, p: nat, j: nat)
    requires WellFormed(sh) && p <= |s|
    requires TokenAt(sh, s, p, j)
    requires forall q, k :: q < p ==> !TokenAt(sh, s, q, k)
    ensures j + |sh.close| <= |s|
    ensures Sub(sh, s) == s[..p] + Replacement(sh, s[p + |sh.open|..j]) + SubFrom(sh, s, j + |sh.close|)
  {
    SubSkip(sh, s, 0, p);
    SubToken(sh, s, p, j);
  }

  /** A text without any match is left as it is. */
  lemma SubNoMatch(sh: Shape, s: string)
    requires WellFormed(sh)
    requires forall q, k :: !TokenAt(sh, s, q, k)
    ensures Sub(sh, s) == s
  {
    SubSkip(sh, s, 0, |s|);
  }

  /** In particular a text in which the opening delimiter never occurs. */
  lemma SubNoOpen(sh: Shape, s: string)
    requires WellFormed(sh)
    requires forall q :: !OccursAt(s, q, sh.open)
    ensures Sub(sh, s) == s
  {
    SubNoMatch(sh, s);
  }

  lemma ShapesWellFormed()
    ensures WellFormed(Wholesale) && WellFormed(LeftAppend)
    ensures WellFormed(RightAppend) && WellFormed(Insert)
  {
  }

  /** A text holding none of the four opening delimiters comes out of the
      rewriting unchanged. */
  lemma RewriteNoTokens(s: string)
    requires forall q :: !OccursAt(s, q, Wholesale.open)
    requires forall q :: !OccursAt(s, q, LeftAppend.open)
    requires forall q :: !OccursAt(s, q, RightAppend.open)
    requires forall q :: !OccursAt(s, q, Insert.open)
    ensures RewriteAll(s) == s
  {
    ShapesWellFormed();
    SubNoOpen(Wholesale, s);
    SubNoOpen(LeftAppend, s);
    SubNoOpen(RightAppend, s);
    SubNoOpen(Insert, s);
  }

  /** Running the rewriting a second time changes nothing, provided the
      first run left none of the four opening delimiters behind. */
  lemma RewriteAgain(s: string)
    requires var t := RewriteAll(s);
      && (forall q :: !OccursAt(t, q, Wholesale.open))
      && (forall q :: !OccursAt(t, q, LeftAppend.open))
      && (forall q :: !OccursAt(t, q, RightAppend.open))
      && (forall q :: !OccursAt(t, q, Insert.open))
    ensures RewriteAll(RewriteAll(s)) == RewriteAll(s)
  {
    RewriteNoTokens(RewriteAll(s));
  }
}
