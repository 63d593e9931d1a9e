/** `replacerize`: the dummy-data file is passed through the replacer
    table before it is parsed. Every key of the table, in the table's
    iteration order, is replaced everywhere by its value with Python's
    `str.replace`, each replacement working on the text the previous one
    produced. The table is given as its items in iteration order. */
module Replacerizer {
  import opened Text

  /** `s` holds an occurrence of `k` somewhere. */
  predicate Contains(s: string, k: string) {
    exists i :: 0 <= i <= |s| && OccursAt(s, i, k)
  }

  /** Python's `s.replace(k, v)`: every occurrence of `k`, taken from the
      left without overlap, becomes `v`. An empty `k` occurs at every
      position, so `v` is put before each character and at the end. */
  function ReplaceAll(s: string, k: string, v: string): string
    decreases |s|
  {
    if k == [] then
      if s == [] then v else v + [s[0]] + ReplaceAll(s[1..], k, v)
    else if s == [] then []
    else if StartsWith(s, k) then v + ReplaceAll(s[|k|..], k, v)
    else [s[0]] + ReplaceAll(s[1..], k, v)
  }

  /** The table applied entry by entry, each entry to the previous result. */
  function ReplaceChain(s: string, table: seq<(string, string)>): string
    decreases |table|
  {
    if table == [] then s
    else
      var last := table[|table| - 1];
      ReplaceAll(ReplaceChain(s, table[..|table| - 1]), last.0, last.1)
  }

  /** The loop of `replacerize`. */
  method Replacerize(fileData: string, table: seq<(string, string)>) returns (r: string)
    ensures r == ReplaceChain(fileData, table)
  {
    r := fileData;
    for i := 0 to |table|
      invariant r == ReplaceChain(fileData, table[..i])
    {
      assert table[..i + 1][..i] == table[..i];
      r := ReplaceAll(r, table[i].0, table[i].1);
    }
    assert table[..|table|] == table;
  }

  /** A non-empty key that does not occur leaves the text unchanged. */
  lemma {:induction false} ReplaceAbsent(s: string, k: string, v: string)
    requires k != [] && !Contains(s, k)
    ensures ReplaceAll(s, k, v) == s
    decreases |s|
  {
    if s != [] {
      assert !OccursAt(s, 0, k);
      assert !StartsWith(s, k);
      forall i | 0 <= i <= |s[1..]|
        ensures !OccursAt(s[1..], i, k)
      {
        if OccursAt(s[1..], i, k) {
          assert s[i + 1..i + 1 + |k|] == s[1..][i..i + |k|];
          assert OccursAt(s, i + 1, k);
          assert false;
        }
      }
      ReplaceAbsent(s[1..], k, v);
    }
  }

  /** Where the `k`-th copy of the value starts when the key is empty:
      each copy is followed by one character of the text. */
  function Slot(v: string, k: nat): (p: nat)
    ensures p == k * (|v| + 1)
  {
    if k == 0 then 0 else Slot(v, k - 1) + |v| + 1
  }

  lemma SlotNext(v: string, k: nat)
    ensures Slot(v, k + 1) == Slot(v, k) + |v| + 1
  {
  }

  /** The value and the text's characters sit at their slots. */
  predicate SlotsFilled(r: string, s: string, v: string) {
    && |r| == |s| + (|s| + 1) * |v|
    && (forall k :: 0 <= k <= |s| ==> OccursAt(r, Slot(v, k), v))
    && (forall k :: 0 <= k < |s| ==> Slot(v, k) + |v| < |r| && r[Slot(v, k) + |v|] == s[k])
  }

  /** Slots filled in `rest` are filled one slot further on in `v + [c] + rest`. */
  lemma SlotsStep(s: string, v: string, rest: string)
    requires s != [] && SlotsFilled(rest, s[1..], v)
    ensures SlotsFilled(v + [s[0]] + rest, s, v)
  {
    var r := v + [s[0]] + rest;
    MulStep(|s| - 1, |v|);
    forall k | 0 <= k <= |s|
      ensures OccursAt(r, Slot(v, k), v)
    {
      ValueAtSlot(s, v, rest, k);
    }
    forall k | 0 <= k < |s|
      ensures r[Slot(v, k) + |v|] == s[k]
    {
      CharAtSlot(s, v, rest, k);
    }
  }

  lemma MulStep(n: nat, w: nat)
    ensures (n + 2) * w == (n + 1) * w + w
  {
  }

  lemma ValueAtSlot(s: string, v: string, rest: string, k: nat)
    requires s != [] && k <= |s|
    requires forall k :: 0 <= k <= |s[1..]| ==> OccursAt(rest, Slot(v, k), v)
    ensures OccursAt(v + [s[0]] + rest, Slot(v, k), v)
  {
    var r := v + [s[0]] + rest;
    if k == 0 {
      assert r[0..|v|] == v;
    } else {
      var p := Slot(v, k - 1);
      SlotNext(v, k - 1);
      assert OccursAt(rest, p, v);
      assert r[p + |v| + 1..p + |v| + 1 + |v|] == rest[p..p + |v|];
    }
  }

  lemma CharAtSlot(s: string, v: string, rest: string, k: nat)
    requires s != [] && k < |s|
    requires |rest| == |s[1..]| + (|s[1..]| + 1) * |v|
    requires forall k :: 0 <= k < |s[1..]| ==> Slot(v, k) + |v| < |rest| && rest[Slot(v, k) + |v|] == s[1..][k]
    ensures Slot(v, k) + |v| < |v + [s[0]] + rest|
    ensures (v + [s[0]] + rest)[Slot(v, k) + |v|] == s[k]
  {
    if k > 0 {
      var p := Slot(v, k - 1);
      SlotNext(v, k - 1);
      assert rest[p + |v|] == s[1..][k - 1];
    }
  }

  /** The empty key puts the value at each of the `|s| + 1` positions, and
      the text's characters sit one by one between the copies. */
  lemma {:induction false} ReplaceEmptyKey(s: string, v: string)
    ensures var r := ReplaceAll(s, [], v);
      && |r| == |s| + (|s| + 1) * |v|
      && (forall k :: 0 <= k <= |s| ==> OccursAt(r, Slot(v, k), v))
      && (forall k :: 0 <= k < |s| ==> Slot(v, k) + |v| < |r| && r[Slot(v, k) + |v|] == s[k])
    decreases |s|
  {
    if s == [] {
      assert ReplaceAll(s, [], v)[0..|v|] == v;
    } else {
      ReplaceEmptyKey(s[1..], v);
      SlotsStep(s, v, ReplaceAll(s[1..], [], v));
    }
  }

  /** Dropping the first character shifts every occurrence one place left. */
  lemma OccursShift(s: string, k: string, p: nat)
    requires s != []
    ensures OccursAt(s[1..], p, k) <==> OccursAt(s, p + 1, k)
  {
    if p + |k| <= |s[1..]| {
      assert s[1..][p..p + |k|] == s[p + 1..p + 1 + |k|];
    }
  }

  /** A position where the key does not start is copied. */
  lemma ReplaceSkip(s: string, k: string, v: string)
    requires k != [] && s != [] && !StartsWith(s, k)
    ensures ReplaceAll(s, k, v) == [s[0]] + ReplaceAll(s[1..], k, v)
  {
  }

  /** Occurrences after the first character, seen from the second one. */
  lemma ShiftOccurrences(s: string, k: string, i: nat)
    requires 0 < i && OccursAt(s, i, k)
    requires forall p :: 0 <= p < i ==> !OccursAt(s, p, k)
    ensures OccursAt(s[1..], i - 1, k)
    ensures forall p :: 0 <= p < i - 1 ==> !OccursAt(s[1..], p, k)
  {
    OccursShift(s, k, i - 1);
    forall p | 0 <= p < i - 1
      ensures !OccursAt(s[1..], p, k)
    {
      OccursShift(s, k, p);
    }
  }

  /** Replacing splits at an occurrence of `k` at `i`: what comes before it,
      the value in its place, and the replacing of what follows it. */
  predicate SplitsAt(s: string, k: string, v: string, i: nat)
    requires i + |k| <= |s|
  {
    ReplaceAll(s, k, v) == s[..i] + (v + ReplaceAll(s[i + |k|..], k, v))
  }

  /** The split carried back over one copied character. */
  lemma LeftmostStep(s: string, t: string, k: string, v: string, i: nat)
    requires k != [] && 0 < i && i + |k| <= |s| && !OccursAt(s, 0, k) && t == s[1..]
    requires SplitsAt(t, k, v, i - 1)
    ensures SplitsAt(s, k, v, i)
  {
    assert t[i - 1 + |k|..] == s[i + |k|..];
    var rest := v + ReplaceAll(s[i + |k|..], k, v);
    assert s[0..|k|] == s[..|k|];
    ReplaceSkip(s, k, v);
    assert [s[0]] + t[..i - 1] == s[..i];
    Assoc([s[0]], t[..i - 1], rest);
  }

  lemma {:induction false} SplitsAtLeftmost(s: string, k: string, v: string, i: nat)
    requires k != [] && OccursAt(s, i, k)
    requires forall p :: 0 <= p < i ==> !OccursAt(s, p, k)
    ensures SplitsAt(s, k, v, i)
    decreases i
  {
    if i == 0 {
      assert StartsWith(s, k);
    } else {
      var t := s[1..];
      assert !OccursAt(s, 0, k);
      ShiftOccurrences(s, k, i);
      SplitsAtLeftmost(t, k, v, i - 1);
      LeftmostStep(s, t, k, v, i);
    }
  }

  /** Before the first occurrence of a non-empty key the text is copied;
      that occurrence becomes the value, and replacing goes on after it. */
  lemma ReplaceLeftmost(s: string, k: string, v: string, i: nat)
    requires k != [] && OccursAt(s, i, k)
    requires forall p :: 0 <= p < i ==> !OccursAt(s, p, k)
    ensures ReplaceAll(s, k, v) == s[..i] + (v + ReplaceAll(s[i + |k|..], k, v))
  {
    SplitsAtLeftmost(s, k, v, i);
  }

  /** Running the table's entries in two stretches is running the whole
      table: each entry works on what the entries before it produced. */
  lemma {:induction false} ReplaceChainAppend(s: string, t1: seq<(string, string)>, t2: seq<(string, string)>)
    ensures ReplaceChain(s, t1 + t2) == ReplaceChain(ReplaceChain(s, t1), t2)
    decreases |t2|
  {
    if t2 == [] {
      assert t1 + t2 == t1;
    } else {
      var t2i := t2[..|t2| - 1];
      assert (t1 + t2)[..|t1 + t2| - 1] == t1 + t2i;
      ReplaceChainAppend(s, t1, t2i);
    }
  }

  /** When no key of the table occurs in the text and none is empty, the
      text comes out unchanged; an empty table in particular changes
      nothing. */
  lemma {:induction false} ReplaceChainAbsent(s: string, table: seq<(string, string)>)
    requires forall e :: e in table ==> e.0 != [] && !Contains(s, e.0)
    ensures ReplaceChain(s, table) == s
    decreases |table|
  {
    if table != [] {
      var init, last := table[..|table| - 1], table[|table| - 1];
      assert forall e :: e in init ==> e in table;
      ReplaceChainAbsent(s, init);
      assert last in table;
      ReplaceAbsent(s, last.0, last.1);
    }
  }
}
