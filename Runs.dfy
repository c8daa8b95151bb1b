/** Maximal runs of characters that satisfy a predicate: what
    re.findall returns for a pattern `[class]+`, and what str.split() with no
    argument returns when the predicate is "not whitespace". */
module Runs {

  /** every character of s satisfies p */
  predicate AllSatisfy(s: string, p: char -> bool) {
    forall i | 0 <= i < |s| :: p(s[i])
  }
  /** no character of s satisfies p */
  predicate NoneSatisfy(s: string, p: char -> bool) {
    forall i | 0 <= i < |s| :: !p(s[i])
  }
  /** Length of the longest prefix of s whose characters all satisfy p */
  function LeadingRun(s: string, p: char -> bool): (k: nat)
    ensures k <= |s| && AllSatisfy(s[..k], p)
    ensures k < |s| ==> !p(s[k])
    decreases |s|
  {
    if s == [] || !p(s[0]) then 0 else 1 + LeadingRun(s[1..], p)
  }
  /** The maximal non-empty runs of characters satisfying p, left to right */
  function Runs(s: string, p: char -> bool): (runs: seq<string>)
    ensures forall i | 0 <= i < |runs| :: |runs[i]| > 0 && AllSatisfy(runs[i], p)
    decreases |s|
  {
    if s == [] then []
    else if !p(s[0]) then Runs(s[1..], p)
    else
      var k := LeadingRun(s, p);
      [s[..k]] + Runs(s[k..], p)
  }
  /** The stretches between the runs (the first and the last may be empty) */
  function Gaps(s: string, p: char -> bool): (gaps: seq<string>)
    ensures |gaps| >= 1
    ensures s != [] && !p(s[0]) ==> |gaps[0]| > 0
    decreases |s|
  {
    if s == [] then [""]
    else if !p(s[0]) then
      var g := Gaps(s[1..], p);
      [[s[0]] + g[0]] + g[1..]
    else [""] + Gaps(s[LeadingRun(s, p)..], p)
  }
  /** gaps[0] + runs[0] + gaps[1] + ... + runs[n-1] + gaps[n] */
  function Interleave(gaps: seq<string>, runs: seq<string>): string
    requires |gaps| == |runs| + 1
    decreases |runs|
  {
    if runs == [] then gaps[0]
    else gaps[0] + runs[0] + Interleave(gaps[1..], runs[1..])
  }
  /** s is `runs` separated by stretches `gaps` of characters outside p,
      each stretch between two runs being non-empty */
  ghost predicate IsDecomposition(s: string, p: char -> bool, gaps: seq<string>, runs: seq<string>) {
    && |gaps| == |runs| + 1
    && s == Interleave(gaps, runs)
    && (forall i | 0 <= i < |gaps| :: NoneSatisfy(gaps[i], p))
    && (forall i | 0 < i < |runs| :: |gaps[i]| > 0)
  }
  lemma InterleaveCons(c: char, g: seq<string>, runs: seq<string>)
    requires |g| == |runs| + 1
    ensures Interleave([[c] + g[0]] + g[1..], runs) == [c] + Interleave(g, runs)
  {
    var gs := [[c] + g[0]] + g[1..];
    if runs != [] {
      assert gs[1..] == g[1..];
      AppendAssoc3(c, g[0], runs[0], Interleave(g[1..], runs[1..]));
    }
  }
  lemma AppendAssoc3(c: char, a: string, b: string, t: string)
    ensures [c] + a + b + t == [c] + (a + b + t)
  {
  }
  lemma InterleaveRun(r: string, g: seq<string>, runs: seq<string>)
    requires |g| == |runs| + 1
    ensures Interleave([""] + g, [r] + runs) == r + Interleave(g, runs)
  {
    var gs, rs := [""] + g, [r] + runs;
    assert gs[1..] == g && rs[1..] == runs;
    assert "" + r == r;
  }
  lemma OutsideCons(c: char, g: seq<string>, p: char -> bool)
    requires |g| >= 1 && !p(c)
    requires forall i | 0 <= i < |g| :: NoneSatisfy(g[i], p)
    ensures forall i | 0 <= i < |g| :: NoneSatisfy(([[c] + g[0]] + g[1..])[i], p)
  {
    var gs := [[c] + g[0]] + g[1..];
    forall i | 0 <= i < |g| ensures NoneSatisfy(gs[i], p) {
      if i > 0 {
        assert gs[i] == g[i];
      } else {
        assert NoneSatisfy(g[0], p);
      }
    }
  }

  lemma OutsideRun(g: seq<string>, p: char -> bool)
    requires forall i | 0 <= i < |g| :: NoneSatisfy(g[i], p)
    ensures forall i | 0 <= i < |g| + 1 :: NoneSatisfy(([""] + g)[i], p)
  {
    forall i | 0 <= i < |g| + 1 ensures NoneSatisfy(([""] + g)[i], p) {
      if i > 0 {
        assert ([""] + g)[i] == g[i - 1];
      }
    }
  }

  lemma InnerRun(r: string, g: seq<string>, runs: seq<string>, p: char -> bool)
    requires |g| == |runs| + 1
    requires forall i | 0 < i < |runs| :: |g[i]| > 0
    requires runs != [] ==> |g[0]| > 0
    ensures forall i | 0 < i < |runs| + 1 :: |([""] + g)[i]| > 0
  {
    forall i | 0 < i < |runs| + 1 ensures |([""] + g)[i]| > 0 {
      assert ([""] + g)[i] == g[i - 1];
    }
  }

  /** A character outside p in front of a decomposition joins its first gap. */
  lemma PrependOutside(c: char, t: string, p: char -> bool, g: seq<string>, rs: seq<string>)
    requires !p(c) && IsDecomposition(t, p, g, rs)
    ensures IsDecomposition([c] + t, p, [[c] + g[0]] + g[1..], rs)
  {
    InterleaveCons(c, g, rs);
    OutsideCons(c, g, p);
    assert ([[c] + g[0]] + g[1..])[1..] == g[1..];
  }

  /** A run in front of a decomposition that starts with a gap becomes its
      first run, behind an empty gap. */
  lemma PrependRun(r: string, t: string, p: char -> bool, g: seq<string>, rs: seq<string>)
    requires IsDecomposition(t, p, g, rs)
    requires rs != [] ==> |g[0]| > 0
    ensures IsDecomposition(r + t, p, [""] + g, [r] + rs)
  {
    InterleaveRun(r, g, rs);
    OutsideRun(g, p);
    InnerRun(r, g, rs, p);
  }

  lemma DecomposeSkip(s: string, p: char -> bool)
    requires s != [] && !p(s[0])
    requires IsDecomposition(s[1..], p, Gaps(s[1..], p), Runs(s[1..], p))
    ensures IsDecomposition(s, p, Gaps(s, p), Runs(s, p))
  {
    PrependOutside(s[0], s[1..], p, Gaps(s[1..], p), Runs(s[1..], p));
    assert [s[0]] + s[1..] == s;
  }

  lemma DecomposeTake(s: string, p: char -> bool, k: nat)
    requires s != [] && p(s[0]) && k == LeadingRun(s, p)
    requires IsDecomposition(s[k..], p, Gaps(s[k..], p), Runs(s[k..], p))
    ensures IsDecomposition(s, p, Gaps(s, p), Runs(s, p))
  {
    var rest := s[k..];
    var g := Gaps(rest, p);
    var rs := Runs(rest, p);
    if rs != [] {
      assert rest != [] && rest[0] == s[k];
    }
    PrependRun(s[..k], rest, p, g, rs);
    assert s[..k] + rest == s;
  }

  /** s is its runs separated by non-empty stretches of characters outside p:
      every run is maximal and nothing satisfying p is left out. */
  lemma {:induction false} RunsDecompose(s: string, p: char -> bool)
    ensures IsDecomposition(s, p, Gaps(s, p), Runs(s, p))
    decreases |s|
  {
    if s == [] {
    } else if !p(s[0]) {
      RunsDecompose(s[1..], p);
      DecomposeSkip(s, p);
    } else {
      RunsDecompose(s[LeadingRun(s, p)..], p);
      DecomposeTake(s, p, LeadingRun(s, p));
    }
  }
}
