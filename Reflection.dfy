/** The self-reflection engine: records the choices made in answer to
    questions, keeps a per-category count of them, and measures how often
    consecutive choices fall in the same category. */
module Reflection {
  import opened Counting

  /** One recorded answer; the timestamp is an opaque ISO string */
  datatype Choice = Choice(category: string, choice: int, totalOptions: int, timestamp: string)

  /** First and last timestamps of the journey */
  datatype TimeSpan = TimeSpan(first: string, last: string)

  datatype Analysis =
    | NoChoices(message: string)
    | Summary(totalChoices: nat, categories: Counter<string>, consistency: real, timeSpan: TimeSpan)

  const NoChoicesMessage: string := "No choices recorded yet"

  function Categories(cs: seq<Choice>): (r: seq<string>)
    ensures |r| == |cs| && forall i | 0 <= i < |cs| :: r[i] == cs[i].category
  {
    seq(|cs|, i requires 0 <= i < |cs| => cs[i].category)
  }

  /** Number of positions i >= 1 whose category equals that of i - 1 */
  function SameAdjacent(cs: seq<Choice>): nat {
    if |cs| < 2 then 0
    else SameAdjacent(cs[..|cs| - 1]) + (if cs[|cs| - 1].category == cs[|cs| - 2].category then 1 else 0)
  }

  /** Share of adjacent pairs with equal categories; 0 below two choices */
  function Consistency(cs: seq<Choice>): (r: real)
    ensures 0.0 <= r <= 1.0
  {
    if |cs| < 2 then 0.0
    else
      SameAdjacentBound(cs);
      Proportion(SameAdjacent(cs) as real, (|cs| - 1) as real);
      SameAdjacent(cs) as real / (|cs| - 1) as real
  }

  /** At most every adjacent pair matches. */
  lemma {:induction false} SameAdjacentBound(cs: seq<Choice>)
    requires |cs| >= 1
    ensures SameAdjacent(cs) <= |cs| - 1
  {
    if |cs| >= 2 {
      SameAdjacentBound(cs[..|cs| - 1]);
    }
  }

  /** No pair matches exactly when every choice changes category. */
  lemma {:induction false} SameAdjacentNone(cs: seq<Choice>)
    ensures SameAdjacent(cs) == 0 <==>
      forall i | 1 <= i < |cs| :: cs[i].category != cs[i - 1].category
  {
    if |cs| >= 2 {
      var pre := cs[..|cs| - 1];
      SameAdjacentNone(pre);
      assert forall i | 0 <= i < |pre| :: pre[i] == cs[i];
    }
  }

  /** Every pair matches exactly when all choices share one category. */
  lemma {:induction false} SameAdjacentAll(cs: seq<Choice>)
    requires |cs| >= 1
    ensures SameAdjacent(cs) == |cs| - 1 <==>
      forall i | 0 <= i < |cs| :: cs[i].category == cs[0].category
  {
    if |cs| >= 2 {
      var pre := cs[..|cs| - 1];
      SameAdjacentAll(pre);
      SameAdjacentBound(pre);
      assert forall i | 0 <= i < |pre| :: pre[i] == cs[i];
    }
  }

  /** The consistency is a proportion: between 0 and 1, exactly 1 when all
      choices share a category (and there are at least two of them), and
      0 when fewer than two were made. */
  lemma ConsistencyRange(cs: seq<Choice>)
    ensures 0.0 <= Consistency(cs) <= 1.0
    ensures |cs| < 2 ==> Consistency(cs) == 0.0
    ensures |cs| >= 2 ==>
      (Consistency(cs) == 1.0 <==> forall i | 0 <= i < |cs| :: cs[i].category == cs[0].category)
  {
    if |cs| >= 2 {
      SameAdjacentBound(cs);
      SameAdjacentAll(cs);
      Proportion(SameAdjacent(cs) as real, (|cs| - 1) as real);
      assert (SameAdjacent(cs) as real == (|cs| - 1) as real) <==> SameAdjacent(cs) == |cs| - 1;
    }
  }

  /** A part of a positive whole, divided by it, lies in [0, 1] and is 1
      only for the whole. */
  lemma Proportion(k: real, d: real)
    requires 0.0 <= k <= d && d > 0.0
    ensures 0.0 <= k / d <= 1.0
    ensures k / d == 1.0 <==> k == d
  {
    var q := k / d;
    assert q * d == k;
    assert (1.0 - q) * d == d - k;
  }

  /** A choice appended to the journey adds one to its category's count. */
  lemma CountsAppend(cs: seq<Choice>, c: Choice)
    ensures Tally(Categories(cs + [c])) == Bump(Tally(Categories(cs)), c.category)
  {
    assert Categories(cs + [c])[..|cs|] == Categories(cs);
  }

  /** The category counts agree with the journey: each count is the number
      of choices in that category, and the counts add up to the number of
      choices. */
  lemma CountsMatchChoices(cs: seq<Choice>, category: string)
    ensures Get(Tally(Categories(cs)), category) == multiset(Categories(cs))[category]
    ensures Total(Tally(Categories(cs))) == |cs|
  {
    TallyGet(Categories(cs), category);
    TallyTotal(Categories(cs));
  }

  class SelfReflection {
    var choices: seq<Choice>
    var patterns: Counter<string>

    /** patterns counts the categories of choices, in order of first use */
    ghost predicate Valid()
      reads this
      ensures Valid() ==> Total(patterns) == |choices|
    {
      TallyTotal(Categories(choices));
      patterns == Tally(Categories(choices))
    }

    constructor()
      ensures Valid() && choices == [] && patterns == []
    {
      choices := [];
      patterns := [];
    }

    /** present_choice: shows the question (left out) and hands back the
        category, without touching the journey. */
    method PresentChoice(question: string, options: seq<string>, category: string) returns (c: string)
      ensures c == category
    {
      c := category;
    }

    /** record_choice, with the timestamp passed in */
    method RecordChoice(category: string, choiceIndex: int, totalOptions: int, timestamp: string)
      requires Valid()
      modifies this
      ensures Valid()
      ensures choices == old(choices) + [Choice(category, choiceIndex, totalOptions, timestamp)]
      ensures patterns == Bump(old(patterns), category)
      ensures forall c :: Get(patterns, c) == Get(old(patterns), c) + (if c == category then 1 else 0)
    {
      var choice := Choice(category, choiceIndex, totalOptions, timestamp);
      CountsAppend(choices, choice);
      choices := choices + [choice];
      forall c ensures Get(Bump(patterns, category), c) == Get(patterns, c) + (if c == category then 1 else 0) {
        BumpGet(patterns, category, c);
      }
      patterns := Bump(patterns, category);
    }

    /** _calculate_consistency */
    method CalculateConsistency() returns (r: real)
      ensures r == Consistency(choices)
    {
      if |choices| < 2 {
        return 0.0;
      }
      var same := 0;
      var i := 1;
      while i < |choices|
        invariant 1 <= i <= |choices|
        invariant same == SameAdjacent(choices[..i])
      {
        assert choices[..i + 1][..i] == choices[..i];
        if choices[i].category == choices[i - 1].category {
          same := same + 1;
        }
        i := i + 1;
      }
      assert choices[..i] == choices;
      r := same as real / (|choices| - 1) as real;
    }

    /** analyze_patterns */
    method AnalyzePatterns() returns (a: Analysis)
      requires Valid()
      ensures choices == [] ==> a == NoChoices(NoChoicesMessage)
      ensures choices != [] ==> a == Summary(|choices|, patterns, Consistency(choices),
        TimeSpan(choices[0].timestamp, choices[|choices| - 1].timestamp))
      ensures a.Summary? ==> Total(a.categories) == a.totalChoices && 0.0 <= a.consistency <= 1.0
    {
      if choices == [] {
        return NoChoices(NoChoicesMessage);
      }
      var consistency := CalculateConsistency();
      TallyTotal(Categories(choices));
      ConsistencyRange(choices);
      a := Summary(|choices|, patterns, consistency,
        TimeSpan(choices[0].timestamp, choices[|choices| - 1].timestamp));
    }

    /** The range check of the interactive driver: a choice is recorded only
        when it is between 1 and the number of options. */
    method AnswerScenario(question: string, options: seq<string>, category: string, choice: int, timestamp: string)
      requires Valid()
      modifies this
      ensures Valid()
      ensures 1 <= choice <= |options| ==>
        choices == old(choices) + [Choice(category, choice, |options|, timestamp)] &&
        patterns == Bump(old(patterns), category)
      ensures !(1 <= choice <= |options|) ==> choices == old(choices) && patterns == old(patterns)
    {
      var _ := PresentChoice(question, options, category);
      if 1 <= choice <= |options| {
        RecordChoice(category, choice, |options|, timestamp);
      }
    }
  }
}
