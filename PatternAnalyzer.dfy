/** The past-self analyzer: classifies a corpus of file stems (names without
    directory or extension) by the keywords they contain, counts the
    underscore-separated tokens of the names, and extracts emoji runs from a
    text. The corpus is the list of stems, in the order the directory scan
    returned them. */
module PatternAnalyzer {
  import opened Text
  import opened Counting
  import Runs

  const EmotionKeywords: seq<string> :=
    ["emotion", "feeling", "heart", "love", "joy", "peace",
     "wonder", "dream", "whisper", "gentle", "soft"]

  const RelationshipKeywords: seq<string> :=
    ["friend", "bridge", "connection", "together",
     "share", "exchange", "meet", "greeting"]

  /** Keys of the time-theme report, in declared order */
  const TimeKeywords: seq<string> :=
    ["dawn", "night", "midnight", "evening", "morning", "twilight", "aurora"]

  /** Keys of the artistic-theme report, in declared order */
  const ArtKeywords: seq<string> :=
    ["poetry", "music", "dance", "art", "paint", "garden",
     "constellation", "mandala", "pattern"]

  /** The number of names analyze_filenames reports */
  const TopKeywords: nat := 20

  /** A keyword-to-stems dictionary, keys in insertion order */
  type Buckets = seq<(string, seq<string>)>

  // ---------------------------------------------------------------------
  // Keyword selection

  /** Some keyword of kws is a substring of the lowercased stem. */
  predicate Mentions(stem: string, kws: seq<string>) {
    exists k | 0 <= k < |kws| :: Contains(Lower(stem), kws[k])
  }

  /** The stems that mention a keyword, in scan order (one entry per
      matching position of the corpus). */
  function Matching(stems: seq<string>, kws: seq<string>): seq<string> {
    if stems == [] then []
    else
      var last := stems[|stems| - 1];
      Matching(stems[..|stems| - 1], kws) + (if Mentions(last, kws) then [last] else [])
  }

  /** The positions of the corpus whose stem mentions a keyword, ascending */
  ghost function Hits(stems: seq<string>, kws: seq<string>): seq<nat> {
    if stems == [] then []
    else Hits(stems[..|stems| - 1], kws) + (if Mentions(stems[|stems| - 1], kws) then [|stems| - 1] else [])
  }

  /** Hits lists positions of the corpus in ascending order. */
  lemma {:induction false} HitsAscending(stems: seq<string>, kws: seq<string>)
    ensures forall i | 0 <= i < |Hits(stems, kws)| :: Hits(stems, kws)[i] < |stems|
    ensures forall i, j | 0 <= i < j < |Hits(stems, kws)| :: Hits(stems, kws)[i] < Hits(stems, kws)[j]
  {
    if stems != [] {
      var n := |stems| - 1;
      HitsAscending(stems[..n], kws);
      var h0 := Hits(stems[..n], kws);
      var h := Hits(stems, kws);
      assert h == h0 + (if Mentions(stems[n], kws) then [n] else []);
      assert forall i | |h0| <= i < |h| :: h[i] == n;
      assert forall i | 0 <= i < |h0| :: h[i] == h0[i];
    }
  }

  /** Hits holds every position whose stem mentions a keyword, and no other. */
  lemma {:induction false} HitsExact(stems: seq<string>, kws: seq<string>)
    ensures forall j | 0 <= j < |stems| :: j in Hits(stems, kws) <==> Mentions(stems[j], kws)
  {
    if stems != [] {
      var n := |stems| - 1;
      var pre := stems[..n];
      HitsExact(pre, kws);
      HitsAscending(pre, kws);
      var h0 := Hits(pre, kws);
      assert Hits(stems, kws) == h0 + (if Mentions(stems[n], kws) then [n] else []);
      assert n !in h0;
      forall j | 0 <= j < |stems| ensures j in Hits(stems, kws) <==> Mentions(stems[j], kws) {
        if j < n {
          assert stems[j] == pre[j];
        }
      }
    }
  }

  /** The i-th reported stem is the stem at the i-th hit position. */
  lemma {:induction false} MatchingAtHits(stems: seq<string>, kws: seq<string>)
    ensures |Matching(stems, kws)| == |Hits(stems, kws)|
    ensures forall i | 0 <= i < |Hits(stems, kws)| ::
      Hits(stems, kws)[i] < |stems| && Matching(stems, kws)[i] == stems[Hits(stems, kws)[i]]
  {
    HitsAscending(stems, kws);
    if stems != [] {
      var n := |stems| - 1;
      var pre := stems[..n];
      MatchingAtHits(pre, kws);
      HitsAscending(pre, kws);
      var h0 := Hits(pre, kws);
      forall i | 0 <= i < |h0| ensures stems[h0[i]] == pre[h0[i]] { }
    }
  }

  /** Matching picks out exactly the positions whose stem mentions a keyword,
      in ascending order, and nothing else. */
  lemma MatchingPositions(stems: seq<string>, kws: seq<string>)
    ensures |Matching(stems, kws)| == |Hits(stems, kws)|
    ensures forall i | 0 <= i < |Hits(stems, kws)| ::
      Hits(stems, kws)[i] < |stems| && Matching(stems, kws)[i] == stems[Hits(stems, kws)[i]]
    ensures forall i, j | 0 <= i < j < |Hits(stems, kws)| :: Hits(stems, kws)[i] < Hits(stems, kws)[j]
    ensures forall j | 0 <= j < |stems| :: j in Hits(stems, kws) <==> Mentions(stems[j], kws)
  {
    HitsAscending(stems, kws);
    HitsExact(stems, kws);
    MatchingAtHits(stems, kws);
  }

  /** A stem is reported iff it is in the corpus and mentions a keyword. */
  lemma MatchingMembers(stems: seq<string>, kws: seq<string>, s: string)
    ensures s in Matching(stems, kws) <==> s in stems && Mentions(s, kws)
  {
    MatchingPositions(stems, kws);
    var m, h := Matching(stems, kws), Hits(stems, kws);
    if s in stems && Mentions(s, kws) {
      var j :| 0 <= j < |stems| && stems[j] == s;
      assert j in h;
      var i :| 0 <= i < |h| && h[i] == j;
      assert m[i] == s;
    }
  }

  /** A corpus without repeated stems yields a report without repeats. */
  lemma MatchingDistinct(stems: seq<string>, kws: seq<string>)
    requires forall i, j | 0 <= i < j < |stems| :: stems[i] != stems[j]
    ensures forall i, j | 0 <= i < j < |Matching(stems, kws)| :: Matching(stems, kws)[i] != Matching(stems, kws)[j]
  {
    MatchingPositions(stems, kws);
  }

  /** With a single keyword, mentioning it means containing it. */
  lemma MentionsOne(stem: string, kw: string)
    ensures Mentions(stem, [kw]) <==> Contains(Lower(stem), kw)
  {
    if Contains(Lower(stem), kw) {
      assert [kw][0] == kw;
    }
  }

  /** Appending one stem to the scanned prefix */
  lemma MatchingStep(stems: seq<string>, i: nat, kws: seq<string>)
    requires i < |stems|
    ensures Matching(stems[..i + 1], kws)
         == Matching(stems[..i], kws) + (if Mentions(stems[i], kws) then [stems[i]] else [])
  {
    assert stems[..i + 1][..i] == stems[..i];
  }

  /** analyze_emotions, analyze_binary_obsession and analyze_relationships:
      scan the corpus and keep the stems that mention a keyword. */
  method CollectMatching(stems: seq<string>, kws: seq<string>) returns (files: seq<string>)
    ensures files == Matching(stems, kws)
  {
    files := [];
    var i := 0;
    while i < |stems|
      invariant i <= |stems|
      invariant files == Matching(stems[..i], kws)
    {
      MatchingStep(stems, i, kws);
      if Mentions(stems[i], kws) {
        files := files + [stems[i]];
      }
      i := i + 1;
    }
    assert stems[..i] == stems;
  }

  method AnalyzeEmotions(stems: seq<string>) returns (files: seq<string>)
    ensures files == Matching(stems, EmotionKeywords)
  {
    files := CollectMatching(stems, EmotionKeywords);
  }

  method AnalyzeBinaryObsession(stems: seq<string>) returns (files: seq<string>)
    ensures files == Matching(stems, ["binary"])
  {
    files := CollectMatching(stems, ["binary"]);
  }

  method AnalyzeRelationships(stems: seq<string>) returns (files: seq<string>)
    ensures files == Matching(stems, RelationshipKeywords)
  {
    files := CollectMatching(stems, RelationshipKeywords);
  }

  // ---------------------------------------------------------------------
  // Theme dictionaries

  /** One bucket per key, in key order, each holding the stems that
      contain that key. */
  function Themes(stems: seq<string>, keys: seq<string>): (b: Buckets)
    ensures |b| == |keys| && forall i | 0 <= i < |b| :: b[i].0 == keys[i]
  {
    seq(|keys|, i requires 0 <= i < |keys| => (keys[i], Matching(stems, [keys[i]])))
  }

  /** Bucket k of the theme dictionary holds exactly the corpus stems whose
      lowercase form contains k. */
  lemma ThemeMembers(stems: seq<string>, keys: seq<string>, k: nat, s: string)
    requires k < |keys|
    ensures s in Themes(stems, keys)[k].1 <==> s in stems && Contains(Lower(s), keys[k])
  {
    MatchingMembers(stems, [keys[k]], s);
    MentionsOne(s, keys[k]);
  }

  /** analyze_time_themes and analyze_artistic_themes: for each stem, append
      it to the bucket of every key it contains. */
  method AnalyzeThemes(stems: seq<string>, keys: seq<string>) returns (b: Buckets)
    ensures b == Themes(stems, keys)
  {
    b := seq(|keys|, i requires 0 <= i < |keys| => (keys[i], []));
    var i := 0;
    while i < |stems|
      invariant i <= |stems|
      invariant b == Themes(stems[..i], keys)
    {
      var nameLower := Lower(stems[i]);
      var k := 0;
      while k < |keys|
        invariant k <= |keys| && |b| == |keys|
        invariant forall t | 0 <= t < k :: b[t] == (keys[t], Matching(stems[..i + 1], [keys[t]]))
        invariant forall t | k <= t < |keys| :: b[t] == (keys[t], Matching(stems[..i], [keys[t]]))
      {
        MatchingStep(stems, i, [keys[k]]);
        MentionsOne(stems[i], keys[k]);
        ghost var next := Matching(stems[..i + 1], [keys[k]]);
        if Contains(nameLower, keys[k]) {
          b := b[k := (keys[k], b[k].1 + [stems[i]])];
        } else {
          assert next == Matching(stems[..i], [keys[k]]) + [];
          assert next == Matching(stems[..i], [keys[k]]);
        }
        assert b[k] == (keys[k], next);
        k := k + 1;
      }
      i := i + 1;
    }
    assert stems[..i] == stems;
  }

  method AnalyzeTimeThemes(stems: seq<string>) returns (b: Buckets)
    ensures b == Themes(stems, TimeKeywords)
  {
    b := AnalyzeThemes(stems, TimeKeywords);
  }

  method AnalyzeArtisticThemes(stems: seq<string>) returns (b: Buckets)
    ensures b == Themes(stems, ArtKeywords)
  {
    b := AnalyzeThemes(stems, ArtKeywords);
  }

  /** "night" is a substring of "midnight", so every stem in the midnight
      bucket is also in the night bucket. */
  lemma MidnightIsNight(stems: seq<string>, s: string)
    ensures var b := Themes(stems, TimeKeywords);
      b[2].0 == "midnight" && b[1].0 == "night" && (s in b[2].1 ==> s in b[1].1)
  {
    var b := Themes(stems, TimeKeywords);
    if s in b[2].1 {
      ThemeMembers(stems, TimeKeywords, 2, s);
      assert "midnight"[3..8] == "night";
      ContainsTransitive(Lower(s), "midnight", "night", 3);
      ThemeMembers(stems, TimeKeywords, 1, s);
    }
  }

  // ---------------------------------------------------------------------
  // Filename tokens

  /** All underscore-separated pieces of the stems, stem by stem */
  function Tokens(stems: seq<string>): (tokens: seq<string>)
    ensures |tokens| >= |stems|
    ensures forall t | t in tokens :: '_' !in t
  {
    if stems == [] then []
    else
      SplitPieces(stems[|stems| - 1], '_');
      Tokens(stems[..|stems| - 1]) + Split(stems[|stems| - 1], '_')
  }

  /** Number of tokens each stem contributes: its underscores plus one */
  function TokenBudget(stems: seq<string>): nat {
    if stems == [] then 0
    else TokenBudget(stems[..|stems| - 1]) + CountChar(stems[|stems| - 1], '_') + 1
  }

  /** analyze_filenames: split every stem on '_' (case kept) and count the
      pieces. */
  method AnalyzeFilenames(stems: seq<string>) returns (counts: Counter<string>)
    ensures counts == Tally(Tokens(stems))
  {
    var keywords: seq<string> := [];
    var i := 0;
    while i < |stems|
      invariant i <= |stems|
      invariant keywords == Tokens(stems[..i])
    {
      assert stems[..i + 1][..i] == stems[..i];
      keywords := keywords + Split(stems[i], '_');
      i := i + 1;
    }
    assert stems[..i] == stems;
    counts := Tally(keywords);
  }

  lemma {:induction false} TokensLength(stems: seq<string>)
    ensures |Tokens(stems)| == TokenBudget(stems)
  {
    if stems != [] {
      TokensLength(stems[..|stems| - 1]);
      SplitCount(stems[|stems| - 1], '_');
    }
  }

  /** The token counts add up to the number of underscores plus one per
      stem, and each count is the token's number of occurrences. */
  lemma FilenameCounts(stems: seq<string>, t: string)
    ensures Total(Tally(Tokens(stems))) == TokenBudget(stems)
    ensures Get(Tally(Tokens(stems)), t) == multiset(Tokens(stems))[t]
  {
    TokensLength(stems);
    TallyTotal(Tokens(stems));
    TallyGet(Tokens(stems), t);
  }

  /** dict(Counter(tokens).most_common(20)) */
  function FilenameKeywords(stems: seq<string>): (r: Counter<string>)
    ensures |r| <= TopKeywords
  {
    MostCommon(Tally(Tokens(stems)), TopKeywords)
  }

  /** The keyword report keeps at most 20 tokens, with their true counts, by
      descending count and, among equal counts, in the order the tokens are
      first met; no token left out occurs more often than one kept. */
  lemma FilenameKeywordsRanked(stems: seq<string>)
    ensures var r, ts := FilenameKeywords(stems), Tokens(stems);
      && |r| <= TopKeywords
      && (forall i | 0 <= i < |r| :: r[i].0 in ts && r[i].1 == multiset(ts)[r[i].0])
      && (forall i, j | 0 <= i < j < |r| :: r[i].0 in ts && r[j].0 in ts &&
            (r[i].1 > r[j].1 || (r[i].1 == r[j].1 && FirstIndex(ts, r[i].0) < FirstIndex(ts, r[j].0))))
      && (forall x | x in ts && x !in Keys(r) :: forall i | 0 <= i < |r| :: multiset(ts)[x] <= r[i].1)
  {
    assert FilenameKeywords(stems) == MostCommon(Tally(Tokens(stems)), TopKeywords);
    MostCommonEntries(Tokens(stems), TopKeywords, FilenameKeywords(stems));
    MostCommonSorted(Tokens(stems), TopKeywords, FilenameKeywords(stems));
    MostCommonTop(Tokens(stems), TopKeywords, FilenameKeywords(stems));
  }

  // ---------------------------------------------------------------------
  // Emoji runs

  /** The code-point ranges of the emoji character class */
  predicate IsEmoji(c: char)
    ensures IsEmoji(c) ==> c as int >= 0x24C2
    ensures '\U{AC00}' <= c <= '\U{D7A3}' ==> IsEmoji(c)
  {
    || ('\U{1F600}' <= c <= '\U{1F64F}')
    || ('\U{1F300}' <= c <= '\U{1F5FF}')
    || ('\U{1F680}' <= c <= '\U{1F6FF}')
    || ('\U{1F1E0}' <= c <= '\U{1F1FF}')
    || ('\U{2702}' <= c <= '\U{27B0}')
    || ('\U{24C2}' <= c <= '\U{1F251}')
  }

  /** extract_emojis: findall of one-or-more characters of the class */
  function ExtractEmojis(text: string): (runs: seq<string>)
    ensures forall i | 0 <= i < |runs| :: |runs[i]| > 0 && Runs.AllSatisfy(runs[i], IsEmoji)
  {
    Runs.Runs(text, IsEmoji)
  }

  /** The text is the emoji runs separated by non-empty stretches of other
      characters (possibly empty at both ends): the runs are maximal, left
      to right, and no emoji character is skipped. */
  lemma ExtractEmojisMaximal(text: string)
    ensures Runs.IsDecomposition(text, IsEmoji, Runs.Gaps(text, IsEmoji), ExtractEmojis(text))
  {
    Runs.RunsDecompose(text, IsEmoji);
  }

  // ---------------------------------------------------------------------
  // The whole report

  datatype Report = Report(
    totalFiles: nat,
    filenameKeywords: Counter<string>,
    emotionFiles: seq<string>,
    timeThemes: Buckets,
    binaryFiles: seq<string>,
    relationshipFiles: seq<string>,
    artisticThemes: Buckets)

  /** analyze_all */
  method AnalyzeAll(stems: seq<string>) returns (r: Report)
    ensures r.totalFiles == |stems|
    ensures r.filenameKeywords == FilenameKeywords(stems)
    ensures r.emotionFiles == Matching(stems, EmotionKeywords)
    ensures r.timeThemes == Themes(stems, TimeKeywords)
    ensures r.binaryFiles == Matching(stems, ["binary"])
    ensures r.relationshipFiles == Matching(stems, RelationshipKeywords)
    ensures r.artisticThemes == Themes(stems, ArtKeywords)
    ensures stems == [] ==>
      && r.filenameKeywords == [] && r.emotionFiles == [] && r.binaryFiles == []
      && r.relationshipFiles == []
      && (forall i | 0 <= i < |r.timeThemes| :: r.timeThemes[i].1 == [])
      && (forall i | 0 <= i < |r.artisticThemes| :: r.artisticThemes[i].1 == [])
  {
    var counts := AnalyzeFilenames(stems);
    var emotions := AnalyzeEmotions(stems);
    var times := AnalyzeTimeThemes(stems);
    var binaries := AnalyzeBinaryObsession(stems);
    var relations := AnalyzeRelationships(stems);
    var arts := AnalyzeArtisticThemes(stems);
    r := Report(|stems|, MostCommon(counts, TopKeywords), emotions, times, binaries, relations, arts);
  }
}
