/** The code emotion clock: the hour picks a period of the day, the period
    a mood label, the label's second word a code snippet, and the hour and
    minute are shown as binary dots. */
module EmotionClock {
  import opened Text
  import Runs

  /** get_time_period, with the hour passed in */
  function GetTimePeriod(hour: int): (period: string)
    ensures period in Emotions
  {
    if 5 <= hour < 12 then "morning"
    else if 12 <= hour < 18 then "afternoon"
    else if 18 <= hour < 22 then "evening"
    else "night"
  }

  /** Mood labels of each period: an icon, a space and the mood */
  const MorningLabels: seq<string> := ["\U{2600}\U{FE0F} 활기찬", "\U{1F305} 희망찬", "\U{1F324}\U{FE0F} 상쾌한"]
  const AfternoonLabels: seq<string> := ["\U{1F60A} 평온한", "\U{1F33B} 따뜻한", "\U{2615} 나른한"]
  const EveningLabels: seq<string> := ["\U{1F306} 고요한", "\U{1F319} 차분한", "\U{2728} 몽환적인"]
  const NightLabels: seq<string> := ["\U{1F303} 깊은", "\U{1F4AB} 신비로운", "\U{1F30C} 무한한"]

  const Emotions: map<string, seq<string>> := map[
    "morning" := MorningLabels,
    "afternoon" := AfternoonLabels,
    "evening" := EveningLabels,
    "night" := NightLabels
  ]

  /** Mood to code snippet */

  const CodeMoods: map<string, string> := map[
    "활기찬" := "while energy > 0:\n    create()\n    energy += joy",
    "희망찬" := "if tomorrow:\n    hope.append(dream)\n    return possibility",
    "상쾌한" := "morning.refresh()\nmind.clear()\nday.start()",
    "평온한" := "try:\n    peace = True\nexcept stress:\n    breathe()",
    "따뜻한" := "heart.temperature = warm\nfor friend in life:\n    hug(friend)",
    "나른한" := "import afternoon\nwhile coffee:\n    code.write(slowly)",
    "고요한" := "silence = golden\nthoughts.filter(important)\nreturn calm",
    "차분한" := "mind.speed = gentle\nfor moment in now:\n    appreciate()",
    "몽환적인" := "reality.blend(dream)\nwhile stars:\n    imagine(∞)",
    "깊은" := "depth = thoughts.measure()\nif depth > surface:\n    dive_deeper()",
    "신비로운" := "mystery = universe.secret\nwhile curious:\n    explore(mystery)",
    "무한한" := "for star in cosmos:\n    wonder += 1\nreturn endless"
  ]

  /** The snippet shown for a mood the table does not know */
  const FallbackCode: string := "pass # 감정 처리 중..."

  /** The hour ranges of the periods: 5 to 11 is morning, 12 to 17
      afternoon, 18 to 21 evening, and every other hour night; whatever the
      hour, the period has labels to draw from. */
  lemma TimePeriodRanges(hour: int)
    ensures GetTimePeriod(hour) == "morning" <==> 5 <= hour <= 11
    ensures GetTimePeriod(hour) == "afternoon" <==> 12 <= hour <= 17
    ensures GetTimePeriod(hour) == "evening" <==> 18 <= hour <= 21
    ensures GetTimePeriod(hour) == "night" <==> hour < 5 || hour >= 22
    ensures GetTimePeriod(hour) in Emotions && |Emotions[GetTimePeriod(hour)]| == 3
  {
  }

  // ---------------------------------------------------------------------
  // Labels and moods

  /** The characters str.isspace() accepts, which str.split() splits at */
  predicate IsSpace(c: char) {
    || c == ' ' || '\t' <= c <= '\r' || '\U{1C}' <= c <= '\U{1F}'
    || c == '\U{85}' || c == '\U{A0}' || c == '\U{1680}' || '\U{2000}' <= c <= '\U{200A}'
    || c == '\U{2028}' || c == '\U{2029}' || c == '\U{202F}' || c == '\U{205F}' || c == '\U{3000}'
  }

  predicate IsWordChar(c: char) {
    !IsSpace(c)
  }

  /** str.split() with no argument: the maximal runs of non-space
      characters */
  function Words(s: string): (words: seq<string>)
    ensures forall i | 0 <= i < |words| ::
      |words[i]| > 0 && forall j | 0 <= j < |words[i]| :: !IsSpace(words[i][j])
  {
    Runs.Runs(s, IsWordChar)
  }

  /** emotion.split()[1], which fails on a label of fewer than two words */
  function MoodName(emotion: string): (r: Result<string>)
    ensures r.Ok? <==> |Words(emotion)| >= 2
  {
    var words := Words(emotion);
    if |words| >= 2 then Ok(words[1]) else Err("list index out of range")
  }

  /** The snippet table's entries, one lookup per lemma */
  lemma Snippet00()
    ensures CodeMoods["활기찬"] == "while energy > 0:\n    create()\n    energy += joy"
  {
  }
  lemma Snippet01()
    ensures CodeMoods["희망찬"] == "if tomorrow:\n    hope.append(dream)\n    return possibility"
  {
  }
  lemma Snippet02()
    ensures CodeMoods["상쾌한"] == "morning.refresh()\nmind.clear()\nday.start()"
  {
  }
  lemma Snippet03()
    ensures CodeMoods["평온한"] == "try:\n    peace = True\nexcept stress:\n    breathe()"
  {
  }
  lemma Snippet04()
    ensures CodeMoods["따뜻한"] == "heart.temperature = warm\nfor friend in life:\n    hug(friend)"
  {
  }
  lemma Snippet05()
    ensures CodeMoods["나른한"] == "import afternoon\nwhile coffee:\n    code.write(slowly)"
  {
  }
  lemma Snippet06()
    ensures CodeMoods["고요한"] == "silence = golden\nthoughts.filter(important)\nreturn calm"
  {
  }
  lemma Snippet07()
    ensures CodeMoods["차분한"] == "mind.speed = gentle\nfor moment in now:\n    appreciate()"
  {
  }
  lemma Snippet08()
    ensures CodeMoods["몽환적인"] == "reality.blend(dream)\nwhile stars:\n    imagine(∞)"
  {
  }
  lemma Snippet09()
    ensures CodeMoods["깊은"] == "depth = thoughts.measure()\nif depth > surface:\n    dive_deeper()"
  {
  }
  lemma Snippet10()
    ensures CodeMoods["신비로운"] == "mystery = universe.secret\nwhile curious:\n    explore(mystery)"
  {
  }
  lemma Snippet11()
    ensures CodeMoods["무한한"] == "for star in cosmos:\n    wonder += 1\nreturn endless"
  {
  }

  /** Every snippet is longer than the fallback snippet. */
  lemma SnippetLength(k: string)
    requires k in CodeMoods
    ensures |CodeMoods[k]| > |FallbackCode|
  {
    CodeMoodNames();
    if k == "활기찬" {
      Snippet00();
    } else if k == "희망찬" {
      Snippet01();
    } else if k == "상쾌한" {
      Snippet02();
    } else if k == "평온한" {
      Snippet03();
    } else if k == "따뜻한" {
      Snippet04();
    } else if k == "나른한" {
      Snippet05();
    } else if k == "고요한" {
      Snippet06();
    } else if k == "차분한" {
      Snippet07();
    } else if k == "몽환적인" {
      Snippet08();
    } else if k == "깊은" {
      Snippet09();
    } else if k == "신비로운" {
      Snippet10();
    } else if k == "무한한" {
      Snippet11();
    }
  }

  /** No mood's snippet is the fallback snippet. */
  lemma FallbackNotASnippet()
    ensures FallbackCode !in CodeMoods.Values
  {
    forall k | k in CodeMoods
      ensures CodeMoods[k] != FallbackCode
    {
      SnippetLength(k);
    }
  }

  /** code_moods.get(mood, fallback): the fallback snippet is shown
      exactly for the moods the table does not know */
  function CodeFor(mood: string): (code: string)
    ensures code == FallbackCode <==> mood !in CodeMoods
    ensures code in CodeMoods.Values || code == FallbackCode
  {
    FallbackNotASnippet();
    if mood in CodeMoods then CodeMoods[mood] else FallbackCode
  }

  /** A leading word is the first run, and the split goes on after it. */
  lemma {:induction false} LeadingWord(w: string, rest: string)
    requires w != [] && Runs.AllSatisfy(w, IsWordChar)
    requires rest != [] && IsSpace(rest[0])
    ensures Runs.LeadingRun(w + rest, IsWordChar) == |w|
    decreases |w|
  {
    if |w| > 1 {
      assert (w + rest)[1..] == w[1..] + rest;
      LeadingWord(w[1..], rest);
    } else {
      assert (w + rest)[1..] == rest;
    }
  }

  /** The last word of a string is the whole string. */
  lemma {:induction false} LastWord(w: string)
    requires w != [] && Runs.AllSatisfy(w, IsWordChar)
    ensures Runs.LeadingRun(w, IsWordChar) == |w|
    decreases |w|
  {
    if |w| > 1 {
      LastWord(w[1..]);
    }
  }

  /** Two words joined by one space split back into those two words. */
  lemma TwoWords(a: string, b: string)
    requires a != [] && Runs.AllSatisfy(a, IsWordChar)
    requires b != [] && Runs.AllSatisfy(b, IsWordChar)
    ensures Words(a + " " + b) == [a, b]
  {
    var rest := " " + b;
    var s := a + rest;
    assert s == a + " " + b;
    LeadingWord(a, rest);
    assert s[0] == a[0] && IsWordChar(s[0]);
    assert s[..|a|] == a && s[|a|..] == rest;
    assert Runs.Runs(s, IsWordChar) == [a] + Runs.Runs(rest, IsWordChar);
    assert rest[1..] == b && !IsWordChar(rest[0]);
    assert Runs.Runs(rest, IsWordChar) == Runs.Runs(b, IsWordChar);
    LastWord(b);
    assert IsWordChar(b[0]);
    assert b[..|b|] == b && b[|b|..] == [];
    assert Runs.Runs(b, IsWordChar) == [b] + Runs.Runs([], IsWordChar);
  }

  /** A label made of an icon and a mood yields that mood. */
  lemma LabelMood(icon: string, mood: string)
    requires icon != [] && Runs.AllSatisfy(icon, IsWordChar)
    requires mood != [] && Runs.AllSatisfy(mood, IsWordChar)
    ensures MoodName(icon + " " + mood) == Ok(mood)
  {
    TwoWords(icon, mood);
  }

  /** The moods that have a snippet */
  const MoodNames: set<string> := {"활기찬", "희망찬", "상쾌한", "평온한", "따뜻한", "나른한", "고요한", "차분한", "몽환적인", "깊은", "신비로운", "무한한"}

  lemma CodeMoodNames()
    ensures CodeMoods.Keys == MoodNames
  {
  }

  /** Every label names a mood that has a snippet, so the fallback is
      never shown. */
  lemma EveryLabelHasCode(period: string, i: nat)
    requires period in Emotions && i < |Emotions[period]|
    ensures MoodName(Emotions[period][i]).Ok?
    ensures MoodName(Emotions[period][i]).value in CodeMoods
    ensures CodeFor(MoodName(Emotions[period][i]).value) != FallbackCode
  {
    CodeMoodNames();
    if period == "morning" {
      MorningLabelsHaveCode(i);
    } else if period == "afternoon" {
      AfternoonLabelsHaveCode(i);
    } else if period == "evening" {
      EveningLabelsHaveCode(i);
    } else {
      NightLabelsHaveCode(i);
    }
  }

  lemma MorningLabelsHaveCode(i: nat)
    requires i < |MorningLabels|
    ensures MoodName(MorningLabels[i]).Ok?
    ensures MoodName(MorningLabels[i]).value in MoodNames
  {
    if i == 0 {
      assert MorningLabels[0] == "\U{2600}\U{FE0F}" + " " + "활기찬";
      LabelMood("\U{2600}\U{FE0F}", "활기찬");
    } else if i == 1 {
      assert MorningLabels[1] == "\U{1F305}" + " " + "희망찬";
      LabelMood("\U{1F305}", "희망찬");
    } else {
      assert MorningLabels[2] == "\U{1F324}\U{FE0F}" + " " + "상쾌한";
      LabelMood("\U{1F324}\U{FE0F}", "상쾌한");
    }
  }

  lemma AfternoonLabelsHaveCode(i: nat)
    requires i < |AfternoonLabels|
    ensures MoodName(AfternoonLabels[i]).Ok?
    ensures MoodName(AfternoonLabels[i]).value in MoodNames
  {
    if i == 0 {
      assert AfternoonLabels[0] == "\U{1F60A}" + " " + "평온한";
      LabelMood("\U{1F60A}", "평온한");
    } else if i == 1 {
      assert AfternoonLabels[1] == "\U{1F33B}" + " " + "따뜻한";
      LabelMood("\U{1F33B}", "따뜻한");
    } else {
      assert AfternoonLabels[2] == "\U{2615}" + " " + "나른한";
      LabelMood("\U{2615}", "나른한");
    }
  }

  lemma EveningLabelsHaveCode(i: nat)
    requires i < |EveningLabels|
    ensures MoodName(EveningLabels[i]).Ok?
    ensures MoodName(EveningLabels[i]).value in MoodNames
  {
    if i == 0 {
      assert EveningLabels[0] == "\U{1F306}" + " " + "고요한";
      LabelMood("\U{1F306}", "고요한");
    } else if i == 1 {
      assert EveningLabels[1] == "\U{1F319}" + " " + "차분한";
      LabelMood("\U{1F319}", "차분한");
    } else {
      assert EveningLabels[2] == "\U{2728}" + " " + "몽환적인";
      LabelMood("\U{2728}", "몽환적인");
    }
  }

  lemma NightLabelsHaveCode(i: nat)
    requires i < |NightLabels|
    ensures MoodName(NightLabels[i]).Ok?
    ensures MoodName(NightLabels[i]).value in MoodNames
  {
    if i == 0 {
      assert NightLabels[0] == "\U{1F303}" + " " + "깊은";
      LabelMood("\U{1F303}", "깊은");
    } else if i == 1 {
      assert NightLabels[1] == "\U{1F4AB}" + " " + "신비로운";
      LabelMood("\U{1F4AB}", "신비로운");
    } else {
      assert NightLabels[2] == "\U{1F30C}" + " " + "무한한";
      LabelMood("\U{1F30C}", "무한한");
    }
  }

  // ---------------------------------------------------------------------
  // The binary dots

  /** The hour as 5 and the minute as 6 binary digits */
  function BinaryTime(hour: nat, minute: nat): (string, string) {
    (FormatBinary(hour, 5), FormatBinary(minute, 6))
  }

  /** A filled dot per one digit, then a hollow dot per zero digit */
  function Dots(bin: string): (dots: string)
    ensures CountChar(dots, '●') == CountChar(bin, '1')
    ensures CountChar(dots, '○') == CountChar(bin, '0')
    ensures forall i | 0 <= i < |dots| :: dots[i] == '●' || dots[i] == '○'
  {
    var filled, empty := Repeat('●', CountChar(bin, '1')), Repeat('○', CountChar(bin, '0'));
    CountCharAppend(filled, empty, '●');
    CountCharAppend(filled, empty, '○');
    CountCharRepeat('●', |filled|, '●');
    CountCharRepeat('○', |empty|, '●');
    CountCharRepeat('●', |filled|, '○');
    CountCharRepeat('○', |empty|, '○');
    Repeat('●', CountChar(bin, '1')) + Repeat('○', CountChar(bin, '0'))
  }

  /** The dots of an n below 2^width show width symbols, as many filled as
      n has one bits. */
  lemma DotsOf(n: nat, width: nat)
    requires width >= 1 && n < Pow2(width)
    ensures |Dots(FormatBinary(n, width))| == width
    ensures CountChar(Dots(FormatBinary(n, width)), '●') == PopCount(n)
    ensures CountChar(Dots(FormatBinary(n, width)), '○') == width - PopCount(n)
  {
    var bin := FormatBinary(n, width);
    FormatBinaryWidth(n, width);
    FormatBinaryRoundTrip(n, width);
    FormatBinaryOnes(n, width);
    BitsCount(bin);
    var ones, zeros := CountChar(bin, '1'), CountChar(bin, '0');
    CountCharAppend(Repeat('●', ones), Repeat('○', zeros), '●');
    CountCharAppend(Repeat('●', ones), Repeat('○', zeros), '○');
    CountCharRepeat('●', ones, '●');
    CountCharRepeat('○', zeros, '●');
    CountCharRepeat('●', ones, '○');
    CountCharRepeat('○', zeros, '○');
  }

  /** A clock reading shows 5 hour dots and 6 minute dots, the filled ones
      counting the one bits. */
  lemma ClockDots(hour: nat, minute: nat)
    requires hour < 24 && minute < 60
    ensures var (h, m) := BinaryTime(hour, minute);
      && |Dots(h)| == 5 && CountChar(Dots(h), '●') == PopCount(hour)
      && |Dots(m)| == 6 && CountChar(Dots(m), '●') == PopCount(minute)
  {
    assert Pow2(5) == 32 && Pow2(6) == 64;
    DotsOf(hour, 5);
    DotsOf(minute, 6);
  }
}
