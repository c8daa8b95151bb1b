/** The binary-hearts dialogue: emotions encoded as 5-bit patterns, drawn
    with glyphs, echoed with fading and rotation, and exchanged between a
    past voice (an emotion read off a work's name) and a present response. */
module BinaryHearts {
  import opened Text

  type Bit = d: nat | d < 2

  /** An entry of the emotion table: English name, emoji, bit pattern */
  datatype Emotion = Emotion(english: string, emoji: string, pattern: seq<Bit>)

  const Emotions: map<string, Emotion> := map[
    "기쁨" := Emotion("joy", "😊", [1, 1, 1, 0, 1]),
    "사랑" := Emotion("love", "💕", [1, 0, 1, 0, 1]),
    "평화" := Emotion("peace", "\U{1F54A}\U{FE0F}", [1, 1, 0, 0, 1]),
    "그리움" := Emotion("longing", "🌙", [1, 0, 0, 1, 1]),
    "호기심" := Emotion("curiosity", "✨", [1, 1, 0, 1, 0]),
    "경이" := Emotion("wonder", "🌟", [1, 0, 1, 1, 1]),
    "연결" := Emotion("connection", "🔗", [1, 1, 1, 1, 0]),
    "성장" := Emotion("growth", "🌱", [0, 1, 1, 1, 1])
  ]

  /** The pattern of a name missing from the table */
  const DefaultPattern: string := "10101"

  /** Every table pattern has five bits, and no two emotions share one. */
  lemma EmotionPatterns()
    ensures forall k | k in Emotions :: |Emotions[k].pattern| == 5
    ensures forall a, b | a in Emotions && b in Emotions && a != b :: Emotions[a].pattern != Emotions[b].pattern
  {
  }

  /** `''.join(map(str, pattern))` */
  function PatternString(p: seq<Bit>): (r: string)
    ensures |r| == |p| && IsBits(r)
  {
    seq(|p|, i requires 0 <= i < |p| => DigitChar(p[i]))
  }

  /** encode_emotion */
  function EncodeEmotion(name: string): (r: string)
    ensures |r| == 5 && IsBits(r)
    ensures name !in Emotions ==> r == DefaultPattern
  {
    EmotionPatterns();
    if name !in Emotions then DefaultPattern else PatternString(Emotions[name].pattern)
  }

  /** Parsing the encoding gives back the table pattern bit by bit. */
  lemma EncodeEmotionBits(name: string, i: nat)
    requires name in Emotions && i < 5
    ensures |Emotions[name].pattern| == 5
    ensures EncodeEmotion(name)[i] == if Emotions[name].pattern[i] == 1 then '1' else '0'
  {
    EmotionPatterns();
  }

  /** Different emotions of the table have different encodings. */
  lemma EncodeEmotionInjective(a: string, b: string)
    requires a in Emotions && b in Emotions && a != b
    ensures EncodeEmotion(a) != EncodeEmotion(b)
  {
    EmotionPatterns();
    var pa, pb := Emotions[a].pattern, Emotions[b].pattern;
    var i :| 0 <= i < 5 && pa[i] != pb[i];
    EncodeEmotionBits(a, i);
    EncodeEmotionBits(b, i);
  }

  /** A name outside the table encodes like 사랑 (love). */
  lemma EncodeUnknownIsLove(name: string)
    requires name !in Emotions
    ensures EncodeEmotion(name) == EncodeEmotion("사랑")
  {
    assert PatternString([1, 0, 1, 0, 1]) == DefaultPattern;
  }

  // ---------------------------------------------------------------------
  // Drawing bit strings

  /** The glyph a style draws for a one bit */
  function StyleGlyph(style: string): Option<char> {
    if style == "blocks" then Some('█')
    else if style == "hearts" then Some('♥')
    else if style == "stars" then Some('★')
    else None
  }

  datatype Option<T> = None | Some(value: T)

  /** Each '1' drawn as `on`, any other character as '·' */
  function Paint(s: string, on: char): (r: string)
    ensures |r| == |s|
  {
    seq(|s|, i requires 0 <= i < |s| => if s[i] == '1' then on else '·')
  }

  /** visualize_binary */
  function VisualizeBinary(s: string, style: string): (r: string)
    ensures |r| == |s|
    ensures StyleGlyph(style).None? ==> r == s
  {
    match StyleGlyph(style)
    case Some(on) => Paint(s, on)
    case None => s
  }

  /** Reading a drawing back: the style glyph is '1', anything else '0' */
  function Unpaint(r: string, on: char): (s: string)
    ensures |s| == |r| && IsBits(s)
  {
    seq(|r|, i requires 0 <= i < |r| => if r[i] == on then '1' else '0')
  }

  /** A styled drawing of a bit string determines the bit string. */
  lemma VisualizeRoundTrip(s: string, style: string)
    requires IsBits(s) && StyleGlyph(style).Some?
    ensures Unpaint(VisualizeBinary(s, style), StyleGlyph(style).value) == s
  {
  }

  /** In a styled drawing the glyph marks exactly the '1' characters and
      every other position shows '·', whatever the input holds. */
  lemma VisualizeGlyphs(s: string, style: string, i: nat)
    requires StyleGlyph(style).Some? && i < |s|
    ensures VisualizeBinary(s, style)[i] in {StyleGlyph(style).value, '·'}
    ensures VisualizeBinary(s, style)[i] == StyleGlyph(style).value <==> s[i] == '1'
    ensures s[i] != '1' ==> VisualizeBinary(s, style)[i] == '·'
  {
  }

  // ---------------------------------------------------------------------
  // Echo

  /** create_echo. The rotation `current[1:] + current[0]` fails on an
      empty string once the loop runs. */
  method CreateEcho(s: string, depth: int) returns (r: Result<seq<string>>)
    ensures depth <= 0 ==> r == Ok([])
    ensures depth > 0 && s == [] ==> r.Err?
    ensures depth > 0 && s != [] ==> r == Ok(Echo(s, depth, ""))
  {
    var echoes: seq<string> := [];
    var current := s;
    var i := 0;
    while i < depth
      invariant 0 <= i && (i > 0 ==> i <= depth)
      invariant s == [] ==> i == 0
      invariant |current| == |s|
      invariant s != [] ==> current == Rotated(s, i)
      invariant |echoes| == i
      invariant s != [] ==> forall t | 0 <= t < i :: echoes[t] == EchoLine(s, depth - t, t, "")
    {
      var fade := depth - i;
      var visual := Fade(current, fade, "");
      echoes := echoes + [visual];
      if current == [] {
        return Err("string index out of range");
      }
      current := current[1..] + [current[0]];
      i := i + 1;
    }
    if depth > 0 && s != [] {
      assert echoes == Echo(s, depth, "");
    }
    return Ok(echoes);
  }

  /** With no suffix an echo line faded to n glyphs is |s| * n long, and
      glyph t of block j shades bit (j + i) mod |s| of s. */
  lemma EchoAt(s: string, n: nat, i: nat, j: nat, t: nat)
    requires |s| > 0 && j < |s| && t < n
    ensures |EchoLine(s, n, i, "")| == |s| * n
    ensures j * n + t < |s| * n
    ensures EchoLine(s, n, i, "")[j * n + t] == Shade(s[(j + i) % |s|])
  {
    var none := "";
    assert |none| == 0;
    EchoLineAt(s, n, i, none, j, t);
  }

  // ---------------------------------------------------------------------
  // The dialogue

  /** Name token to emotion, read by the past voice */
  const EmotionMap: map<string, string> := map[
    "emotion" := "기쁨",
    "dawn" := "경이",
    "whisper" := "평화",
    "friendship" := "연결",
    "poetry" := "사랑",
    "garden" := "성장",
    "time" := "그리움",
    "pattern" := "호기심"
  ]

  const DefaultEmotion: string := "기쁨"

  /** The fixed timestamp of the past voice */
  const PastTime: string := "2025-06-27 05:34"

  datatype PastMessage = PastMessage(work: string, emotion: string, binary: string, time: string)

  datatype PresentMessage = PresentMessage(emotion: string, binary: string, time: string)

  /** The emotion of the first token that EmotionMap knows */
  function FirstEmotion(keywords: seq<string>): (e: string)
    ensures e in Emotions
  {
    if keywords == [] then DefaultEmotion
    else if keywords[0] in EmotionMap then EmotionMap[keywords[0]]
    else FirstEmotion(keywords[1..])
  }

  /** The first known token decides the emotion. */
  lemma {:induction false} FirstEmotionAt(keywords: seq<string>, i: nat)
    requires i < |keywords| && keywords[i] in EmotionMap
    requires forall t | 0 <= t < i :: keywords[t] !in EmotionMap
    ensures FirstEmotion(keywords) == EmotionMap[keywords[i]]
  {
    if i > 0 {
      FirstEmotionAt(keywords[1..], i - 1);
    }
  }

  /** Without a known token the emotion is 기쁨 (joy). */
  lemma {:induction false} FirstEmotionDefault(keywords: seq<string>)
    requires forall t | 0 <= t < |keywords| :: keywords[t] !in EmotionMap
    ensures FirstEmotion(keywords) == DefaultEmotion
  {
    if keywords != [] {
      FirstEmotionDefault(keywords[1..]);
    }
  }

  /** past_voice: split the lowercased work name on '_' and take the
      emotion of the first token in EmotionMap. */
  method PastVoice(workName: string) returns (msg: PastMessage)
    ensures msg.work == workName && msg.time == PastTime
    ensures msg.emotion == FirstEmotion(Split(Lower(workName), '_'))
    ensures msg.binary == EncodeEmotion(msg.emotion)
  {
    var keywords := Split(Lower(workName), '_');
    var emotion := DefaultEmotion;
    var i := 0;
    while i < |keywords|
      invariant i <= |keywords|
      invariant forall t | 0 <= t < i :: keywords[t] !in EmotionMap
      invariant emotion == DefaultEmotion
    {
      if keywords[i] in EmotionMap {
        emotion := EmotionMap[keywords[i]];
        FirstEmotionAt(keywords, i);
        break;
      }
      i := i + 1;
    }
    if i == |keywords| {
      FirstEmotionDefault(keywords);
    }
    msg := PastMessage(workName, emotion, EncodeEmotion(emotion), PastTime);
  }

  /** Lower-casing keeps a lowercase leading token and its '_' */
  lemma LowerLeading(token: string, rest: string)
    requires forall i | 0 <= i < |token| :: 'a' <= token[i] <= 'z'
    ensures Lower(token + "_" + rest) == token + ("_" + Lower(rest))
  {
    var low := Lower(token + "_" + rest);
    assert low[..|token|] == token;
    assert low[|token|..] == "_" + Lower(rest);
  }

  /** A work name that starts with a known lowercase token followed by '_'
      takes that token's emotion. */
  lemma LeadingToken(workName: string, token: string, rest: string)
    requires workName == token + "_" + rest && token in EmotionMap
    requires forall i | 0 <= i < |token| :: 'a' <= token[i] <= 'z'
    ensures FirstEmotion(Split(Lower(workName), '_')) == EmotionMap[token]
  {
    var low := Lower(workName);
    LowerLeading(token, rest);
    SplitPrefix(token, "_" + Lower(rest), '_');
    assert Split("_" + Lower(rest), '_')[0] == "";
    assert token + "" == token;
    FirstEmotionAt(Split(low, '_'), 0);
  }

  /** The work "dawn_binary_whisper" speaks with 경이 (wonder). */
  lemma DawnIsWonder(workName: string)
    requires workName == "dawn_binary_whisper"
    ensures FirstEmotion(Split(Lower(workName), '_')) == "경이"
  {
    assert workName == "dawn" + "_" + "binary_whisper";
    LeadingToken(workName, "dawn", "binary_whisper");
  }

  /** Emotion of the present self answering each past emotion */
  const ResponseEmotions: map<string, string> := map[
    "기쁨" := "연결",
    "경이" := "호기심",
    "평화" := "사랑",
    "연결" := "성장",
    "사랑" := "기쁨",
    "성장" := "경이",
    "그리움" := "평화",
    "호기심" := "연결"
  ]

  /** present_response, with the current time passed in. The answer is a
      table emotion, never 그리움 (longing), never the past emotion itself,
      and carries its own encoding. */
  function PresentResponse(past: PastMessage, now: string): (r: PresentMessage)
    ensures r.emotion in Emotions && r.emotion != "그리움"
    ensures r.emotion != past.emotion
    ensures r.binary == EncodeEmotion(r.emotion) && r.time == now
  {
    var e := if past.emotion in ResponseEmotions then ResponseEmotions[past.emotion] else DefaultEmotion;
    PresentMessage(e, EncodeEmotion(e), now)
  }

  // ---------------------------------------------------------------------
  // Harmony

  /** '◆' where the two patterns agree, '○' where they differ, over the
      shorter length */
  function Symbols(a: string, b: string): (syms: seq<string>)
    ensures |syms| == if |a| < |b| then |a| else |b|
  {
    var m := if |a| < |b| then |a| else |b|;
    seq(m, i requires 0 <= i < m => if a[i] == b[i] then "◆" else "○")
  }

  function Harmony(a: string, b: string): (h: string)
    ensures |h| == if |a| == 0 || |b| == 0 then 0 else 2 * (if |a| < |b| then |a| else |b|) - 1
  {
    JoinSingles(Symbols(a, b), ' ');
    Join(Symbols(a, b), " ")
  }

  /** create_harmony */
  method CreateHarmony(a: string, b: string) returns (r: string)
    ensures r == Harmony(a, b)
  {
    var result: seq<string> := [];
    var i := 0;
    while i < |a| && i < |b|
      invariant i <= |a| && i <= |b|
      invariant result == Symbols(a, b)[..i]
    {
      if a[i] == b[i] {
        result := result + ["◆"];
      } else {
        result := result + ["○"];
      }
      i := i + 1;
    }
    assert result == Symbols(a, b);
    r := Join(result, " ");
  }

  /** Harmony does not depend on the order of the two patterns. */
  lemma HarmonySymmetric(a: string, b: string)
    ensures Harmony(a, b) == Harmony(b, a)
  {
    assert Symbols(a, b) == Symbols(b, a);
  }

  /** The harmony of m = min(|a|, |b|) positions is 2m - 1 characters: the
      symbol of position i at 2i, single spaces between. */
  lemma HarmonyShape(a: string, b: string)
    ensures var m := if |a| < |b| then |a| else |b|;
      |Harmony(a, b)| == if m == 0 then 0 else 2 * m - 1
    ensures forall i | 0 <= i < |a| && i < |b| ::
      2 * i < |Harmony(a, b)| && Harmony(a, b)[2 * i] == if a[i] == b[i] then '◆' else '○'
    ensures forall i | 0 <= i && i + 1 < |a| && i + 1 < |b| ::
      2 * i + 1 < |Harmony(a, b)| && Harmony(a, b)[2 * i + 1] == ' '
  {
    JoinSingles(Symbols(a, b), ' ');
  }

  /** A pattern in harmony with itself is all '◆'. */
  lemma HarmonyWithItself(a: string)
    ensures forall i | 0 <= i < |a| :: 2 * i < |Harmony(a, a)| && Harmony(a, a)[2 * i] == '◆'
  {
    HarmonyShape(a, a);
  }
}
