/** The binary emotion echo: an emotion's name as the binary numerals of
    its characters, and that bit string echoed as fading, rotating lines. */
module EmotionEcho {
  import opened Text

  /** Emotion name to its icon */
  const Emotions: map<string, string> := map[
    "기쁨" := "😊",
    "사랑" := "💕",
    "평화" := "\U{1F54A}\U{FE0F}",
    "놀람" := "😮",
    "생각" := "🤔",
    "꿈" := "💭",
    "빛" := "✨",
    "밤" := "🌙"
  ]

  /** Emotion name to its closing message */
  const Messages: map<string, string> := map[
    "기쁨" := "기쁨은 이진수로도 반짝입니다",
    "사랑" := "사랑은 0과 1 사이에도 있어요",
    "평화" := "평화로운 비트가 흐릅니다",
    "놀람" := "놀라운 패턴이 나타났네요",
    "생각" := "생각이 이진수로 춤을 춥니다",
    "꿈" := "꿈은 디지털 메아리가 됩니다",
    "빛" := "빛이 이진 물결로 퍼집니다",
    "밤" := "밤은 고요한 비트로 속삭입니다"
  ]

  /** Whatever emotion is drawn, its message can be looked up. */
  lemma MessagesCoverEmotions()
    ensures Emotions.Keys == Messages.Keys
  {
  }

  // ---------------------------------------------------------------------
  // Text to binary

  /** format(ord(c), '08b') */
  function CharBinary(c: char): string {
    FormatBinary(c as nat, 8)
  }

  /** One numeral per character */
  function CharBinaries(text: string): (g: seq<string>)
    ensures |g| == |text| && forall i | 0 <= i < |text| :: g[i] == CharBinary(text[i])
  {
    seq(|text|, i requires 0 <= i < |text| => CharBinary(text[i]))
  }

  /** text_to_binary */
  function TextToBinary(text: string): (r: string)
    ensures text == [] ==> r == ""
  {
    Join(CharBinaries(text), " ")
  }

  /** The numerals are space-separated groups of at least 8 binary digits,
      one per character, and each reads back as its character's code
      point: splitting at the spaces and parsing recovers the text. */
  lemma TextToBinaryRoundTrip(text: string)
    requires text != []
    ensures |Split(TextToBinary(text), ' ')| == |text|
    ensures forall i | 0 <= i < |text| ::
      && Split(TextToBinary(text), ' ')[i] == CharBinary(text[i])
      && |CharBinary(text[i])| >= 8
      && IsBits(CharBinary(text[i]))
      && ParseBinary(CharBinary(text[i])) == text[i] as nat
  {
    var groups := CharBinaries(text);
    forall i | 0 <= i < |text|
      ensures IsBits(groups[i]) && ParseBinary(groups[i]) == text[i] as nat
    {
      FormatBinaryRoundTrip(text[i] as nat, 8);
    }
    forall p | p in groups ensures ' ' !in p {
      var i :| 0 <= i < |groups| && groups[i] == p;
      assert IsBits(p);
    }
    SplitJoin(groups, ' ');
  }

  /** A character below 256 gives exactly 8 digits. */
  lemma ByteWidth(c: char)
    requires (c as nat) < 256
    ensures |CharBinary(c)| == 8
  {
    assert Pow2(8) == 256;
    FormatBinaryWidth(c as nat, 8);
  }

  /** A precomposed Hangul syllable gives exactly 16 digits. */
  lemma HangulWidth(c: char)
    requires 0xAC00 <= (c as nat) <= 0xD7A3
    ensures |CharBinary(c)| == 16
  {
    assert Pow2(15) == 0x8000 && Pow2(16) == 0x1_0000;
    BinaryLengthExact(c as nat, 16);
  }

  /** Every emotion name is made of Hangul syllables, so each of its
      characters becomes a 16-digit group. */
  lemma EmotionNamesSixteen(e: string, i: nat)
    requires e in Emotions && i < |e|
    ensures |CharBinary(e[i])| == 16
  {
    assert 0xAC00 <= (e[i] as nat) <= 0xD7A3;
    HangulWidth(e[i]);
  }

  // ---------------------------------------------------------------------
  // The echo pattern

  /** binary_str.replace(' ', '') */
  function RemoveSpaces(s: string): (r: string)
    ensures ' ' !in r && |r| == |s| - CountChar(s, ' ')
    ensures ' ' !in s ==> r == s
    decreases |s|
  {
    if s == [] then []
    else (if s[0] == ' ' then [] else [s[0]]) + RemoveSpaces(s[1..])
  }

  /** Stripping works piece by piece, so the characters other than spaces
      stay, in their order. */
  lemma {:induction false} RemoveSpacesAppend(a: string, b: string)
    ensures RemoveSpaces(a + b) == RemoveSpaces(a) + RemoveSpaces(b)
    decreases |a|
  {
    if a == [] {
      assert a + b == b;
    } else {
      assert (a + b)[0] == a[0] && (a + b)[1..] == a[1..] + b;
      RemoveSpacesAppend(a[1..], b);
    }
  }

  /** A space-free piece and the space after it strip to the piece. */
  lemma StripSeparator(p: string, tail: string)
    requires ' ' !in p
    ensures RemoveSpaces(p + " " + tail) == p + RemoveSpaces(tail)
  {
    var sp := " ";
    assert sp[0] == ' ' && sp[1..] == [];
    assert RemoveSpaces(sp) == [];
    RemoveSpacesAppend(p, sp);
    assert RemoveSpaces(p + sp) == p;
    RemoveSpacesAppend(p + sp, tail);
  }

  /** Space-free pieces joined by spaces strip back to their concatenation. */
  lemma {:induction false} RemoveSpacesJoin(parts: seq<string>)
    requires forall i | 0 <= i < |parts| :: ' ' !in parts[i]
    ensures RemoveSpaces(Join(parts, " ")) == Concat(parts)
    decreases |parts|
  {
    if |parts| == 1 {
      assert parts == [] + [parts[0]];
      ConcatSnoc([], parts[0]);
    } else if |parts| > 1 {
      var p, rest := parts[0], parts[1..];
      assert Join(parts, " ") == p + " " + Join(rest, " ");
      RemoveSpacesJoin(rest);
      StripSeparator(p, Join(rest, " "));
      assert parts == [p] + rest;
      ConcatCons(p, rest);
    }
  }

  /** What create_echo_pattern echoes for text_to_binary's output is the
      characters' numerals run together, never empty for non-empty text. */
  lemma EchoInputOfText(text: string)
    ensures RemoveSpaces(TextToBinary(text)) == Concat(CharBinaries(text))
    ensures text != [] ==> |RemoveSpaces(TextToBinary(text))| >= 8
  {
    var groups := CharBinaries(text);
    forall i | 0 <= i < |groups| ensures ' ' !in groups[i] {
      FormatBinaryRoundTrip(text[i] as nat, 8);
      assert IsBits(groups[i]);
    }
    RemoveSpacesJoin(groups);
    if text != [] {
      assert groups == [groups[0]] + groups[1..];
      ConcatCons(groups[0], groups[1..]);
    }
  }

  /** The inner loop of create_echo_pattern: each bit drawn as n shades
      followed by a space. */
  method FadeRow(current: string, n: nat) returns (pattern: string)
    ensures pattern == Fade(current, n, " ")
  {
    pattern := "";
    var k := 0;
    while k < |current|
      invariant 0 <= k <= |current|
      invariant pattern == Fade(current[..k], n, " ")
    {
      FadeSnoc(current[..k], current[k], n, " ");
      assert current[..k + 1] == current[..k] + [current[k]];
      if current[k] == '1' {
        pattern := pattern + Repeat('█', n);
      } else {
        pattern := pattern + Repeat('·', n);
      }
      pattern := pattern + " ";
      k := k + 1;
    }
    assert current[..k] == current;
  }

  /** create_echo_pattern. Rotating `current[1:] + current[0]` fails when
      the stripped string is empty and the loop runs. */
  method CreateEchoPattern(binaryStr: string, depth: int) returns (r: Result<seq<string>>)
    ensures depth <= 0 ==> r == Ok([])
    ensures depth > 0 && RemoveSpaces(binaryStr) == [] ==> r.Err?
    ensures depth > 0 && RemoveSpaces(binaryStr) != [] ==>
      r == Ok(Echo(RemoveSpaces(binaryStr), depth, " "))
  {
    var echoes: seq<string> := [];
    var bits := RemoveSpaces(binaryStr);
    var current := bits;
    var i := 0;
    while i < depth
      invariant 0 <= i && (i > 0 ==> i <= depth)
      invariant bits == [] ==> i == 0
      invariant |current| == |bits|
      invariant bits != [] ==> current == Rotated(bits, i)
      invariant |echoes| == i
      invariant bits != [] ==> forall t | 0 <= t < i :: echoes[t] == EchoLine(bits, depth - t, t, " ")
    {
      var pattern := FadeRow(current, depth - i);
      echoes := echoes + [pattern];
      if current == [] {
        return Err("string index out of range");
      }
      current := current[1..] + [current[0]];
      i := i + 1;
    }
    if depth > 0 && bits != [] {
      assert echoes == Echo(bits, depth, " ");
    }
    return Ok(echoes);
  }

  /** With a space after each block, an echo line drawn with n shades is
      |bits| * (n + 1) characters: block j holds n shades of bit
      (j + i) mod |bits| and then a space. */
  lemma EchoBlockAt(bits: string, n: nat, i: nat, j: nat, t: nat)
    requires |bits| > 0 && j < |bits| && t <= n
    ensures |EchoLine(bits, n, i, " ")| == |bits| * (n + 1)
    ensures j * (n + 1) + t < |bits| * (n + 1)
    ensures EchoLine(bits, n, i, " ")[j * (n + 1) + t] ==
      if t < n then Shade(bits[(j + i) % |bits|]) else ' '
  {
    var sp := " ";
    assert |sp| == 1 && sp[0] == ' ';
    EchoLineAt(bits, n, i, sp, j, t);
  }
}
