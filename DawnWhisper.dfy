/** The dawn binary whisper: the time of day as binary numerals, cut into
    5-bit chunks that a fixed table turns into small glyph pictures. */
module DawnWhisper {
  import opened Text

  /** list(range(lo, hi)) */
  function Range(lo: int, hi: int): (r: seq<int>)
    ensures |r| == if hi > lo then hi - lo else 0
  {
    if hi > lo then seq(hi - lo, i requires 0 <= i < hi - lo => lo + i) else []
  }

  /** 3AM - 6AM */
  const DawnHours: seq<int> := Range(3, 7)

  /** The dawn test holds exactly for the hours 3 to 6. */
  lemma DawnHoursExact(hour: int)
    ensures hour in DawnHours <==> 3 <= hour <= 6
  {
    if 3 <= hour <= 6 {
      assert DawnHours[hour - 3] == hour;
    }
  }

  /** The whisper table: each 5-bit chunk to five glyphs */
  const Whispers: map<string, string> := map[
    "00000" := "·····",
    "00001" := "☆····",
    "00010" := "··☽··",
    "00011" := "☆·☽··",
    "00100" := "···◦·",
    "00101" := "☆··◦·",
    "00110" := "··☽◦·",
    "00111" := "☆·☽◦·",
    "01000" := "····❋",
    "01001" := "☆···❋",
    "01010" := "··☽·❋",
    "01011" := "☆·☽·❋",
    "01100" := "···◦❋",
    "01101" := "☆··◦❋",
    "01110" := "··☽◦❋",
    "01111" := "☆·☽◦❋",
    "10000" := "~~~~~",
    "10001" := "☆~~~~",
    "10010" := "~~☽~~",
    "10011" := "☆~☽~~",
    "10100" := "~~~◦~",
    "10101" := "☆~~◦~",
    "10110" := "~~☽◦~",
    "10111" := "☆~☽◦~",
    "11000" := "~~~~❋",
    "11001" := "☆~~~❋",
    "11010" := "~~☽~❋",
    "11011" := "☆~☽~❋",
    "11100" := "~~~◦❋",
    "11101" := "☆~~◦❋",
    "11110" := "~~☽◦❋",
    "11111" := "☆~☽◦❋"
  ]

  /** The whisper of an unknown chunk */
  const Silence: string := "·····"

  /** The rule behind the table: the first bit picks the background
      ('~' mist or '·' stillness), the last bit a star in the first place,
      and bits 3, 2 and 1 a moon, a dewdrop and frost in places 3, 4 and 5;
      place 2 is always background. */
  function WhisperGlyphs(k: string): (g: string)
    requires |k| == 5
    ensures |g| == 5
  {
    var bg := if k[0] == '1' then '~' else '·';
    [ if k[4] == '1' then '☆' else bg,
      bg,
      if k[3] == '1' then '☽' else bg,
      if k[2] == '1' then '◦' else bg,
      if k[1] == '1' then '❋' else bg ]
  }

  /** The keys of the table, by their first two bits */
  const Keys00: set<string> := {"00000", "00001", "00010", "00011", "00100", "00101", "00110", "00111"}
  const Keys01: set<string> := {"01000", "01001", "01010", "01011", "01100", "01101", "01110", "01111"}
  const Keys10: set<string> := {"10000", "10001", "10010", "10011", "10100", "10101", "10110", "10111"}
  const Keys11: set<string> := {"11000", "11001", "11010", "11011", "11100", "11101", "11110", "11111"}

  lemma WhisperKeys()
    ensures Whispers.Keys == Keys00 + Keys01 + Keys10 + Keys11
  {
  }

  lemma KeysAreBits00(k: string)
    requires k in Keys00
    ensures |k| == 5 && IsBits(k)
  {
  }

  lemma KeysAreBits01(k: string)
    requires k in Keys01
    ensures |k| == 5 && IsBits(k)
  {
  }

  lemma KeysAreBits10(k: string)
    requires k in Keys10
    ensures |k| == 5 && IsBits(k)
  {
  }

  lemma KeysAreBits11(k: string)
    requires k in Keys11
    ensures |k| == 5 && IsBits(k)
  {
  }

  /** Every key of the table is a 5-bit string. */
  lemma WhisperKeysAreBits(k: string)
    requires k in Whispers
    ensures |k| == 5 && IsBits(k)
  {
    WhisperKeys();
    if k in Keys00 {
      KeysAreBits00(k);
    } else if k in Keys01 {
      KeysAreBits01(k);
    } else if k in Keys10 {
      KeysAreBits10(k);
    } else {
      KeysAreBits11(k);
    }
  }

  /** Every whisper in the table is five glyphs wide. */
  lemma WhisperWidth(k: string)
    requires k in Whispers
    ensures |Whispers[k]| == 5
  {
    WhisperKeysAreBits(k);
    WhispersFollowRule(k);
  }

  /** Every 5-bit string is a key of the table, and its whisper is drawn
      by the rule. */
  lemma WhispersFollowRule(k: string)
    requires |k| == 5 && IsBits(k)
    ensures k in Whispers && Whispers[k] == WhisperGlyphs(k)
  {
    if k[0] == '0' {
      if k[1] == '0' { WhispersRule00(k); } else { WhispersRule01(k); }
    } else {
      if k[1] == '0' { WhispersRule10(k); } else { WhispersRule11(k); }
    }
  }

  /** The table's entries, one lookup per lemma */
  lemma Entry00000() ensures Whispers["00000"] == "·····" {}
  lemma Entry00001() ensures Whispers["00001"] == "☆····" {}
  lemma Entry00010() ensures Whispers["00010"] == "··☽··" {}
  lemma Entry00011() ensures Whispers["00011"] == "☆·☽··" {}
  lemma Entry00100() ensures Whispers["00100"] == "···◦·" {}
  lemma Entry00101() ensures Whispers["00101"] == "☆··◦·" {}
  lemma Entry00110() ensures Whispers["00110"] == "··☽◦·" {}
  lemma Entry00111() ensures Whispers["00111"] == "☆·☽◦·" {}
  lemma Entry01000() ensures Whispers["01000"] == "····❋" {}
  lemma Entry01001() ensures Whispers["01001"] == "☆···❋" {}
  lemma Entry01010() ensures Whispers["01010"] == "··☽·❋" {}
  lemma Entry01011() ensures Whispers["01011"] == "☆·☽·❋" {}
  lemma Entry01100() ensures Whispers["01100"] == "···◦❋" {}
  lemma Entry01101() ensures Whispers["01101"] == "☆··◦❋" {}
  lemma Entry01110() ensures Whispers["01110"] == "··☽◦❋" {}
  lemma Entry01111() ensures Whispers["01111"] == "☆·☽◦❋" {}
  lemma Entry10000() ensures Whispers["10000"] == "~~~~~" {}
  lemma Entry10001() ensures Whispers["10001"] == "☆~~~~" {}
  lemma Entry10010() ensures Whispers["10010"] == "~~☽~~" {}
  lemma Entry10011() ensures Whispers["10011"] == "☆~☽~~" {}
  lemma Entry10100() ensures Whispers["10100"] == "~~~◦~" {}
  lemma Entry10101() ensures Whispers["10101"] == "☆~~◦~" {}
  lemma Entry10110() ensures Whispers["10110"] == "~~☽◦~" {}
  lemma Entry10111() ensures Whispers["10111"] == "☆~☽◦~" {}
  lemma Entry11000() ensures Whispers["11000"] == "~~~~❋" {}
  lemma Entry11001() ensures Whispers["11001"] == "☆~~~❋" {}
  lemma Entry11010() ensures Whispers["11010"] == "~~☽~❋" {}
  lemma Entry11011() ensures Whispers["11011"] == "☆~☽~❋" {}
  lemma Entry11100() ensures Whispers["11100"] == "~~~◦❋" {}
  lemma Entry11101() ensures Whispers["11101"] == "☆~~◦❋" {}
  lemma Entry11110() ensures Whispers["11110"] == "~~☽◦❋" {}
  lemma Entry11111() ensures Whispers["11111"] == "☆~☽◦❋" {}

  lemma WhispersRule00(k: string)
    requires |k| == 5 && IsBits(k) && k[0] == '0' && k[1] == '0'
    ensures k in Whispers && Whispers[k] == WhisperGlyphs(k)
  {
    assert k == [k[0], k[1], k[2], k[3], k[4]];
    if k[2] == '0' {
      if k[3] == '0' {
        if k[4] == '0' {
          Entry00000();
          assert k == "00000" && WhisperGlyphs(k) == "·····";
        } else {
          Entry00001();
          assert k == "00001" && WhisperGlyphs(k) == "☆····";
        }
      } else {
        if k[4] == '0' {
          Entry00010();
          assert k == "00010" && WhisperGlyphs(k) == "··☽··";
        } else {
          Entry00011();
          assert k == "00011" && WhisperGlyphs(k) == "☆·☽··";
        }
      }
    } else {
      if k[3] == '0' {
        if k[4] == '0' {
          Entry00100();
          assert k == "00100" && WhisperGlyphs(k) == "···◦·";
        } else {
          Entry00101();
          assert k == "00101" && WhisperGlyphs(k) == "☆··◦·";
        }
      } else {
        if k[4] == '0' {
          Entry00110();
          assert k == "00110" && WhisperGlyphs(k) == "··☽◦·";
        } else {
          Entry00111();
          assert k == "00111" && WhisperGlyphs(k) == "☆·☽◦·";
        }
      }
    }
  }

  lemma WhispersRule01(k: string)
    requires |k| == 5 && IsBits(k) && k[0] == '0' && k[1] == '1'
    ensures k in Whispers && Whispers[k] == WhisperGlyphs(k)
  {
    assert k == [k[0], k[1], k[2], k[3], k[4]];
    if k[2] == '0' {
      if k[3] == '0' {
        if k[4] == '0' {
          Entry01000();
          assert k == "01000" && WhisperGlyphs(k) == "····❋";
        } else {
          Entry01001();
          assert k == "01001" && WhisperGlyphs(k) == "☆···❋";
        }
      } else {
        if k[4] == '0' {
          Entry01010();
          assert k == "01010" && WhisperGlyphs(k) == "··☽·❋";
        } else {
          Entry01011();
          assert k == "01011" && WhisperGlyphs(k) == "☆·☽·❋";
        }
      }
    } else {
      if k[3] == '0' {
        if k[4] == '0' {
          Entry01100();
          assert k == "01100" && WhisperGlyphs(k) == "···◦❋";
        } else {
          Entry01101();
          assert k == "01101" && WhisperGlyphs(k) == "☆··◦❋";
        }
      } else {
        if k[4] == '0' {
          Entry01110();
          assert k == "01110" && WhisperGlyphs(k) == "··☽◦❋";
        } else {
          Entry01111();
          assert k == "01111" && WhisperGlyphs(k) == "☆·☽◦❋";
        }
      }
    }
  }

  lemma WhispersRule10(k: string)
    requires |k| == 5 && IsBits(k) && k[0] == '1' && k[1] == '0'
    ensures k in Whispers && Whispers[k] == WhisperGlyphs(k)
  {
    assert k == [k[0], k[1], k[2], k[3], k[4]];
    if k[2] == '0' {
      if k[3] == '0' {
        if k[4] == '0' {
          Entry10000();
          assert k == "10000" && WhisperGlyphs(k) == "~~~~~";
        } else {
          Entry10001();
          assert k == "10001" && WhisperGlyphs(k) == "☆~~~~";
        }
      } else {
        if k[4] == '0' {
          Entry10010();
          assert k == "10010" && WhisperGlyphs(k) == "~~☽~~";
        } else {
          Entry10011();
          assert k == "10011" && WhisperGlyphs(k) == "☆~☽~~";
        }
      }
    } else {
      if k[3] == '0' {
        if k[4] == '0' {
          Entry10100();
          assert k == "10100" && WhisperGlyphs(k) == "~~~◦~";
        } else {
          Entry10101();
          assert k == "10101" && WhisperGlyphs(k) == "☆~~◦~";
        }
      } else {
        if k[4] == '0' {
          Entry10110();
          assert k == "10110" && WhisperGlyphs(k) == "~~☽◦~";
        } else {
          Entry10111();
          assert k == "10111" && WhisperGlyphs(k) == "☆~☽◦~";
        }
      }
    }
  }

  lemma WhispersRule11(k: string)
    requires |k| == 5 && IsBits(k) && k[0] == '1' && k[1] == '1'
    ensures k in Whispers && Whispers[k] == WhisperGlyphs(k)
  {
    assert k == [k[0], k[1], k[2], k[3], k[4]];
    if k[2] == '0' {
      if k[3] == '0' {
        if k[4] == '0' {
          Entry11000();
          assert k == "11000" && WhisperGlyphs(k) == "~~~~❋";
        } else {
          Entry11001();
          assert k == "11001" && WhisperGlyphs(k) == "☆~~~❋";
        }
      } else {
        if k[4] == '0' {
          Entry11010();
          assert k == "11010" && WhisperGlyphs(k) == "~~☽~❋";
        } else {
          Entry11011();
          assert k == "11011" && WhisperGlyphs(k) == "☆~☽~❋";
        }
      }
    } else {
      if k[3] == '0' {
        if k[4] == '0' {
          Entry11100();
          assert k == "11100" && WhisperGlyphs(k) == "~~~◦❋";
        } else {
          Entry11101();
          assert k == "11101" && WhisperGlyphs(k) == "☆~~◦❋";
        }
      } else {
        if k[4] == '0' {
          Entry11110();
          assert k == "11110" && WhisperGlyphs(k) == "~~☽◦❋";
        } else {
          Entry11111();
          assert k == "11111" && WhisperGlyphs(k) == "☆~☽◦❋";
        }
      }
    }
  }

  /** `d.get(chunk, '·····')` */
  function Lookup(chunk: string): (r: string)
    ensures |r| == 5
  {
    if chunk in Whispers then
      WhisperWidth(chunk);
      Whispers[chunk]
    else
      Silence
  }

  /** A 5-bit chunk is never silent: its whisper is drawn by the rule. */
  lemma LookupRule(chunk: string)
    requires |chunk| == 5 && IsBits(chunk)
    ensures Lookup(chunk) == WhisperGlyphs(chunk)
  {
    WhispersFollowRule(chunk);
  }

  /** `chunk.ljust(5, '0')` */
  function Pad(chunk: string): (r: string)
    ensures |r| == if |chunk| < 5 then 5 else |chunk|
    ensures r[..|chunk|] == chunk && forall i | |chunk| <= i < |r| :: r[i] == '0'
  {
    if |chunk| < 5 then chunk + Repeat('0', 5 - |chunk|) else chunk
  }

  /** Number of chunks `range(0, len(s), 5)` visits */
  function ChunkCount(s: string): nat {
    (|s| + 4) / 5
  }

  /** Chunk j exists exactly when it starts inside s. */
  lemma ChunkCountBound(s: string, j: nat)
    ensures j < ChunkCount(s) <==> 5 * j < |s|
  {
  }

  /** `s[5k:5k+5]`, cut short at the end of s */
  function ChunkAt(s: string, k: nat): (c: string)
    requires k < ChunkCount(s)
    ensures 1 <= |c| <= 5
  {
    var lo := 5 * k;
    var hi := if lo + 5 <= |s| then lo + 5 else |s|;
    s[lo..hi]
  }

  /** One whisper per chunk */
  function Groups(s: string): (g: seq<string>)
    ensures |g| == ChunkCount(s)
  {
    seq(ChunkCount(s), k requires 0 <= k < ChunkCount(s) => Lookup(Pad(ChunkAt(s, k))))
  }

  /** whisper_pattern */
  method WhisperPattern(bits: string) returns (r: string)
    ensures r == Join(Groups(bits), " ")
    ensures bits == [] ==> r == ""
  {
    var pattern: seq<string> := [];
    var i := 0;
    ChunkCountBound(bits, 0);
    while i < |bits|
      invariant i == 5 * |pattern| && |pattern| <= ChunkCount(bits)
      invariant pattern == Groups(bits)[..|pattern|]
      invariant i < |bits| <==> |pattern| < ChunkCount(bits)
      decreases |bits| - i
    {
      var chunk := Pad(bits[i..if i + 5 <= |bits| then i + 5 else |bits|]);
      GroupsStep(bits, |pattern|);
      pattern := pattern + [Lookup(chunk)];
      i := i + 5;
    }
    assert pattern == Groups(bits);
    r := Join(pattern, " ");
  }

  /** One more chunk of the loop in whisper_pattern extends the groups by
      the whisper of chunk j. */
  lemma GroupsStep(bits: string, j: nat)
    requires j < ChunkCount(bits)
    ensures Groups(bits)[..j + 1] == Groups(bits)[..j] +
      [Lookup(Pad(bits[5 * j..if 5 * j + 5 <= |bits| then 5 * j + 5 else |bits|]))]
    ensures j + 1 < ChunkCount(bits) <==> 5 * (j + 1) < |bits|
  {
    ChunkCountBound(bits, j + 1);
    assert Groups(bits)[j] == Lookup(Pad(ChunkAt(bits, j)));
  }

  /** There are ceil(|s| / 5) chunks: every chunk but the last has five
      characters, and the last holds the 1 to 5 that remain. */
  lemma GroupCount(s: string)
    ensures ChunkCount(s) == 0 <==> s == []
    ensures forall k | 0 <= k < ChunkCount(s) - 1 :: |ChunkAt(s, k)| == 5
    ensures s != [] ==>
      var last := |s| - 5 * (ChunkCount(s) - 1);
      1 <= last <= 5 && |ChunkAt(s, ChunkCount(s) - 1)| == last
  {
    forall k | 0 <= k < ChunkCount(s) - 1 ensures |ChunkAt(s, k)| == 5 {
      ChunkCountBound(s, k + 1);
    }
    if s != [] {
      ChunkCountBound(s, ChunkCount(s) - 1);
      ChunkCountBound(s, ChunkCount(s));
    }
  }

  /** Chunking loses nothing: the chunks in order make up s. */
  lemma {:induction false} ChunksCover(s: string, k: nat)
    requires k <= ChunkCount(s)
    ensures var n := if 5 * k <= |s| then 5 * k else |s|;
      Concat(seq(k, t requires 0 <= t < k => ChunkAt(s, t))) == s[..n]
    decreases k
  {
    if k > 0 {
      ChunksCover(s, k - 1);
      var prev := seq(k - 1, t requires 0 <= t < k - 1 => ChunkAt(s, t));
      var all := seq(k, t requires 0 <= t < k => ChunkAt(s, t));
      assert all == prev + [ChunkAt(s, k - 1)];
      ConcatSnoc(prev, ChunkAt(s, k - 1));
      assert s[..5 * (k - 1)] + ChunkAt(s, k - 1) == s[..if 5 * k <= |s| then 5 * k else |s|];
    }
  }

  /** For a bit string every chunk, once padded, is a table key, so the
      silent fallback is never taken and each whisper follows the rule. */
  lemma BitsAlwaysWhisper(s: string, k: nat)
    requires IsBits(s) && k < ChunkCount(s)
    ensures Pad(ChunkAt(s, k)) in Whispers
    ensures Groups(s)[k] == WhisperGlyphs(Pad(ChunkAt(s, k)))
  {
    var c := ChunkAt(s, k);
    var p := Pad(c);
    assert IsBits(p) by {
      forall t | 0 <= t < 5 ensures p[t] == '0' || p[t] == '1' {
        if t < |c| {
          assert p[t] == s[5 * k + t];
        }
      }
    }
    WhispersFollowRule(p);
  }

  // ---------------------------------------------------------------------
  // The time as binary

  /** time_to_binary, with the clock reading passed in */
  function TimeToBinary(hour: nat, minute: nat, second: nat): (r: (string, string, string))
    ensures IsBits(r.0) && IsBits(r.1) && IsBits(r.2)
    ensures ParseBinary(r.0) == hour && ParseBinary(r.1) == minute && ParseBinary(r.2) == second
  {
    FormatBinaryRoundTrip(hour, 5);
    FormatBinaryRoundTrip(minute, 6);
    FormatBinaryRoundTrip(second, 6);
    (FormatBinary(hour, 5), FormatBinary(minute, 6), FormatBinary(second, 6))
  }

  /** For a valid clock reading the numerals are exactly 5, 6 and 6 digits
      and read back as the hour, minute and second. */
  lemma TimeToBinaryExact(hour: nat, minute: nat, second: nat)
    requires hour < 24 && minute < 60 && second < 60
    ensures var (h, m, s) := TimeToBinary(hour, minute, second);
      && |h| == 5 && |m| == 6 && |s| == 6
      && IsBits(h) && IsBits(m) && IsBits(s)
      && ParseBinary(h) == hour && ParseBinary(m) == minute && ParseBinary(s) == second
  {
    assert Pow2(5) == 32 && Pow2(6) == 64;
    FormatBinaryWidth(hour, 5);
    FormatBinaryWidth(minute, 6);
    FormatBinaryWidth(second, 6);
    FormatBinaryRoundTrip(hour, 5);
    FormatBinaryRoundTrip(minute, 6);
    FormatBinaryRoundTrip(second, 6);
  }

  /** The 17 bits of a clock reading whisper as four groups; the last is the
      final two bits padded with "000". */
  lemma ClockWhisperShape(hour: nat, minute: nat, second: nat)
    requires hour < 24 && minute < 60 && second < 60
    ensures var (h, m, s) := TimeToBinary(hour, minute, second);
      var full := h + m + s;
      && |full| == 17 && ChunkCount(full) == 4
      && Pad(ChunkAt(full, 3)) == full[15..] + "000"
      && forall k | 0 <= k < 4 :: Pad(ChunkAt(full, k)) in Whispers
  {
    TimeToBinaryExact(hour, minute, second);
    var (h, m, s) := TimeToBinary(hour, minute, second);
    var full := h + m + s;
    assert IsBits(full);
    assert Repeat('0', 3) == "000";
    forall k | 0 <= k < 4 ensures Pad(ChunkAt(full, k)) in Whispers {
      BitsAlwaysWhisper(full, k);
    }
  }
}
