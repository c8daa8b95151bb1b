# binary-hearts, modelled in Dafny

binary-hearts is a set of small console toys about a program looking back
at its earlier work. This project models the parts of it that compute
something deterministic, and proves what they promise:

- **The past-self analyzer** (`PatternAnalyzer`) classifies a corpus of file
  stems:
  - it counts the underscore-separated name tokens and keeps the 20 most
    common;
  - it selects the stems that mention emotion, binary or relationship
    keywords;
  - it files stems under time and artistic theme keys;
  - it extracts runs of emoji from a text.
- **The binary heart and the dialogue** (`BinaryHearts`):
  - an emotion name becomes a 5-bit pattern;
  - the bits are painted as glyphs and echoed as fading, rotating lines;
  - a past voice reads an emotion from a work's name, and a present voice
    answers with another emotion;
  - two patterns are compared as a harmony string.
- **The self-reflection engine** (`Reflection`) is a class. It records
  answered choices, keeps a per-category count that always agrees with
  them, and measures how often consecutive choices share a category.
- **Three sample toys**:
  - `DawnWhisper`: the dawn whisper's 32-entry glyph table, 5-bit chunking
    and clock numerals;
  - `EmotionEcho`: the emotion echo's text-to-binary conversion and echo
    pattern;
  - `EmotionClock`: the code emotion clock's period of day, mood labels and
    binary dots.

Shared vocabulary lives in three support modules:

- `Text`: ASCII lowercasing, substrings, split/join on one character,
  rotation, binary numerals, and the fading of bits into glyph blocks.
- `Counting`: a `Counter` as an ordered list of (key, count) pairs, in
  first-insertion order like a Python dict, with `most_common`.
- `Runs`: maximal runs of characters that satisfy a predicate, which is
  what both `re.findall("[class]+")` and `str.split()` compute.

Inputs from the outside world are parameters:

- the directory scan is a sequence of stems in scan order;
- clock readings are naturals;
- timestamps are opaque strings.

Where the Python raises an exception the model returns `Err` of a `Result`:

- `current[0]` on an empty string when echoing;
- `split()[1]` on a one-word label.

## Model

| member | source | states |
|---|---|---|
| PatternAnalyzer.Matching | pattern_analyzer.py:34-47 | the stems that mention a keyword, in corpus order (specification of the selecting loops) |
| PatternAnalyzer.MatchingPositions | pattern_analyzer.py:41-45 | the selection is exactly the stems at strictly ascending corpus positions whose lowercase form contains a keyword, and nothing else |
| PatternAnalyzer.HitsAscending | pattern_analyzer.py:42-45 | the selected positions lie in the corpus and strictly increase (scan order, no repeats) |
| PatternAnalyzer.HitsExact | pattern_analyzer.py:43-45 | a position is selected if and only if its stem mentions a keyword |
| PatternAnalyzer.MatchingAtHits | pattern_analyzer.py:45 | the i-th selected stem is the stem at the i-th selected position |
| PatternAnalyzer.MatchingMembers | pattern_analyzer.py:43-45 | a string is selected if and only if it is a corpus stem that mentions a keyword |
| PatternAnalyzer.MatchingDistinct | pattern_analyzer.py:19 | a corpus of distinct stems (a directory listing) gives a selection without duplicates |
| PatternAnalyzer.MentionsOne | pattern_analyzer.py:74 | testing a single keyword is the plain substring test on the lowercase stem |
| PatternAnalyzer.MatchingStep | pattern_analyzer.py:42-45 | one more stem extends the selection by that stem exactly when it mentions a keyword |
| PatternAnalyzer.CollectMatching | pattern_analyzer.py:41-47 | the scanning loop returns exactly the selection |
| PatternAnalyzer.AnalyzeEmotions | pattern_analyzer.py:34-47 | the emotion files are the selection for the 11 emotion keywords |
| PatternAnalyzer.AnalyzeBinaryObsession | pattern_analyzer.py:69-77 | the binary files are the selection for the keyword "binary" |
| PatternAnalyzer.AnalyzeRelationships | pattern_analyzer.py:79-92 | the relationship files are the selection for the 8 relationship keywords |
| PatternAnalyzer.Themes | pattern_analyzer.py:51-67 | one bucket per key, keys in declared order |
| PatternAnalyzer.ThemeMembers | pattern_analyzer.py:61-65 | bucket k holds exactly the corpus stems whose lowercase form contains key k |
| PatternAnalyzer.AnalyzeThemes | pattern_analyzer.py:61-67 | the nested loop over stems and keys builds exactly the theme buckets |
| PatternAnalyzer.AnalyzeTimeThemes | pattern_analyzer.py:49-67 | the time themes are the buckets for the 7 time keys |
| PatternAnalyzer.AnalyzeArtisticThemes | pattern_analyzer.py:94-114 | the artistic themes are the buckets for the 9 art keys |
| PatternAnalyzer.MidnightIsNight | pattern_analyzer.py:53-54 | every stem in the midnight bucket is also in the night bucket |
| PatternAnalyzer.AnalyzeFilenames | pattern_analyzer.py:22-32 | the loop returns the tally of all underscore tokens of all stems, case kept |
| PatternAnalyzer.TokensLength | pattern_analyzer.py:29-30 | each stem gives its number of underscores plus one tokens |
| PatternAnalyzer.Tokens | pattern_analyzer.py:26-30 | at least one token per stem, none containing an underscore |
| PatternAnalyzer.FilenameCounts | pattern_analyzer.py:32 | the counts add up to the token total, and each count is the token's number of occurrences |
| PatternAnalyzer.FilenameKeywords | pattern_analyzer.py:145 | at most 20 entries |
| PatternAnalyzer.FilenameKeywordsRanked | pattern_analyzer.py:145 | at most 20 entries, with true counts, by descending count and ties in first-met order, and no token left out outnumbers one kept |
| PatternAnalyzer.ExtractEmojis | pattern_analyzer.py:125-139 | every run is non-empty and made of emoji-range characters only |
| PatternAnalyzer.IsEmoji | pattern_analyzer.py:128-138 | every character of the class is at or above U+24C2, and the last range takes in every Hangul syllable |
| PatternAnalyzer.ExtractEmojisMaximal | pattern_analyzer.py:139 | the text is the runs, left to right, separated by non-empty non-emoji stretches: runs are maximal and nothing is skipped |
| PatternAnalyzer.AnalyzeAll | pattern_analyzer.py:141-151 | every report field is its analysis, total_files is the corpus size, and an empty corpus gives empty lists and empty buckets |
| Counting.TallyGet | pattern_analyzer.py:32 | the count of x in a tally is the number of occurrences of x |
| Counting.TallyTotal | pattern_analyzer.py:32 | the counts of a tally add up to the number of items |
| Counting.TallyKeys | pattern_analyzer.py:32 | the keys of a tally are exactly the items |
| Counting.TallyDistinct | pattern_analyzer.py:32 | a tally has distinct keys and positive counts |
| Counting.TallyOrder | pattern_analyzer.py:32 | the keys of a tally appear in order of first occurrence |
| Counting.Tally | pattern_analyzer.py:32 | no more keys than items, and at least one for a non-empty list |
| Counting.Bump | self_reflection.py:42 | the key's count rises by one, and at most one entry is added |
| Counting.BumpGet | self_reflection.py:42 | incrementing a key adds one to its count and changes no other count |
| Counting.BumpKeys | self_reflection.py:42 | a known key keeps its place; a new key is appended |
| Counting.BumpTotal | self_reflection.py:42 | an increment adds one to the total |
| Counting.BumpPositive | self_reflection.py:42 | an increment keeps all counts positive |
| Counting.MostCommon | pattern_analyzer.py:145 | most_common(n) keeps min(n, number of keys) entries |
| Counting.SortByCountPermutes | pattern_analyzer.py:145 | the stable sort by count is a permutation of the counter |
| Counting.SortByCountRanked | pattern_analyzer.py:145 | the sort orders by descending count, ties in insertion order |
| Counting.MostCommonPrefix | pattern_analyzer.py:145 | most_common(n) is a prefix of the full ranking |
| Counting.MostCommonEntries | pattern_analyzer.py:145 | each kept entry is an item with its true count |
| Counting.MostCommonSorted | pattern_analyzer.py:145 | kept entries go by descending count, ties by first occurrence |
| Counting.MostCommonTop | pattern_analyzer.py:145 | no item left out occurs more often than any kept entry |
| Text.SplitCount | pattern_analyzer.py:29 | splitting on a character gives its number of occurrences plus one pieces |
| Text.SplitPieces | pattern_analyzer.py:29 | no piece contains the separator |
| Text.JoinSplit | pattern_analyzer.py:29 | joining the pieces with the separator gives back the string |
| Text.SplitJoin | past_works_sample/binary_emotion_echo.py:22 | splitting a join of separator-free pieces gives back the pieces |
| Text.FormatBinaryRoundTrip | past_works_sample/dawn_binary_whisper.py:52-54 | a zero-padded binary numeral is made of bits and parses back to its number |
| Text.FormatBinaryWidth | past_works_sample/dawn_binary_whisper.py:52-54 | a number below 2^w gives exactly w digits |
| Text.BinaryLength | past_works_sample/binary_emotion_echo.py:22 | the numeral has at most w digits exactly when the number is below 2^w |
| Text.BinaryLengthExact | past_works_sample/binary_emotion_echo.py:22 | a number in [2^(w-1), 2^w) has exactly w digits |
| Text.FormatBinaryOnes | past_works_sample/code_emotion_time.py:65 | the numeral has as many '1' digits as the number has one bits |
| Text.BitsCount | past_works_sample/code_emotion_time.py:65 | a bit string's ones and zeros add up to its length |
| Text.RotatedAt | binary_hearts_dialogue.py:64 | after k left rotations, place j holds the character from place (j + k) mod n |
| Text.RotatedFullCircle | binary_hearts_dialogue.py:64 | n rotations of an n-character string give it back |
| Text.FadeLength | binary_hearts_dialogue.py:61 | fading gives each character a block of n shades plus the suffix |
| Text.FadeAt | binary_hearts_dialogue.py:61 | block j holds n shades of character j, then the suffix |
| Text.FadeSnoc | past_works_sample/binary_emotion_echo.py:34-39 | fading one more character appends its block |
| Text.ContainsTransitive | pattern_analyzer.py:64 | a string containing a keyword contains every substring of that keyword |
| Text.Lower | pattern_analyzer.py:43 | same length; an upper-case ASCII letter becomes the lower-case letter at the same place in the alphabet, and every other character is unchanged |
| Text.Split | pattern_analyzer.py:29 | at least one piece, as Python gives for any string |
| Text.FormatBinary | past_works_sample/dawn_binary_whisper.py:52-54 | the numeral has at least the requested width |
| Text.Echo | binary_hearts_dialogue.py:54-66 | depth lines, line i being s rotated i times and faded by depth - i |
| Text.EchoLineAt | binary_hearts_dialogue.py:59-64 | a line is len(s) blocks of n shades plus the suffix; block j shades character (j + i) mod len(s) |
| Text.ConcatCons | past_works_sample/binary_emotion_echo.py:27 | the first part leads the concatenation |
| Runs.RunsDecompose | pattern_analyzer.py:139 | the maximal runs and the stretches between them interleave back into the string |
| BinaryHearts.EmotionPatterns | binary_hearts_dialogue.py:22-31 | the eight table patterns have 5 bits each and are pairwise distinct |
| BinaryHearts.EncodeEmotion | binary_hearts_dialogue.py:34-40 | always 5 bits; an unknown name gives "10101" |
| BinaryHearts.EncodeEmotionBits | binary_hearts_dialogue.py:39-40 | a known name's digit i is its pattern's bit i |
| BinaryHearts.EncodeEmotionInjective | binary_hearts_dialogue.py:22-40 | different known emotions encode differently |
| BinaryHearts.EncodeUnknownIsLove | binary_hearts_dialogue.py:24-37 | the default pattern is the pattern of 사랑 |
| BinaryHearts.VisualizeBinary | binary_hearts_dialogue.py:43-51 | length is kept, and an unknown style returns the input unchanged |
| BinaryHearts.VisualizeGlyphs | binary_hearts_dialogue.py:43-50 | in a styled drawing each position is the style glyph or '·', the glyph exactly where the input has '1', and '·' wherever it does not |
| BinaryHearts.VisualizeRoundTrip | binary_hearts_dialogue.py:45-50 | for a known style, reading the glyphs back as bits recovers the bit string |
| BinaryHearts.CreateEcho | binary_hearts_dialogue.py:54-66 | depth 0 or less gives no lines; an empty string fails at the rotation; otherwise line i fades the string rotated i times by depth - i |
| BinaryHearts.EchoAt | binary_hearts_dialogue.py:59-64 | with no suffix, a line drawn with n glyphs per bit is n times the length of s, and its block j repeats the shade of bit (j + i) mod len(s) |
| BinaryHearts.FirstEmotion | binary_hearts_dialogue.py:102-106 | the emotion found is always a key of the emotion table |
| BinaryHearts.FirstEmotionAt | binary_hearts_dialogue.py:103-106 | the first token the map knows decides the emotion |
| BinaryHearts.FirstEmotionDefault | binary_hearts_dialogue.py:102 | with no known token the emotion is 기쁨 |
| BinaryHearts.PastVoice | binary_hearts_dialogue.py:84-113 | the work and the fixed time are kept, the emotion is the first known token's, and binary is its encoding |
| BinaryHearts.LeadingToken | binary_hearts_dialogue.py:87-106 | a lowercase leading token known to the map decides the emotion |
| BinaryHearts.DawnIsWonder | binary_hearts_dialogue.py:87-106 | dawn_binary_whisper speaks with 경이 |
| BinaryHearts.PresentResponse | binary_hearts_dialogue.py:115-138 | the answer is a table emotion other than 그리움 and other than the past one, with its encoding, at the given time |
| BinaryHearts.Symbols | binary_hearts_dialogue.py:168-173 | one symbol per position of the shorter string |
| BinaryHearts.Harmony | binary_hearts_dialogue.py:174 | the joined symbols are 2m - 1 characters for the shorter length m, or empty |
| BinaryHearts.CreateHarmony | binary_hearts_dialogue.py:165-174 | the loop builds the space-joined symbols |
| BinaryHearts.HarmonySymmetric | binary_hearts_dialogue.py:169-173 | the harmony of a and b is the harmony of b and a |
| BinaryHearts.HarmonyShape | binary_hearts_dialogue.py:169-174 | 2m - 1 characters for m compared positions: ◆ where equal, ○ where different, single spaces between |
| BinaryHearts.HarmonyWithItself | binary_hearts_dialogue.py:170-171 | a pattern in harmony with itself is all ◆ |
| Reflection.SameAdjacentBound | self_reflection.py:63-66 | at most n - 1 adjacent pairs match |
| Reflection.SameAdjacentNone | self_reflection.py:63-66 | no pair matches exactly when every choice changes category |
| Reflection.SameAdjacentAll | self_reflection.py:63-66 | every pair matches exactly when all choices share one category |
| Reflection.ConsistencyRange | self_reflection.py:58-68 | consistency is in [0, 1], 0 below two choices, and 1 exactly when all categories agree |
| Reflection.Consistency | self_reflection.py:58-68 | the proportion of matching adjacent pairs lies between 0 and 1 |
| Reflection.SelfReflection.Valid | self_reflection.py:24-42 | the category counts are the tally of the recorded categories, so they add up to the number of choices |
| Reflection.CountsAppend | self_reflection.py:41-42 | appending a choice increments its category's count in the tally |
| Reflection.CountsMatchChoices | self_reflection.py:41-42 | each count is the number of choices in that category, and the counts add up to the number of choices |
| Reflection.SelfReflection.constructor | self_reflection.py:22-24 | a new engine has no choices and no counts |
| Reflection.SelfReflection.PresentChoice | self_reflection.py:26-31 | returns the category and changes nothing |
| Reflection.SelfReflection.RecordChoice | self_reflection.py:33-42 | appends exactly the new record, adds one to its category's count and to no other, and keeps counts and choices in agreement |
| Reflection.SelfReflection.CalculateConsistency | self_reflection.py:58-68 | the loop returns matching adjacent pairs over n - 1, or 0 below two choices |
| Reflection.SelfReflection.AnalyzePatterns | self_reflection.py:44-56 | no choices give only the message; otherwise the total, the counts (adding up to the total), the consistency (in [0, 1]) and the first and last timestamps |
| Reflection.SelfReflection.AnswerScenario | self_reflection.py:248-256 | a choice in 1..len(options) is recorded; any other leaves both fields unchanged |
| DawnWhisper.DawnHoursExact | past_works_sample/dawn_binary_whisper.py:13 | an hour is a dawn hour exactly when it is 3 to 6 |
| DawnWhisper.WhisperKeysAreBits | past_works_sample/dawn_binary_whisper.py:14-47 | every key of the table is a 5-bit string |
| DawnWhisper.WhisperWidth | past_works_sample/dawn_binary_whisper.py:14-47 | every whisper is five glyphs |
| DawnWhisper.WhispersFollowRule | past_works_sample/dawn_binary_whisper.py:14-47 | every 5-bit string is a key, and its whisper follows the background/star/moon/dew/frost rule |
| DawnWhisper.WhisperPattern | past_works_sample/dawn_binary_whisper.py:57-63 | the loop returns the whispers of the padded 5-character chunks joined by spaces; empty input gives "" |
| DawnWhisper.Groups | past_works_sample/dawn_binary_whisper.py:59-62 | one group per chunk, ceil(len / 5) many |
| DawnWhisper.Lookup | past_works_sample/dawn_binary_whisper.py:62 | the table's whisper or the fallback, always five glyphs |
| DawnWhisper.LookupRule | past_works_sample/dawn_binary_whisper.py:62 | a 5-bit chunk never takes the fallback: its whisper follows the glyph rule |
| DawnWhisper.Pad | past_works_sample/dawn_binary_whisper.py:61 | ljust(5, '0') keeps the chunk as a prefix and fills with '0' up to 5 characters |
| DawnWhisper.TimeToBinary | past_works_sample/dawn_binary_whisper.py:49-55 | the three numerals are bit strings that parse back to the hour, minute and second |
| DawnWhisper.GroupCount | past_works_sample/dawn_binary_whisper.py:60-61 | there are no chunks only for the empty string; every chunk but the last has 5 characters and the last holds the 1 to 5 that remain |
| DawnWhisper.ChunksCover | past_works_sample/dawn_binary_whisper.py:59-60 | the chunks in order make up the input |
| DawnWhisper.BitsAlwaysWhisper | past_works_sample/dawn_binary_whisper.py:60-62 | for a bit string every padded chunk is a key, so the fallback is never taken |
| DawnWhisper.TimeToBinaryExact | past_works_sample/dawn_binary_whisper.py:49-55 | for a valid clock reading the numerals are 5, 6 and 6 bits and parse back to the reading |
| DawnWhisper.ClockWhisperShape | past_works_sample/dawn_binary_whisper.py:84-85 | 17 bits whisper as 4 groups, the last being two bits padded with "000", all table keys |
| EmotionEcho.MessagesCoverEmotions | past_works_sample/binary_emotion_echo.py:75-86 | the emotion and message tables have the same keys |
| EmotionEcho.TextToBinaryRoundTrip | past_works_sample/binary_emotion_echo.py:20-22 | one space-separated group per character, each at least 8 bits, parsing back to its code point |
| EmotionEcho.ByteWidth | past_works_sample/binary_emotion_echo.py:22 | a code point below 256 gives exactly 8 digits |
| EmotionEcho.HangulWidth | past_works_sample/binary_emotion_echo.py:22 | a Hangul syllable gives exactly 16 digits |
| EmotionEcho.EmotionNamesSixteen | past_works_sample/binary_emotion_echo.py:9-22 | every character of every emotion name gives 16 digits |
| EmotionEcho.TextToBinary | past_works_sample/binary_emotion_echo.py:20-22 | empty text gives the empty string |
| EmotionEcho.RemoveSpaces | past_works_sample/binary_emotion_echo.py:27 | no spaces remain, exactly the spaces are dropped (the length falls by their number), and a space-free string is unchanged |
| EmotionEcho.RemoveSpacesAppend | past_works_sample/binary_emotion_echo.py:27 | stripping a concatenation strips each part, so the other characters stay in their order |
| EmotionEcho.RemoveSpacesJoin | past_works_sample/binary_emotion_echo.py:22-27 | space-free pieces joined by spaces strip back to their concatenation |
| EmotionEcho.EchoInputOfText | past_works_sample/binary_emotion_echo.py:22-27 | the stripped output of text_to_binary is the characters' numerals run together, at least 8 bits for non-empty text |
| EmotionEcho.CreateEchoPattern | past_works_sample/binary_emotion_echo.py:24-46 | depth 0 or less gives no lines; empty stripped input fails at the rotation; otherwise depth lines, line i fading the stripped bits rotated i times |
| EmotionEcho.FadeRow | past_works_sample/binary_emotion_echo.py:32-39 | the inner loop draws each bit as fade-level shades followed by a space |
| EmotionEcho.EchoBlockAt | past_works_sample/binary_emotion_echo.py:34-44 | with a space after each block, a line with n shades per bit is (n + 1) times the length of the bits; block j is n shades of bit (j + i) mod len(bits) followed by a space |
| EmotionClock.TimePeriodRanges | past_works_sample/code_emotion_time.py:32-41 | 5-11 morning, 12-17 afternoon, 18-21 evening, all other hours night, each a key with three labels |
| EmotionClock.GetTimePeriod | past_works_sample/code_emotion_time.py:32-41 | the period is always a key of the label table |
| EmotionClock.MoodName | past_works_sample/code_emotion_time.py:47 | a mood is found exactly when the label has at least two words |
| EmotionClock.Words | past_works_sample/code_emotion_time.py:47 | str.split() gives non-empty words without whitespace |
| EmotionClock.CodeFor | past_works_sample/code_emotion_time.py:48 | the result is a table snippet or the fallback, and it is the fallback exactly when the mood is not in the table |
| EmotionClock.FallbackNotASnippet | past_works_sample/code_emotion_time.py:10-48 | no mood's snippet is the fallback snippet |
| EmotionClock.TwoWords | past_works_sample/code_emotion_time.py:47 | two words joined by a space split back into those two words |
| EmotionClock.EveryLabelHasCode | past_works_sample/code_emotion_time.py:10-48 | every label's second word is a key of the snippet table, so a clock label never shows the fallback snippet |
| EmotionClock.DotsOf | past_works_sample/code_emotion_time.py:65 | the dots of an n below 2^w are w symbols, as many filled as n has one bits |
| EmotionClock.Dots | past_works_sample/code_emotion_time.py:65 | as many filled dots as '1' digits, as many empty dots as '0' digits, and nothing else |
| EmotionClock.ClockDots | past_works_sample/code_emotion_time.py:62-65 | 5 hour dots and 6 minute dots, the filled ones counting the one bits |

## Left out

- The directory glob is a sequence of stems. Reading sample files, saving JSON or a journey, and the hard-coded machine paths are file-system work and are not modelled.
- Printing, console rendering and sleeps are output only and are not modelled. This covers print_analysis, visualize_journey, render_conversation, dawn_meditation, create_dawn_haiku, show_emotion_time and the main functions.
- Wall-clock readings are parameters: the hour, minute and second, and the present response's time string. Record timestamps are opaque strings.
- _get_time_span's difference in seconds needs ISO date arithmetic and float formatting. The model reports the first and last timestamps instead.
- Random picks (emotion, chunk, mood label, haiku moment) are not modelled. Every possible pick is covered by the all-keys lemmas.
- Consistency is an exact real. The `.1%` rendering is not modelled.
- Reading and parsing user input, and the exception handling around it, are not modelled. AnswerScenario takes the chosen number directly.
- Lower: lowercases ASCII letters only. Python's str.lower also folds non-ASCII letters, which the keyword tests never need.
- IsEmoji: the regular-expression character class is modelled as the predicate over its six code-point ranges. The regular-expression engine itself is not modelled.
- CharBinary: Dafny characters exclude the surrogate code points, which a Python string can hold.
- The three-name example of the token count (binary counted three times) is covered by the general FilenameCounts lemma only. It is not a separate instance.
- The Dialogue's list of past works is constant data that only the driver reads. The driver is not modelled.
- visualize_journey.py, past_works_sample/tool_friendship_bridge.py and past_works_sample/binary_time_flower.py are not part of this model. They are constant text, random presentation and a print-only clock.
