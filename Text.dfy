/** String helpers shared by the scripts: ASCII lower-casing, substring
    search, Python's str.split/str.join on one separator, left rotation and binary numerals as produced by
    format(n, '0Nb') and read back by int(s, 2). */
module Text {

  /** A call that either returns a value or raises (the scripts' exceptions). */
  datatype Result<T> = Ok(value: T) | Err(error: string)

  // ---------------------------------------------------------------------
  // Characters and substrings

  function LowerChar(c: char): char {
    if 'A' <= c <= 'Z' then (c as int + 32) as char else c
  }

  /** str.lower, restricted to the ASCII letters */
  function Lower(s: string): (r: string)
    ensures |r| == |s|
    ensures forall i | 0 <= i < |s| :: !('A' <= r[i] <= 'Z')
    ensures forall i | 0 <= i < |s| :: !('A' <= s[i] <= 'Z') ==> r[i] == s[i]
    ensures forall i | 0 <= i < |s| && 'A' <= s[i] <= 'Z' ::
              'a' <= r[i] <= 'z' && r[i] as int - 'a' as int == s[i] as int - 'A' as int
  {
    seq(|s|, i requires 0 <= i < |s| => LowerChar(s[i]))
  }

  /** `sub` occurs in s starting at index i */
  predicate OccursAt(s: string, sub: string, i: int) {
    0 <= i && i + |sub| <= |s| && s[i..i + |sub|] == sub
  }

  /** Python's `sub in s` */
  predicate Contains(s: string, sub: string) {
    exists i | 0 <= i <= |s| - |sub| :: OccursAt(s, sub, i)
  }

  lemma ContainsAt(s: string, sub: string, i: nat)
    requires OccursAt(s, sub, i)
    ensures Contains(s, sub)
  {
  }

  /** A string containing `outer` contains every substring of `outer`. */
  lemma ContainsTransitive(s: string, outer: string, inner: string, k: nat)
    requires Contains(s, outer)
    requires k + |inner| <= |outer| && outer[k..k + |inner|] == inner
    ensures Contains(s, inner)
  {
    var i :| 0 <= i <= |s| - |outer| && OccursAt(s, outer, i);
    forall t | 0 <= t < |inner| ensures s[i + k + t] == inner[t] {
      assert inner[t] == outer[k + t] == s[i..i + |outer|][k + t];
    }
    assert s[i + k..i + k + |inner|] == inner;
    ContainsAt(s, inner, i + k);
  }

  function CountChar(s: string, c: char): nat
    decreases |s|
  {
    if s == [] then 0 else (if s[0] == c then 1 else 0) + CountChar(s[1..], c)
  }

  lemma {:induction false} CountCharAppend(a: string, b: string, c: char)
    ensures CountChar(a + b, c) == CountChar(a, c) + CountChar(b, c)
    decreases |a|
  {
    if a != [] {
      assert (a + b)[0] == a[0] && (a + b)[1..] == a[1..] + b;
      CountCharAppend(a[1..], b, c);
    } else {
      assert a + b == b;
    }
  }

  function Repeat<T>(x: T, n: nat): (r: seq<T>)
    ensures |r| == n && forall i | 0 <= i < n :: r[i] == x
  {
    seq(n, _ => x)
  }

  lemma {:induction false} CountCharRepeat(x: char, n: nat, c: char)
    ensures CountChar(Repeat(x, n), c) == if x == c then n else 0
    decreases n
  {
    if n > 0 {
      assert Repeat(x, n)[1..] == Repeat(x, n - 1);
      CountCharRepeat(x, n - 1, c);
    }
  }

  // ---------------------------------------------------------------------
  // str.split(sep) and sep.join(parts)

  /** Python's `s.split(sep)` for a one-character separator: empty pieces are
      kept, and the empty string splits into one empty piece. */
  function Split(s: string, sep: char): (parts: seq<string>)
    ensures |parts| >= 1
    decreases |s|
  {
    if s == [] then [""]
    else
      var rest := Split(s[1..], sep);
      if s[0] == sep then [""] + rest else [[s[0]] + rest[0]] + rest[1..]
  }

  /** Python's `sep.join(parts)` */
  function Join(parts: seq<string>, sep: string): string
    decreases |parts|
  {
    if parts == [] then ""
    else if |parts| == 1 then parts[0]
    else parts[0] + sep + Join(parts[1..], sep)
  }

  /** `''.join(parts)` */
  function Concat(parts: seq<string>): string {
    if parts == [] then [] else Concat(parts[..|parts| - 1]) + parts[|parts| - 1]
  }

  lemma ConcatSnoc(parts: seq<string>, p: string)
    ensures Concat(parts + [p]) == Concat(parts) + p
  {
    assert (parts + [p])[..|parts|] == parts;
  }

  /** The first part leads the concatenation. */
  lemma {:induction false} ConcatCons(p: string, parts: seq<string>)
    ensures Concat([p] + parts) == p + Concat(parts)
    decreases |parts|
  {
    if parts == [] {
      assert [p] + parts == [] + [p];
      ConcatSnoc([], p);
    } else {
      var init, last := parts[..|parts| - 1], parts[|parts| - 1];
      assert [p] + parts == ([p] + init) + [last];
      assert parts == init + [last];
      ConcatSnoc([p] + init, last);
      ConcatCons(p, init);
      ConcatSnoc(init, last);
    }
  }

  /** Joining one-character pieces with a one-character separator puts
      piece i at position 2i and the separator between them. */
  lemma {:induction false} JoinSingles(parts: seq<string>, sep: char)
    requires forall i | 0 <= i < |parts| :: |parts[i]| == 1
    ensures |Join(parts, [sep])| == if parts == [] then 0 else 2 * |parts| - 1
    ensures forall i | 0 <= i < |parts| :: Join(parts, [sep])[2 * i] == parts[i][0]
    ensures forall i | 0 <= i < |parts| - 1 :: Join(parts, [sep])[2 * i + 1] == sep
    decreases |parts|
  {
    if |parts| > 1 {
      var rest := parts[1..];
      JoinSingles(rest, sep);
      var j := Join(parts, [sep]);
      assert j == parts[0] + [sep] + Join(rest, [sep]);
      forall i | 1 <= i < |parts| ensures j[2 * i] == parts[i][0] {
        assert j[2 * i] == Join(rest, [sep])[2 * (i - 1)];
      }
      forall i | 1 <= i < |parts| - 1 ensures j[2 * i + 1] == sep {
        assert j[2 * i + 1] == Join(rest, [sep])[2 * (i - 1) + 1];
      }
    }
  }

  /** Splitting yields one more piece than there are separators. */
  lemma {:induction false} SplitCount(s: string, sep: char)
    ensures |Split(s, sep)| == CountChar(s, sep) + 1
    decreases |s|
  {
    if s != [] {
      SplitCount(s[1..], sep);
    }
  }

  /** No piece of a split contains the separator. */
  lemma {:induction false} SplitPieces(s: string, sep: char)
    ensures forall p | p in Split(s, sep) :: sep !in p
    decreases |s|
  {
    if s != [] {
      SplitPieces(s[1..], sep);
      var rest := Split(s[1..], sep);
      if s[0] != sep {
        assert rest[0] in rest;
        forall p | p in Split(s, sep) ensures sep !in p {
          if p != [s[0]] + rest[0] {
            assert p in rest[1..];
          }
        }
      }
    }
  }

  /** Joining the pieces of a split with the separator gives the string back. */
  lemma {:induction false} JoinSplit(s: string, sep: char)
    ensures Join(Split(s, sep), [sep]) == s
    decreases |s|
  {
    if s != [] {
      var rest := Split(s[1..], sep);
      JoinSplit(s[1..], sep);
      if s[0] != sep {
        if |rest| > 1 {
          assert rest == [rest[0]] + rest[1..];
          assert Join(rest, [sep]) == rest[0] + [sep] + Join(rest[1..], [sep]);
        }
      }
    }
  }

  /** Splitting a piece free of the separator followed by a string. */
  lemma {:induction false} SplitPrefix(p: string, t: string, sep: char)
    requires sep !in p
    ensures Split(p + t, sep) == [p + Split(t, sep)[0]] + Split(t, sep)[1..]
    decreases |p|
  {
    if p != [] {
      assert (p + t)[0] == p[0] && (p + t)[1..] == p[1..] + t;
      SplitPrefix(p[1..], t, sep);
      var rest := Split(p[1..] + t, sep);
      assert [p[0]] + rest[0] == p + Split(t, sep)[0];
    } else {
      assert p + t == t;
      assert p + Split(t, sep)[0] == Split(t, sep)[0];
      assert Split(t, sep) == [Split(t, sep)[0]] + Split(t, sep)[1..];
    }
  }

  /** Splitting a join of separator-free pieces gives the pieces back. */
  lemma {:induction false} SplitJoin(parts: seq<string>, sep: char)
    requires |parts| >= 1
    requires forall p | p in parts :: sep !in p
    ensures Split(Join(parts, [sep]), sep) == parts
    decreases |parts|
  {
    if |parts| == 1 {
      SplitPrefix(parts[0], "", sep);
      assert parts[0] + "" == parts[0];
    } else {
      var tail := Join(parts[1..], [sep]);
      assert forall p | p in parts[1..] :: p in parts;
      SplitJoin(parts[1..], sep);
      assert parts[0] in parts;
      assert parts[0] + [sep] + tail == parts[0] + ([sep] + tail);
      SplitPrefix(parts[0], [sep] + tail, sep);
      assert ([sep] + tail)[0] == sep && ([sep] + tail)[1..] == tail;
      assert Split([sep] + tail, sep) == [""] + Split(tail, sep);
      assert parts[0] + "" == parts[0];
      assert parts == [parts[0]] + parts[1..];
    }
  }

  // ---------------------------------------------------------------------
  // Rotation: `s[1:] + s[0]`

  function RotateLeft(s: string): (r: string)
    requires |s| > 0
    ensures |r| == |s|
  {
    s[1..] + [s[0]]
  }

  /** `s` rotated left `k` times */
  function Rotated(s: string, k: nat): (r: string)
    requires |s| > 0
    ensures |r| == |s|
  {
    if k == 0 then s else RotateLeft(Rotated(s, k - 1))
  }

  lemma MulAtLeast(a: int, n: int)
    requires a >= 1 && n > 0
    ensures a * n >= n
  {
  }

  lemma MulDistributes(a: int, b: int, n: int)
    ensures (a - b) * n == a * n - b * n
  {
  }

  /** The remainder is determined by any quotient/remainder decomposition. */
  lemma ModUnique(x: int, n: int, q: int, r: int)
    requires n > 0 && 0 <= r < n && x == q * n + r
    ensures x % n == r
  {
    var q0, r0 := x / n, x % n;
    assert x == q0 * n + r0;
    MulDistributes(q, q0, n);
    MulDistributes(q0, q, n);
    if q > q0 {
      MulAtLeast(q - q0, n);
    } else if q < q0 {
      MulAtLeast(q0 - q, n);
    }
  }

  lemma ModShift(x: nat, n: nat)
    requires n > 0
    ensures (x + n) % n == x % n
  {
    ModUnique(x + n, n, x / n + 1, x % n);
  }

  lemma ModSmall(x: nat, n: nat)
    requires x < n
    ensures x % n == x
  {
    ModUnique(x, n, 0, x);
  }

  /** Character j of the k-fold rotation is character (j + k) mod |s| of s. */
  lemma {:induction false} RotatedAt(s: string, k: nat, j: nat)
    requires |s| > 0 && j < |s|
    ensures Rotated(s, k)[j] == s[(j + k) % |s|]
  {
    var n := |s|;
    if k == 0 {
      ModSmall(j, n);
    } else {
      if j < n - 1 {
        RotatedAt(s, k - 1, j + 1);
        assert j + 1 + (k - 1) == j + k;
      } else {
        RotatedAt(s, k - 1, 0);
        ModShift(k - 1, n);
        assert (k - 1) + n == j + k;
      }
    }
  }

  lemma RotatedFullAt(s: string, j: nat)
    requires j < |s|
    ensures Rotated(s, |s|)[j] == s[j]
  {
    var n := |s|;
    RotatedAt(s, n, j);
    ModShift(j, n);
    ModSmall(j, n);
    var x := (j + n) % n;
    assert x == j;
  }

  /** Rotating |s| times gives s back. */
  lemma RotatedFullCircle(s: string)
    requires |s| > 0
    ensures Rotated(s, |s|) == s
  {
    forall j | 0 <= j < |s| ensures Rotated(s, |s|)[j] == s[j] {
      RotatedFullAt(s, j);
    }
  }

  // ---------------------------------------------------------------------
  // Binary numerals

  predicate IsBits(s: string) {
    forall i | 0 <= i < |s| :: s[i] == '0' || s[i] == '1'
  }

  function Pow2(w: nat): (r: nat)
    ensures r >= 1
  {
    if w == 0 then 1 else 2 * Pow2(w - 1)
  }

  function DigitChar(d: nat): char
    requires d < 2
  {
    if d == 1 then '1' else '0'
  }

  /** format(n, 'b'): the shortest binary numeral of n */
  function Binary(n: nat): (r: string)
    ensures |r| >= 1 && IsBits(r)
    decreases n
  {
    if n < 2 then [DigitChar(n)] else Binary(n / 2) + [DigitChar(n % 2)]
  }

  /** str.zfill-style left padding with '0' to at least `width` characters */
  function ZeroPad(s: string, width: nat): (r: string)
    ensures |r| == if |s| >= width then |s| else width
  {
    if |s| >= width then s else Repeat('0', width - |s|) + s
  }

  /** format(n, '0Wb') */
  function FormatBinary(n: nat, width: nat): (r: string)
    ensures |r| >= width
  {
    ZeroPad(Binary(n), width)
  }

  /** int(s, 2) for a numeral made of '0' and '1' */
  function ParseBinary(s: string): nat
    decreases |s|
  {
    if s == [] then 0
    else 2 * ParseBinary(s[..|s| - 1]) + (if s[|s| - 1] == '1' then 1 else 0)
  }

  lemma {:induction false} ParseBinaryOfBinary(n: nat)
    ensures ParseBinary(Binary(n)) == n
    decreases n
  {
    if n >= 2 {
      var b := Binary(n / 2) + [DigitChar(n % 2)];
      assert b[..|b| - 1] == Binary(n / 2);
      ParseBinaryOfBinary(n / 2);
    }
  }

  lemma {:induction false} ParseBinaryLeadingZeros(k: nat, s: string)
    ensures ParseBinary(Repeat('0', k) + s) == ParseBinary(s)
    decreases |s|, k
  {
    var z := Repeat('0', k);
    if s == [] {
      assert z + s == z;
      if k > 0 {
        assert z[..k - 1] == Repeat('0', k - 1);
        ParseBinaryLeadingZeros(k - 1, []);
        assert Repeat('0', k - 1) + [] == Repeat('0', k - 1);
      }
    } else {
      var t := z + s;
      assert t[..|t| - 1] == z + s[..|s| - 1];
      ParseBinaryLeadingZeros(k, s[..|s| - 1]);
    }
  }

  /** int(format(n, '0Wb'), 2) == n, whatever the width */
  lemma FormatBinaryRoundTrip(n: nat, width: nat)
    ensures IsBits(FormatBinary(n, width))
    ensures ParseBinary(FormatBinary(n, width)) == n
  {
    var b := Binary(n);
    ParseBinaryOfBinary(n);
    if |b| < width {
      ParseBinaryLeadingZeros(width - |b|, b);
    }
  }

  /** The shortest numeral of n fits in w digits exactly when n < 2^w. */
  lemma {:induction false} BinaryLength(n: nat, w: nat)
    requires w >= 1
    ensures |Binary(n)| <= w <==> n < Pow2(w)
    decreases n
  {
    if n >= 2 {
      if w == 1 {
        assert |Binary(n)| == |Binary(n / 2)| + 1;
      } else {
        BinaryLength(n / 2, w - 1);
      }
    }
  }

  /** Below 2^w, format(n, '0Wb') has exactly w digits. */
  lemma FormatBinaryWidth(n: nat, w: nat)
    requires w >= 1 && n < Pow2(w)
    ensures |FormatBinary(n, w)| == w
  {
    BinaryLength(n, w);
  }

  /** From 2^(w-1) up to 2^w - 1 the shortest numeral has exactly w digits. */
  lemma BinaryLengthExact(n: nat, w: nat)
    requires w >= 2 && Pow2(w - 1) <= n < Pow2(w)
    ensures |Binary(n)| == w
  {
    BinaryLength(n, w);
    BinaryLength(n, w - 1);
  }

  /** Number of 1-bits of n, by arithmetic */
  function PopCount(n: nat): nat
    decreases n
  {
    if n == 0 then 0 else n % 2 + PopCount(n / 2)
  }

  /** The '1' digits of format(n, '0Wb') are the 1-bits of n. */
  lemma {:induction false} BinaryOnes(n: nat)
    ensures CountChar(Binary(n), '1') == PopCount(n)
    decreases n
  {
    if n >= 2 {
      BinaryOnes(n / 2);
      CountCharAppend(Binary(n / 2), [DigitChar(n % 2)], '1');
    } else {
      assert PopCount(n) == n;
    }
  }

  lemma FormatBinaryOnes(n: nat, width: nat)
    ensures CountChar(FormatBinary(n, width), '1') == PopCount(n)
  {
    var b := Binary(n);
    BinaryOnes(n);
    if |b| < width {
      CountCharAppend(Repeat('0', width - |b|), b, '1');
      CountCharRepeat('0', width - |b|, '1');
    }
  }

  /** A bit string has as many '0' and '1' characters as it is long. */
  lemma {:induction false} BitsCount(s: string)
    requires IsBits(s)
    ensures CountChar(s, '1') + CountChar(s, '0') == |s|
    decreases |s|
  {
    if s != [] {
      BitsCount(s[1..]);
    }
  }

  // ---------------------------------------------------------------------
  // Fading echoes: every bit drawn as a run of block or dot glyphs

  /** '█' for a one bit, '·' for anything else */
  function Shade(c: char): char {
    if c == '1' then '█' else '·'
  }

  /** Every character of s as n copies of its shade, each followed by
      suffix */
  function Fade(s: string, n: nat, suffix: string): string
    decreases |s|
  {
    if s == [] then [] else Repeat(Shade(s[0]), n) + suffix + Fade(s[1..], n, suffix)
  }

  /** Each character becomes a block of n + |suffix| characters. */
  lemma {:induction false} FadeLength(s: string, n: nat, suffix: string)
    ensures |Fade(s, n, suffix)| == |s| * (n + |suffix|)
    decreases |s|
  {
    if s != [] {
      FadeLength(s[1..], n, suffix);
      MulDistributes(|s|, 1, n + |suffix|);
    }
  }

  /** Fading one more character appends its block. */
  lemma {:induction false} FadeSnoc(s: string, c: char, n: nat, suffix: string)
    ensures Fade(s + [c], n, suffix) == Fade(s, n, suffix) + Repeat(Shade(c), n) + suffix
    decreases |s|
  {
    if s == [] {
      assert [c][1..] == [];
    } else {
      assert (s + [c])[1..] == s[1..] + [c];
      FadeSnoc(s[1..], c, n, suffix);
    }
  }

  /** Block j of the fade is n shades of s[j] followed by the suffix. */
  lemma {:induction false} FadeAt(s: string, n: nat, suffix: string, j: nat, t: nat)
    requires j < |s| && t < n + |suffix|
    ensures j * (n + |suffix|) + t < |Fade(s, n, suffix)|
    ensures Fade(s, n, suffix)[j * (n + |suffix|) + t] == if t < n then Shade(s[j]) else suffix[t - n]
    decreases j
  {
    var w := n + |suffix|;
    MulLess(j, |s|, w, t);
    FadeLength(s, n, suffix);
    if j > 0 {
      FadeAt(s[1..], n, suffix, j - 1, t);
      MulDistributes(j, 1, w);
      assert j * w + t == w + ((j - 1) * w + t);
    }
  }

  /** Echo line i: s rotated left i times, every character faded to n
      shades, each block followed by suffix */
  function EchoLine(s: string, n: nat, i: nat, suffix: string): string
    requires |s| > 0
  {
    Fade(Rotated(s, i), n, suffix)
  }

  /** An echo of depth lines, line i fading by depth - i */
  function Echo(s: string, depth: nat, suffix: string): (lines: seq<string>)
    requires |s| > 0
    ensures |lines| == depth
  {
    seq(depth, i requires 0 <= i < depth => EchoLine(s, depth - i, i, suffix))
  }

  /** An echo line is made of |s| blocks of n + |suffix| characters: block j
      holds n shades of character (j + i) mod |s| of s, then the suffix. */
  lemma EchoLineAt(s: string, n: nat, i: nat, suffix: string, j: nat, t: nat)
    requires |s| > 0 && j < |s| && t < n + |suffix|
    ensures |EchoLine(s, n, i, suffix)| == |s| * (n + |suffix|)
    ensures j * (n + |suffix|) + t < |s| * (n + |suffix|)
    ensures EchoLine(s, n, i, suffix)[j * (n + |suffix|) + t] ==
      if t < n then Shade(s[(j + i) % |s|]) else suffix[t - n]
  {
    var rot := Rotated(s, i);
    FadeLength(rot, n, suffix);
    FadeAt(rot, n, suffix, j, t);
    RotatedAt(s, i, j);
  }

  /** j * w + t stays below |s| * w when j < |s| and t < w. */
  lemma MulLess(j: nat, m: nat, w: nat, t: nat)
    requires j < m && t < w
    ensures j * w + t < m * w
  {
    MulDistributes(m, j, w);
    MulAtLeast(m - j, w);
  }
}
