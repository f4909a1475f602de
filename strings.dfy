/**
 * The handful of Python `str` operations the deck parser relies on, written
 * out over `seq<char>`: splitting on one character, stripping a set of
 * characters from either end, prefix/suffix/substring tests, ASCII case
 * folding, decimal digits and Python's slice rule for negative indices.
 */
module Strings {

  /** Python `str.split(sep)` for a one-character separator: never empty. */
  function Split(s: string, sep: char): (r: seq<string>)
    ensures |r| >= 1
    ensures forall i :: 0 <= i < |r| ==> sep !in r[i]
    ensures sep !in s ==> r == [s]
    decreases |s|
  {
    if sep !in s then [s]
    else
      var i := IndexOf(s, sep);
      [s[..i]] + Split(s[i + 1..], sep)
  }

  /** Python `sep.join(parts)`. */
  function Join(parts: seq<string>, sep: string): string
  {
    if |parts| == 0 then ""
    else if |parts| == 1 then parts[0]
    else parts[0] + sep + Join(parts[1..], sep)
  }

  /** Index of the first occurrence of `c` in `s`, or -1 (Python `str.find`). */
  function Find(s: string, c: char): (r: int)
    ensures -1 <= r < |s|
    ensures r == -1 <==> c !in s
    ensures r >= 0 ==> s[r] == c && c !in s[..r]
  {
    if c in s then IndexOf(s, c) else -1
  }

  /** Index of the first occurrence of a character known to be present. */
  function IndexOf(s: string, c: char): (i: nat)
    requires c in s
    ensures i < |s| && s[i] == c && c !in s[..i]
  {
    if s[0] == c then 0
    else
      assert c in s[1..] by { assert s == [s[0]] + s[1..]; }
      var j := IndexOf(s[1..], c);
      assert s[..j + 1] == [s[0]] + s[1..][..j];
      j + 1
  }

  /** Python `s.split(sep, 1)` when `sep` occurs: the text before and after the first `sep`. */
  function SplitOnce(s: string, sep: char): (r: (string, string))
    requires sep in s
    ensures sep !in r.0
    ensures r.0 + [sep] + r.1 == s
    ensures |r.0| < |s| && |r.1| < |s|
  {
    var i := IndexOf(s, sep);
    assert s == s[..i] + [sep] + s[i + 1..];
    (s[..i], s[i + 1..])
  }

  /** The whitespace characters of Python's argument-less `strip`. */
  predicate IsSpace(c: char)
  {
    c in {'\U{0020}', '\U{0009}', '\U{000A}', '\U{000D}', '\U{000B}', '\U{000C}', '\U{001C}', '\U{001D}',
          '\U{001E}', '\U{001F}', '\U{0085}', '\U{00A0}', '\U{1680}', '\U{2000}', '\U{2001}', '\U{2002}',
          '\U{2003}', '\U{2004}', '\U{2005}', '\U{2006}', '\U{2007}', '\U{2008}', '\U{2009}', '\U{200A}',
          '\U{2028}', '\U{2029}', '\U{202F}', '\U{205F}', '\U{3000}'}
  }

  /** Python `s.lstrip(chars)`: drops every leading character in `chars`. */
  function LStrip(s: string, chars: set<char>): (r: string)
    ensures |r| <= |s|
    ensures r == [] || r[0] !in chars
    ensures forall i :: 0 <= i < |s| - |r| ==> s[i] in chars
  {
    if |s| > 0 && s[0] in chars then LStrip(s[1..], chars) else s
  }

  /** What `lstrip` keeps is a suffix of the string. */
  lemma {:induction false} LStripSlice(s: string, chars: set<char>)
    ensures LStrip(s, chars) == s[|s| - |LStrip(s, chars)|..]
    decreases |s|
  {
    if |s| > 0 && s[0] in chars {
      LStripSlice(s[1..], chars);
    }
  }

  /** Python `s.rstrip(chars)`: drops every trailing character in `chars`. */
  function RStrip(s: string, chars: set<char>): (r: string)
    ensures |r| <= |s| && r == s[..|r|]
    ensures r == [] || r[|r| - 1] !in chars
    ensures forall i :: |r| <= i < |s| ==> s[i] in chars
  {
    if |s| > 0 && s[|s| - 1] in chars then RStrip(s[..|s| - 1], chars) else s
  }

  /** Python `s.strip(chars)`. */
  function Strip(s: string, chars: set<char>): (r: string)
    ensures |r| <= |s|
  {
    RStrip(LStrip(s, chars), chars)
  }

  /** Python `s.lstrip()` (whitespace). */
  function LStripWs(s: string): (r: string)
    ensures |r| <= |s|
    ensures r == [] || !IsSpace(r[0])
    ensures forall i :: 0 <= i < |s| - |r| ==> IsSpace(s[i])
  {
    if |s| > 0 && IsSpace(s[0]) then LStripWs(s[1..]) else s
  }

  /** What `lstrip()` keeps is a suffix of the string. */
  lemma {:induction false} LStripWsSlice(s: string)
    ensures LStripWs(s) == s[|s| - |LStripWs(s)|..]
    decreases |s|
  {
    if |s| > 0 && IsSpace(s[0]) {
      LStripWsSlice(s[1..]);
    }
  }

  /** Python `s.rstrip()` (whitespace). */
  function RStripWs(s: string): (r: string)
    ensures |r| <= |s| && r == s[..|r|]
    ensures r == [] || !IsSpace(r[|r| - 1])
  {
    if |s| > 0 && IsSpace(s[|s| - 1]) then RStripWs(s[..|s| - 1]) else s
  }

  /** Python `s.strip()` (whitespace). */
  function StripWs(s: string): (r: string)
    ensures |r| <= |s|
  {
    RStripWs(LStripWs(s))
  }

  /** Python `s.rstrip("\n")`: what the readers do to every line before storing it. */
  function RStripNL(s: string): (r: string)
    ensures |r| <= |s| && r == s[..|r|]
    ensures r == [] || r[|r| - 1] != '\n'
  {
    RStrip(s, {'\n'})
  }

  predicate StartsWith(s: string, prefix: string)
  {
    |prefix| <= |s| && s[..|prefix|] == prefix
  }

  predicate EndsWith(s: string, suffix: string)
  {
    |suffix| <= |s| && s[|s| - |suffix|..] == suffix
  }

  /** Python `sub in s` for strings. */
  predicate Contains(s: string, sub: string)
    decreases |s|
  {
    StartsWith(s, sub) || (|s| > 0 && Contains(s[1..], sub))
  }

  /** `str.lower()` restricted to the ASCII letters. */
  function LowerChar(c: char): char
  {
    if 'A' <= c <= 'Z' then (c as int + 32) as char else c
  }

  function Lower(s: string): (r: string)
    ensures |r| == |s|
    ensures forall i :: 0 <= i < |s| ==> r[i] == LowerChar(s[i])
  {
    if s == [] then [] else [LowerChar(s[0])] + Lower(s[1..])
  }

  predicate IsDigit(c: char)
  {
    '0' <= c <= '9'
  }

  /** `str.isnumeric()` restricted to ASCII digits: non-empty and all digits. */
  predicate IsNumeric(s: string)
  {
    |s| > 0 && forall i :: 0 <= i < |s| ==> IsDigit(s[i])
  }

  /** The value of a string of decimal digits (Python `int(s)` on such a string). */
  function DigitsValue(s: string): (n: nat)
    requires forall i :: 0 <= i < |s| ==> IsDigit(s[i])
  {
    if s == [] then 0
    else
      assert IsDigit(s[|s| - 1]);
      DigitsValue(s[..|s| - 1]) * 10 + (s[|s| - 1] as int - '0' as int)
  }

  /** The decimal digits of `n`, without leading zeros ("0" for zero). */
  function NatToDigits(n: nat): (s: string)
    ensures |s| > 0
    ensures forall i :: 0 <= i < |s| ==> IsDigit(s[i])
  {
    if n < 10 then [('0' as int + n) as char]
    else NatToDigits(n / 10) + [('0' as int + n % 10) as char]
  }

  lemma {:induction false} DigitsRoundTrip(n: nat)
    ensures DigitsValue(NatToDigits(n)) == n
  {
    if n >= 10 {
      DigitsRoundTrip(n / 10);
      var s := NatToDigits(n);
      assert s[..|s| - 1] == NatToDigits(n / 10);
    }
  }

  /** A slice index after Python's rule: negative counts from the end, then clamp. */
  function PyIndex(i: int, len: nat): (r: nat)
    ensures r <= len
    ensures 0 <= i <= len ==> r == i
  {
    if i < 0 then (if i + len < 0 then 0 else i + len)
    else if i > len then len
    else i
  }

  /** Python `s[a:b]`. */
  function PySlice(s: string, a: int, b: int): (r: string)
    ensures 0 <= a <= b <= |s| ==> r == s[a..b]
  {
    var i, j := PyIndex(a, |s|), PyIndex(b, |s|);
    if i <= j then s[i..j] else ""
  }

  /** Python `s[:a]`. */
  function PyPrefix(s: string, a: int): (r: string)
    ensures 0 <= a <= |s| ==> r == s[..a]
  {
    s[..PyIndex(a, |s|)]
  }

  /** Python `s[a:]`. */
  function PySuffix(s: string, a: int): (r: string)
    ensures 0 <= a <= |s| ==> r == s[a..]
  {
    s[PyIndex(a, |s|)..]
  }

  /** Splitting and joining again gives the original string. */
  lemma {:induction false} SplitJoin(s: string, sep: char)
    ensures Join(Split(s, sep), [sep]) == s
    decreases |s|
  {
    if sep in s {
      var i := IndexOf(s, sep);
      var rest := Split(s[i + 1..], sep);
      SplitJoin(s[i + 1..], sep);
      SplitStep(s, sep);
      JoinCons(s[..i], rest, [sep]);
      Around(s, i);
    }
  }

  lemma SplitStep(s: string, sep: char)
    requires sep in s
    ensures Split(s, sep) == [s[..IndexOf(s, sep)]] + Split(s[IndexOf(s, sep) + 1..], sep)
  {
  }

  lemma Around<T>(s: seq<T>, i: nat)
    requires i < |s|
    ensures s == s[..i] + [s[i]] + s[i + 1..]
  {
  }

  lemma JoinCons(a: string, rest: seq<string>, sep: string)
    requires |rest| >= 1
    ensures Join([a] + rest, sep) == a + sep + Join(rest, sep)
  {
    assert ([a] + rest)[1..] == rest;
  }

  /** When the separator occurs, every piece is strictly shorter than the whole. */
  lemma {:induction false} SplitPiecesShorter(s: string, sep: char)
    requires sep in s
    ensures forall p :: p in Split(s, sep) ==> |p| < |s|
    decreases |s|
  {
    var i := IndexOf(s, sep);
    var rest := s[i + 1..];
    if sep in rest {
      SplitPiecesShorter(rest, sep);
    }
  }

  /** Stripping trailing newlines twice is stripping them once. */
  lemma RStripNLIdempotent(s: string)
    ensures RStripNL(RStripNL(s)) == RStripNL(s)
  {
    var r := RStripNL(s);
    assert r == [] || r[|r| - 1] !in {'\n'};
  }

  /** A string without newline is its own `rstrip("\n")`. */
  lemma RStripNLNoNewline(s: string)
    requires '\n' !in s
    ensures RStripNL(s) == s
  {
    if |s| > 0 {
      assert s[|s| - 1] in s;
    }
  }

  /** `lstrip(chars)` removes exactly the leading run of characters in `chars`. */
  lemma {:induction false} LStripSkip(s: string, chars: set<char>, n: nat)
    requires n <= |s| && (forall i :: 0 <= i < n ==> s[i] in chars) && (n == |s| || s[n] !in chars)
    ensures LStrip(s, chars) == s[n..]
    decreases n
  {
    if n > 0 {
      LStripSkip(s[1..], chars, n - 1);
      assert s[1..][n - 1..] == s[n..];
    }
  }

  /** `lstrip()` removes exactly the leading run of whitespace. */
  lemma {:induction false} LStripWsSkip(s: string, n: nat)
    requires n <= |s| && (forall i :: 0 <= i < n ==> IsSpace(s[i])) && (n == |s| || !IsSpace(s[n]))
    ensures LStripWs(s) == s[n..]
    decreases n
  {
    if n > 0 {
      LStripWsSkip(s[1..], n - 1);
      assert s[1..][n - 1..] == s[n..];
    }
  }

  /** The first occurrence is the index before which the character does not occur. */
  lemma IndexOfAt(s: string, c: char, i: nat)
    requires i < |s| && s[i] == c && c !in s[..i]
    ensures IndexOf(s, c) == i
  {
  }

  /** The first piece of a split is the text before the first separator. */
  lemma SplitHead(s: string, sep: char)
    ensures Split(s, sep)[0] == if sep in s then s[..IndexOf(s, sep)] else s
  {
  }

  /** Splitting at a separator that does not occur in the front part. */
  lemma SplitCons(a: string, b: string, sep: char)
    requires sep !in a
    ensures Split(a + [sep] + b, sep) == [a] + Split(b, sep)
  {
    var s := a + [sep] + b;
    assert s[|a|] == sep && s[..|a|] == a;
    IndexOfAt(s, sep, |a|);
    assert s[|a| + 1..] == b;
  }

  /** A word found at index `i` is contained. */
  lemma {:induction false} ContainsAt(s: string, w: string, i: nat)
    requires i + |w| <= |s| && s[i..i + |w|] == w
    ensures Contains(s, w)
    decreases i
  {
    if i > 0 {
      assert s[1..][i - 1..i - 1 + |w|] == w;
      ContainsAt(s[1..], w, i - 1);
    }
  }

  /** A word whose letters, lower-cased, stand at index `i` is in the lower-cased text. */
  lemma LowerWord(s: string, w: string, i: nat)
    requires i + |w| <= |s| && forall k :: 0 <= k < |w| ==> LowerChar(s[i + k]) == w[k]
    ensures Contains(Lower(s), w)
  {
    var low := Lower(s);
    assert low[i..i + |w|] == w;
    ContainsAt(low, w, i);
  }

  /** Text found in a string is found in any extension of it. */
  lemma {:induction false} ContainsExtend(a: string, b: string, w: string)
    requires Contains(a, w)
    ensures Contains(a + b, w)
    decreases |a|
  {
    if !StartsWith(a, w) {
      assert (a + b)[1..] == a[1..] + b;
      ContainsExtend(a[1..], b, w);
    } else {
      assert (a + b)[..|w|] == a[..|w|];
    }
  }

  /** Text found in the lower-cased string without its trailing newlines is found in
      the lower-cased string. */
  lemma ContainsLowerStripped(s: string, w: string)
    requires Contains(Lower(RStripNL(s)), w)
    ensures Contains(Lower(s), w)
  {
    var r := RStripNL(s);
    var l := Lower(s);
    assert Lower(r) == l[..|r|];
    assert l == l[..|r|] + l[|r|..];
    ContainsExtend(l[..|r|], l[|r|..], w);
  }
}
