/**
 * The string operations the notifier and the channel lister use, on strings
 * of Unicode scalar values (so that lengths agree with Python's code-point
 * lengths): `str.strip()`, `str.rstrip(c)`, `str.split(c)`, `c.join(parts)`,
 * slicing with an ellipsis, and Python's ordering of strings.
 */
module Text {

  /** Python's `str.isspace()` for one character. */
  predicate IsSpace(c: char) {
    ('\t' <= c <= '\r') || ('\U{1C}' <= c <= '\U{1F}') || c == ' ' ||
    c == '\U{85}' || c == '\U{A0}' || c == '\U{1680}' ||
    ('\U{2000}' <= c <= '\U{200A}') || c == '\U{2028}' || c == '\U{2029}' ||
    c == '\U{202F}' || c == '\U{205F}' || c == '\U{3000}'
  }

  predicate AllSpace(t: string) {
    forall k :: 0 <= k < |t| ==> IsSpace(t[k])
  }

  /** Leading whitespace removed. */
  function StripLeft(s: string): (r: string)
    ensures |r| <= |s| && r == s[|s| - |r|..]
    ensures r == [] || !IsSpace(r[0])
    ensures AllSpace(s[..|s| - |r|])
    decreases |s|
  {
    if s != [] && IsSpace(s[0]) then
      var r := StripLeft(s[1..]);
      assert s[..|s| - |r|] == [s[0]] + s[1..][..|s| - 1 - |r|];
      r
    else
      s
  }

  /** Trailing whitespace removed. */
  function StripRight(s: string): (r: string)
    ensures |r| <= |s| && r == s[..|r|]
    ensures r == [] || !IsSpace(r[|r| - 1])
    ensures AllSpace(s[|r|..])
    decreases |s|
  {
    if s != [] && IsSpace(s[|s| - 1]) then
      var r := StripRight(s[..|s| - 1]);
      assert s[|r|..] == s[..|s| - 1][|r|..] + [s[|s| - 1]];
      r
    else
      s
  }

  /** `s.strip()`: the slice of `s` between its leading and trailing whitespace, which are all that is removed. */
  function Strip(s: string): (r: string)
    ensures var i := |s| - |StripLeft(s)|;
            i + |r| <= |s| && r == s[i..i + |r|] &&
            AllSpace(s[..i]) && AllSpace(s[i + |r|..])
    ensures r == [] || (!IsSpace(r[0]) && !IsSpace(r[|r| - 1]))
  {
    var left := StripLeft(s);
    var r := StripRight(left);
    PrefixOfSuffix(s, left, r);
    r
  }

  /** A prefix `r` of the suffix `left` of `s` is a middle slice of `s`, and what follows it in `left` follows it in `s`. */
  lemma {:induction false} PrefixOfSuffix(s: string, left: string, r: string)
    requires |left| <= |s| && left == s[|s| - |left|..]
    requires |r| <= |left| && r == left[..|r|]
    ensures var i := |s| - |left|;
            r == s[i..i + |r|] && s[i + |r|..] == left[|r|..]
  {
  }

  /** A string that starts with a non-space character keeps that character, and is not emptied, by `strip()`. */
  lemma {:induction false} StripKeepsHead(s: string)
    requires s != [] && !IsSpace(s[0])
    ensures Strip(s) != [] && Strip(s)[0] == s[0]
    ensures Strip(s) == s[..|Strip(s)|]
  {
    var left := StripLeft(s);
    assert left == s;
    var r := StripRight(s);
  }

  /** `s.rstrip(c)` for a single character `c`. */
  function RStrip(s: string, c: char): (r: string)
    ensures |r| <= |s| && r == s[..|r|]
    ensures r == [] || r[|r| - 1] != c
    ensures forall k :: |r| <= k < |s| ==> s[k] == c
    decreases |s|
  {
    if s != [] && s[|s| - 1] == c then RStrip(s[..|s| - 1], c) else s
  }

  /** `s.split(sep)` for a single-character separator: never empty, and no part holds `sep`. */
  function Split(s: string, sep: char): (parts: seq<string>)
    ensures |parts| >= 1
    ensures forall i :: 0 <= i < |parts| ==> sep !in parts[i]
    decreases |s|
  {
    if s == [] then [""]
    else
      var init := Split(s[..|s| - 1], sep);
      var c := s[|s| - 1];
      if c == sep then init + [""]
      else init[..|init| - 1] + [init[|init| - 1] + [c]]
  }

  /** `sep.join(parts)`. */
  function Join(parts: seq<string>, sep: char): string
    decreases |parts|
  {
    if |parts| == 0 then ""
    else if |parts| == 1 then parts[0]
    else Join(parts[..|parts| - 1], sep) + [sep] + parts[|parts| - 1]
  }

  function Last<T>(s: seq<T>): T
    requires s != []
  {
    s[|s| - 1]
  }

  /** Joining the parts of a split with the same separator gives back the string. */
  lemma {:induction false} JoinSplit(s: string, sep: char)
    ensures Join(Split(s, sep), sep) == s
    decreases |s|
  {
    if s != [] {
      var s' := s[..|s| - 1];
      var c := s[|s| - 1];
      var init := Split(s', sep);
      JoinSplit(s', sep);
      if c == sep {
        assert (init + [""])[..|init|] == init;
      } else {
        var parts := init[..|init| - 1] + [init[|init| - 1] + [c]];
        if |init| > 1 {
          assert parts[..|parts| - 1] == init[..|init| - 1];
        }
      }
    }
  }

  predicate EndsWith(s: string, suffix: string) {
    |suffix| <= |s| && s[|s| - |suffix|..] == suffix
  }

  lemma {:induction false} EndsWithTransitive(s: string, mid: string, tail: string)
    requires EndsWith(s, mid) && EndsWith(mid, tail)
    ensures EndsWith(s, tail)
  {
  }

  /** `r` is the tail of `s` after its last `sep`: a suffix free of `sep`, preceded by `sep` unless it is all of `s`. */
  predicate IsLastField(s: string, r: string, sep: char) {
    EndsWith(s, r) && sep !in r && (|r| < |s| ==> s[|s| - |r| - 1] == sep)
  }

  /** The last part of `s.split(sep)` grows by each character that is not `sep` and restarts after each `sep`. */
  lemma {:induction false} SplitLastSnoc(s: string, sep: char)
    requires s != []
    ensures Last(Split(s, sep)) ==
            if s[|s| - 1] == sep then "" else Last(Split(s[..|s| - 1], sep)) + [s[|s| - 1]]
  {
  }

  /** `s.split(sep)[-1]` is the tail of `s` after its last `sep`. */
  lemma {:induction false} SplitLastIsTail(s: string, sep: char)
    ensures IsLastField(s, Last(Split(s, sep)), sep)
    decreases |s|
  {
    if s != [] {
      SplitLastIsTail(s[..|s| - 1], sep);
      SplitLastSnoc(s, sep);
      if s[|s| - 1] != sep {
        SnocLastField(s, Last(Split(s[..|s| - 1], sep)), sep);
      }
    }
  }

  /** A last character other than `sep` extends the last field of what precedes it. */
  lemma {:induction false} SnocLastField(s: string, r: string, sep: char)
    requires s != [] && s[|s| - 1] != sep && IsLastField(s[..|s| - 1], r, sep)
    ensures IsLastField(s, r + [s[|s| - 1]], sep)
  {
    var s', q := s[..|s| - 1], r + [s[|s| - 1]];
    assert s[|s| - |q|..] == s'[|s'| - |r|..] + [s[|s| - 1]];
    if |q| < |s| {
      assert s[|s| - |q| - 1] == s'[|s'| - |r| - 1];
    }
  }

  /** `s.split(sep)[-1]`: the tail of `s` after its last `sep`, or all of `s` when there is none. */
  function LastField(s: string, sep: char): (r: string)
    ensures IsLastField(s, r, sep)
    ensures sep !in s ==> r == s
  {
    SplitLastIsTail(s, sep);
    var r := Last(Split(s, sep));
    if |r| < |s| then
      assert s[|s| - |r| - 1] in s;
      r
    else
      r
  }

  /** The ellipsis the notifier appends to text it cuts short. */
  const Ellipsis: char := '…'

  /**
   * `s` cut down to at most `limit` characters: a string over the limit
   * becomes its first `limit - 1` characters and an ellipsis.
   */
  function Truncate(s: string, limit: nat): (r: string)
    requires limit >= 1
    ensures |r| <= limit
    ensures |s| <= limit ==> r == s
    ensures |s| > limit ==> |r| == limit && r[..limit - 1] == s[..limit - 1] && r[limit - 1] == Ellipsis
  {
    if |s| > limit then s[..limit - 1] + [Ellipsis] else s
  }

  /** Python's `a <= b` on strings: lexicographic by code point, a prefix first. */
  predicate LexLe(a: string, b: string)
    decreases |a|
  {
    if a == [] then true
    else if b == [] then false
    else if a[0] != b[0] then a[0] < b[0]
    else LexLe(a[1..], b[1..])
  }

  lemma {:induction false} LexLeReflexive(a: string)
    ensures LexLe(a, a)
    decreases |a|
  {
    if a != [] {
      LexLeReflexive(a[1..]);
    }
  }

  lemma {:induction false} LexLeTotal(a: string, b: string)
    ensures LexLe(a, b) || LexLe(b, a)
    decreases |a|
  {
    if a != [] && b != [] && a[0] == b[0] {
      LexLeTotal(a[1..], b[1..]);
    }
  }

  lemma {:induction false} LexLeTransitive(a: string, b: string, c: string)
    requires LexLe(a, b) && LexLe(b, c)
    ensures LexLe(a, c)
    decreases |a|
  {
    if a != [] && b != [] && c != [] && a[0] == b[0] && b[0] == c[0] {
      LexLeTransitive(a[1..], b[1..], c[1..]);
    }
  }

  lemma {:induction false} LexLeAntisymmetric(a: string, b: string)
    requires LexLe(a, b) && LexLe(b, a)
    ensures a == b
    decreases |a|
  {
    if a != [] && b != [] {
      LexLeAntisymmetric(a[1..], b[1..]);
      assert a == [a[0]] + a[1..];
      assert b == [b[0]] + b[1..];
    }
  }
}
