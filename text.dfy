/** String primitives shared by the server (Python) and the client (JavaScript):
    whitespace stripping in both languages' senses, prefix and substring tests,
    JavaScript's `split` on one character, and decimal rendering of naturals. */
module Text {

  /** Whose idea of whitespace: Python's `str.strip()` or JavaScript's `trim()`. */
  datatype Lang = Python | JavaScript

  /** Python's `str.isspace` (the characters `str.strip()` removes), or ECMAScript
      WhiteSpace and LineTerminator (the characters `String.prototype.trim` removes). */
  predicate IsSpace(c: char, lang: Lang)
  {
    ('\t' <= c <= '\r') || c == ' ' || c == '\U{a0}' ||
    c == '\U{1680}' || ('\U{2000}' <= c <= '\U{200a}') || c == '\U{2028}' || c == '\U{2029}' ||
    c == '\U{202f}' || c == '\U{205f}' || c == '\U{3000}' ||
    match lang
    case Python => ('\U{1c}' <= c <= '\U{1f}') || c == '\U{85}'
    case JavaScript => c == '\U{feff}'
  }

  /** Drops the leading characters that are whitespace in `lang`. */
  function StripStart(s: string, lang: Lang): (r: string)
    ensures |r| <= |s| && r == s[|s| - |r|..]
    ensures forall k :: 0 <= k < |s| - |r| ==> IsSpace(s[k], lang)
    ensures r == [] || !IsSpace(r[0], lang)
  {
    if s != [] && IsSpace(s[0], lang) then StripStart(s[1..], lang) else s
  }

  /** Drops the trailing characters that are whitespace in `lang`. */
  function StripEnd(s: string, lang: Lang): (r: string)
    ensures |r| <= |s| && r == s[..|r|]
    ensures forall k :: |r| <= k < |s| ==> IsSpace(s[k], lang)
    ensures r == [] || !IsSpace(r[|r| - 1], lang)
  {
    if s != [] && IsSpace(s[|s| - 1], lang) then StripEnd(s[..|s| - 1], lang) else s
  }

  /** Both ends: no whitespace is left at either end. */
  function Strip(s: string, lang: Lang): (r: string)
    ensures |r| <= |s|
    ensures r == [] || (!IsSpace(r[0], lang) && !IsSpace(r[|r| - 1], lang))
  {
    StripEnd(StripStart(s, lang), lang)
  }

  /** Python's `s.strip()` with no argument. */
  function PyStrip(s: string): string
  {
    Strip(s, Python)
  }

  /** JavaScript's `s.trim()`. */
  function JsTrim(s: string): string
  {
    Strip(s, JavaScript)
  }

  /** Text with no whitespace at either end is left as it is. */
  lemma StripKeeps(s: string, lang: Lang)
    requires s != [] && !IsSpace(s[0], lang) && !IsSpace(s[|s| - 1], lang)
    ensures Strip(s, lang) == s
  {
  }

  /** Stripping leaves nothing exactly when every character is whitespace. */
  lemma StripEmptyIff(s: string, lang: Lang)
    ensures Strip(s, lang) == [] <==> forall k :: 0 <= k < |s| ==> IsSpace(s[k], lang)
  {
  }

  /** Python's `s.startswith(p)` and the prefix test of a regular expression. */
  predicate StartsWith(s: string, p: string)
  {
    |p| <= |s| && s[..|p|] == p
  }

  /** A text that starts with a non-empty `p` starts with its first character. */
  lemma PrefixFirst(s: string, p: string)
    requires p != []
    ensures StartsWith(s, p) ==> s[0] == p[0]
  {
    if StartsWith(s, p) {
      assert s[..|p|][0] == s[0];
    }
  }

  /** The middle part of a concatenation sits at the length of the first part. */
  lemma MiddleAt(a: string, d: string, b: string)
    ensures (a + d + b)[|a|..|a| + |d|] == d
  {
  }

  /** A text that starts with `p` agrees with `p` on every slice of `p`. */
  lemma PrefixSlice(s: string, p: string, lo: int, hi: int)
    requires StartsWith(s, p) && 0 <= lo <= hi <= |p|
    ensures s[lo..hi] == p[lo..hi]
  {
    forall k | 0 <= k < hi - lo ensures s[lo..hi][k] == p[lo..hi][k] {
      assert s[..|p|][lo + k] == s[lo + k];
    }
  }

  /** `p` occurs in `s` at index `i`. */
  ghost predicate OccursAt(s: string, p: string, i: int)
  {
    0 <= i && i + |p| <= |s| && s[i..i + |p|] == p
  }

  /** Python's `p in s` for strings: `p` occurs somewhere in `s`. */
  predicate Contains(s: string, p: string)
    decreases |s|
  {
    StartsWith(s, p) || (s != [] && Contains(s[1..], p))
  }

  /** The scan above agrees with the definition by an index, in both directions. */
  lemma {:induction false} ContainsIff(s: string, p: string)
    ensures Contains(s, p) <==> exists i :: OccursAt(s, p, i)
    decreases |s|
  {
    if StartsWith(s, p) {
      assert OccursAt(s, p, 0);
    } else if s != [] {
      ContainsIff(s[1..], p);
      if Contains(s[1..], p) {
        var i :| OccursAt(s[1..], p, i);
        assert s[i + 1..i + 1 + |p|] == s[1..][i..i + |p|];
        assert OccursAt(s, p, i + 1);
      }
      if exists i :: OccursAt(s, p, i) {
        var i :| OccursAt(s, p, i);
        assert i != 0;
        assert s[1..][i - 1..i - 1 + |p|] == s[i..i + |p|];
        assert OccursAt(s[1..], p, i - 1);
      }
    }
  }

  /** A sequence that contains `p` contains every character of `p`. */
  lemma ContainsChar(s: string, p: string, k: int)
    requires 0 <= k < |p|
    ensures Contains(s, p) ==> p[k] in s
  {
    ContainsIff(s, p);
    if Contains(s, p) {
      var i :| OccursAt(s, p, i);
      assert s[i + k] == p[k];
    }
  }

  /** An occurrence inside a slice is an occurrence in the whole text. */
  lemma ContainsSlice(s: string, i: int, j: int, p: string)
    requires 0 <= i <= j <= |s| && Contains(s[i..j], p)
    ensures Contains(s, p)
  {
    ContainsIff(s[i..j], p);
    var m :| OccursAt(s[i..j], p, m);
    assert forall t :: i + m <= t < i + m + |p| ==> s[t] == s[i..j][t - i];
    assert s[i + m..i + m + |p|] == s[i..j][m..m + |p|];
    assert OccursAt(s, p, i + m);
    ContainsIff(s, p);
  }

  /** JavaScript's `s.split(c)` for a one-character separator: never empty,
      and `"".split(c)` is `[""]`. */
  function Split(s: string, c: char): (parts: seq<string>)
    ensures |parts| >= 1
  {
    if s == [] then [[]]
    else
      var rest := Split(s[1..], c);
      if s[0] == c then [[]] + rest else [[s[0]] + rest[0]] + rest[1..]
  }

  /** The inverse of `Split`: the pieces glued back with the separator. */
  function Join(parts: seq<string>, c: char): string
    requires |parts| >= 1
  {
    if |parts| == 1 then parts[0] else parts[0] + [c] + Join(parts[1..], c)
  }

  /** No piece of a split contains the separator. */
  lemma {:induction false} SplitPiecesFree(s: string, c: char)
    ensures forall k :: 0 <= k < |Split(s, c)| ==> c !in Split(s, c)[k]
  {
    if s != [] {
      SplitPiecesFree(s[1..], c);
    }
  }

  /** Gluing the pieces back gives the original text. */
  lemma {:induction false} JoinSplit(s: string, c: char)
    ensures Join(Split(s, c), c) == s
  {
    if s != [] {
      JoinSplit(s[1..], c);
      var rest := Split(s[1..], c);
      if s[0] == c {
        var parts := [[]] + rest;
        assert parts[1..] == rest;
        assert Join(parts, c) == [] + [c] + Join(rest, c);
      } else {
        var parts := [[s[0]] + rest[0]] + rest[1..];
        if |rest| > 1 {
          assert parts[1..] == rest[1..];
          assert Join(rest, c) == rest[0] + [c] + Join(rest[1..], c);
          assert Join(parts, c) == [s[0]] + rest[0] + [c] + Join(rest[1..], c);
        }
      }
    }
  }

  /** Splitting a join of separator-free pieces gives the pieces back. */
  lemma {:induction false} SplitJoin(parts: seq<string>, c: char)
    requires |parts| >= 1
    requires forall k :: 0 <= k < |parts| ==> c !in parts[k]
    ensures Split(Join(parts, c), c) == parts
    decreases |parts|, |parts[0]|
  {
    var p := parts[0];
    if p == [] {
      if |parts| > 1 {
        SplitJoin(parts[1..], c);
        assert Join(parts, c) == [c] + Join(parts[1..], c);
        assert ([c] + Join(parts[1..], c))[1..] == Join(parts[1..], c);
        assert [[]] + parts[1..] == parts;
      }
    } else {
      var tail := [p[1..]] + parts[1..];
      assert forall k :: 0 <= k < |tail| ==> c !in tail[k] by {
        forall k | 0 <= k < |tail| ensures c !in tail[k] {
          if k == 0 {
            assert forall x :: x in p[1..] ==> x in p;
          } else {
            assert tail[k] == parts[k];
          }
        }
      }
      SplitJoin(tail, c);
      assert Join(parts, c) == [p[0]] + Join(tail, c) by {
        if |parts| > 1 {
          assert tail[1..] == parts[1..];
        }
        assert p == [p[0]] + p[1..];
      }
      assert ([p[0]] + Join(tail, c))[1..] == Join(tail, c);
      assert p[0] != c by { assert p[0] in p; }
      assert [p[0]] + p[1..] == p;
      assert [p] + parts[1..] == parts;
    }
  }

  /** A join of three or more pieces starts with the first two and a separator. */
  lemma JoinTwo(parts: seq<string>, c: char)
    requires |parts| >= 3
    ensures Join(parts, c) == parts[0] + [c] + parts[1] + [c] + Join(parts[2..], c)
  {
    assert parts[1..][0] == parts[1] && parts[1..][1..] == parts[2..];
  }

  /** `split` yields a single piece exactly when the separator does not occur. */
  lemma {:induction false} SplitSingle(s: string, c: char)
    ensures |Split(s, c)| == 1 <==> c !in s
  {
    if s != [] {
      SplitSingle(s[1..], c);
      assert s == [s[0]] + s[1..];
    }
  }

  /** The ASCII digit for `d`. */
  function DigitChar(d: nat): (c: char)
    requires d < 10
    ensures '0' <= c <= '9' && c as int - '0' as int == d
  {
    ('0' as int + d) as char
  }

  /** Decimal rendering with no leading zeros: Python's `str(n)` for `n >= 0`. */
  function NatToString(n: nat): (r: string)
    ensures |r| >= 1
    ensures forall k :: 0 <= k < |r| ==> '0' <= r[k] <= '9'
    ensures |r| > 1 ==> r[0] != '0'
    ensures r[0] == '0' <==> n == 0
  {
    if n < 10 then [DigitChar(n)] else NatToString(n / 10) + [DigitChar(n % 10)]
  }

  /** Reads a string of decimal digits back into a number. */
  function ParseNat(s: string): nat
    requires forall k :: 0 <= k < |s| ==> '0' <= s[k] <= '9'
  {
    if s == [] then 0 else 10 * ParseNat(s[..|s| - 1]) + (s[|s| - 1] as int - '0' as int)
  }

  /** Decimal rendering is a faithful representation: reading it back gives the number. */
  lemma {:induction false} ParseNatToString(n: nat)
    ensures ParseNat(NatToString(n)) == n
  {
    var r := NatToString(n);
    if n >= 10 {
      ParseNatToString(n / 10);
      assert r[..|r| - 1] == NatToString(n / 10);
    }
  }

  /** Different numbers render differently. */
  lemma NatToStringInjective(m: nat, n: nat)
    requires NatToString(m) == NatToString(n)
    ensures m == n
  {
    ParseNatToString(m);
    ParseNatToString(n);
  }
}
