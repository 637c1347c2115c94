/** The two path-name operations of Python's standard library that the views rely on:
    `os.path.join` (POSIX flavour) and `urllib.parse.unquote` restricted to ASCII escapes. */
module Paths {
  import opened Text

  /** `os.path.join(a, b)`: an absolute `b` replaces `a`; otherwise `b` is appended
      after exactly one separator (none is added when `a` is empty or ends in `/`). */
  function PathJoin(a: string, b: string): (p: string)
    ensures StartsWith(b, "/") ==> p == b
    ensures !StartsWith(b, "/") ==> StartsWith(p, a) && |p| >= |b| && p[|p| - |b|..] == b
    ensures !StartsWith(b, "/") && (a == [] || a[|a| - 1] == '/') ==> p == a + b
    ensures !StartsWith(b, "/") && a != [] && a[|a| - 1] != '/' ==> |p| == |a| + 1 + |b| && p[|a|] == '/'
  {
    if StartsWith(b, "/") then b
    else if a == [] || a[|a| - 1] == '/' then a + b
    else a + "/" + b
  }

  /** A relative name stays below the directory it is joined to; only an absolute one escapes. */
  lemma JoinStaysBelow(dir: string, name: string)
    requires dir != [] && dir[|dir| - 1] != '/'
    ensures StartsWith(PathJoin(dir, name), dir + "/") <==> !StartsWith(name, "/") || StartsWith(name, dir + "/")
  {
    var p := PathJoin(dir, name);
    if !StartsWith(name, "/") {
      assert p[..|dir| + 1] == p[..|dir|] + [p[|dir|]];
    }
  }

  /** The value of one hexadecimal digit, if `c` is one. */
  function HexValue(c: char): (v: int)
    ensures -1 <= v < 16
    ensures v >= 0 <==> ('0' <= c <= '9' || 'a' <= c <= 'f' || 'A' <= c <= 'F')
  {
    if '0' <= c <= '9' then c as int - '0' as int
    else if 'a' <= c <= 'f' then c as int - 'a' as int + 10
    else if 'A' <= c <= 'F' then c as int - 'A' as int + 10
    else -1
  }

  /** Whether `%` at index `i` starts an escape this model decodes: two hex digits
      naming an ASCII character. */
  predicate AsciiEscapeAt(s: string, i: nat)
  {
    i + 2 < |s| && s[i] == '%' && HexValue(s[i + 1]) >= 0 && HexValue(s[i + 2]) >= 0 &&
    HexValue(s[i + 1]) < 8
  }

  /** `urllib.parse.unquote(s)` for escapes of ASCII characters: each `%XX` naming a
      character below 0x80 becomes that character; everything else is kept. */
  function Unquote(s: string): (r: string)
    ensures |r| <= |s|
    decreases |s|
  {
    if s == [] then []
    else if AsciiEscapeAt(s, 0) then
      [(HexValue(s[1]) * 16 + HexValue(s[2])) as char] + Unquote(s[3..])
    else [s[0]] + Unquote(s[1..])
  }

  /** Text without `%` has nothing to decode. */
  lemma {:induction false} UnquotePlain(s: string)
    requires forall k :: 0 <= k < |s| ==> s[k] != '%'
    ensures Unquote(s) == s
    decreases |s|
  {
    if s != [] {
      UnquotePlain(s[1..]);
    }
  }

  /** Text without `%` passes through unchanged in front of whatever follows it. */
  lemma {:induction false} UnquotePlainPrefix(p: string, rest: string)
    requires forall k :: 0 <= k < |p| ==> p[k] != '%'
    ensures Unquote(p + rest) == p + Unquote(rest)
    decreases |p|
  {
    if p == [] {
      assert p + rest == rest && p + Unquote(rest) == Unquote(rest);
    } else {
      var s := p + rest;
      assert forall k :: 0 <= k < |p[1..]| ==> p[1..][k] != '%' by {
        forall k | 0 <= k < |p[1..]| ensures p[1..][k] != '%' {
          assert p[1..][k] == p[k + 1];
        }
      }
      UnquotePlainPrefix(p[1..], rest);
      assert s[0] == p[0] && !AsciiEscapeAt(s, 0);
      assert s[1..] == p[1..] + rest;
      assert Unquote(s) == [p[0]] + Unquote(p[1..] + rest);
      assert [p[0]] + (p[1..] + Unquote(rest)) == p + Unquote(rest);
    }
  }

  /** The lower-case hexadecimal digit for `d`. */
  function HexDigit(d: nat): (c: char)
    requires d < 16
    ensures HexValue(c) == d
  {
    if d < 10 then ('0' as int + d) as char else ('a' as int + d - 10) as char
  }

  /** `%XX` for an ASCII character, as `urllib.parse.quote` writes it (upper or lower case
      hexadecimal decode alike). */
  function Escape(c: char): (e: string)
    requires c as int < 128
    ensures |e| == 3 && AsciiEscapeAt(e, 0)
  {
    ['%', HexDigit(c as int / 16), HexDigit(c as int % 16)]
  }

  /** Decoding undoes an escape and carries on with the rest. */
  lemma UnquoteEscape(c: char, rest: string)
    requires c as int < 128
    ensures Unquote(Escape(c) + rest) == [c] + Unquote(rest)
  {
    var s := Escape(c) + rest;
    assert s[..3] == Escape(c) && s[3..] == rest;
    assert AsciiEscapeAt(s, 0);
  }
}
