/** The server's input classifier (bilibili_downloader/views.py): the recognisers
    `is_url` and `is_bvid`, and the prioritised chain in `download_api` that turns
    the user's text into the URL handed to the download engine, or an error. */
module Classifier {
  import opened Text

  /** `[a-zA-Z0-9]` */
  predicate IsAlnum(c: char)
  {
    ('a' <= c <= 'z') || ('A' <= c <= 'Z') || ('0' <= c <= '9')
  }

  /** `[a-zA-Z0-9-]`: a character of a host label. */
  predicate IsLabelChar(c: char)
  {
    IsAlnum(c) || c == '-'
  }

  /** `[a-zA-Z0-9-.]`: a character of the top-level part of the host. */
  predicate IsHostChar(c: char)
  {
    IsLabelChar(c) || c == '.'
  }

  /** The three character classes of the two regular expressions. */
  datatype CharClass = Alnum | Label | Host

  predicate InClass(c: char, cls: CharClass)
  {
    match cls
    case Alnum => IsAlnum(c)
    case Label => IsLabelChar(c)
    case Host => IsHostChar(c)
  }

  /** Every character of `s` is in class `cls`. */
  predicate All(s: string, cls: CharClass)
  {
    forall k :: 0 <= k < |s| ==> InClass(s[k], cls)
  }

  /** Every character of `s` from index `lo` up to `hi` is in class `cls`. */
  predicate AllIn(s: string, lo: int, hi: int, cls: CharClass)
    requires 0 <= lo <= hi <= |s|
  {
    forall k :: lo <= k < hi ==> InClass(s[k], cls)
  }

  /** Where a greedy character class started at index `i` stops: the first index
      from `i` on whose character is not in the class. */
  function RunFrom(s: string, i: nat, cls: CharClass): (j: nat)
    requires i <= |s|
    ensures i <= j <= |s| && AllIn(s, i, j, cls)
    ensures j == |s| || !InClass(s[j], cls)
    decreases |s| - i
  {
    if i < |s| && InClass(s[i], cls) then RunFrom(s, i + 1, cls) else i
  }

  /** A greedy run stops exactly at the first character outside the class. */
  lemma {:induction false} RunFromExact(s: string, i: nat, j: nat, cls: CharClass)
    requires i <= j <= |s| && AllIn(s, i, j, cls) && (j == |s| || !InClass(s[j], cls))
    ensures RunFrom(s, i, cls) == j
    decreases j - i
  {
    if i < j {
      RunFromExact(s, i + 1, j, cls);
    }
  }

  /** Python's `(/.*)?$` from index `e` on: nothing, or a `/`-led path without
      line breaks, then the end of the text or a single final "\n" (Python's `$`
      also matches just before a trailing newline; `.` matches anything but "\n"). */
  predicate PathTailAt(s: string, e: nat)
    requires e <= |s|
  {
    var end := if e < |s| && s[|s| - 1] == '\n' then |s| - 1 else |s|;
    end == e || (s[e] == '/' && forall k :: e < k < end ==> s[k] != '\n')
  }

  /** `([a-zA-Z0-9-]+\.)*[a-zA-Z0-9-]+` spans `s[i..d]`: one or more labels
      joined by single dots. */
  ghost predicate DottedLabels(s: string, i: int, d: int)
    requires 0 <= i <= d <= |s|
  {
    i < d && AllIn(s, i, d, Host) && s[i] != '.' && s[d - 1] != '.' &&
    forall k :: i <= k < d - 1 ==> !(s[k] == '.' && s[k + 1] == '.')
  }

  /** `(https?://)?` ends at index `i` of `s`. */
  predicate SchemeEndsAt(s: string, i: int)
  {
    i == 0 || (i == 7 && StartsWith(s, "http://")) || (i == 8 && StartsWith(s, "https://"))
  }

  /** The host, dot, top-level part and path of the regex, with the scheme
      ending at `i`, the dot at `d` and the `[a-zA-Z0-9-.]+` part ending at `e`. */
  ghost predicate UrlSplit(s: string, i: int, d: int, e: int)
  {
    0 <= i < d && d + 1 < e <= |s| &&
    DottedLabels(s, i, d) && s[d] == '.' && AllIn(s, d + 1, e, Host) && PathTailAt(s, e)
  }

  /** The regular expression of `is_url` (views.py:61-67), anchored at the start
      by `re.match`: some split of the text fits it. */
  ghost predicate UrlRegex(s: string)
  {
    exists i, d, e :: SchemeEndsAt(s, i) && UrlSplit(s, i, d, e)
  }

  /** The regular expression after a scheme ending at `i`, matched greedily:
      one label, a dot, the rest of the host, then the path. */
  predicate HostAndPathAt(s: string, i: nat)
    requires i <= |s|
  {
    var d := RunFrom(s, i, Label);
    i < d < |s| && s[d] == '.' &&
    var e := RunFrom(s, d + 1, Host);
    d + 1 < e && PathTailAt(s, e)
  }

  /** `is_url`: with no scheme, with `http://`, or with `https://`. */
  predicate IsUrl(s: string)
  {
    HostAndPathAt(s, 0) ||
    (StartsWith(s, "http://") && HostAndPathAt(s, 7)) ||
    (StartsWith(s, "https://") && HostAndPathAt(s, 8))
  }

  /** The greedy match yields a split the regex admits. */
  lemma GreedyIsSplit(s: string, i: nat)
    requires i <= |s| && HostAndPathAt(s, i)
    ensures UrlSplit(s, i, RunFrom(s, i, Label), RunFrom(s, RunFrom(s, i, Label) + 1, Host))
  {
    var d := RunFrom(s, i, Label);
    assert forall k :: i <= k < d ==> InClass(s[k], Label);
    assert forall k :: i <= k < d ==> s[k] != '.' && IsHostChar(s[k]);
  }

  /** Any split the regex admits is the greedy one. */
  lemma SplitIsGreedy(s: string, i: nat, d: int, e: int)
    requires UrlSplit(s, i, d, e)
    ensures HostAndPathAt(s, i)
  {
    var n := RunFrom(s, i, Label);
    // the first label ends at the first dot, at or before d
    assert InClass(s[i], Label);
    assert !InClass(s[d], Label);
    assert n <= d by {
      assert forall k :: i <= k < n ==> InClass(s[k], Label);
    }
    assert InClass(s[n], Host) by {
      assert forall k :: i <= k < d ==> InClass(s[k], Host);
    }
    assert s[n] == '.';
    // from there the host characters run exactly to e
    assert AllIn(s, n + 1, e, Host) by {
      assert forall k :: i <= k < d ==> InClass(s[k], Host);
      assert forall k :: d + 1 <= k < e ==> InClass(s[k], Host);
    }
    assert e < |s| ==> !InClass(s[e], Host) by {
      var end := if e < |s| && s[|s| - 1] == '\n' then |s| - 1 else |s|;
      assert e < |s| ==> end == e ==> s[e] == '\n';
    }
    RunFromExact(s, n + 1, e, Host);
  }

  /** `IsUrl` recognises exactly the language of the `is_url` regular expression. */
  lemma IsUrlMatchesRegex(s: string)
    ensures IsUrl(s) <==> UrlRegex(s)
  {
    if IsUrl(s) {
      var i := if HostAndPathAt(s, 0) then 0
               else if StartsWith(s, "http://") && HostAndPathAt(s, 7) then 7 else 8;
      GreedyIsSplit(s, i);
      assert SchemeEndsAt(s, i);
    }
    if UrlRegex(s) {
      var i, d, e :| SchemeEndsAt(s, i) && UrlSplit(s, i, d, e);
      SplitIsGreedy(s, i, d, e);
    }
  }

  /** Every URL contains a dot, so text without one is never a URL. */
  lemma UrlHasDot(s: string)
    ensures IsUrl(s) ==> '.' in s
  {
    if HostAndPathAt(s, 0) {
      assert s[RunFrom(s, 0, Label)] == '.';
    }
    if StartsWith(s, "http://") && HostAndPathAt(s, 7) {
      assert s[RunFrom(s, 7, Label)] == '.';
    }
    if StartsWith(s, "https://") && HostAndPathAt(s, 8) {
      assert s[RunFrom(s, 8, Label)] == '.';
    }
  }

  /** A label, a dot and further host characters, optionally followed by a
      `/`-led path, pass as a URL: no particular site is required. */
  lemma DotHostIsUrl(name: string, rest: string, path: string)
    requires name != [] && All(name, Label)
    requires rest != [] && All(rest, Host)
    requires path == [] || (path[0] == '/' && '\n' !in path)
    ensures IsUrl(name + "." + rest + path)
  {
    var s := name + "." + rest + path;
    var d, e := |name|, |name| + 1 + |rest|;
    assert forall k :: 0 <= k < d ==> s[k] == name[k] && InClass(name[k], Label);
    assert forall k :: d + 1 <= k < e ==> s[k] == rest[k - d - 1];
    assert forall k :: e <= k < |s| ==> s[k] == path[k - e];
    assert !(e < |s| && s[|s| - 1] == '\n') by {
      if e < |s| {
        assert s[|s| - 1] == path[|path| - 1];
      }
    }
    assert UrlSplit(s, 0, d, e);
    SplitIsGreedy(s, 0, d, e);
  }

  /** `^BV[a-zA-Z0-9]{10}` followed by the end of the text. */
  predicate BvCore(s: string)
  {
    |s| == 12 && s[0] == 'B' && s[1] == 'V' && forall k :: 2 <= k < 12 ==> IsAlnum(s[k])
  }

  /** `is_bvid` (views.py:73): Python's `$` also accepts one trailing "\n". */
  predicate IsBvid(s: string)
  {
    BvCore(s) || (|s| == 13 && s[12] == '\n' && BvCore(s[..12]))
  }

  /** On text that does not end in a newline (every stripped input), `is_bvid`
      holds exactly for "BV" followed by ten ASCII letters or digits. */
  lemma BvidWithoutNewline(s: string)
    requires s == [] || s[|s| - 1] != '\n'
    ensures IsBvid(s) <==> (|s| == 12 && s[..2] == "BV" && All(s[2..], Alnum))
  {
    if |s| == 12 && s[..2] == "BV" && All(s[2..], Alnum) {
      forall k | 2 <= k < 12 ensures IsAlnum(s[k]) {
        assert s[k] == s[2..][k - 2];
      }
    }
    if BvCore(s) {
      assert All(s[2..], Alnum) by {
        forall k | 0 <= k < 10 ensures IsAlnum(s[2..][k]) {
          assert s[2..][k] == s[k + 2];
        }
      }
    }
  }

  /** A BV id has no dot, so it is never taken for a URL. */
  lemma BvidIsNotUrl(s: string)
    requires IsBvid(s)
    ensures !IsUrl(s)
  {
    assert '.' !in s by {
      forall k | 0 <= k < |s| ensures s[k] != '.' {
        if k >= 2 && k < 12 {
          assert IsAlnum(s[k]);
        }
      }
    }
    UrlHasDot(s);
  }

  /** The fetch URL built for a BV id (views.py:188 and 197). */
  function Canonical(id: string): (url: string)
    ensures StartsWith(url, "https://www.bilibili.com/video/") && url[31..] == id
  {
    "https://www.bilibili.com/video/" + id
  }

  /** The two ways the chain can refuse the input. */
  datatype InputError = EmptyInput | Unrecognized

  /** What the chain yields: the URL to fetch, or the reason for a 400 reply. */
  datatype Classification = Target(url: string) | Rejected(error: InputError)

  /** The text the chain tries as an id: the input itself when it already starts
      with "BV", otherwise the input with "BV" in front (views.py:191-194). */
  function Candidate(t: string): string
  {
    if StartsWith(t, "BV") then t else "BV" + t
  }

  /** The classification in `download_api` (views.py:177-203): strip the input;
      empty text is refused first; then, first match wins, a URL is kept as it
      is, a BV id becomes its canonical URL, an id missing its "BV" gets one,
      text mentioning "bilibili.com" is passed through, and anything else is
      refused as unrecognised. */
  function Classify(raw: string): (r: Classification)
    ensures r == Rejected(EmptyInput) <==> PyStrip(raw) == []
    ensures r.Target? ==> r.url == PyStrip(raw) ||
                          exists id :: BvCore(id) && r.url == Canonical(id)
  {
    var t := PyStrip(raw);
    if t == [] then Rejected(EmptyInput)
    else if IsUrl(t) then Target(t)
    else if IsBvid(t) then
      assert BvCore(t);
      Target(Canonical(t))
    else
      var candidate := Candidate(t);
      if IsBvid(candidate) then
        assert BvCore(candidate);
        Target(Canonical(candidate))
      else if Contains(t, "bilibili.com") then Target(t)
      else Rejected(Unrecognized)
  }

  /** Text that is a URL and has no surrounding whitespace is fetched as it is. */
  lemma UrlKept(s: string)
    requires IsUrl(s) && PyStrip(s) == s
    ensures Classify(s) == Target(s)
  {
    UrlHasDot(s);
  }

  /** A BV id is fetched from its canonical URL. */
  lemma BvidCanonical(s: string)
    requires BvCore(s)
    ensures Classify(s) == Target(Canonical(s))
  {
    StripKeeps(s, Python);
    BvidIsNotUrl(s);
  }

  /** Ten letters or digits not starting with "BV" are an id missing its prefix. */
  lemma BareIdPrefixed(s: string)
    requires |s| == 10 && All(s, Alnum) && !StartsWith(s, "BV")
    ensures Classify(s) == Target(Canonical("BV" + s))
  {
    StripKeeps(s, Python);
    assert '.' !in s by {
      forall k | 0 <= k < |s| ensures s[k] != '.' {
        assert IsAlnum(s[k]);
      }
    }
    UrlHasDot(s);
    var c := "BV" + s;
    forall k | 2 <= k < 12 ensures IsAlnum(c[k]) {
      assert c[k] == s[k - 2];
    }
    assert !IsBvid(s) && Candidate(s) == c && IsBvid(c);
  }

  /** Input that already starts with "BV" but is not an id is never prefixed
      again: it can only pass through unchanged or be refused. */
  lemma BvPrefixNotReprefixed(raw: string)
    requires StartsWith(PyStrip(raw), "BV") && !IsBvid(PyStrip(raw))
    ensures Classify(raw) == Target(PyStrip(raw)) || Classify(raw) == Rejected(Unrecognized)
  {
  }

  /** So ten letters or digits that start with "BV" are refused: the chain does
      not add a second prefix to make twelve. */
  lemma ShortBvRefused(s: string)
    requires |s| == 10 && All(s, Alnum) && StartsWith(s, "BV")
    ensures Classify(s) == Rejected(Unrecognized)
  {
    StripKeeps(s, Python);
    assert '.' !in s by {
      forall k | 0 <= k < |s| ensures s[k] != '.' {
        assert IsAlnum(s[k]);
      }
    }
    UrlHasDot(s);
    ContainsChar(s, "bilibili.com", 8);
    assert PyStrip(s) == s;
    assert !IsUrl(s);
    assert !IsBvid(s);
    assert !Contains(s, "bilibili.com");
    UnrecognizedIff(s);
  }

  /** Stripped text that mentions "bilibili.com" is always accepted. */
  lemma DomainAccepted(raw: string)
    requires Contains(PyStrip(raw), "bilibili.com")
    ensures Classify(raw).Target?
  {
    ContainsChar(PyStrip(raw), "bilibili.com", 0);
  }

  /** Text with a dot is no id, with or without a "BV" in front. */
  lemma DotIsNoId(t: string)
    requires '.' in t
    ensures !IsBvid(t) && !IsBvid(Candidate(t))
  {
    var k :| 0 <= k < |t| && t[k] == '.';
    var c := Candidate(t);
    assert c[|c| - |t| + k] == '.';
  }

  /** Stripped text that mentions "bilibili.com" is fetched exactly as stripped: its dot
      keeps it from being an id, with or without a "BV" in front. */
  lemma DomainKept(raw: string)
    requires Contains(PyStrip(raw), "bilibili.com")
    ensures Classify(raw) == Target(PyStrip(raw))
  {
    var t := PyStrip(raw);
    ContainsChar(t, "bilibili.com", 8);
    DotIsNoId(t);
  }

  /** The exact conditions for "unrecognised format": non-empty after stripping,
      not a URL, not an id, no id after prefixing, and no "bilibili.com". */
  lemma UnrecognizedIff(raw: string)
    ensures var t := PyStrip(raw);
            Classify(raw) == Rejected(Unrecognized) <==>
            (t != [] && !IsUrl(t) && !IsBvid(t) &&
             (StartsWith(t, "BV") || !IsBvid("BV" + t)) && !Contains(t, "bilibili.com"))
  {
  }

  /** Text with no dot and some character other than an ASCII letter or digit
      is not a URL, not an id with or without a "BV" in front, and does not
      mention "bilibili.com". */
  lemma PunctuatedIsNothing(t: string, k: int)
    requires 0 <= k < |t| && !IsAlnum(t[k]) && '.' !in t && t[|t| - 1] != '\n'
    ensures !IsUrl(t) && !Contains(t, "bilibili.com") && !IsBvid(t) && !IsBvid("BV" + t)
  {
    UrlHasDot(t);
    var domain := "bilibili.com";
    assert domain[8] == '.';
    ContainsChar(t, domain, 8);
    BvidWithoutNewline(t);
    if |t| == 12 {
      if 2 <= k {
        assert t[2..][k - 2] == t[k];
        assert !InClass(t[2..][k - 2], Alnum);
      } else {
        assert t[..2][k] == t[k];
      }
    }
    var c := "BV" + t;
    BvidWithoutNewline(c);
    assert c[2..] == t;
    assert !InClass(t[k], Alnum);
  }

  /** So such text, once stripped, is refused as unrecognised. */
  lemma PunctuatedRefused(raw: string, k: int)
    requires var t := PyStrip(raw); 0 <= k < |t| && !IsAlnum(t[k]) && '.' !in t
    ensures Classify(raw) == Rejected(Unrecognized)
  {
    var t := PyStrip(raw);
    assert t[|t| - 1] != '\n' by {
      assert !IsSpace(t[|t| - 1], Python);
    }
    PunctuatedIsNothing(t, k);
    UnrecognizedIff(raw);
  }

  /** A sample refusal. */
  lemma SampleUnrecognized(s: string)
    requires s == "not a url or id!!"
    ensures Classify(s) == Rejected(Unrecognized)
  {
    assert |s| == 17 && s[0] == 'n' && s[16] == '!' && s[3] == ' ';
    StripKeeps(s, Python);
    assert forall k :: 0 <= k < |s| ==> s[k] != '.';
    PunctuatedRefused(s, 3);
  }
}
