/** The browser side (static/js/script.js): the `validateUrl` recogniser, the
    `getCsrfToken` cookie parser, and the state of the download form, whose
    button, message and help line the event handlers update in place. */
module Client {
  import opened Wrappers
  import opened Text
  import opened Classifier
  import Downloader

  /* ---------- validateUrl ---------- */

  /** The characters JavaScript's `.` does not match: the ECMAScript line terminators. */
  predicate IsLineTerminator(c: char)
  {
    c == '\n' || c == '\r' || c == '\U{2028}' || c == '\U{2029}'
  }

  /** `https?:\/\/` */
  function Scheme(secure: bool): string
  {
    if secure then "https://" else "http://"
  }

  /** `(www\.)?` */
  function Www(www: bool): string
  {
    if www then "www." else ""
  }

  const Domain := "bilibili.com"
  const VideoPath := "/video/"

  /** The four literal prefixes `^https?:\/\/(www\.)?bilibili\.com\/video\/` can match. */
  function VideoPrefix(secure: bool, www: bool): (p: string)
    ensures |p| >= 26 && p[0] == 'h' && p[|p| - 1] == '/'
  {
    Scheme(secure) + Www(www) + Domain + VideoPath
  }

  /** The prefix `p`, then `.+`: at least one character that is not a line terminator.
      The expression is not anchored at the end, so what follows that character is free. */
  predicate VideoUrlAfter(s: string, p: string)
  {
    StartsWith(s, p) && |s| > |p| && !IsLineTerminator(s[|p|])
  }

  /** The URL pattern of `validateUrl` (script.js:9). */
  predicate VideoUrl(s: string)
  {
    VideoUrlAfter(s, VideoPrefix(false, false)) || VideoUrlAfter(s, VideoPrefix(true, false)) ||
    VideoUrlAfter(s, VideoPrefix(false, true)) || VideoUrlAfter(s, VideoPrefix(true, true))
  }

  /** `validateUrl`: a BV id (JavaScript's `$` is the very end of the text, so this is
      exactly `BvCore`), or a video URL on bilibili.com. */
  predicate ValidateUrl(s: string)
  {
    BvCore(s) || VideoUrl(s)
  }

  /** A text that starts with a video prefix names the domain right after the scheme
      and the optional `www.`. */
  lemma PrefixHasDomain(s: string, secure: bool, www: bool)
    requires StartsWith(s, VideoPrefix(secure, www))
    ensures var o := |Scheme(secure) + Www(www)|;
            o + |Domain| < |s| && OccursAt(s, Domain, o)
  {
    var a := Scheme(secure) + Www(www);
    MiddleAt(a, Domain, VideoPath);
    PrefixSlice(s, VideoPrefix(secure, www), |a|, |a| + |Domain|);
  }

  /** After Python's strip, text that starts with a `h` and whose character at index
      `m` is not whitespace keeps its first `m + 1` characters in place. */
  lemma StripKeepsFront(s: string, m: int)
    requires 0 <= m < |s| && s[0] == 'h' && !IsSpace(s[m], Python)
    ensures var t := PyStrip(s); m < |t| && t == s[..|t|]
  {
    assert StripStart(s, Python) == s;
    var t := PyStrip(s);
    assert t == StripEnd(s, Python);
    assert m < |t|;
  }

  /** A text matching the URL pattern with a given prefix still names bilibili.com
      once the server has stripped it. */
  lemma MatchMentionsDomain(s: string, secure: bool, www: bool)
    requires VideoUrlAfter(s, VideoPrefix(secure, www))
    ensures var t := PyStrip(s); |t| >= 26 && t[0] == 'h' && Contains(t, Domain)
  {
    var p := VideoPrefix(secure, www);
    var o := |Scheme(secure) + Www(www)|;
    PrefixHasDomain(s, secure, www);
    PrefixSlice(s, p, 0, 1);
    PrefixSlice(s, p, |p| - 1, |p|);
    assert s[0] == 'h' && s[|p| - 1] == '/' by {
      assert s[0..1][0] == s[0] && s[|p| - 1..|p|][0] == s[|p| - 1];
    }
    StripKeepsFront(s, |p| - 1);
    var t := PyStrip(s);
    PrefixSlice(s, t, o, o + |Domain|);
    assert OccursAt(t, Domain, o);
    ContainsIff(t, Domain);
  }

  /** A video URL the client accepts still names bilibili.com once the server has
      stripped it. */
  lemma VideoUrlMentionsDomain(s: string)
    requires VideoUrl(s)
    ensures var t := PyStrip(s); |t| >= 26 && t[0] == 'h' && Contains(t, Domain)
  {
    if VideoUrlAfter(s, VideoPrefix(false, false)) {
      MatchMentionsDomain(s, false, false);
    } else if VideoUrlAfter(s, VideoPrefix(true, false)) {
      MatchMentionsDomain(s, true, false);
    } else if VideoUrlAfter(s, VideoPrefix(false, true)) {
      MatchMentionsDomain(s, false, true);
    } else {
      MatchMentionsDomain(s, true, true);
    }
  }

  /** A video URL the client accepts is fetched as the server stripped it. */
  lemma VideoUrlKept(s: string)
    requires VideoUrl(s)
    ensures Classify(s) == Target(PyStrip(s))
  {
    VideoUrlMentionsDomain(s);
    DomainKept(s);
  }

  /** Whatever the client lets through, the server accepts: a BV id goes to its
      canonical URL, a video URL is fetched as the server stripped it. */
  lemma ClientAcceptedServerAccepts(s: string)
    requires ValidateUrl(s)
    ensures Classify(s).Target?
    ensures BvCore(s) ==> Classify(s) == Target(Canonical(s))
    ensures VideoUrl(s) ==> Classify(s) == Target(PyStrip(s))
  {
    if BvCore(s) {
      BvidCanonical(s);
    }
    if VideoUrl(s) {
      VideoUrlKept(s);
    }
  }

  /** The client is stricter: ten letters or digits without "BV", which the server
      prefixes and fetches, are refused in the browser. */
  lemma BareIdClientRejects(s: string)
    requires |s| == 10 && All(s, Alnum) && !StartsWith(s, "BV")
    ensures !ValidateUrl(s)
    ensures Classify(s) == Target(Canonical("BV" + s))
  {
    BareIdPrefixed(s);
    assert |VideoPrefix(false, false)| > 10 && |VideoPrefix(true, true)| > 10;
  }

  /** A label, a dot and a host part, with no whitespace at either end, are a URL the
      server keeps as it is. */
  lemma NameDotHostKept(name: string, rest: string)
    requires name != [] && All(name, Label)
    requires rest != [] && All(rest, Host)
    ensures var s := name + "." + rest; IsUrl(s) && PyStrip(s) == s
  {
    var s := name + "." + rest;
    DotHostIsUrl(name, rest, []);
    assert s + [] == s;
    assert s[0] == name[0] && InClass(name[0], Label);
    assert s[|s| - 1] == rest[|rest| - 1] && InClass(rest[|rest| - 1], Host);
    StripKeeps(s, Python);
  }

  /** Every video prefix starts with `h`, so text starting otherwise matches none. */
  lemma NoVideoPrefix(s: string)
    requires s != [] && s[0] != 'h'
    ensures !VideoUrl(s)
  {
    forall secure: bool, www: bool ensures !StartsWith(s, VideoPrefix(secure, www)) {
      PrefixFirst(s, VideoPrefix(secure, www));
    }
  }

  /** Neither a `h` nor a `B` in front, so the client refuses; yet a label, a dot and
      a host part are a URL to the server, which fetches it whatever the site. */
  lemma ForeignHostServerOnly(name: string, rest: string)
    requires name != [] && All(name, Label) && name[0] != 'h' && name[0] != 'B'
    requires rest != [] && All(rest, Host)
    ensures !ValidateUrl(name + "." + rest)
    ensures Classify(name + "." + rest) == Target(name + "." + rest)
  {
    var s := name + "." + rest;
    NameDotHostKept(name, rest);
    UrlKept(s);
    assert s[0] == name[0];
    NoVideoPrefix(s);
  }

  /** Any URL to another site, with or without a scheme (`https://www.youtube.com/...`
      among them), is refused by the client and fetched unchanged by the server. */
  lemma ForeignUrl(s: string)
    requires IsUrl(s) && PyStrip(s) == s && !Contains(s, Domain)
    ensures !ValidateUrl(s)
    ensures Classify(s) == Target(s)
  {
    UrlKept(s);
    if VideoUrl(s) {
      VideoUrlMentionsDomain(s);
    }
    if BvCore(s) {
      BvidIsNotUrl(s);
    }
  }

  /** For example `example.com`. */
  lemma ExampleComServerOnly(name: string, rest: string)
    requires name == "example" && rest == "com"
    ensures !ValidateUrl(name + "." + rest) && Classify(name + "." + rest).Target?
  {
    assert All(name, Label) && All(rest, Host);
    ForeignHostServerOnly(name, rest);
  }

  /* ---------- getCsrfToken ---------- */

  const CsrfCookie := "csrftoken"

  /** `const [name, value] = cookie.trim().split('=')`: the text before the first `=`. */
  function CookieName(piece: string): string
  {
    Split(JsTrim(piece), '=')[0]
  }

  /** The destructured `value`: the text between the first and second `=`, or
      `undefined` (`None`) when the trimmed piece has no `=` at all. */
  function CookieValue(piece: string): Option<string>
  {
    var parts := Split(JsTrim(piece), '=');
    if |parts| >= 2 then Some(parts[1]) else None
  }

  /** What `getCsrfToken` returns for the pieces `document.cookie.split(';')` gives:
      the value of the first piece named `csrftoken`, or `''` when none is. */
  function FirstCsrf(pieces: seq<string>): Option<string>
  {
    if pieces == [] then Some("")
    else if CookieName(pieces[0]) == CsrfCookie then CookieValue(pieces[0])
    else FirstCsrf(pieces[1..])
  }

  /** `getCsrfToken`: scans the cookie pieces in order and returns at the first match. */
  method GetCsrfToken(cookie: string) returns (token: Option<string>)
    ensures token == FirstCsrf(Split(cookie, ';'))
  {
    var cookies := Split(cookie, ';');
    var i := 0;
    while i < |cookies|
      invariant 0 <= i <= |cookies|
      invariant FirstCsrf(cookies[i..]) == FirstCsrf(cookies)
    {
      if CookieName(cookies[i]) == CsrfCookie {
        token := CookieValue(cookies[i]);
        return;
      }
      assert cookies[i..][1..] == cookies[i + 1..];
      i := i + 1;
    }
    token := Some("");
  }

  /** The first piece named `csrftoken` decides, whatever follows it. */
  lemma {:induction false} FirstCsrfFound(pieces: seq<string>, j: int)
    requires 0 <= j < |pieces| && CookieName(pieces[j]) == CsrfCookie
    requires forall k :: 0 <= k < j ==> CookieName(pieces[k]) != CsrfCookie
    ensures FirstCsrf(pieces) == CookieValue(pieces[j])
    decreases j
  {
    if j > 0 {
      forall k | 0 <= k < j - 1 ensures CookieName(pieces[1..][k]) != CsrfCookie {
        assert pieces[1..][k] == pieces[k + 1];
      }
      FirstCsrfFound(pieces[1..], j - 1);
      assert pieces[1..][j - 1] == pieces[j];
    }
  }

  /** With no piece named `csrftoken`, the token is the empty string. */
  lemma {:induction false} FirstCsrfMissing(pieces: seq<string>)
    requires forall k :: 0 <= k < |pieces| ==> CookieName(pieces[k]) != CsrfCookie
    ensures FirstCsrf(pieces) == Some("")
    decreases |pieces|
  {
    if pieces != [] {
      forall k | 0 <= k < |pieces| - 1 ensures CookieName(pieces[1..][k]) != CsrfCookie {
        assert pieces[1..][k] == pieces[k + 1];
      }
      FirstCsrfMissing(pieces[1..]);
    }
  }

  /** The value stops at the next `=`: it holds no `=`, and the trimmed piece is the
      name, `=`, the value, and either nothing or a further `=` and the rest. A piece
      with no `=` at all gives `undefined`. */
  lemma CookieValueTruncated(piece: string)
    ensures CookieValue(piece).None? <==> '=' !in JsTrim(piece)
    ensures CookieValue(piece).Some? ==>
              var v := CookieValue(piece).value;
              var t := JsTrim(piece);
              '=' !in v &&
              (t == CookieName(piece) + "=" + v ||
               StartsWith(t, CookieName(piece) + "=" + v + "="))
  {
    var t := JsTrim(piece);
    var parts := Split(t, '=');
    JoinSplit(t, '=');
    SplitPiecesFree(t, '=');
    SplitSingle(t, '=');
    if |parts| >= 2 {
      assert '=' !in parts[1];
      var head := parts[0] + "=" + parts[1];
      if |parts| == 2 {
        assert Join(parts, '=') == parts[0] + "=" + Join(parts[1..], '=');
        assert Join(parts[1..], '=') == parts[1];
      } else {
        JoinTwo(parts, '=');
        assert StartsWith(t, head + "=") by {
          assert t == head + "=" + Join(parts[2..], '=');
          assert t[..|head + "="|] == head + "=";
        }
      }
    }
  }

  /* ---------- the download form ---------- */

  const HelpMessage := "请输入有效的 Bilibili 视频 URL 或 BV 号"
  const BusyText := "下载中..."
  const IdleLabel := "下载"
  const TitleLabel := " 标题: "
  const ErrorPrefix := "发生错误: "
  const MissingTitle := "undefined"

  /** The POST the click handler sends to `/downloads/`: the JSON body and the
      `X-CSRFToken` header. */
  datatype Request = Request(url: string, contentType: string, mp3Conversion: bool,
                             csrfToken: Option<string>)

  /** How a request settles: the server's JSON answer, or a rejected `fetch` (or a
      body that is not JSON), shown as the error's text. */
  datatype Settlement = Answered(reply: Downloader.Response) | FetchFailed(error: string)

  /** The help line under the input, as the blur and input handlers set it: shown,
      with the hint, exactly for a non-empty input `validateUrl` refuses. */
  function HelpFor(input: string): (h: (string, bool))
    ensures h.1 <==> input != [] && !ValidateUrl(input)
    ensures h.0 == (if h.1 then HelpMessage else "")
  {
    if input == [] then ("", false)
    else if !ValidateUrl(input) then (HelpMessage, true)
    else ("", false)
  }

  /** The form: the input's text, the download button, the message line and the
      help line below the input. */
  class DownloadPage {
    var input: string
    var buttonDisabled: bool
    var buttonText: string
    var messageText: string
    var messageClass: string
    var helpText: string
    var helpShown: bool

    /** The button is enabled exactly for input `validateUrl` accepts. */
    predicate Consistent()
      reads this
    {
      buttonDisabled == !ValidateUrl(input)
    }

    /** The page as loaded, with the template's button label and an empty message,
        after the initial `toggleDownloadButton()` (script.js:51). */
    constructor (initial: string, caption: string)
      ensures input == initial && Consistent()
      ensures buttonText == caption && messageText == "" && messageClass == ""
      ensures helpText == "" && !helpShown
    {
      input := initial;
      buttonText := caption;
      messageText := "";
      messageClass := "";
      helpText := "";
      helpShown := false;
      buttonDisabled := !ValidateUrl(initial);
    }

    /** `toggleDownloadButton`. */
    method ToggleDownloadButton()
      modifies this
      ensures Consistent()
      ensures input == old(input) && buttonText == old(buttonText)
      ensures messageText == old(messageText) && messageClass == old(messageClass)
      ensures helpText == old(helpText) && helpShown == old(helpShown)
    {
      buttonDisabled := !ValidateUrl(input);
    }

    /** The help-line update shared by the blur and input handlers. */
    method UpdateHelp()
      modifies this
      ensures (helpText, helpShown) == HelpFor(input)
      ensures input == old(input) && buttonDisabled == old(buttonDisabled)
      ensures buttonText == old(buttonText)
      ensures messageText == old(messageText) && messageClass == old(messageClass)
    {
      if input == [] {
        helpText := "";
        helpShown := false;
      } else if !ValidateUrl(input) {
        helpText := HelpMessage;
        helpShown := true;
      } else {
        helpText := "";
        helpShown := false;
      }
    }

    /** The `blur` handler: only the help line changes. */
    method OnBlur()
      modifies this
      ensures (helpText, helpShown) == HelpFor(input)
      ensures input == old(input) && buttonDisabled == old(buttonDisabled)
      ensures buttonText == old(buttonText)
      ensures messageText == old(messageText) && messageClass == old(messageClass)
    {
      UpdateHelp();
    }

    /** The `input` handler, after the browser has stored the new text: the button
        follows the text, then the help line does. */
    method OnInput(text: string)
      modifies this
      ensures input == text && Consistent()
      ensures (helpText, helpShown) == HelpFor(text)
      ensures buttonText == old(buttonText)
      ensures messageText == old(messageText) && messageClass == old(messageClass)
    {
      input := text;
      ToggleDownloadButton();
      UpdateHelp();
    }

    /** The click handler up to the `fetch`: invalid input only shows the hint in the
        message line and sends nothing; valid input shows the busy state, disables the
        button and sends the request with the current `type`, `mp3_conversion` and the
        CSRF token read from `cookie`. */
    method Click(contentType: string, mp3Conversion: bool, cookie: string) returns (request: Option<Request>)
      modifies this
      ensures !ValidateUrl(old(input)) ==>
                request == None && messageText == HelpMessage && messageClass == "error" &&
                buttonDisabled == old(buttonDisabled) && buttonText == old(buttonText)
      ensures ValidateUrl(old(input)) ==>
                request == Some(Request(old(input), contentType, mp3Conversion, FirstCsrf(Split(cookie, ';')))) &&
                messageText == BusyText && messageClass == "" &&
                buttonDisabled && buttonText == BusyText
      ensures input == old(input) && helpText == old(helpText) && helpShown == old(helpShown)
    {
      var url := input;
      var token := FirstCsrf(Split(cookie, ';'));  // what `GetCsrfToken` returns
      if !ValidateUrl(url) {
        messageText := HelpMessage;
        messageClass := "error";
        return None;
      }
      messageText := BusyText;
      messageClass := "";
      buttonDisabled := true;
      buttonText := BusyText;
      request := Some(Request(url, contentType, mp3Conversion, token));
    }

    /** The `keydown` handler: Enter clicks the button, with all of `Click`'s effects, but
        only while it is enabled; the input may be invalid by then (see
        `EnabledDespiteInvalidInput`), and the click then shows the hint. */
    method OnKeydown(key: string, contentType: string, mp3Conversion: bool, cookie: string)
      returns (request: Option<Request>)
      modifies this
      ensures key != "Enter" || old(buttonDisabled) ==>
                request == None && buttonDisabled == old(buttonDisabled) &&
                buttonText == old(buttonText) && messageText == old(messageText) &&
                messageClass == old(messageClass)
      ensures key == "Enter" && !old(buttonDisabled) && !ValidateUrl(old(input)) ==>
                request == None && messageText == HelpMessage && messageClass == "error" &&
                buttonDisabled == old(buttonDisabled) && buttonText == old(buttonText)
      ensures key == "Enter" && !old(buttonDisabled) && ValidateUrl(old(input)) ==>
                request == Some(Request(old(input), contentType, mp3Conversion, FirstCsrf(Split(cookie, ';')))) &&
                messageText == BusyText && messageClass == "" &&
                buttonDisabled && buttonText == BusyText
      ensures input == old(input) && helpText == old(helpText) && helpShown == old(helpShown)
    {
      request := None;
      if key == "Enter" && !buttonDisabled {
        request := Click(contentType, mp3Conversion, cookie);
      }
    }

    /** The `then`, `catch` and `finally` of the request: the message shows the outcome,
        and whatever it was, the button is enabled again with its idle label. */
    method Settle(outcome: Settlement)
      modifies this
      ensures outcome.Answered? && outcome.reply.status == "success" ==>
                messageText == outcome.reply.message + TitleLabel + outcome.reply.title.GetOr(MissingTitle) &&
                messageClass == "success"
      ensures outcome.Answered? && outcome.reply.status != "success" ==>
                messageText == outcome.reply.message && messageClass == "error"
      ensures outcome.FetchFailed? ==> messageText == ErrorPrefix + outcome.error && messageClass == "error"
      ensures !buttonDisabled && buttonText == IdleLabel
      ensures input == old(input) && helpText == old(helpText) && helpShown == old(helpShown)
    {
      match outcome {
        case Answered(reply) =>
          if reply.status == "success" {
            messageText := reply.message + TitleLabel + reply.title.GetOr(MissingTitle);
            messageClass := "success";
          } else {
            messageText := reply.message;
            messageClass := "error";
          }
        case FetchFailed(error) =>
          messageText := ErrorPrefix + error;
          messageClass := "error";
      }
      buttonDisabled := false;
      buttonText := IdleLabel;
    }
  }

  /** Right after a click on valid input the button is disabled, so an immediate Enter
      sends no second request. */
  method NoSecondRequest(page: DownloadPage, contentType: string, mp3Conversion: bool, cookie: string)
    returns (first: Option<Request>, second: Option<Request>)
    requires ValidateUrl(page.input)
    modifies page
    ensures first.Some? && second == None
  {
    first := page.Click(contentType, mp3Conversion, cookie);
    second := page.OnKeydown("Enter", contentType, mp3Conversion, cookie);
  }

  /** Nothing marks a request as pending except the disabled button, and the `input`
      handler recomputes that from the text: typing a valid text while the first request
      is pending enables the button again, and Enter then sends a second request. */
  method DoubleSubmission(page: DownloadPage, text: string, contentType: string, mp3Conversion: bool,
                          cookie: string)
    returns (first: Option<Request>, second: Option<Request>)
    requires ValidateUrl(page.input) && ValidateUrl(text)
    modifies page
    ensures first.Some? && first.value.url == old(page.input)
    ensures second.Some? && second.value.url == text
    ensures page.buttonDisabled && page.buttonText == BusyText
  {
    first := page.Click(contentType, mp3Conversion, cookie);
    page.OnInput(text);
    second := page.OnKeydown("Enter", contentType, mp3Conversion, cookie);
  }

  /** The `finally` does not consult the input: text edited into something invalid
      while the request was pending leaves the button enabled once it settles. */
  method EnabledDespiteInvalidInput(outcome: Settlement) returns (page: DownloadPage)
    ensures !page.buttonDisabled && !ValidateUrl(page.input) && !page.Consistent()
  {
    var id := "BV1xx411c7mD";
    page := new DownloadPage(id, IdleLabel);
    assert BvCore(id);
    var request := page.Click("video", false, "");
    page.OnInput("x");
    page.Settle(outcome);
  }
}
