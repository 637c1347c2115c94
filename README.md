# bilibili_download in Dafny

A model of the core of LEIJM/bilibili_download, a small Django site that downloads
Bilibili videos with yt-dlp. The server part (`bilibili_downloader/views.py`) covers:

- the input classifier that turns a URL or BV id into the URL handed to the engine;
- the yt-dlp option builder and the mapping of the engine's outcome to a JSON result;
- the `download_api` endpoint;
- the file catalog: `format_file_size`, `list_files` and its newest-first sort, and `download_file` with its path guard.

The browser part (`static/js/script.js`) covers:

- the `validateUrl` recogniser;
- the `getCsrfToken` cookie parser;
- the download form. The event handlers update its button, message line and help line in place.

Modules, one per file:

- `text.dfy` (`Text`): Python's `str.strip()` and JavaScript's `trim()`, each with its own whitespace set. Also prefix and substring tests, JavaScript's `split` on one character with its inverse, and decimal rendering of naturals.
- `wrappers.dfy` (`Wrappers`): `Option`.
- `paths.dfy` (`Paths`): `os.path.join` for two parts, and `urllib.parse.unquote` for escapes of ASCII characters.
- `classifier.dfy` (`Classifier`): `is_url`, `is_bvid` and the classification chain of `download_api`.
- `downloader.dfy` (`Downloader`): `download_content` and `download_api`. The engine is a function parameter.
- `filesize.dfy` (`FileSize`): `format_file_size`. Rounding is half to even, on hundredths.
- `catalog.dfy` (`Catalog`): `list_files` and `download_file`.
- `client.dfy` (`Client`): `validateUrl`, `getCsrfToken` and the `DownloadPage` class for the form.

Behaviour worth knowing:

- An engine failure is answered with HTTP 200 (views.py:212-213): `download_api` returns `JsonResponse(result)` with the default status, even when `result` has status `error`.
- Python's `$` also matches before one final `"\n"`. So `is_url("a.b\n")` and `is_bvid("BV0123456789\n")` hold, as `Classifier.IsUrl` and `Classifier.IsBvid` model. The classifier strips its input first, so this cannot be observed through `download_api`.
- `format_file_size(1048575)` is `"1024.00 KB"`: the unit is chosen before rounding.

## Model

| member | source | states |
|---|---|---|
| Text.PyStrip | bilibili_downloader/views.py:177 | Python's `str.strip()`: removes the characters `str.isspace` accepts from both ends (the ends are its contract, through `Strip`) |
| Text.JsTrim | static/js/script.js:102 | JavaScript's `trim()`: removes ECMAScript white space and line terminators from both ends |
| Text.Split | static/js/script.js:100-102 | JavaScript's `split` on one character: always at least one piece, `[""]` for empty text; `Text.JoinSplit` and `Text.SplitJoin` make it the inverse of joining |
| Text.Contains | bilibili_downloader/views.py:200 | Python's `in` on strings; `Text.ContainsIff` proves it equal to "occurs at some index" |
| Text.StripEmptyIff | bilibili_downloader/views.py:177-182 | stripping leaves nothing exactly when every character is whitespace, so "empty" means whitespace-only |
| Text.JoinSplit | static/js/script.js:100-102 | `split` loses nothing: joining the pieces with the separator gives the text back |
| Text.SplitPiecesFree | static/js/script.js:100-102 | no piece of a split contains the separator |
| Paths.PathJoin | bilibili_downloader/views.py:157 | an absolute second part replaces the folder; otherwise the name follows the folder directly when the folder is empty or ends in `/`, and after exactly one added `/` when it does not |
| Paths.JoinStaysBelow | bilibili_downloader/views.py:157 | the joined path lies below the folder exactly when the name is relative or is itself an absolute path below the folder |
| Paths.Unquote | bilibili_downloader/views.py:155 | decoding never lengthens the text |
| Paths.UnquotePlain | bilibili_downloader/views.py:155 | text without `%` decodes to itself |
| Paths.UnquoteEscape | bilibili_downloader/views.py:155 | `%` and two hex digits of an ASCII character decode to that character |
| FileSize.UnitFor | bilibili_downloader/views.py:94-101 | B below 1024; otherwise the largest of KB, MB, GB whose size does not exceed the count |
| FileSize.UnitForUnique | bilibili_downloader/views.py:94-101 | the two conditions on the unit pick exactly one unit |
| FileSize.RoundHalfEven | bilibili_downloader/views.py:97-101 | the rounded quotient is never below the truncated one |
| FileSize.RoundHalfEvenRounds | bilibili_downloader/views.py:97-101 | the rounded quotient is within half a unit of the exact quotient, and ties go to the even neighbour |
| FileSize.RoundedUnique | bilibili_downloader/views.py:97-101 | that rounding has exactly one answer |
| FileSize.ReadRendered | bilibili_downloader/views.py:97-101 | the `.2f` text of a count of hundredths reads back as that count and unit |
| FileSize.FormatFileSize | bilibili_downloader/views.py:92-101 | below 1024: the exact count and `B`; otherwise the text reads back as `100 * n / unit`, correctly rounded, in the unit `UnitFor` picks; the text starts with `0` only for a count of 0 |
| FileSize.BytesExact | bilibili_downloader/views.py:94-95 | different counts below 1024 print differently |
| FileSize.KilobyteAndHalf | bilibili_downloader/views.py:96-97 | 1536 bytes print as `1.50 KB` |
| FileSize.OneMegabyte | bilibili_downloader/views.py:98-99 | 1048576 bytes print as `1.00 MB` |
| FileSize.JustUnderMegabyte | bilibili_downloader/views.py:96-97 | 1048575 bytes stay in KB and print as `1024.00 KB` |
| Classifier.IsUrl | bilibili_downloader/views.py:59-68 | `is_url`: an optional `http://` or `https://`, then the greedy host-and-path match of the expression; `Classifier.IsUrlMatchesRegex` proves it equal to the expression's language |
| Classifier.IsBvid | bilibili_downloader/views.py:71-74 | `is_bvid`: `BV` and ten ASCII letters or digits, with Python's `$` also admitting one final newline |
| Classifier.IsUrlMatchesRegex | bilibili_downloader/views.py:59-68 | the greedy recogniser accepts exactly the texts that some split of the `is_url` expression fits |
| Classifier.UrlHasDot | bilibili_downloader/views.py:59-68 | every URL contains a dot |
| Classifier.DotHostIsUrl | bilibili_downloader/views.py:59-68 | a label, a dot, host characters and an optional `/` path form a URL, whatever the site |
| Classifier.BvidWithoutNewline | bilibili_downloader/views.py:71-74 | on text not ending in a newline, `is_bvid` holds exactly for `BV` and ten ASCII letters or digits |
| Classifier.BvidIsNotUrl | bilibili_downloader/views.py:185-188 | a BV id is never taken for a URL |
| Classifier.Classify | bilibili_downloader/views.py:177-203 | refused as empty exactly when the stripped input is empty; any target is the stripped input or the canonical URL of a BV id |
| Classifier.UrlKept | bilibili_downloader/views.py:185-186 | a URL without surrounding whitespace is fetched unchanged |
| Classifier.BvidCanonical | bilibili_downloader/views.py:187-188 | a BV id is fetched from `https://www.bilibili.com/video/` plus the id |
| Classifier.BareIdPrefixed | bilibili_downloader/views.py:190-197 | ten letters or digits not starting with `BV` get the prefix and are fetched as a BV id |
| Classifier.BvPrefixNotReprefixed | bilibili_downloader/views.py:191-192 | input starting with `BV` that is not an id is never prefixed again |
| Classifier.ShortBvRefused | bilibili_downloader/views.py:191-203 | so ten letters or digits starting with `BV` are refused as unrecognised |
| Classifier.DomainAccepted | bilibili_downloader/views.py:200-201 | stripped input that mentions `bilibili.com` is always accepted |
| Classifier.DomainKept | bilibili_downloader/views.py:185-201 | such input is fetched exactly as stripped: its dot keeps it from being an id, with or without `BV` in front |
| Classifier.UnrecognizedIff | bilibili_downloader/views.py:181-203 | the exact conditions under which the input is refused as unrecognised |
| Classifier.PunctuatedRefused | bilibili_downloader/views.py:185-203 | stripped text with no dot and a character that is not a letter or digit is refused |
| Classifier.SampleUnrecognized | bilibili_downloader/views.py:202-203 | `not a url or id!!` is refused as unrecognised |
| Downloader.ConfiguredAs | bilibili_downloader/views.py:28-46 | the declarative description of `ydl_opts`: the output template and the cookie entry always, then the keys of the content type, and no other key |
| Downloader.BuildOptions | bilibili_downloader/views.py:28-46 | the options hold the output template and cookie file, plus format and merge for video, or format and, on request, MP3 extraction for audio |
| Downloader.ConfiguredUnique | bilibili_downloader/views.py:28-46 | the inputs determine the options completely |
| Downloader.ConfiguredKeys | bilibili_downloader/views.py:30-46 | each optional key is present exactly under its condition; the cookie file is passed exactly when it is given and exists |
| Downloader.ResultOf | bilibili_downloader/views.py:52-56 | status `success` exactly when the engine finished, with the title or `未知标题`; status `error` exactly when it failed, with `下载失败: ` and the engine's message |
| Downloader.FailureRecovered | bilibili_downloader/views.py:55-56 | the engine's failure message can be read back from the result, and a success carries none |
| Downloader.DownloadContent | bilibili_downloader/views.py:14-56 | the engine is called with exactly the configured options, and its outcome becomes the result |
| Downloader.DownloadApi | bilibili_downloader/views.py:168-217 | a malformed body or an empty object gives 400; a non-string `url` gives 500; otherwise classification decides between the two 400 refusals and a download whose result is answered with 200; 200 exactly for a recognised target (a failing `os.makedirs` is not modelled) |
| Catalog.StrLess | bilibili_downloader/views.py:137 | Python's `<` on strings: code point by code point, a proper prefix first |
| Catalog.StrLessTransitive | bilibili_downloader/views.py:137 | string order is transitive |
| Catalog.StrLessTotal | bilibili_downloader/views.py:137 | string order is total |
| Catalog.Collected | bilibili_downloader/views.py:107-134 | the rows the loop appends, in `listdir` order: one per regular file, with name, size text, both dates and the quoted download path; never more rows than entries |
| Catalog.CollectedSound | bilibili_downloader/views.py:107-134 | every listed row describes a regular file of the folder |
| Catalog.CollectedComplete | bilibili_downloader/views.py:107-134 | every regular file of the folder is listed |
| Catalog.CollectedCounts | bilibili_downloader/views.py:139-143 | the listing has one row per regular file |
| Catalog.Insert | bilibili_downloader/views.py:137 | one insertion step of the sort: the row goes before the first row not later than it; the result is the old rows plus the new one, as a multiset |
| Catalog.SortNewestFirst | bilibili_downloader/views.py:137 | the sort keeps the length and is a permutation |
| Catalog.SortOrders | bilibili_downloader/views.py:137 | the sort orders rows by modification text, latest first |
| Catalog.SortStable | bilibili_downloader/views.py:137 | rows with equal modification text keep their listing order |
| Catalog.InsertWithKey | bilibili_downloader/views.py:137 | inserting a row adds it to its key's rows and leaves other keys' rows unchanged |
| Catalog.ListFiles | bilibili_downloader/views.py:104-145 | an unreadable folder gives a 500 answer; otherwise the message, the file count, and the rows newest first as a permutation of the collected rows |
| Catalog.EmptyFolder | bilibili_downloader/views.py:107-143 | an empty folder lists no rows and a count of 0 |
| Catalog.IsSafeFilename | bilibili_downloader/views.py:151 | the guard of `download_file`: no `..` anywhere and no leading `/` |
| Catalog.Serve | bilibili_downloader/views.py:157-163 | the file is sent exactly when the joined path is an existing regular file, named in the attachment header; otherwise 404 |
| Catalog.DownloadFileAsWritten | bilibili_downloader/views.py:148-163 | 400 exactly when the name as routed contains `..` or starts with `/`; otherwise the decoded name is served |
| Catalog.SafeNameInside | bilibili_downloader/views.py:151-157 | a safe name joined to the folder lies strictly below it |
| Catalog.PlainNamesServedInside | bilibili_downloader/views.py:151-157 | for names without `%`, the guard as written keeps every served file below the folder |
| Catalog.DecodeEncodedSlashes | bilibili_downloader/views.py:155 | `%2f` + dir + `%2f` + name decodes to `/dir/name` |
| Catalog.EncodedPathEscapes | bilibili_downloader/views.py:151-157 | such a name passes the guard as written and is served from the absolute path `/dir/name` |
| Catalog.EtcPasswdEscapes | bilibili_downloader/views.py:151-157 | `%2fetc%2fpasswd` with folder `/srv/downloads` is served from `/etc/passwd`, outside the folder |
| Catalog.DownloadFile | bilibili_downloader/views.py:148-163 | the corrected handler: 400 exactly when the decoded name is unsafe; otherwise it is served |
| Catalog.ServedInside | bilibili_downloader/views.py:148-163 | with the corrected guard, every served file lies strictly below the folder |
| Client.ValidateUrl | static/js/script.js:7-11 | `validateUrl`: exactly `BV` and ten ASCII letters or digits (JavaScript's `$` is the end of the text), or one of the four `http(s)://(www.)bilibili.com/video/` prefixes followed by a character that is not a line terminator |
| Client.ClientAcceptedServerAccepts | static/js/script.js:7-11 | every input `validateUrl` accepts, the server accepts too: a BV id goes to its canonical URL, and a video URL is fetched as stripped |
| Client.VideoUrlKept | static/js/script.js:9 | a matching video URL is fetched by the server exactly as stripped |
| Client.BareIdClientRejects | static/js/script.js:8-10 | ten letters or digits without `BV` are refused by the client but prefixed and fetched by the server |
| Client.ForeignHostServerOnly | static/js/script.js:9-10 | a host not starting with `h` or `B` is refused by the client but fetched unchanged by the server |
| Client.ForeignUrl | static/js/script.js:9-10 | any URL that does not mention `bilibili.com` and has no surrounding whitespace, with or without `http(s)://` (`https://www.youtube.com/watch?v=x` among them), is refused by the client and fetched unchanged by the server |
| Client.ExampleComServerOnly | static/js/script.js:9-10 | `example.com` is refused by the client and accepted by the server |
| Client.CookieName | static/js/script.js:102 | the destructured `name`: the trimmed piece up to its first `=` |
| Client.CookieValue | static/js/script.js:102 | the destructured `value`: between the first and second `=`, or `undefined` (`None`) without an `=`; `Client.CookieValueTruncated` states it |
| Client.FirstCsrf | static/js/script.js:99-108 | the value of the first piece named `csrftoken`, or `''` when none is; `Client.FirstCsrfFound` and `Client.FirstCsrfMissing` state both cases |
| Client.GetCsrfToken | static/js/script.js:99-108 | the loop returns what `FirstCsrf` states: the first piece named `csrftoken` decides, else `''` |
| Client.FirstCsrfFound | static/js/script.js:101-105 | the first piece named `csrftoken` gives the token, whatever follows it |
| Client.FirstCsrfMissing | static/js/script.js:107 | without such a piece the token is `''` |
| Client.CookieValueTruncated | static/js/script.js:102 | the value holds no `=` and stops at the next `=` of the trimmed piece; a piece without `=` gives `undefined` |
| Client.HelpFor | static/js/script.js:14-23 | the hint is shown exactly for a non-empty input `validateUrl` refuses |
| Client.DownloadPage.constructor | static/js/script.js:51 | on load, the button is disabled exactly when the input is invalid |
| Client.DownloadPage.ToggleDownloadButton | static/js/script.js:25-27 | the button is disabled exactly when the input is invalid; nothing else changes |
| Client.DownloadPage.UpdateHelp | static/js/script.js:30-39 | the help line follows `HelpFor`; nothing else changes |
| Client.DownloadPage.OnBlur | static/js/script.js:13-24 | leaving the field updates only the help line |
| Client.DownloadPage.OnInput | static/js/script.js:28-40 | typing sets the button from the new text, then the help line |
| Client.DownloadPage.Click | static/js/script.js:54-76 | invalid input: the hint in red and no request; valid input: the busy state, a disabled button, and one request with the current input, type, MP3 flag and CSRF token |
| Client.DownloadPage.OnKeydown | static/js/script.js:43-48 | Enter on an enabled button has all of `Click`'s effects, for valid input and for input made invalid since; Enter on a disabled button, or any other key, changes nothing |
| Client.DownloadPage.Settle | static/js/script.js:78-95 | success shows the message and title; an error answer shows its message; a failed fetch shows `发生错误: ` and the error; in every case the button is enabled again and labelled `下载` |
| Client.NoSecondRequest | static/js/script.js:43-48 | Enter right after a click on valid input sends no second request, because the click disabled the button |
| Client.DoubleSubmission | static/js/script.js:25-29 | typing a valid text while a request is pending enables the button again, and Enter then sends a second request with the new text |
| Client.EnabledDespiteInvalidInput | static/js/script.js:92-95 | input made invalid while a request is pending leaves the button enabled once the request settles |

## Findings

| source | as written | input that shows it | evidently intended | confidence | as-written member | corrected member |
|---|---|---|---|---|---|---|
| bilibili_downloader/views.py:151-157 | the `..` and leading-`/` guard looks at the name before `unquote`, and `os.path.join` drops the folder when the decoded name is absolute | the route `download/<path:filename>/` (bilibili_downloader/urls.py:8) with `/download/%252fetc%252fpasswd/`: the name `%2fetc%2fpasswd` passes the guard, decodes to `/etc/passwd`, and that file is sent | the guard applies to the decoded name, so only files below the download folder are served | high, not executed | Catalog.EtcPasswdEscapes | Catalog.ServedInside |

`Catalog.EncodedPathEscapes` generalises the finding to any directory and name without `%` or `.`. `Catalog.DownloadFileAsWritten` models the handler as written. `Catalog.DownloadFile` is the corrected handler.

## Left out

- yt-dlp is not modelled. The engine is a function parameter from URL and options to an outcome (finished with an optional title, or failed with a message). The metadata probe and the download are one call.
- `os.makedirs` (views.py:25) is not modelled. It creates the folder on disk. If it raises, `download_api` answers 500 (views.py:216-217); that failure and its 500 answer are not modelled either.
- The filesystem is given as values:
  - a `Directory` holds the entries of `os.listdir`, with kind, size and both time texts;
  - `os.path.exists` is a set of existing paths, and `exists` together with `isfile` is a set of regular files.
- Timestamps: `strftime` is not modelled. The two date texts are given with each entry.
- `urllib.parse.quote` (views.py:124) is a function parameter.
- Paths.Unquote decodes only escapes of ASCII characters (`%00` to `%7f`) and keeps other `%` sequences verbatim. Python's `unquote` also decodes UTF-8 multi-byte sequences and replaces invalid ones.
- Catalog.ListFiles: an error raised part way through the loop (a file vanishing between `listdir` and `getsize`) is modelled only as a folder that cannot be read at all.
- Catalog.SortNewestFirst: `list.sort` works in place. It is modelled on values, as a stable insertion sort, and the in-place update is not captured.
- FileSize.FormatFileSize: counts of 2^53 bytes and more are divided exactly. Python first rounds the quotient to a double there.
- Django plumbing is not modelled:
  - routing, `render`, `index` and `help_view`;
  - the POST-only decorator with its 405 answer;
  - JSON serialisation.
- JSON bodies that are not objects are not modelled, nor are floating-point numbers or arrays as field values. A body is malformed or an object of strings, booleans, integers and `null`.
- Request bodies whose bytes are not valid UTF-8 are not modelled. `json.loads` raises `UnicodeDecodeError` for them, not `JSONDecodeError`, so `download_api` answers them with 500 (views.py:216-217), not with the 400 that `Malformed` gets.
- `updateFileList` (script.js:111-137) and all DOM rendering are not modelled.
- The reading of the `type` and `mp3_conversion` inputs becomes method parameters. `document.cookie` becomes a parameter too.
- Client.DownloadPage.Click: the header carries `FirstCsrf` of the cookie pieces. `Client.GetCsrfToken` is proved to compute exactly that value, but the method is not itself called from the handler.
- JavaScript's `undefined` token is `None`. Rendering a missing title as `undefined` is taken from JavaScript's template literals.
- Several requests pending at once are not modelled. Each request is settled by one `Settle` call, and `response.json()` failing counts as a failed fetch.
