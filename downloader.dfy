/** The server side of a download request: the option dictionary handed to yt-dlp
    (`download_content`), the mapping of the engine's outcome to a result record,
    and the JSON endpoint `download_api` that classifies the user's text first. */
module Downloader {
  import opened Wrappers
  import opened Text
  import opened Paths
  import opened Classifier

  /** A JSON scalar as `json.loads` gives it for one field of the request body. */
  datatype JsonValue = JString(text: string) | JBool(flag: bool) | JNumber(number: int) | JNull

  /** Python truthiness, as `if enable_mp3_conversion:` applies it. */
  predicate Truthy(v: JsonValue)
  {
    match v
    case JString(t) => t != []
    case JBool(b) => b
    case JNumber(n) => n != 0
    case JNull => false
  }

  /** Python's `type(v).__name__`. */
  function TypeName(v: JsonValue): string
  {
    match v
    case JString(_) => "str"
    case JBool(_) => "bool"
    case JNumber(_) => "int"
    case JNull => "NoneType"
  }

  /** One entry of yt-dlp's `postprocessors` list. */
  datatype PostProcessor = PostProcessor(key: string, preferredCodec: string, preferredQuality: string)

  /** A value stored in the `ydl_opts` dictionary. */
  datatype OptionValue = Str(s: string) | NoneValue | PostProcessors(list: seq<PostProcessor>)

  type Options = map<string, OptionValue>

  const OutputTemplate := "/%(title)s.%(ext)s"
  const VideoFormat := "bestvideo+bestaudio/best"
  const AudioFormat := "bestaudio/best"
  const Mp3Extraction := PostProcessor("FFmpegExtractAudio", "mp3", "192")

  /** `cookies_file and os.path.exists(cookies_file)`, with the files present on disk given
      as a set of paths. */
  predicate CookieUsable(cookiesFile: Option<string>, existing: set<string>)
  {
    cookiesFile.Some? && cookiesFile.value != [] && cookiesFile.value in existing
  }

  /** What the option dictionary must be: the output template and the cookie entry always,
      then the keys of the requested content type, and no other key. */
  predicate ConfiguredAs(opts: Options, savePath: string, contentType: JsonValue,
                         cookiesFile: Option<string>, existing: set<string>, mp3: JsonValue)
  {
    "outtmpl" in opts && opts["outtmpl"] == Str(savePath + OutputTemplate) &&
    "cookiefile" in opts &&
    opts["cookiefile"] == (if CookieUsable(cookiesFile, existing) then Str(cookiesFile.value) else NoneValue) &&
    if contentType == JString("video") then
      opts.Keys == {"outtmpl", "cookiefile", "format", "merge_output_format"} &&
      opts["format"] == Str(VideoFormat) && opts["merge_output_format"] == Str("mp4")
    else if contentType == JString("audio") then
      "format" in opts && opts["format"] == Str(AudioFormat) &&
      if Truthy(mp3) then
        opts.Keys == {"outtmpl", "cookiefile", "format", "postprocessors"} &&
        opts["postprocessors"] == PostProcessors([Mp3Extraction])
      else
        opts.Keys == {"outtmpl", "cookiefile", "format"}
    else
      opts.Keys == {"outtmpl", "cookiefile"}
  }

  /** Builds `ydl_opts` key by key, as `download_content` does. */
  method BuildOptions(savePath: string, contentType: JsonValue, cookiesFile: Option<string>,
                      existing: set<string>, mp3: JsonValue) returns (opts: Options)
    ensures ConfiguredAs(opts, savePath, contentType, cookiesFile, existing, mp3)
  {
    var cookie := if CookieUsable(cookiesFile, existing) then Str(cookiesFile.value) else NoneValue;
    opts := map["outtmpl" := Str(savePath + OutputTemplate), "cookiefile" := cookie];
    if contentType == JString("video") {
      opts := opts["format" := Str(VideoFormat)];
      opts := opts["merge_output_format" := Str("mp4")];
    } else if contentType == JString("audio") {
      opts := opts["format" := Str(AudioFormat)];
      if Truthy(mp3) {
        opts := opts["postprocessors" := PostProcessors([Mp3Extraction])];
      }
    }
  }

  /** The description above leaves no freedom: it fixes the dictionary completely. */
  lemma {:induction false} ConfiguredUnique(a: Options, b: Options, savePath: string, contentType: JsonValue,
                                            cookiesFile: Option<string>, existing: set<string>, mp3: JsonValue)
    requires ConfiguredAs(a, savePath, contentType, cookiesFile, existing, mp3)
    requires ConfiguredAs(b, savePath, contentType, cookiesFile, existing, mp3)
    ensures a == b
  {
    assert a.Keys == b.Keys;
    forall k | k in a.Keys ensures a[k] == b[k] {
      assert k in {"outtmpl", "cookiefile", "format", "merge_output_format", "postprocessors"};
    }
  }

  /** The per-key promises: a format only for the two known types, merging only for video,
      post-processing exactly for audio with the flag set, and the cookie file only when usable. */
  lemma ConfiguredKeys(opts: Options, savePath: string, contentType: JsonValue,
                       cookiesFile: Option<string>, existing: set<string>, mp3: JsonValue)
    requires ConfiguredAs(opts, savePath, contentType, cookiesFile, existing, mp3)
    ensures "format" in opts <==> contentType == JString("video") || contentType == JString("audio")
    ensures "merge_output_format" in opts <==> contentType == JString("video")
    ensures "postprocessors" in opts <==> contentType == JString("audio") && Truthy(mp3)
    ensures opts["cookiefile"].Str? <==> CookieUsable(cookiesFile, existing)
  {
    if contentType == JString("video") {
      assert "format" in opts.Keys && "merge_output_format" in opts.Keys;
    } else if contentType == JString("audio") && Truthy(mp3) {
      assert "postprocessors" in opts.Keys;
    }
  }

  /** What the engine reports: the probed title (absent when the metadata has none)
      after a completed download, or the message of the exception it raised. */
  datatype EngineOutcome = Finished(title: Option<string>) | Failed(message: string)

  /** The dictionary `download_content` returns; `title` is absent on failure. */
  datatype DownloadResult = DownloadResult(status: string, message: string, title: Option<string>)

  const DoneMessage := "下载完成!"
  const FailurePrefix := "下载失败: "
  const UnknownTitle := "未知标题"

  /** The result record for an engine outcome; a failure is reported, never raised. */
  function ResultOf(outcome: EngineOutcome): (r: DownloadResult)
    ensures r.status == "success" <==> outcome.Finished?
    ensures r.status == "error" <==> outcome.Failed?
    ensures outcome.Finished? ==> r.message == DoneMessage && r.title.Some? &&
                                  r.title.value == outcome.title.GetOr(UnknownTitle)
    ensures outcome.Failed? ==> r.title.None? && StartsWith(r.message, FailurePrefix) &&
                                r.message[|FailurePrefix|..] == outcome.message
  {
    match outcome
    case Finished(title) => DownloadResult("success", DoneMessage, Some(title.GetOr(UnknownTitle)))
    case Failed(message) => DownloadResult("error", FailurePrefix + message, None)
  }

  /** The engine's failure message, read back out of a result record. */
  function FailureOf(r: DownloadResult): Option<string>
  {
    if r.status == "error" && StartsWith(r.message, FailurePrefix) then Some(r.message[|FailurePrefix|..])
    else None
  }

  /** A result record loses nothing about a failure: its message is recovered exactly,
      and a success is never mistaken for one. */
  lemma FailureRecovered(outcome: EngineOutcome)
    ensures FailureOf(ResultOf(outcome)) == if outcome.Failed? then Some(outcome.message) else None
  {
  }

  /** `download_content`: builds the options, hands them to the engine with the URL,
      and turns the outcome into a result record. Creating `save_path` is not modelled. */
  method DownloadContent(url: string, savePath: string, contentType: JsonValue, cookiesFile: Option<string>,
                         existing: set<string>, mp3: JsonValue, engine: (string, Options) -> EngineOutcome)
    returns (r: DownloadResult, ghost opts: Options)
    ensures ConfiguredAs(opts, savePath, contentType, cookiesFile, existing, mp3)
    ensures r == ResultOf(engine(url, opts))
  {
    var built := BuildOptions(savePath, contentType, cookiesFile, existing, mp3);
    opts := built;
    var outcome := engine(url, built);
    r := ResultOf(outcome);
  }

  /** The request body: text that is not JSON, or a JSON object. */
  datatype Body = Malformed | Object(fields: map<string, JsonValue>)

  /** The server's settings and the files present on its disk. */
  datatype Server = Server(downloadFolder: string, baseDir: string, existing: set<string>)

  /** A JSON response: HTTP code, `status`, `message`, and `title` when present. */
  datatype Response = Response(code: int, status: string, message: string, title: Option<string>)

  const CookiesFileName := "bilibili.com_cookies.txt"
  const InvalidJsonMessage := "无效的JSON数据"
  const NoDataMessage := "请提供JSON数据"
  const EmptyInputMessage := "URL或BV号不能为空!"
  const UnrecognizedMessage := "无法识别的输入格式!"
  const InternalErrorPrefix := "处理请求时出错: "

  /** `data.get(key, default)`. */
  function Field(fields: map<string, JsonValue>, key: string, default: JsonValue): (v: JsonValue)
    ensures key in fields ==> v == fields[key]
    ensures key !in fields ==> v == default
  {
    if key in fields then fields[key] else default
  }

  /** A 400 answer with the given message. */
  function BadRequest(message: string): Response
  {
    Response(400, "error", message, None)
  }

  /** The text of the `AttributeError` raised by `.strip()` on a value that is not a string. */
  function NoStripMessage(v: JsonValue): string
  {
    "'" + TypeName(v) + "' object has no attribute 'strip'"
  }

  /** `download_api`: validates the body, classifies the `url` field, and only for a
      recognised target downloads with the `type` and `mp3_conversion` fields. */
  method DownloadApi(body: Body, server: Server, engine: (string, Options) -> EngineOutcome)
    returns (resp: Response, ghost opts: Options)
    ensures body.Malformed? ==> resp == BadRequest(InvalidJsonMessage)
    ensures body.Object? && body.fields == map[] ==> resp == BadRequest(NoDataMessage)
    ensures body.Object? && body.fields != map[] && !Field(body.fields, "url", JString("")).JString? ==>
              var url := Field(body.fields, "url", JString(""));
              resp == Response(500, "error", InternalErrorPrefix + NoStripMessage(url), None)
    ensures body.Object? && body.fields != map[] && Field(body.fields, "url", JString("")).JString? ==>
              match Classify(Field(body.fields, "url", JString("")).text)
              case Rejected(EmptyInput) => resp == BadRequest(EmptyInputMessage)
              case Rejected(Unrecognized) => resp == BadRequest(UnrecognizedMessage)
              case Target(target) =>
                ConfiguredAs(opts, server.downloadFolder, Field(body.fields, "type", JString("video")),
                             Some(PathJoin(server.baseDir, CookiesFileName)), server.existing,
                             Field(body.fields, "mp3_conversion", JBool(false))) &&
                var r := ResultOf(engine(target, opts));
                resp == Response(200, r.status, r.message, r.title)
    ensures resp.code == 200 <==> body.Object? && Field(body.fields, "url", JString("")).JString? &&
                                  Classify(Field(body.fields, "url", JString("")).text).Target?
  {
    opts := map[];
    if body.Malformed? {
      return BadRequest(InvalidJsonMessage), opts;
    }
    var data := body.fields;
    if data == map[] {
      return BadRequest(NoDataMessage), opts;
    }
    var field := Field(data, "url", JString(""));
    if !field.JString? {
      return Response(500, "error", InternalErrorPrefix + NoStripMessage(field), None), opts;
    }
    var contentType := Field(data, "type", JString("video"));
    var mp3 := Field(data, "mp3_conversion", JBool(false));
    match Classify(field.text)
    case Rejected(EmptyInput) =>
      resp := BadRequest(EmptyInputMessage);
    case Rejected(Unrecognized) =>
      resp := BadRequest(UnrecognizedMessage);
    case Target(target) =>
      var cookiesPath := PathJoin(server.baseDir, CookiesFileName);
      var r;
      r, opts := DownloadContent(target, server.downloadFolder, contentType, Some(cookiesPath),
                                 server.existing, mp3, engine);
      resp := Response(200, r.status, r.message, r.title);
  }
}
