/** The download folder as the server shows it: `list_files`, which collects the regular
    files and orders them newest first, and `download_file`, which serves one of them
    behind a guard against path traversal. */
module Catalog {
  import opened Wrappers
  import opened Text
  import opened Paths
  import opened FileSize

  /* ---------- Python's string order ---------- */

  /** `a < b` on Python strings: lexicographic by code point, a proper prefix first. */
  predicate StrLess(a: string, b: string)
    decreases |a|
  {
    b != [] && (a == [] || a[0] < b[0] || (a[0] == b[0] && StrLess(a[1..], b[1..])))
  }

  lemma {:induction false} StrLessIrreflexive(a: string)
    ensures !StrLess(a, a)
    decreases |a|
  {
    if a != [] {
      StrLessIrreflexive(a[1..]);
    }
  }

  lemma {:induction false} StrLessTransitive(a: string, b: string, c: string)
    requires StrLess(a, b) && StrLess(b, c)
    ensures StrLess(a, c)
    decreases |a|
  {
    if a != [] && a[0] == b[0] && b[0] == c[0] {
      StrLessTransitive(a[1..], b[1..], c[1..]);
    }
  }

  /** Any two different strings are ordered one way or the other. */
  lemma {:induction false} StrLessTotal(a: string, b: string)
    requires a != b
    ensures StrLess(a, b) || StrLess(b, a)
    decreases |a|
  {
    if a != [] && b != [] && a[0] == b[0] {
      assert a == [a[0]] + a[1..] && b == [b[0]] + b[1..];
      StrLessTotal(a[1..], b[1..]);
    }
  }

  lemma StrLessAsymmetric(a: string, b: string)
    requires StrLess(a, b)
    ensures !StrLess(b, a)
  {
    if StrLess(b, a) {
      StrLessTransitive(a, b, a);
      StrLessIrreflexive(a);
    }
  }

  /** `a >= b` is transitive. */
  lemma AtLeastTransitive(a: string, b: string, c: string)
    requires !StrLess(a, b) && !StrLess(b, c)
    ensures !StrLess(a, c)
  {
    if a != b && b != c {
      StrLessTotal(a, b);
      StrLessTotal(b, c);
      StrLessTransitive(c, b, a);
      StrLessAsymmetric(c, a);
    }
  }

  /* ---------- list_files ---------- */

  /** What the loop learns about one name returned by `os.listdir`: whether its joined path
      is a regular file, its size, and its two timestamps already rendered as
      `%Y-%m-%d %H:%M:%S` text. */
  datatype DirEntry = DirEntry(name: string, isFile: bool, size: nat, created: string, modified: string)

  /** One row of the listing. */
  datatype FileInfo = FileInfo(name: string, sizeBytes: nat, sizeFormatted: string,
                               createdDate: string, modifiedDate: string, downloadUrl: string)

  /** The row the loop builds for a regular file; `quote` is `urllib.parse.quote`. */
  function InfoOf(e: DirEntry, quote: string -> string): (f: FileInfo)
    ensures f.name == e.name && f.sizeBytes == e.size && f.modifiedDate == e.modified
    ensures StartsWith(f.downloadUrl, "/download/") && f.downloadUrl[|f.downloadUrl| - 1] == '/'
  {
    FileInfo(e.name, e.size, FormatFileSize(e.size), e.created, e.modified,
             "/download/" + quote(e.name) + "/")
  }

  /** The rows the loop has appended after visiting `entries`, in visiting order:
      one per regular file, none for anything else. */
  function Collected(entries: seq<DirEntry>, quote: string -> string): (files: seq<FileInfo>)
    ensures |files| <= |entries|
  {
    if entries == [] then []
    else
      var last := entries[|entries| - 1];
      var prefix := Collected(entries[..|entries| - 1], quote);
      if last.isFile then prefix + [InfoOf(last, quote)] else prefix
  }

  /** Every row comes from a regular file. */
  lemma {:induction false} CollectedSound(entries: seq<DirEntry>, quote: string -> string, f: FileInfo)
    requires f in Collected(entries, quote)
    ensures exists k :: 0 <= k < |entries| && entries[k].isFile && f == InfoOf(entries[k], quote)
    decreases |entries|
  {
    var prefix := entries[..|entries| - 1];
    if f in Collected(prefix, quote) {
      CollectedSound(prefix, quote, f);
      var k :| 0 <= k < |prefix| && prefix[k].isFile && f == InfoOf(prefix[k], quote);
      assert entries[k] == prefix[k];
    } else {
      assert entries[|entries| - 1].isFile && f == InfoOf(entries[|entries| - 1], quote);
    }
  }

  /** How many of the entries are regular files. */
  function FileCount(entries: seq<DirEntry>): nat
  {
    if entries == [] then 0
    else FileCount(entries[..|entries| - 1]) + (if entries[|entries| - 1].isFile then 1 else 0)
  }

  /** Every regular file gets exactly one row, and nothing else does. */
  lemma {:induction false} CollectedCounts(entries: seq<DirEntry>, quote: string -> string)
    ensures |Collected(entries, quote)| == FileCount(entries)
    decreases |entries|
  {
    if entries != [] {
      CollectedCounts(entries[..|entries| - 1], quote);
    }
  }

  /** Every regular file is listed. */
  lemma {:induction false} CollectedComplete(entries: seq<DirEntry>, quote: string -> string, k: int)
    requires 0 <= k < |entries| && entries[k].isFile
    ensures InfoOf(entries[k], quote) in Collected(entries, quote)
    decreases |entries|
  {
    if k < |entries| - 1 {
      CollectedComplete(entries[..|entries| - 1], quote, k);
    }
  }

  /** Newest first: no row has an earlier modification text than a row after it. */
  predicate NewestFirst(files: seq<FileInfo>)
  {
    forall i, j :: 0 <= i < j < |files| ==> !StrLess(files[i].modifiedDate, files[j].modifiedDate)
  }

  /** Places `x` before the first row whose modification text is not later than its own. */
  function Insert(x: FileInfo, files: seq<FileInfo>): (r: seq<FileInfo>)
    ensures |r| == |files| + 1 && multiset(r) == multiset(files) + multiset{x}
  {
    if files == [] || !StrLess(x.modifiedDate, files[0].modifiedDate) then [x] + files
    else
      assert files == [files[0]] + files[1..];
      [files[0]] + Insert(x, files[1..])
  }

  /** `files.sort(key=lambda x: x["modified_date"], reverse=True)`: a stable sort,
      latest text first. */
  function SortNewestFirst(files: seq<FileInfo>): (r: seq<FileInfo>)
    ensures |r| == |files| && multiset(r) == multiset(files)
  {
    if files == [] then []
    else
      assert files == [files[0]] + files[1..];
      Insert(files[0], SortNewestFirst(files[1..]))
  }

  /** A row placed in front of a newest-first list whose head it is not earlier than is
      not earlier than any of its rows. */
  lemma FrontNotEarlier(x: FileInfo, files: seq<FileInfo>)
    requires NewestFirst(files)
    requires files == [] || !StrLess(x.modifiedDate, files[0].modifiedDate)
    ensures forall j :: 0 <= j < |files| ==> !StrLess(x.modifiedDate, files[j].modifiedDate)
  {
    forall j | 1 <= j < |files| ensures !StrLess(x.modifiedDate, files[j].modifiedDate) {
      AtLeastTransitive(x.modifiedDate, files[0].modifiedDate, files[j].modifiedDate);
    }
  }

  /** The head of a newest-first list is not earlier than any row of the rest with `x`
      inserted, when `x` itself is earlier than the head. */
  lemma HeadNotEarlier(x: FileInfo, files: seq<FileInfo>)
    requires files != [] && NewestFirst(files)
    requires StrLess(x.modifiedDate, files[0].modifiedDate)
    ensures forall j :: 0 <= j < |Insert(x, files[1..])| ==>
              !StrLess(files[0].modifiedDate, Insert(x, files[1..])[j].modifiedDate)
  {
    var rest := Insert(x, files[1..]);
    StrLessAsymmetric(x.modifiedDate, files[0].modifiedDate);
    forall j | 0 <= j < |rest| ensures !StrLess(files[0].modifiedDate, rest[j].modifiedDate) {
      assert rest[j] in multiset(rest);
      if rest[j] != x {
        assert rest[j] in multiset(files[1..]);
        var k :| 0 <= k < |files[1..]| && files[1..][k] == rest[j];
        assert files[k + 1] == rest[j];
      }
    }
  }

  /** A row not earlier than any row of a newest-first list can go in front of it. */
  lemma ConsKeepsOrder(h: FileInfo, rest: seq<FileInfo>)
    requires NewestFirst(rest)
    requires forall j :: 0 <= j < |rest| ==> !StrLess(h.modifiedDate, rest[j].modifiedDate)
    ensures NewestFirst([h] + rest)
  {
    var r := [h] + rest;
    forall i, j | 0 <= i < j < |r| ensures !StrLess(r[i].modifiedDate, r[j].modifiedDate) {
      assert r[j] == rest[j - 1];
      if i > 0 {
        assert r[i] == rest[i - 1];
      }
    }
  }

  /** Inserting into a newest-first list keeps it newest first. */
  lemma {:induction false} InsertKeepsOrder(x: FileInfo, files: seq<FileInfo>)
    requires NewestFirst(files)
    ensures NewestFirst(Insert(x, files))
    decreases |files|
  {
    if files == [] || !StrLess(x.modifiedDate, files[0].modifiedDate) {
      FrontNotEarlier(x, files);
      ConsKeepsOrder(x, files);
      assert Insert(x, files) == [x] + files;
    } else {
      InsertKeepsOrder(x, files[1..]);
      HeadNotEarlier(x, files);
      ConsKeepsOrder(files[0], Insert(x, files[1..]));
      assert Insert(x, files) == [files[0]] + Insert(x, files[1..]);
    }
  }

  /** The sort orders the rows newest first. */
  lemma {:induction false} SortOrders(files: seq<FileInfo>)
    ensures NewestFirst(SortNewestFirst(files))
    decreases |files|
  {
    if files != [] {
      SortOrders(files[1..]);
      InsertKeepsOrder(files[0], SortNewestFirst(files[1..]));
    }
  }

  /** The rows of `x` with modification text `key`: `x` itself or nothing. */
  function Own(x: FileInfo, key: string): seq<FileInfo>
  {
    if x.modifiedDate == key then [x] else []
  }

  /** The rows with modification text `key`, in order. */
  function WithKey(files: seq<FileInfo>, key: string): seq<FileInfo>
  {
    if files == [] then [] else Own(files[0], key) + WithKey(files[1..], key)
  }

  lemma WithKeyCons(y: FileInfo, files: seq<FileInfo>, key: string)
    ensures WithKey([y] + files, key) == Own(y, key) + WithKey(files, key)
  {
    assert ([y] + files)[1..] == files;
  }

  /** Moving an empty piece across another changes nothing. */
  lemma SwapEmpty(a: seq<FileInfo>, b: seq<FileInfo>, t: seq<FileInfo>)
    requires a == [] || b == []
    ensures a + (b + t) == b + (a + t)
  {
  }

  /** One step of `InsertWithKey` where `x` moves past the first row. */
  lemma InsertPastFirst(x: FileInfo, files: seq<FileInfo>, key: string)
    requires files != [] && StrLess(x.modifiedDate, files[0].modifiedDate)
    requires WithKey(Insert(x, files[1..]), key) == Own(x, key) + WithKey(files[1..], key)
    ensures WithKey(Insert(x, files), key) == Own(x, key) + WithKey(files, key)
  {
    var first := files[0];
    var tail := WithKey(files[1..], key);
    assert WithKey(files, key) == Own(first, key) + tail;
    assert WithKey(Insert(x, files), key) == Own(first, key) + (Own(x, key) + tail) by {
      assert Insert(x, files) == [first] + Insert(x, files[1..]);
      WithKeyCons(first, Insert(x, files[1..]), key);
    }
    assert first.modifiedDate != x.modifiedDate by {
      StrLessIrreflexive(x.modifiedDate);
    }
    SwapEmpty(Own(first, key), Own(x, key), tail);
  }

  lemma {:induction false} InsertWithKey(x: FileInfo, files: seq<FileInfo>, key: string)
    ensures WithKey(Insert(x, files), key) == Own(x, key) + WithKey(files, key)
    decreases |files|
  {
    if files != [] && StrLess(x.modifiedDate, files[0].modifiedDate) {
      InsertWithKey(x, files[1..], key);
      InsertPastFirst(x, files, key);
    } else {
      assert Insert(x, files) == [x] + files;
      assert ([x] + files)[1..] == files;
    }
  }

  /** The sort is stable: rows with the same modification text keep their order. */
  lemma {:induction false} SortStable(files: seq<FileInfo>, key: string)
    ensures WithKey(SortNewestFirst(files), key) == WithKey(files, key)
    decreases |files|
  {
    if files != [] {
      SortStable(files[1..], key);
      InsertWithKey(files[0], SortNewestFirst(files[1..]), key);
    }
  }

  /** What `os.listdir` gave: the entries, or the message of the error it raised. */
  datatype Directory = Listed(entries: seq<DirEntry>) | Unreadable(message: string)

  /** The JSON answer of `list_files`. */
  datatype Listing =
    | FileList(message: string, totalFiles: nat, files: seq<FileInfo>)
    | ListError(code: int, error: string)

  const ListedMessage := "文件列表获取成功"
  const ListErrorPrefix := "获取文件列表失败: "

  /** `list_files`: appends a row per regular file, sorts newest first, and reports the count. */
  method ListFiles(dir: Directory, quote: string -> string) returns (listing: Listing)
    ensures dir.Unreadable? ==> listing == ListError(500, ListErrorPrefix + dir.message)
    ensures dir.Listed? ==> listing.FileList? && listing.message == ListedMessage &&
                            listing.files == SortNewestFirst(Collected(dir.entries, quote)) &&
                            listing.totalFiles == FileCount(dir.entries)
    ensures dir.Listed? ==> NewestFirst(listing.files) &&
                            multiset(listing.files) == multiset(Collected(dir.entries, quote))
  {
    if dir.Unreadable? {
      return ListError(500, ListErrorPrefix + dir.message);
    }
    var entries := dir.entries;
    var files: seq<FileInfo> := [];
    for i := 0 to |entries|
      invariant files == Collected(entries[..i], quote)
    {
      assert entries[..i + 1][..i] == entries[..i];
      var e := entries[i];
      if e.isFile {
        files := files + [InfoOf(e, quote)];
      }
    }
    assert entries[..|entries|] == entries;
    files := SortNewestFirst(files);
    SortOrders(Collected(entries, quote));
    CollectedCounts(entries, quote);
    listing := FileList(ListedMessage, |files|, files);
  }

  /** An empty folder lists no files. */
  lemma EmptyFolder(quote: string -> string)
    ensures SortNewestFirst(Collected([], quote)) == [] && FileCount([]) == 0
  {
  }

  /* ---------- download_file ---------- */

  /** The guard of `download_file`: no `..` anywhere and no leading `/`. */
  predicate IsSafeFilename(name: string)
  {
    !Contains(name, "..") && !StartsWith(name, "/")
  }

  /** What `download_file` answers. */
  datatype FileResponse =
    | Attachment(path: string, disposition: string)
    | NotServed(code: int, error: string)

  /** The answer once a name has been decoded: the file if the joined path is a regular
      file (`files` holds the paths for which `exists` and `isfile` both hold), else 404. */
  function Serve(folder: string, decoded: string, files: set<string>): (r: FileResponse)
    ensures r.Attachment? <==> PathJoin(folder, decoded) in files
    ensures r.Attachment? ==> r.path == PathJoin(folder, decoded) &&
                              r.disposition == "attachment; filename=\"" + decoded + "\""
    ensures r.NotServed? ==> r == NotServed(404, "File not found")
  {
    var path := PathJoin(folder, decoded);
    if path in files then Attachment(path, "attachment; filename=\"" + decoded + "\"")
    else NotServed(404, "File not found")
  }

  /** `download_file` as written: the guard looks at `filename` as routed, and only
      afterwards is it percent-decoded and joined to the folder. */
  function DownloadFileAsWritten(folder: string, filename: string, files: set<string>): (r: FileResponse)
    ensures r == NotServed(400, "Invalid filename") <==> !IsSafeFilename(filename)
    ensures IsSafeFilename(filename) ==> r == Serve(folder, Unquote(filename), files)
  {
    if !IsSafeFilename(filename) then NotServed(400, "Invalid filename")
    else Serve(folder, Unquote(filename), files)
  }

  /** A path that names something strictly below `folder` without a parent step. */
  predicate Inside(folder: string, path: string)
  {
    StartsWith(path, folder + "/") && !Contains(path[|folder| + 1..], "..")
  }

  /** A name that is safe and left unchanged by decoding lands strictly below the folder. */
  lemma SafeNameInside(folder: string, name: string)
    requires folder != [] && folder[|folder| - 1] != '/'
    requires IsSafeFilename(name)
    ensures Inside(folder, PathJoin(folder, name))
  {
    var p := PathJoin(folder, name);
    assert p == folder + "/" + name;
    assert p[..|folder| + 1] == folder + "/";
    assert p[|folder| + 1..] == name;
  }

  /** For names without `%`, the guard as written does its job. */
  lemma PlainNamesServedInside(folder: string, filename: string, files: set<string>)
    requires folder != [] && folder[|folder| - 1] != '/'
    requires forall k :: 0 <= k < |filename| ==> filename[k] != '%'
    ensures var r := DownloadFileAsWritten(folder, filename, files);
            r.Attachment? ==> Inside(folder, r.path)
  {
    if IsSafeFilename(filename) {
      UnquotePlain(filename);
      SafeNameInside(folder, filename);
    }
  }

  /** Two names without `%`, each behind an encoded `/`, decode to an absolute path. */
  lemma DecodeEncodedSlashes(dir: string, name: string)
    requires forall k :: 0 <= k < |dir| ==> dir[k] != '%'
    requires forall k :: 0 <= k < |name| ==> name[k] != '%'
    ensures Unquote(Escape('/') + dir + Escape('/') + name) == "/" + dir + "/" + name
  {
    var slash := Escape('/');
    var tail := slash + name;
    var middle := dir + tail;
    UnquoteEscape('/', middle);
    UnquotePlainPrefix(dir, tail);
    UnquoteEscape('/', name);
    UnquotePlain(name);
    calc {
      Unquote(slash + dir + slash + name);
      { Regroup(slash, dir, slash, name); }
      Unquote(slash + middle);
      ['/'] + Unquote(middle);
      ['/'] + (dir + Unquote(tail));
      ['/'] + (dir + (['/'] + name));
      { Regroup(['/'], dir, ['/'], name); }
      "/" + dir + "/" + name;
    }
  }

  /** Concatenation regrouped to the right. */
  lemma Regroup(a: string, b: string, c: string, d: string)
    ensures a + b + c + d == a + (b + (c + d))
  {
  }

  /** The guard as written lets an encoded absolute path through: `%2f` + `dir` + `%2f` +
      `name`, with no `%` or `.` in the parts, has no `..` and no leading `/`, decodes to
      `/dir/name`, and `os.path.join` then discards the folder. */
  lemma EncodedPathEscapes(folder: string, dir: string, name: string, files: set<string>)
    requires forall k :: 0 <= k < |dir| ==> dir[k] != '%' && dir[k] != '.'
    requires forall k :: 0 <= k < |name| ==> name[k] != '%' && name[k] != '.'
    requires "/" + dir + "/" + name in files
    ensures var filename := Escape('/') + dir + Escape('/') + name;
            IsSafeFilename(filename) &&
            DownloadFileAsWritten(folder, filename, files) ==
              Attachment("/" + dir + "/" + name, "attachment; filename=\"" + Unquote(filename) + "\"")
  {
    var slash := Escape('/');
    var filename := slash + dir + slash + name;
    assert slash == "%2f";
    assert forall k :: 0 <= k < |filename| ==> filename[k] != '.' by {
      forall k | 0 <= k < |filename| ensures filename[k] != '.' {
        if k < 3 {
          assert filename[k] == slash[k];
        } else if k < 3 + |dir| {
          assert filename[k] == dir[k - 3];
        } else if k < 6 + |dir| {
          assert filename[k] == slash[k - 3 - |dir|];
        } else {
          assert filename[k] == name[k - 6 - |dir|];
        }
      }
    }
    ContainsChar(filename, "..", 0);
    assert filename[0] == '%';
    DecodeEncodedSlashes(dir, name);
    assert StartsWith(Unquote(filename), "/");
  }

  /** `%2fetc%2fpasswd`, requested from a folder `/srv/downloads`, is served from
      `/etc/passwd`, outside the folder. */
  lemma EtcPasswdEscapes(folder: string, dir: string, name: string, files: set<string>)
    requires folder == "/srv/downloads" && dir == "etc" && name == "passwd"
    requires "/" + dir + "/" + name in files
    ensures Escape('/') == "%2f"
    ensures var r := DownloadFileAsWritten(folder, Escape('/') + dir + Escape('/') + name, files);
            r.Attachment? && r.path == "/" + dir + "/" + name && !Inside(folder, r.path)
  {
    assert forall k :: 0 <= k < |dir| ==> dir[k] != '%' && dir[k] != '.';
    assert forall k :: 0 <= k < |name| ==> name[k] != '%' && name[k] != '.';
    EncodedPathEscapes(folder, dir, name, files);
    var path := "/" + dir + "/" + name;
    assert path[1] == 'e' && (folder + "/")[1] == 's';
  }

  /** `download_file` with the guard applied to the decoded name, as intended. */
  function DownloadFile(folder: string, filename: string, files: set<string>): (r: FileResponse)
    ensures r == NotServed(400, "Invalid filename") <==> !IsSafeFilename(Unquote(filename))
    ensures IsSafeFilename(Unquote(filename)) ==> r == Serve(folder, Unquote(filename), files)
  {
    var decoded := Unquote(filename);
    if !IsSafeFilename(decoded) then NotServed(400, "Invalid filename")
    else Serve(folder, decoded, files)
  }

  /** With the guard on the decoded name, every file served lies strictly below the folder. */
  lemma ServedInside(folder: string, filename: string, files: set<string>)
    requires folder != [] && folder[|folder| - 1] != '/'
    ensures var r := DownloadFile(folder, filename, files);
            r.Attachment? ==> Inside(folder, r.path)
  {
    if IsSafeFilename(Unquote(filename)) {
      SafeNameInside(folder, Unquote(filename));
    }
  }
}
