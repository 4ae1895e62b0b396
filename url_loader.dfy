/** `UrlLoader.load` (craftr/core/manifest.py): reuse the cached directory
    when its URL is still current, otherwise try the URL templates in order
    (a `file://` directory or archive, or a download), unpack an archive,
    and record the URL in a stamp file inside the directory. */
module UrlLoading {
  import opened Base
  import opened Json
  import opened Text
  import opened Paths
  import opened Archive

  /** A loader as declared in a manifest. */
  datatype LoaderDecl = LoaderDecl(name: string, urls: Json, unpackExclude: Json)

  /** What `httputils.download_file(url, on_exists='skip', ...)` does: raise
      `URLError` or `HTTPError`, or return the downloaded file and whether an
      earlier download was reused. A download that is not reused calls the
      progress callback for zero bytes first; `size` is the size it reports. */
  datatype Fetch = NetError | Fetched(filename: string, reused: bool, size: Option<int>)

  /** What `nr.misc.archive.extract` finds in an archive: the members with
      their contents, or a failure. */
  datatype Extraction = ExtractFailed | Extracted(members: seq<(string, string)>)

  /** The `LoaderContext` and the collaborators `load` calls.
      `expand` is `expand_variables` over the manifest's options;
      `hasTempDir` says whether `get_temporary_directory` returns (the base
      class raises `NotImplementedError`); `suffixOf` is the suffix
      `get_opener` recognises; `fnmatch` is `fnmatch.fnmatch`. */
  datatype LoaderContext = LoaderContext(
    installdir: string,
    expand: string -> string,
    hasTempDir: bool,
    download: string -> Fetch,
    suffixOf: string -> Option<string>,
    extract: (string, string) -> Extraction,
    fnmatch: (string, string) -> bool)

  /** The exceptions `load` raises or lets through. */
  datatype LoadFault =
    | LoaderError(loader: string, message: string)
    | TemplateNotString(template: Json)
    | UrlsNotIterable
    | NoTemporaryDirectory
    | ArchiveRaised(fault: ArchiveFault)
    | ExtractionFailed(archive: string)
    | StampNotWritable(path: string)

  /** `str(LoaderError)`: the loader's name and the message. */
  function FaultText(e: LoadFault): (t: string)
    requires e.LoaderError?
    ensures t == e.loader + ": " + e.message
  {
    e.loader + ": " + e.message
  }

  /** The local variables of the scan: `directory` and `archive` (the empty
      string stands for `None`; both are falsy), and the last `url` and
      `url_template` the loop bound. */
  datatype Scan = Scan(directory: string, archive: string, url: Option<string>, template: Option<string>)

  const Unscanned := Scan("", "", None, None)

  /** The URL the scan stopped at is the expansion of the template bound
      with it, and a directory or archive is only found together with one. */
  predicate Consistent(ctx: LoaderContext, st: Scan) {
    && (st.url.Some? <==> st.template.Some?)
    && (st.url.Some? ==> st.url.value == ctx.expand(st.template.value))
    && (st.directory != "" || st.archive != "" ==> st.url.Some?)
  }

  /** One iteration of the loop over the URL templates: the new locals and
      whether the loop breaks. A `DownloadAlreadyExists` sets `directory`
      but does not break. */
  function Candidate(ctx: LoaderContext, fs: Tree, st: Scan, t: Json): (r: Result<(Scan, bool), LoadFault>)
    requires Consistent(ctx, st)
    ensures r.Ok? ==> Consistent(ctx, r.value.0)
    ensures r.Ok? ==> t.JStr? && r.value.0.template == Some(t.s) && r.value.0.url == Some(ctx.expand(t.s))
    ensures t.JStr? && ctx.expand(t.s) == "" ==> r == Ok((st.(url := Some(""), template := Some(t.s)), false))
  {
    if !t.JStr? then Err(TemplateNotString(t))
    else
      var url := ctx.expand(t.s);
      var next := st.(url := Some(url), template := Some(t.s));
      if url == "" then Ok((next, false))
      else if StartsWith(url, "file://") then
        var name := url[7..];
        if IsDir(fs, name) then Ok((next.(directory := name), true))
        else if IsFile(fs, name) then Ok((next.(archive := name), true))
        else Ok((next, false))
      else if !ctx.hasTempDir then Err(NoTemporaryDirectory)
      else match ctx.download(url)
        case NetError => Ok((next, false))
        case Fetched(filename, reused, size) =>
          if reused then Ok((next.(archive := filename), true))
          else match DownloadProgress(url, DownloadData(size, 0, false, filename), ctx.installdir, ctx.suffixOf, fs)
            case Ok(_) => Ok((next.(archive := filename), true))
            case Err(AlreadyExists(d)) => Ok((next.(directory := d), false))
            case Err(Raised(f)) => Err(ArchiveRaised(f))
  }

  /** The loop from template `i` on. */
  function ScanFrom(ctx: LoaderContext, fs: Tree, items: seq<Json>, i: nat, st: Scan): (r: Result<Scan, LoadFault>)
    requires i <= |items| && Consistent(ctx, st)
    ensures r.Ok? ==> Consistent(ctx, r.value)
    decreases |items| - i
  {
    if i == |items| then Ok(st)
    else match Candidate(ctx, fs, st, items[i])
      case Err(e) => Err(e)
      case Ok(step) => if step.1 then Ok(step.0) else ScanFrom(ctx, fs, items, i + 1, step.0)
  }

  /** `extract` writing the members `check_extract_file` keeps, from member
      `j` on; the fault of the first member it raises for, if any. */
  function UnpackFrom(tree: Tree, d: string, members: seq<(string, string)>, j: nat, exclude: Json, fnmatch: (string, string) -> bool): (r: (Tree, Option<ArchiveFault>))
    requires j <= |members|
    ensures tree.Keys <= r.0.Keys
    ensures forall p :: p in r.0 && p !in tree ==>
      exists k :: j <= k < |members| && p == JoinPath(d, members[k].0) && CheckExtractFile(exclude, members[k].0, fnmatch) == Ok(true)
    decreases |members| - j
  {
    if j == |members| then (tree, None)
    else match CheckExtractFile(exclude, members[j].0, fnmatch)
      case Err(f) => (tree, Some(f))
      case Ok(keep) =>
        var next := if keep then tree[JoinPath(d, members[j].0) := File(members[j].1)] else tree;
        UnpackFrom(next, d, members, j + 1, exclude, fnmatch)
  }

  /** The cached directory still exists and its template expands to the
      cached URL. */
  predicate CacheHit(ctx: LoaderContext, cache: map<string, string>, fs: Tree) {
    var dir := if "directory" in cache then cache["directory"] else "";
    var template := if "url_template" in cache then cache["url_template"] else "";
    IsDir(fs, dir) && "url" in cache && ctx.expand(template) == cache["url"]
  }

  /** The returned dictionary, the value `self.directory` is set to (`None`
      when `load` leaves it alone) and the file system afterwards. */
  datatype LoadOutcome = LoadOutcome(result: Result<map<string, string>, LoadFault>, directory: Option<string>, tree: Tree)

  /** `open(path.join(directory, '.craftr_downloadurl'), 'w')` needs an
      existing parent directory and a path that is not a directory. */
  predicate StampWritable(fs: Tree, d: string) {
    var stamp := JoinPath(d, StampName);
    (d == "" || IsDir(fs, d)) && !(stamp in fs && fs[stamp].Dir?)
  }

  function Record(d: string, st: Scan): map<string, string>
    requires st.url.Some? && st.template.Some?
  {
    map["directory" := d, "url_template" := st.template.value, "url" := st.url.value]
  }

  /** The tail of `load`: `self.directory` is set, the stamp written and the
      record returned. */
  function Stamp(fs: Tree, d: string, st: Scan): LoadOutcome
    requires st.url.Some? && st.template.Some?
  {
    if StampWritable(fs, d) then
      LoadOutcome(Ok(Record(d, st)), Some(d), fs[JoinPath(d, StampName) := File(st.url.value)])
    else LoadOutcome(Err(StampNotWritable(JoinPath(d, StampName))), Some(d), fs)
  }

  /** What follows the loop: unpack an archive when no directory was found,
      fail when neither was, then stamp. */
  function Finish(decl: LoaderDecl, ctx: LoaderContext, fs: Tree, st: Scan): LoadOutcome
    requires Consistent(ctx, st)
  {
    if st.directory == "" && st.archive != "" then
      match UnpackInfo(ctx.installdir, st.archive, ctx.suffixOf)
      case Err(f) => LoadOutcome(Err(ArchiveRaised(f)), None, fs)
      case Ok(info) =>
        match ctx.extract(st.archive, info.1)
        case ExtractFailed => LoadOutcome(Err(ExtractionFailed(st.archive)), None, fs)
        case Extracted(members) =>
          var unpacked := UnpackFrom(fs[info.1 := Dir], info.1, members, 0, decl.unpackExclude, ctx.fnmatch);
          if unpacked.1.Some? then LoadOutcome(Err(ArchiveRaised(unpacked.1.value)), None, unpacked.0)
          else Stamp(unpacked.0, info.1, st)
    else if st.directory == "" then LoadOutcome(Err(LoaderError(decl.name, "no URL matched")), None, fs)
    else Stamp(fs, st.directory, st)
  }

  /** `UrlLoader.load(context, cache)`. */
  function LoadSpec(decl: LoaderDecl, ctx: LoaderContext, cache: Option<map<string, string>>, fs: Tree): LoadOutcome {
    if cache.Some? && CacheHit(ctx, cache.value, fs) then
      LoadOutcome(Ok(cache.value), Some(cache.value["directory"]), fs)
    else match Iterate(decl.urls)
      case None => LoadOutcome(Err(UrlsNotIterable), None, fs)
      case Some(items) =>
        match ScanFrom(ctx, fs, items, 0, Unscanned)
        case Err(e) => LoadOutcome(Err(e), None, fs)
        case Ok(st) => Finish(decl, ctx, fs, st)
  }

  /** A cache whose directory exists and whose template still expands to
      its URL is returned as it is, and nothing is written. */
  lemma CacheReuse(decl: LoaderDecl, ctx: LoaderContext, cache: map<string, string>, fs: Tree)
    requires "directory" in cache && IsDir(fs, cache["directory"])
    requires "url" in cache
    requires ctx.expand(if "url_template" in cache then cache["url_template"] else "") == cache["url"]
    ensures LoadSpec(decl, ctx, Some(cache), fs) == LoadOutcome(Ok(cache), Some(cache["directory"]), fs)
  {
  }

  /** The stamp path lies inside the directory and differs from it. */
  lemma StampInside(d: string)
    ensures JoinPath(d, StampName) != d
  {
    assert |JoinPath(d, StampName)| > |d|;
  }

  lemma JoinPathNonEmpty(a: string, b: string)
    requires a != ""
    ensures JoinPath(a, b) != ""
  {
  }

  /** A successful stamp leaves the directory in place with the stamp
      holding the URL. */
  lemma StampOk(fs: Tree, d: string, st: Scan)
    requires st.url.Some? && st.template.Some? && d != ""
    requires Stamp(fs, d, st).result.Ok?
    ensures var o := Stamp(fs, d, st);
      && o.result.value == Record(d, st) && o.result.value["directory"] == d
      && o.directory == Some(d)
      && IsDir(o.tree, d)
      && JoinPath(d, StampName) in o.tree && o.tree[JoinPath(d, StampName)] == File(st.url.value)
  {
    StampInside(d);
  }

  /** A successful `Finish` ends by stamping a non-empty directory: the
      found one, or the one the archive was unpacked to. */
  lemma FinishStamps(decl: LoaderDecl, ctx: LoaderContext, fs: Tree, st: Scan)
    requires Consistent(ctx, st) && ctx.installdir != ""
    requires Finish(decl, ctx, fs, st).result.Ok?
    ensures exists t: Tree, d: string :: d != "" && Finish(decl, ctx, fs, st) == Stamp(t, d, st)
  {
    if st.directory == "" {
      var info := UnpackInfo(ctx.installdir, st.archive, ctx.suffixOf).value;
      JoinPathNonEmpty(ctx.installdir, DropLast(Basename(st.archive), |info.0|));
      var unpacked := UnpackFrom(fs[info.1 := Dir], info.1, ctx.extract(st.archive, info.1).members, 0, decl.unpackExclude, ctx.fnmatch);
      assert Finish(decl, ctx, fs, st) == Stamp(unpacked.0, info.1, st);
    } else {
      assert Finish(decl, ctx, fs, st) == Stamp(fs, st.directory, st);
    }
  }

  /** The record a successful load returns is a valid cache for the same
      options: loading again with it reuses the directory and changes
      nothing. */
  lemma SecondLoadReuses(decl: LoaderDecl, ctx: LoaderContext, cache: Option<map<string, string>>, fs: Tree)
    requires ctx.installdir != ""
    requires LoadSpec(decl, ctx, cache, fs).result.Ok?
    ensures var o := LoadSpec(decl, ctx, cache, fs);
      && "directory" in o.result.value
      && LoadSpec(decl, ctx, Some(o.result.value), o.tree) == LoadOutcome(o.result, Some(o.result.value["directory"]), o.tree)
  {
    var o := LoadSpec(decl, ctx, cache, fs);
    LoadLeavesValidCache(decl, ctx, cache, fs);
    CacheReuse(decl, ctx, o.result.value, o.tree);
  }

  /** After a successful load the returned record is a cache hit. */
  lemma LoadLeavesValidCache(decl: LoaderDecl, ctx: LoaderContext, cache: Option<map<string, string>>, fs: Tree)
    requires ctx.installdir != ""
    requires LoadSpec(decl, ctx, cache, fs).result.Ok?
    ensures var o := LoadSpec(decl, ctx, cache, fs);
      CacheHit(ctx, o.result.value, o.tree)
  {
    if !(cache.Some? && CacheHit(ctx, cache.value, fs)) {
      var items := Iterate(decl.urls).value;
      var st := ScanFrom(ctx, fs, items, 0, Unscanned).value;
      assert LoadSpec(decl, ctx, cache, fs) == Finish(decl, ctx, fs, st);
      FinishStamps(decl, ctx, fs, st);
      var t, d :| d != "" && Finish(decl, ctx, fs, st) == Stamp(t, d, st);
      StampOk(t, d, st);
    }
  }

  /** A stamp written by a load records the URL the directory was found
      by; when that URL has no surrounding whitespace, a later download of
      the same URL into the same directory sees it (`DownloadAlreadyExists`). */
  lemma StampRecordsUrl(decl: LoaderDecl, ctx: LoaderContext, fs: Tree)
    requires ctx.installdir != ""
    requires LoadSpec(decl, ctx, None, fs).result.Ok?
    ensures var o := LoadSpec(decl, ctx, None, fs);
      var rec := o.result.value;
      && "directory" in rec && "url" in rec && "url_template" in rec
      && JoinPath(rec["directory"], StampName) in o.tree
      && o.tree[JoinPath(rec["directory"], StampName)] == File(rec["url"])
      && rec["url"] == ctx.expand(rec["url_template"])
      && (Strip(rec["url"]) == rec["url"] ==> StampMatches(o.tree, rec["directory"], rec["url"]))
  {
    var items := Iterate(decl.urls).value;
    var st := ScanFrom(ctx, fs, items, 0, Unscanned).value;
    assert LoadSpec(decl, ctx, None, fs) == Finish(decl, ctx, fs, st);
    FinishStamps(decl, ctx, fs, st);
    var t, d :| d != "" && Finish(decl, ctx, fs, st) == Stamp(t, d, st);
    StampOk(t, d, st);
  }

  /** A template the scan passes over: it expands to nothing, to a
      `file://` path that is neither a directory nor a file, or to a URL
      whose download fails. */
  predicate PassedOver(ctx: LoaderContext, fs: Tree, t: Json) {
    t.JStr? &&
    var u := ctx.expand(t.s);
    || u == ""
    || (StartsWith(u, "file://") && !IsDir(fs, u[7..]) && !IsFile(fs, u[7..]))
    || (!StartsWith(u, "file://") && ctx.hasTempDir && ctx.download(u) == NetError)
  }

  /** A template that names an existing directory. */
  predicate NamesDirectory(ctx: LoaderContext, fs: Tree, t: Json) {
    t.JStr? && StartsWith(ctx.expand(t.s), "file://") && IsDir(fs, ctx.expand(t.s)[7..])
  }

  lemma {:induction false} ScanToDirectory(ctx: LoaderContext, fs: Tree, items: seq<Json>, i: nat, k: nat, st: Scan)
    requires i <= k < |items| && Consistent(ctx, st) && st.directory == "" && st.archive == ""
    requires forall j :: i <= j < k ==> PassedOver(ctx, fs, items[j])
    requires NamesDirectory(ctx, fs, items[k])
    ensures ScanFrom(ctx, fs, items, i, st) == Ok(Scan(ctx.expand(items[k].s)[7..], "", Some(ctx.expand(items[k].s)), Some(items[k].s)))
    decreases k - i
  {
    if i < k {
      var c := Candidate(ctx, fs, st, items[i]);
      assert PassedOver(ctx, fs, items[i]);
      assert c.Ok? && !c.value.1 && c.value.0.directory == "" && c.value.0.archive == "";
      ScanToDirectory(ctx, fs, items, i + 1, k, c.value.0);
    }
  }

  /** The templates are tried in order: when every template before the
      `k`-th is passed over and the `k`-th names a directory, that directory
      is used and stamped with its URL. */
  lemma FirstDirectoryWins(name: string, items: seq<Json>, exclude: Json, ctx: LoaderContext, fs: Tree, k: nat)
    requires k < |items|
    requires forall j :: 0 <= j < k ==> PassedOver(ctx, fs, items[j])
    requires NamesDirectory(ctx, fs, items[k])
    requires StampWritable(fs, ctx.expand(items[k].s)[7..])
    ensures var url := ctx.expand(items[k].s);
      LoadSpec(LoaderDecl(name, JArr(items), exclude), ctx, None, fs) ==
        LoadOutcome(Ok(map["directory" := url[7..], "url_template" := items[k].s, "url" := url]), Some(url[7..]),
          fs[JoinPath(url[7..], StampName) := File(url)])
  {
    ScanToDirectory(ctx, fs, items, 0, k, Unscanned);
  }

  lemma {:induction false} ScanNothing(ctx: LoaderContext, fs: Tree, items: seq<Json>, i: nat, st: Scan)
    requires i <= |items| && Consistent(ctx, st) && st.directory == "" && st.archive == ""
    requires forall j :: i <= j < |items| ==> PassedOver(ctx, fs, items[j])
    ensures ScanFrom(ctx, fs, items, i, st).Ok?
    ensures ScanFrom(ctx, fs, items, i, st).value.directory == ""
    ensures ScanFrom(ctx, fs, items, i, st).value.archive == ""
    decreases |items| - i
  {
    if i < |items| {
      var c := Candidate(ctx, fs, st, items[i]);
      assert PassedOver(ctx, fs, items[i]);
      assert c.Ok? && !c.value.1 && c.value.0.directory == "" && c.value.0.archive == "";
      ScanNothing(ctx, fs, items, i + 1, c.value.0);
    }
  }

  /** When every template is passed over (an empty list included), `load`
      raises `LoaderError(self, 'no URL matched')` and writes nothing. */
  lemma NoUrlMatched(name: string, items: seq<Json>, exclude: Json, ctx: LoaderContext, fs: Tree)
    requires forall j :: 0 <= j < |items| ==> PassedOver(ctx, fs, items[j])
    ensures LoadSpec(LoaderDecl(name, JArr(items), exclude), ctx, None, fs) ==
      LoadOutcome(Err(LoaderError(name, "no URL matched")), None, fs)
  {
    ScanNothing(ctx, fs, items, 0, Unscanned);
  }

  /** `DownloadAlreadyExists` does not end the scan. When the first URL's
      directory already exists and the second URL is then downloaded, the
      loop stops with both `directory` and `archive` set: the new archive is
      never unpacked, and the existing directory is stamped with the second
      URL. */
  lemma AlreadyExistsDoesNotStop(name: string, a: string, b: string, exclude: Json, ctx: LoaderContext, fs: Tree, d: string, fa: string, sa: Option<int>, fb: string, sb: Option<int>)
    requires ctx.hasTempDir && d != ""
    requires var ua := ctx.expand(a); ua != "" && !StartsWith(ua, "file://") && ctx.download(ua) == Fetched(fa, false, sa)
    requires DownloadProgress(ctx.expand(a), DownloadData(sa, 0, false, fa), ctx.installdir, ctx.suffixOf, fs) == Err(AlreadyExists(d))
    requires var ub := ctx.expand(b); ub != "" && !StartsWith(ub, "file://") && ctx.download(ub) == Fetched(fb, true, sb)
    requires StampWritable(fs, d)
    ensures var ub := ctx.expand(b);
      LoadSpec(LoaderDecl(name, JArr([JStr(a), JStr(b)]), exclude), ctx, None, fs) ==
        LoadOutcome(Ok(map["directory" := d, "url_template" := b, "url" := ub]), Some(d), fs[JoinPath(d, StampName) := File(ub)])
  {
    var items := [JStr(a), JStr(b)];
    var first := Candidate(ctx, fs, Unscanned, items[0]);
    assert first == Ok((Scan(d, "", Some(ctx.expand(a)), Some(a)), false));
    var second := Candidate(ctx, fs, first.value.0, items[1]);
    assert second == Ok((Scan(d, fb, Some(ctx.expand(b)), Some(b)), true));
    assert ScanFrom(ctx, fs, items, 0, Unscanned) == Ok(second.value.0);
  }

  /** The file system `load` reads and writes. */
  class FileSystem {
    var tree: Tree

    constructor (tree: Tree)
      ensures this.tree == tree
    {
      this.tree := tree;
    }
  }

  /** The loop of `load` over the URL templates. */
  method ScanTemplates(ctx: LoaderContext, fs: Tree, templates: seq<Json>) returns (r: Result<Scan, LoadFault>)
    ensures r == ScanFrom(ctx, fs, templates, 0, Unscanned)
  {
    var st := Unscanned;
    var i := 0;
    while i < |templates|
      invariant 0 <= i <= |templates|
      invariant Consistent(ctx, st)
      invariant ScanFrom(ctx, fs, templates, i, st) == ScanFrom(ctx, fs, templates, 0, Unscanned)
      decreases |templates| - i
    {
      var t := templates[i];
      if !t.JStr? {
        return Err(TemplateNotString(t));
      }
      var url := ctx.expand(t.s);
      st := st.(url := Some(url), template := Some(t.s));
      if url == "" {
        i := i + 1;
        continue;
      }
      if StartsWith(url, "file://") {
        var path := url[7..];
        if IsDir(fs, path) {
          return Ok(st.(directory := path));
        } else if IsFile(fs, path) {
          return Ok(st.(archive := path));
        }
      } else {
        if !ctx.hasTempDir {
          return Err(NoTemporaryDirectory);
        }
        var fetched := ctx.download(url);
        if fetched.Fetched? {
          if fetched.reused {
            return Ok(st.(archive := fetched.filename));
          }
          var signal := DownloadProgress(url, DownloadData(fetched.size, 0, false, fetched.filename), ctx.installdir, ctx.suffixOf, fs);
          if signal.Ok? {
            return Ok(st.(archive := fetched.filename));
          } else if signal.error.Raised? {
            return Err(ArchiveRaised(signal.error.fault));
          }
          st := st.(directory := signal.error.directory);
        }
      }
      i := i + 1;
    }
    return Ok(st);
  }

  /** `nr.misc.archive.extract` into `target`, asking `check_extract_file`
      about every member. */
  method Unpack(fs: FileSystem, target: string, members: seq<(string, string)>, exclude: Json, fnmatch: (string, string) -> bool) returns (fault: Option<ArchiveFault>)
    modifies fs
    ensures (fs.tree, fault) == UnpackFrom(old(fs.tree), target, members, 0, exclude, fnmatch)
  {
    ghost var unpacked := UnpackFrom(fs.tree, target, members, 0, exclude, fnmatch);
    var j := 0;
    while j < |members|
      invariant 0 <= j <= |members|
      invariant UnpackFrom(fs.tree, target, members, j, exclude, fnmatch) == unpacked
      decreases |members| - j
    {
      var keep := CheckExtractFile(exclude, members[j].0, fnmatch);
      if keep.Err? {
        return Some(keep.error);
      }
      if keep.value {
        fs.tree := fs.tree[JoinPath(target, members[j].0) := File(members[j].1)];
      }
      j := j + 1;
    }
    return None;
  }

  class UrlLoader {
    const name: string
    const urls: Json
    const unpackExclude: Json
    var directory: Option<string>

    /** `UrlLoader(name, urls, unpack_exclude)`: nothing is loaded yet. */
    constructor (name: string, urls: Json, unpackExclude: Json)
      ensures this.name == name && this.urls == urls && this.unpackExclude == unpackExclude
      ensures directory == None
    {
      this.name := name;
      this.urls := urls;
      this.unpackExclude := unpackExclude;
      directory := None;
    }

    function Decl(): LoaderDecl {
      LoaderDecl(name, urls, unpackExclude)
    }

    method Load(ctx: LoaderContext, cache: Option<map<string, string>>, fs: FileSystem) returns (r: Result<map<string, string>, LoadFault>)
      modifies this, fs
      ensures var o := LoadSpec(Decl(), ctx, cache, old(fs.tree));
        && r == o.result && fs.tree == o.tree
        && directory == (if o.directory.Some? then o.directory else old(directory))
    {
      if cache.Some? && CacheHit(ctx, cache.value, fs.tree) {
        directory := Some(cache.value["directory"]);
        return Ok(cache.value);
      }
      var items := Iterate(urls);
      if items.None? {
        return Err(UrlsNotIterable);
      }
      var scanned := ScanTemplates(ctx, fs.tree, items.value);
      if scanned.Err? {
        return Err(scanned.error);
      }
      r := Complete(ctx, scanned.value, fs);
    }

    /** What `load` does once the URLs are scanned, as `Finish` says. */
    method Complete(ctx: LoaderContext, st: Scan, fs: FileSystem) returns (r: Result<map<string, string>, LoadFault>)
      requires Consistent(ctx, st)
      modifies this, fs
      ensures var o := Finish(Decl(), ctx, old(fs.tree), st);
        && r == o.result && fs.tree == o.tree
        && directory == (if o.directory.Some? then o.directory else old(directory))
    {
      var d := st.directory;
      if d == "" && st.archive != "" {
        var info := UnpackInfo(ctx.installdir, st.archive, ctx.suffixOf);
        if info.Err? {
          return Err(ArchiveRaised(info.error));
        }
        var target := info.value.1;
        var extraction := ctx.extract(st.archive, target);
        if extraction.ExtractFailed? {
          return Err(ExtractionFailed(st.archive));
        }
        fs.tree := fs.tree[target := Dir];
        var fault := Unpack(fs, target, extraction.members, unpackExclude, ctx.fnmatch);
        if fault.Some? {
          return Err(ArchiveRaised(fault.value));
        }
        d := target;
      } else if d == "" {
        return Err(LoaderError(name, "no URL matched"));
      }
      directory := Some(d);
      var stamp := JoinPath(d, StampName);
      if !StampWritable(fs.tree, d) {
        return Err(StampNotWritable(stamp));
      }
      fs.tree := fs.tree[stamp := File(st.url.value)];
      return Ok(Record(d, st));
    }
  }
}
