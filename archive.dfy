/** The helpers `UrlLoader` hands to the download and extraction machinery
    (craftr/core/manifest.py, `_download_progress`,
    `_get_archive_unpack_info`, `_check_extract_file` and
    `_extract_progress`). What they send to the logger's progress bar is
    modelled as a sequence of `Progress` events. */
module Archive {
  import opened Base
  import opened Json
  import opened Text
  import opened Paths

  /** Name of the file, inside an unpacked directory, that records the URL
      the directory was loaded from. */
  const StampName: string := ".craftr_downloadurl"

  datatype ProgressText = Message(text: string) | Bytes(n: int) | Percent(p: int) | OfCount(index: int, count: int)

  /** `logger.progress_begin`, `logger.progress_update` and
      `logger.progress_end`. */
  datatype Progress =
    | Begin(title: Option<string>, spinning: bool)
    | Update(fraction: Option<real>, text: ProgressText)
    | End

  /** The exceptions these helpers raise or let through: `get_opener` does
      not know the archive type, a division by zero, an exclude list that is
      not iterable, an exclude pattern that is not a `str`. */
  datatype ArchiveFault = UnknownArchive(archive: string) | DivisionByZero | ExcludeNotIterable | PatternNotString(pattern: Json)

  /** Python's `s[:-n]` for `n >= 0`: everything but the last `n`
      characters, and the empty string when `n` is 0. */
  function DropLast(s: string, n: nat): (r: string)
    ensures n == 0 ==> r == ""
    ensures 0 < n <= |s| ==> s == r + s[|s| - n..]
    ensures n > |s| ==> r == ""
  {
    if n == 0 || n > |s| then "" else s[..|s| - n]
  }

  /** `_get_archive_unpack_info(context, archive)`: the archive suffix that
      `get_opener` (the parameter `suffixOf`) recognises, and the directory
      under `installdir` named after the archive without that suffix. */
  function UnpackInfo(installdir: string, archive: string, suffixOf: string -> Option<string>): (r: Result<(string, string), ArchiveFault>)
    ensures r.Err? <==> suffixOf(archive).None?
    ensures r.Err? ==> r.error == UnknownArchive(archive)
    ensures r.Ok? ==> r.value.0 == suffixOf(archive).value
  {
    match suffixOf(archive)
    case None => Err(UnknownArchive(archive))
    case Some(suffix) =>
      var filename := DropLast(Basename(archive), |suffix|);
      Ok((suffix, JoinPath(installdir, filename)))
  }

  /** For a recognised suffix the directory is the install directory plus
      one component: the archive's file name without its suffix. */
  lemma UnpackDirectoryName(installdir: string, archive: string, suffixOf: string -> Option<string>)
    requires suffixOf(archive).Some? && suffixOf(archive).value != ""
    requires EndsWith(Basename(archive), suffixOf(archive).value)
    requires Basename(archive) != suffixOf(archive).value
    requires installdir != [] && installdir[|installdir| - 1] != '/'
    ensures var stem := DropLast(Basename(archive), |suffixOf(archive).value|);
      && UnpackInfo(installdir, archive, suffixOf) == Ok((suffixOf(archive).value, installdir + "/" + stem))
      && stem + suffixOf(archive).value == Basename(archive)
      && Basename(UnpackInfo(installdir, archive, suffixOf).value.1) == stem
  {
    var base := Basename(archive);
    var suffix := suffixOf(archive).value;
    var stem := DropLast(base, |suffix|);
    assert stem == base[..|base| - |suffix|];
    assert stem + suffix == base;
    assert stem != [];
    assert forall i :: 0 <= i < |stem| ==> stem[i] == base[i];
    assert '/' !in stem;
    JoinPathParent(installdir, stem);
  }

  /** When `get_opener` reports an empty suffix, `[:-0]` empties the name
      and the archive would be unpacked into the install directory itself. */
  lemma EmptySuffixUnpacksIntoInstallDir(installdir: string, archive: string, suffixOf: string -> Option<string>)
    requires suffixOf(archive) == Some("")
    ensures UnpackInfo(installdir, archive, suffixOf) == Ok(("", JoinPath(installdir, "")))
  {
  }

  /** The loop of `_check_extract_file` over the exclude patterns: `false`
      as soon as a pattern matches `arcname` under `fnmatch`. */
  function KeepMember(patterns: seq<Json>, arcname: string, fnmatch: (string, string) -> bool): (r: Result<bool, ArchiveFault>)
    ensures r == Ok(true) <==> forall k :: 0 <= k < |patterns| ==> patterns[k].JStr? && !fnmatch(arcname, patterns[k].s)
    ensures r == Ok(false) ==> exists k :: 0 <= k < |patterns| && patterns[k].JStr? && fnmatch(arcname, patterns[k].s)
    ensures r.Err? ==> exists k :: 0 <= k < |patterns| && r.error == PatternNotString(patterns[k]) && !patterns[k].JStr?
  {
    if patterns == [] then Ok(true)
    else if !patterns[0].JStr? then Err(PatternNotString(patterns[0]))
    else if fnmatch(arcname, patterns[0].s) then Ok(false)
    else
      var r := KeepMember(patterns[1..], arcname, fnmatch);
      assert r == Ok(false) ==> exists k :: 1 <= k < |patterns| && patterns[k].JStr? && fnmatch(arcname, patterns[k].s);
      r
  }

  /** `_check_extract_file(arcname)`: every member is kept when the exclude
      value is falsy; otherwise the value is iterated (a `str` value yields
      its characters, each a pattern of its own). */
  function CheckExtractFile(exclude: Json, arcname: string, fnmatch: (string, string) -> bool): (r: Result<bool, ArchiveFault>)
    ensures !Truthy(exclude) ==> r == Ok(true)
    ensures Truthy(exclude) && Iterate(exclude).None? ==> r == Err(ExcludeNotIterable)
  {
    if !Truthy(exclude) then Ok(true)
    else match Iterate(exclude)
      case None => Err(ExcludeNotIterable)
      case Some(patterns) => KeepMember(patterns, arcname, fnmatch)
  }

  /** With a list of `str` patterns, a member is kept exactly when no pattern
      matches it. */
  lemma ExcludeListSemantics(patterns: seq<string>, arcname: string, fnmatch: (string, string) -> bool)
    ensures var exclude := JArr(seq(|patterns|, i requires 0 <= i < |patterns| => JStr(patterns[i])));
      CheckExtractFile(exclude, arcname, fnmatch) == Ok(forall k :: 0 <= k < |patterns| ==> !fnmatch(arcname, patterns[k]))
  {
    var exclude := JArr(seq(|patterns|, i requires 0 <= i < |patterns| => JStr(patterns[i])));
    if patterns != [] {
      assert Truthy(exclude);
      var r := KeepMember(exclude.items, arcname, fnmatch);
      if forall k :: 0 <= k < |patterns| ==> !fnmatch(arcname, patterns[k]) {
        assert r == Ok(true);
      } else {
        var k :| 0 <= k < |patterns| && fnmatch(arcname, patterns[k]);
        assert exclude.items[k] == JStr(patterns[k]);
        assert !(forall j :: 0 <= j < |exclude.items| ==> exclude.items[j].JStr? && !fnmatch(arcname, exclude.items[j].s));
        assert forall j :: 0 <= j < |exclude.items| ==> exclude.items[j].JStr?;
        assert r.Ok?;
        assert r.value == false;
        assert CheckExtractFile(exclude, arcname, fnmatch) == r;
      }
    }
  }

  /** `_extract_progress(index, count, filename)` as written. The division
      `index / float(count)` comes before the branches, so every call after
      the index was read needs a non-zero count. */
  function ExtractProgressAsWritten(index: int, count: int): (r: Result<seq<Progress>, ArchiveFault>)
    ensures r.Err? <==> index != -1 && count == 0
  {
    if index == -1 then Ok([Begin(None, true), Update(Some(0.0), Message("Reading index..."))])
    else if count == 0 then Err(DivisionByZero)
    else if index == 0 then Ok([End, Begin(None, false)])
    else if index == count - 1 then Ok([End])
    else Ok([Update(Some(index as real / count as real), OfCount(index, count))])
  }

  /** `_extract_progress` with the progress of a one-member archive ended
      too: the first member is also the last one. */
  function ExtractProgress(index: int, count: int): (r: Result<seq<Progress>, ArchiveFault>)
    ensures r.Err? <==> index != -1 && count == 0
  {
    if index == -1 then Ok([Begin(None, true), Update(Some(0.0), Message("Reading index..."))])
    else if count == 0 then Err(DivisionByZero)
    else if index == 0 then Ok([End, Begin(None, false)] + (if count == 1 then [End] else []))
    else if index == count - 1 then Ok([End])
    else Ok([Update(Some(index as real / count as real), OfCount(index, count))])
  }

  /** The two agree except on the first member of a one-member archive. */
  lemma ExtractProgressAgrees(index: int, count: int)
    ensures ExtractProgress(index, count) == ExtractProgressAsWritten(index, count) <==> !(index == 0 && count == 1)
  {
    if index == 0 && count == 1 {
      assert |ExtractProgress(index, count).value| == 3;
    } else if index == 0 && count != 0 {
      assert [End, Begin(None, false)] + [] == [End, Begin(None, false)];
    }
  }

  /** The state of the progress bar after one event, from `active`: `None`
      when the event does not fit (a begin while a bar is shown, an update
      or an end while none is). */
  function Step(e: Progress, active: bool): Option<bool> {
    match e
    case Begin(_, _) => if active then None else Some(true)
    case Update(_, _) => if active then Some(true) else None
    case End => if active then Some(false) else None
  }

  /** The state of the progress bar after a run of events. */
  function Replay(events: seq<Progress>, active: bool): Option<bool> {
    if events == [] then Some(active)
    else match Step(events[0], active)
      case None => None
      case Some(next) => Replay(events[1..], next)
  }

  /** Every bar that is begun is ended, and nothing is updated or ended
      outside a bar. */
  predicate Balanced(events: seq<Progress>) {
    Replay(events, false) == Some(false)
  }

  lemma {:induction false} ReplayAppend(a: seq<Progress>, b: seq<Progress>, active: bool)
    ensures Replay(a + b, active) == match Replay(a, active) case None => None case Some(s) => Replay(b, s)
    decreases |a|
  {
    if a != [] {
      assert (a + b)[0] == a[0];
      assert (a + b)[1..] == a[1..] + b;
      if Step(a[0], active).Some? {
        ReplayAppend(a[1..], b, Step(a[0], active).value);
      }
    } else {
      assert a + b == b;
    }
  }

  /** The events of an extraction of `count` members as far as member `n`:
      the call for the index (-1) and the calls for members 0 to n - 1. */
  function ExtractionLogAsWritten(count: nat, n: nat): seq<Progress>
    requires 1 <= count && n <= count
  {
    if n == 0 then ExtractProgressAsWritten(-1, count).value
    else ExtractionLogAsWritten(count, n - 1) + ExtractProgressAsWritten(n - 1, count).value
  }

  function ExtractionLog(count: nat, n: nat): seq<Progress>
    requires 1 <= count && n <= count
  {
    if n == 0 then ExtractProgress(-1, count).value
    else ExtractionLog(count, n - 1) + ExtractProgress(n - 1, count).value
  }

  /** As written, a bar is still shown after every member but the last. */
  lemma {:induction false} LogAsWrittenOpen(count: nat, n: nat)
    requires 2 <= count && n < count
    ensures Replay(ExtractionLogAsWritten(count, n), false) == Some(true)
  {
    if n > 0 {
      LogAsWrittenOpen(count, n - 1);
      ReplayAppend(ExtractionLogAsWritten(count, n - 1), ExtractProgressAsWritten(n - 1, count).value, false);
    }
  }

  /** As written, an archive of two or more members gets a balanced
      progress log. */
  lemma ExtractionBalancedAsWritten(count: nat)
    requires count >= 2
    ensures Balanced(ExtractionLogAsWritten(count, count))
  {
    LogAsWrittenOpen(count, count - 1);
    ReplayAppend(ExtractionLogAsWritten(count, count - 1), ExtractProgressAsWritten(count - 1, count).value, false);
  }

  /** As written, a one-member archive leaves the progress begun for its
      first member open: index 0 takes the first-member branch and never the
      last-member one. */
  lemma OneMemberLeftOpen()
    ensures ExtractionLogAsWritten(1, 1) == [Begin(None, true), Update(Some(0.0), Message("Reading index...")), End, Begin(None, false)]
    ensures Replay(ExtractionLogAsWritten(1, 1), false) == Some(true)
    ensures !Balanced(ExtractionLogAsWritten(1, 1))
  {
    var log := ExtractionLogAsWritten(1, 1);
    assert log[1..][1..][1..][1..] == [];
  }

  lemma {:induction false} LogOpen(count: nat, n: nat)
    requires 1 <= count && n < count
    ensures Replay(ExtractionLog(count, n), false) == Some(true)
  {
    if n > 0 {
      LogOpen(count, n - 1);
      ReplayAppend(ExtractionLog(count, n - 1), ExtractProgress(n - 1, count).value, false);
    }
  }

  /** With the correction every non-empty archive gets a balanced log. */
  lemma ExtractionBalanced(count: nat)
    requires count >= 1
    ensures Balanced(ExtractionLog(count, count))
  {
    LogOpen(count, count - 1);
    var last := ExtractProgress(count - 1, count).value;
    ReplayAppend(ExtractionLog(count, count - 1), last, false);
    if count == 1 {
      assert last == [End, Begin(None, false), End];
      assert Replay(last[2..], true) == Some(false);
      assert Replay(last[1..], false) == Some(false);
    }
  }

  /** The dictionary `download_file` passes to its progress callback. */
  datatype DownloadData = DownloadData(size: Option<int>, downloaded: int, completed: bool, filename: string)

  /** What the callback can raise: `DownloadAlreadyExists`, which the loader
      catches, or a fault that propagates. */
  datatype DownloadSignal = AlreadyExists(directory: string) | Raised(fault: ArchiveFault)

  /** Python's `int(x)`: truncation toward zero. */
  function Trunc(x: real): (n: int)
    ensures x >= 0.0 ==> n as real <= x < n as real + 1.0
    ensures x < 0.0 ==> n as real - 1.0 < x <= n as real
  {
    if x >= 0.0 then x.Floor else -((-x).Floor)
  }

  /** Whether the stamp in `directory` records `url`, compared after
      `strip()`. */
  predicate StampMatches(fs: Tree, directory: string, url: string) {
    var stamp := JoinPath(directory, StampName);
    IsFile(fs, stamp) && Strip(fs[stamp].contents) == url
  }

  /** `int(progress * 100)` for `progress = downloaded / size`. */
  function PercentOf(downloaded: int, size: int): int
    requires size != 0
  {
    Trunc(downloaded as real / size as real * 100.0)
  }

  /** No more downloaded than the size gives a percentage from 0 to 100. */
  lemma PercentWithin(downloaded: int, size: int)
    requires 0 <= downloaded <= size && size > 0
    ensures 0 <= PercentOf(downloaded, size) <= 100
  {
    ShareAtMostOne(downloaded, size);
  }

  /** The bar update of `_download_progress`: the byte count while the size
      is unknown, otherwise the share downloaded and its percentage. */
  function DownloadUpdate(data: DownloadData): (r: Result<Progress, DownloadSignal>)
    ensures r.Ok? ==> r.value.Update?
    ensures r.Err? <==> data.size == Some(0)
  {
    if data.size.None? then Ok(Update(None, Bytes(data.downloaded)))
    else if data.size.value == 0 then Err(Raised(DivisionByZero))
    else Ok(Update(Some(data.downloaded as real / data.size.value as real), Percent(PercentOf(data.downloaded, data.size.value))))
  }

  /** The first-call step of `_download_progress`: `DownloadAlreadyExists`
      when the directory the archive would unpack to records this very URL,
      otherwise the bar begun. */
  function DownloadBegin(url: string, data: DownloadData, installdir: string, suffixOf: string -> Option<string>, fs: Tree): (r: Result<seq<Progress>, DownloadSignal>)
    ensures r.Ok? && data.downloaded == 0 ==> r.value == [Begin(Some("Downloading " + url), data.size.None?)]
    ensures r.Ok? && data.downloaded != 0 ==> r.value == []
  {
    if data.downloaded != 0 then Ok([])
    else match UnpackInfo(installdir, data.filename, suffixOf)
      case Err(f) => Err(Raised(f))
      case Ok(info) =>
        if StampMatches(fs, info.1, url) then Err(AlreadyExists(info.1))
        else Ok([Begin(Some("Downloading " + url), data.size.None?)])
  }

  /** `_download_progress(url, context, data)`: the first call raises
      `DownloadAlreadyExists` or begins a bar; every call updates it; the
      last one ends it. */
  function DownloadProgress(url: string, data: DownloadData, installdir: string, suffixOf: string -> Option<string>, fs: Tree): (r: Result<seq<Progress>, DownloadSignal>)
    ensures r.Ok? ==> |r.value| >= 1 && (data.completed <==> r.value[|r.value| - 1] == End)
    ensures r.Ok? && data.downloaded == 0 ==> r.value[0] == Begin(Some("Downloading " + url), data.size.None?)
    ensures r.Ok? && data.downloaded != 0 ==> r.value[0].Update?
  {
    match DownloadBegin(url, data, installdir, suffixOf, fs)
    case Err(e) => Err(e)
    case Ok(begin) =>
      match DownloadUpdate(data)
      case Err(e) => Err(e)
      case Ok(u) => Ok(begin + [u] + (if data.completed then [End] else []))
  }

  /** The first call raises `DownloadAlreadyExists(d)` exactly when `d` is
      the unpack directory of the file and its stamp records the URL; later
      calls never do. */
  lemma AlreadyExistsExactly(url: string, data: DownloadData, installdir: string, suffixOf: string -> Option<string>, fs: Tree, d: string)
    ensures DownloadProgress(url, data, installdir, suffixOf, fs) == Err(AlreadyExists(d)) <==>
      && data.downloaded == 0
      && UnpackInfo(installdir, data.filename, suffixOf).Ok?
      && UnpackInfo(installdir, data.filename, suffixOf).value.1 == d
      && StampMatches(fs, d, url)
  {
  }

  /** For a known size and no more downloaded than that, the percentage
      shown lies between 0 and 100. */
  lemma PercentWithinBounds(url: string, data: DownloadData, installdir: string, suffixOf: string -> Option<string>, fs: Tree)
    requires data.size.Some? && data.size.value > 0 && 0 <= data.downloaded <= data.size.value
    requires DownloadProgress(url, data, installdir, suffixOf, fs).Ok?
    ensures var events := DownloadProgress(url, data, installdir, suffixOf, fs).value;
      var k := if data.downloaded == 0 then 1 else 0;
      && k < |events| && events[k].Update? && events[k].text.Percent?
      && 0 <= events[k].text.p <= 100
  {
    PercentWithin(data.downloaded, data.size.value);
    var u := DownloadUpdate(data);
    assert u.Ok? && u.value.text == Percent(PercentOf(data.downloaded, data.size.value));
  }

  lemma ShareAtMostOne(d: int, s: int)
    requires 0 <= d <= s && s > 0
    ensures 0.0 <= d as real / s as real <= 1.0
  {
    var f := d as real / s as real;
    assert f * s as real == d as real;
  }
}
