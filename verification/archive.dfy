/**
  The export loop of unwebarchive.rb: the decoded webarchive's main
  resource is written as `index.html`, then every subresource in listed
  order, each under the name `export` derives from its locator. The export
  directory is a map from file names to contents; a later write to a name
  replaces the earlier one.

  Ruby raises where this model returns a `Fault`, and a raise ends the run
  with whatever was already written left in place.
*/
module Archive {
  import opened Text
  import opened Rewrite
  import opened Paths
  import Locator

  /** The export directory: file name to file contents. */
  type Files = map<string, seq<Byte>>

  /** One `WebResourceURL` / `WebResourceData` pair, already decoded. */
  datatype Resource = Resource(url: string, data: seq<Byte>)

  /** The decoded plist: `WebMainResource` and `WebSubresources`, either of
      which may be missing. */
  datatype Webarchive = Webarchive(main: Option<Resource>, subresources: Option<seq<Resource>>)

  /** Why a run stops early. */
  datatype Fault =
    | NoMainResource           // `plist["WebMainResource"]` is nil: NoMethodError
    | CannotOpen(name: string) // `File.open(name, "w")` raises ENOENT or EISDIR
    | ExtnameOfNil(name: string) // `File.extname(nil)` raises TypeError
    | NoSubresources           // `plist["WebSubresources"]` is nil: NoMethodError

  /** The export directory after a step, and the fault that stopped the run, if any. */
  datatype Outcome = Outcome(files: Files, fault: Option<Fault>)

  /** The locator `parse_webarchive` exports the main resource under. */
  const MAIN_LOCATOR: string := "file:///index.html"

  /** The longest file or directory name component the file system takes
      (`NAME_MAX` on macOS and Linux). */
  const NAME_MAX: nat := 255

  /** The `NAME_MAX + 1` characters from `i` on hold no `/`: they are part
      of one component. */
  predicate OverlongAt(name: string, i: nat) {
    i + NAME_MAX < |name| && forall k :: i <= k <= i + NAME_MAX ==> name[k] != '/'
  }

  /** Some component of the name is longer than `NAME_MAX`. */
  predicate LongComponent(name: string) {
    exists i :: 0 <= i < |name| && OverlongAt(name, i)
  }

  /** `File.open(name, "w")` (or the `mkdir_p` before it) raises before
      creating anything: an empty name names no file, a name ending in `/`,
      or whose last component is `.` or `..`, names a directory, and a
      component longer than `NAME_MAX` is refused as too long. */
  predicate CannotCreate(name: string) {
    || name == ""
    || name[|name| - 1] == '/'
    || name[ComponentStart(name, |name|)..] == "."
    || name[ComponentStart(name, |name|)..] == ".."
    || LongComponent(name)
  }

  /** `dir/.` and `dir/..` (and `.` and `..` themselves) cannot be created. */
  lemma DotComponentCannotCreate(dir: string, dots: string)
    requires dir == "" || dir[|dir| - 1] == '/'
    requires dots == "." || dots == ".."
    ensures CannotCreate(dir + dots)
  {
    var p := dir + dots;
    forall k | |dir| <= k < |p| ensures p[k] != '/' {
      assert p[k] == dots[k - |dir|];
    }
    ComponentStartBound(p, |p|, |dir|);
    if |dir| > 0 {
      assert p[|dir| - 1] == dir[|dir| - 1];
    }
    assert ComponentStart(p, |p|) == |dir|;
    assert p[|dir|..] == dots;
  }

  /** A name with a component of more than `NAME_MAX` characters, in any
      place, cannot be created. */
  lemma LongNameCannotCreate(dir: string, component: string, rest: string)
    requires |component| > NAME_MAX && forall k :: 0 <= k < |component| ==> component[k] != '/'
    ensures CannotCreate(dir + component + rest)
  {
    var p := dir + component + rest;
    forall k | |dir| <= k < |dir| + NAME_MAX + 1 ensures p[k] != '/' {
      assert p[k] == component[k - |dir|];
    }
    assert OverlongAt(p, |dir|);
  }

  /** A name without `/` of three to `NAME_MAX` characters can be created. */
  lemma PlainNameCreatable(name: string)
    requires 2 < |name| <= NAME_MAX && forall k :: 0 <= k < |name| ==> name[k] != '/'
    ensures !CannotCreate(name)
  {
    ComponentStartBound(name, |name|, 0);
    assert name[0..] == name;
  }

  /**
    `write_file(name, data)`. When the name cannot be created nothing is
    written. Otherwise `File.open(name, "w")` truncates the file before
    `fix_paths` runs; when `fix_paths` raises (a name made only of `?`) the
    file is left empty, else it holds the fixed data.
  */
  function WriteFileResult(files: Files, name: string, data: seq<Byte>): Outcome {
    if CannotCreate(name) then Outcome(files, Some(CannotOpen(name)))
    else match FixPaths(name, data)
      case None => Outcome(files[name := []], Some(ExtnameOfNil(name)))
      case Some(fixed) => Outcome(files[name := fixed], None)
  }

  /** `export(locator, data)`: a skipped locator changes nothing. */
  function ExportResult(files: Files, locator: string, data: seq<Byte>): Outcome {
    match Locator.ExportName(locator)
    case None => Outcome(files, None)
    case Some(name) => WriteFileResult(files, name, data)
  }

  /** The resources of `rs` exported in order, stopping at the first fault. */
  function ExportAllResult(files: Files, rs: seq<Resource>): Outcome
    decreases |rs|
  {
    if rs == [] then Outcome(files, None)
    else
      var o := ExportResult(files, rs[0].url, rs[0].data);
      if o.fault.Some? then o else ExportAllResult(o.files, rs[1..])
  }

  /** `parse_webarchive` once the plist is decoded: the main resource's data
      with every `file:///` made `./`, exported as `file:///index.html`,
      then the subresources. */
  function ParseResult(files: Files, archive: Webarchive): Outcome {
    match archive.main
    case None => Outcome(files, Some(NoMainResource))
    case Some(main) =>
      var o := ExportResult(files, MAIN_LOCATOR, LocalizeMain(main.data));
      if o.fault.Some? then o
      else match archive.subresources
        case None => Outcome(o.files, Some(NoSubresources))
        case Some(rs) => ExportAllResult(o.files, rs)
  }

  /** The export directory, updated file by file as `UnWebarchive` does. */
  class UnWebarchive {
    var files: Files

    /** Starts from what the export directory already holds. Ruby's
        `initialize` goes on to run `parse_webarchive`: here that is
        `ParseWebarchive`, called on the new object. */
    constructor(existing: Files)
      ensures files == existing
    {
      files := existing;
    }

    method WriteFile(name: string, data: seq<Byte>) returns (fault: Option<Fault>)
      modifies this
      ensures Outcome(files, fault) == WriteFileResult(old(files), name, data)
    {
      ghost var before := files;
      if CannotCreate(name) {
        fault := Some(CannotOpen(name));
        assert WriteFileResult(before, name, data) == Outcome(before, fault);
      } else {
        files := files[name := []];
        var fixed := FixPaths(name, data);
        if fixed.None? {
          fault := Some(ExtnameOfNil(name));
        } else {
          files := files[name := fixed.value];
          fault := None;
          assert files == before[name := fixed.value];
        }
      }
    }

    method Export(locator: string, data: seq<Byte>) returns (fault: Option<Fault>)
      modifies this
      ensures Outcome(files, fault) == ExportResult(old(files), locator, data)
      ensures Locator.ExportName(locator).None? ==> files == old(files) && fault.None?
    {
      var name := Locator.ExportName(locator);
      if name.None? {
        fault := None;
        return;
      }
      fault := WriteFile(name.value, data);
    }

    method ParseWebarchive(archive: Webarchive) returns (fault: Option<Fault>)
      modifies this
      ensures Outcome(files, fault) == ParseResult(old(files), archive)
    {
      if archive.main.None? {
        return Some(NoMainResource);
      }
      var data := LocalizeMain(archive.main.value.data);
      fault := Export(MAIN_LOCATOR, data);
      if fault.Some? {
        return;
      }
      if archive.subresources.None? {
        return Some(NoSubresources);
      }
      var rs := archive.subresources.value;
      ghost var afterMain := files;
      var i := 0;
      while i < |rs|
        invariant 0 <= i <= |rs| && fault.None?
        invariant ExportAllResult(files, rs[i..]) == ExportAllResult(afterMain, rs)
      {
        assert rs[i..][0] == rs[i] && rs[i..][1..] == rs[i + 1..];
        fault := Export(rs[i].url, rs[i].data);
        if fault.Some? {
          return;
        }
        i := i + 1;
      }
    }
  }

  /** The index of the last resource of `rs` exported under `name`, if any. */
  function LastExporter(rs: seq<Resource>, name: string): (r: Option<nat>)
    ensures r.Some? ==> r.value < |rs| && Locator.ExportName(rs[r.value].url) == Some(name)
    ensures r.Some? ==> forall j :: r.value < j < |rs| ==> Locator.ExportName(rs[j].url) != Some(name)
    ensures r.None? ==> forall j :: 0 <= j < |rs| ==> Locator.ExportName(rs[j].url) != Some(name)
    decreases |rs|
  {
    if rs == [] then None
    else
      var tail := rs[1..];
      assert forall j :: 1 <= j < |rs| ==> tail[j - 1] == rs[j];
      var later := LastExporter(tail, name);
      if later.Some? then Some(later.value + 1)
      else if Locator.ExportName(rs[0].url) == Some(name) then Some(0)
      else None
  }

  /**
    `write_file` touches its own name and no other entry. It succeeds
    exactly when the name can be created and is not made only of `?`, and
    then the file holds `fix_paths` of the data, never longer than the data.
    When `fix_paths` raises, the file has already been truncated.
  */
  lemma WriteFileFrame(files: Files, name: string, data: seq<Byte>)
    ensures var o := WriteFileResult(files, name, data);
      && (forall n :: n != name ==> (n in o.files <==> n in files))
      && (forall n :: n != name && n in files ==> o.files[n] == files[n])
      && (o.fault.None? <==> !CannotCreate(name) && exists k :: 0 <= k < |name| && name[k] != '?')
      && (o.fault.None? ==> name in o.files && o.files[name] == FixPaths(name, data).value)
      && (o.fault.None? ==> |o.files[name]| <= |data|)
      && (CannotCreate(name) ==> o.files == files)
      && (o.fault.Some? && !CannotCreate(name) ==> name in o.files && o.files[name] == [])
  {
    if FixPaths(name, data).Some? {
      FixPathsShape(name, data);
    }
  }

  /** A subresource whose locator ends in `/`, such as a site's root
      `http://example.com/`, names a directory: the run stops there with
      nothing written for it. */
  lemma DirectoryLocatorStops(files: Files, host: string, data: seq<Byte>)
    requires forall j :: 0 <= j < |host| ==> host[j] != ':' && host[j] != '\n'
    ensures ExportResult(files, "http://" + host + "/", data) == Outcome(files, Some(CannotOpen(host + "/")))
  {
    var rest := host + "/";
    forall j | 0 <= j < |rest| ensures rest[j] != ':' && rest[j] != '\n' {
      if j < |host| {
        assert rest[j] == host[j];
      }
    }
    Locator.HostKeptInName(rest);
    assert "http://" + host + "/" == "http://" + rest;
    assert rest[|rest| - 1] == '/';
  }

  /** A locator whose last component is `.` or `..`, such as `http://.` or
      `http://host/..`, names a directory: the run stops there with nothing
      written for it. */
  lemma DotLocatorStops(files: Files, dir: string, dots: string, data: seq<Byte>)
    requires forall j :: 0 <= j < |dir| ==> dir[j] != ':' && dir[j] != '\n'
    requires dir == "" || dir[|dir| - 1] == '/'
    requires dots == "." || dots == ".."
    ensures ExportResult(files, "http://" + dir + dots, data) == Outcome(files, Some(CannotOpen(dir + dots)))
  {
    var rest := dir + dots;
    forall j | 0 <= j < |rest| ensures rest[j] != ':' && rest[j] != '\n' {
      if j < |dir| {
        assert rest[j] == dir[j];
      } else {
        assert rest[j] == dots[j - |dir|];
      }
    }
    Locator.HostKeptInName(rest);
    assert "http://" + dir + dots == "http://" + rest;
    DotComponentCannotCreate(dir, dots);
  }

  /** The main resource always lands in `index.html`, rewritten as HTML,
      after every `file:///` in its data became `./`. */
  lemma ExportMainResource(files: Files, data: seq<Byte>)
    ensures ExportResult(files, MAIN_LOCATOR, LocalizeMain(data))
         == Outcome(files["index.html" := HtmlRewrite(LocalizeMain(data))], None)
  {
    MainName();
    var d := LocalizeMain(data);
    IndexHtmlCreatable();
    FixPathsIndexHtml(d);
    assert WriteFileResult(files, "index.html", d) == Outcome(files["index.html" := HtmlRewrite(d)], None);
  }

  /** `index.html` can be created. */
  lemma IndexHtmlCreatable()
    ensures !CannotCreate("index.html")
  {
    var name := "index.html";
    assert forall k :: 0 <= k < |name| ==> name[k] != '/';
    PlainNameCreatable(name);
  }

  /** The locator the main resource is exported under names `index.html`. */
  lemma MainName()
    ensures Locator.ExportName(MAIN_LOCATOR) == Some("index.html")
  {
    assert MAIN_LOCATOR == Locator.FILE_TRIPLE + "index.html";
    Locator.FileLocatorName("index.html");
  }

  /**
    The run writes `index.html` first, from the main resource's data alone
    (its own `WebResourceURL` plays no part), then exports the
    subresources; with no subresource list it stops right after
    `index.html`.
  */
  lemma ParseWritesIndexFirst(files: Files, main: Resource, subresources: Option<seq<Resource>>)
    ensures var first := files["index.html" := HtmlRewrite(LocalizeMain(main.data))];
      ParseResult(files, Webarchive(Some(main), subresources)) ==
        match subresources
        case None => Outcome(first, Some(NoSubresources))
        case Some(rs) => ExportAllResult(first, rs)
  {
    ExportMainResource(files, main.data);
  }

  /** Without a main resource nothing is written. */
  lemma ParseWithoutMain(files: Files, subresources: Option<seq<Resource>>)
    ensures ParseResult(files, Webarchive(None, subresources)) == Outcome(files, Some(NoMainResource))
  {
  }

  /** A name no resource of `rs` is exported under keeps its entry (or its
      absence), whether or not the run stops early. */
  lemma {:induction false} ExportAllUntouched(files: Files, rs: seq<Resource>, name: string)
    requires forall j :: 0 <= j < |rs| ==> Locator.ExportName(rs[j].url) != Some(name)
    ensures var out := ExportAllResult(files, rs).files;
      (name in out <==> name in files) && (name in files ==> out[name] == files[name])
    decreases |rs|
  {
    if rs != [] {
      var o := ExportResult(files, rs[0].url, rs[0].data);
      if Locator.ExportName(rs[0].url).Some? {
        WriteFileFrame(files, Locator.ExportName(rs[0].url).value, rs[0].data);
      }
      if o.fault.None? {
        ExportAllUntouched(o.files, rs[1..], name);
      }
    }
  }

  /** Entries are only ever added or replaced, never removed. */
  lemma {:induction false} ExportAllKeepsNames(files: Files, rs: seq<Resource>)
    ensures files.Keys <= ExportAllResult(files, rs).files.Keys
    decreases |rs|
  {
    if rs != [] {
      var o := ExportResult(files, rs[0].url, rs[0].data);
      assert files.Keys <= o.files.Keys;
      if o.fault.None? {
        ExportAllKeepsNames(o.files, rs[1..]);
      }
    }
  }

  /**
    Last write wins: after a run that does not stop early, a name holds
    `fix_paths` of the data of the LAST resource exported under it, and a
    name no resource is exported under is left as it was.
  */
  lemma {:induction false} ExportAllLastWriteWins(files: Files, rs: seq<Resource>, name: string)
    requires ExportAllResult(files, rs).fault.None?
    ensures var out := ExportAllResult(files, rs).files;
      match LastExporter(rs, name)
      case Some(k) => name in out && FixPaths(name, rs[k].data).Some? && out[name] == FixPaths(name, rs[k].data).value
      case None => (name in out <==> name in files) && (name in files ==> out[name] == files[name])
    decreases |rs|
  {
    if rs == [] {
    } else {
      var o := ExportResult(files, rs[0].url, rs[0].data);
      assert o.fault.None?;
      ExportAllLastWriteWins(o.files, rs[1..], name);
      match LastExporter(rs[1..], name)
      case Some(k) =>
        assert rs[1..][k] == rs[k + 1];
      case None =>
        match Locator.ExportName(rs[0].url)
        case None =>
        case Some(n) => WriteFileFrame(files, n, rs[0].data);
    }
  }

  /** A resource `write_file` fails on: it is exported under a name that
      cannot be created or is made only of `?`. */
  predicate Unwritable(r: Resource) {
    match Locator.ExportName(r.url)
    case None => false
    case Some(name) => CannotCreate(name) || forall k :: 0 <= k < |name| ==> name[k] == '?'
  }

  /** A run stops early exactly when some resource is unwritable. */
  lemma {:induction false} ExportAllFaults(files: Files, rs: seq<Resource>)
    ensures ExportAllResult(files, rs).fault.Some? <==> exists j :: 0 <= j < |rs| && Unwritable(rs[j])
    decreases |rs|
  {
    if rs != [] {
      var o := ExportResult(files, rs[0].url, rs[0].data);
      ExportFaults(files, rs[0]);
      SomeUnwritable(rs);
      if o.fault.None? {
        ExportAllFaults(o.files, rs[1..]);
      }
    }
  }

  /** A run stops at the first unwritable resource `rs[j]`: the resources
      before it are all exported, then its own export ends the run. */
  lemma {:induction false} ExportAllStopsAtFirst(files: Files, rs: seq<Resource>, j: nat)
    requires j < |rs| && Unwritable(rs[j])
    requires forall i :: 0 <= i < j ==> !Unwritable(rs[i])
    ensures var before := ExportAllResult(files, rs[..j]);
      && before.fault.None?
      && ExportAllResult(files, rs) == ExportResult(before.files, rs[j].url, rs[j].data)
      && ExportAllResult(files, rs).fault.Some?
    decreases j
  {
    var o := ExportResult(files, rs[0].url, rs[0].data);
    ExportFaults(files, rs[0]);
    if j == 0 {
      assert rs[..0] == [];
    } else {
      var tail := rs[1..];
      forall i | 0 <= i < j - 1 ensures !Unwritable(tail[i]) {
        assert tail[i] == rs[i + 1];
      }
      assert tail[j - 1] == rs[j];
      ExportAllStopsAtFirst(o.files, tail, j - 1);
      assert rs[..j][0] == rs[0];
      assert rs[..j][1..] == tail[..j - 1];
      ExportFaults(ExportAllResult(o.files, tail[..j - 1]).files, rs[j]);
    }
  }

  /** Last write wins up to the resource that stops the run: a name that
      resource is not exported under holds what the resources before it
      left there. */
  lemma LastWriteWinsBeforeStop(files: Files, rs: seq<Resource>, j: nat, name: string)
    requires j < |rs| && Unwritable(rs[j])
    requires forall i :: 0 <= i < j ==> !Unwritable(rs[i])
    requires Locator.ExportName(rs[j].url) != Some(name)
    ensures var out := ExportAllResult(files, rs).files;
      match LastExporter(rs[..j], name)
      case Some(k) => name in out && FixPaths(name, rs[k].data).Some? && out[name] == FixPaths(name, rs[k].data).value
      case None => (name in out <==> name in files) && (name in files ==> out[name] == files[name])
  {
    ExportAllStopsAtFirst(files, rs, j);
    var before := ExportAllResult(files, rs[..j]);
    ExportAllLastWriteWins(files, rs[..j], name);
    match Locator.ExportName(rs[j].url)
    case None =>
    case Some(n) => WriteFileFrame(before.files, n, rs[j].data);
    match LastExporter(rs[..j], name)
    case Some(k) => assert rs[..j][k] == rs[k];
    case None =>
  }

  /** One export stops the run exactly when its resource is unwritable. */
  lemma ExportFaults(files: Files, r: Resource)
    ensures ExportResult(files, r.url, r.data).fault.Some? <==> Unwritable(r)
  {
    if Locator.ExportName(r.url).Some? {
      WriteFileFrame(files, Locator.ExportName(r.url).value, r.data);
    }
  }

  lemma SomeUnwritable(rs: seq<Resource>)
    requires rs != []
    ensures (exists j :: 0 <= j < |rs| && Unwritable(rs[j])) <==>
      Unwritable(rs[0]) || exists j :: 0 <= j < |rs[1..]| && Unwritable(rs[1..][j])
  {
    if exists j :: 0 <= j < |rs| && Unwritable(rs[j]) {
      var j :| 0 <= j < |rs| && Unwritable(rs[j]);
      if j > 0 {
        assert rs[1..][j - 1] == rs[j];
      }
    }
    if exists j :: 0 <= j < |rs[1..]| && Unwritable(rs[1..][j]) {
      var j :| 0 <= j < |rs[1..]| && Unwritable(rs[1..][j]);
      assert rs[1..][j] == rs[j + 1];
    }
  }

  /** `index.html` ends up holding the rewritten main resource unless a
      subresource is itself exported as `index.html`. */
  lemma IndexHtmlFromMain(files: Files, main: Resource, rs: seq<Resource>)
    requires LastExporter(rs, "index.html").None?
    ensures var out := ParseResult(files, Webarchive(Some(main), Some(rs))).files;
      "index.html" in out && out["index.html"] == HtmlRewrite(LocalizeMain(main.data))
  {
    ParseWritesIndexFirst(files, main, Some(rs));
    ExportAllUntouched(files["index.html" := HtmlRewrite(LocalizeMain(main.data))], rs, "index.html");
  }
}
