/** The archive helper of the upload path: the unpack-format registry it extends with `gz`, the
    queries over that registry, the file name `gunzip_file` writes, the exception mapping of
    `unpack` and the entry names `make_zipfile` gives. */
module Archive {
  import opened Outcomes
  import opened Strings

  // ---------------------------------------------------------------------------------------------
  // The unpack-format registry

  /** One registered unpack format: its name, the file extensions it claims and a description. */
  datatype UnpackFormat = UnpackFormat(name: string, extensions: seq<string>, description: string)

  /** The format `Archiver` registers for single gzip-compressed files. */
  const GZ_FORMAT := UnpackFormat("gz", [".gz"], "")

  /** No two formats share a name. */
  predicate UniqueNames(formats: seq<UnpackFormat>)
  {
    forall i, j :: 0 <= i < j < |formats| ==> formats[i].name != formats[j].name
  }

  /** The registry after registering `f`: a format of the same name is replaced where it stands,
      otherwise `f` is added at the end. */
  function WithFormat(formats: seq<UnpackFormat>, f: UnpackFormat): seq<UnpackFormat>
  {
    if formats == [] then [f]
    else if formats[0].name == f.name then [f] + formats[1..]
    else [formats[0]] + WithFormat(formats[1..], f)
  }

  /** Registering adds `f`, keeps every format of another name, and brings in nothing else. */
  lemma {:induction false} WithFormatContents(formats: seq<UnpackFormat>, f: UnpackFormat)
    ensures f in WithFormat(formats, f)
    ensures forall g :: g in formats && g.name != f.name ==> g in WithFormat(formats, f)
    ensures forall g :: g in WithFormat(formats, f) ==> g == f || g in formats
    decreases |formats|
  {
    if formats != [] && formats[0].name != f.name {
      WithFormatContents(formats[1..], f);
      assert forall g :: g in formats ==> g == formats[0] || g in formats[1..];
    }
  }

  /** Registering an existing name keeps the list of names; a new name goes at the end. */
  lemma WithFormatNames(formats: seq<UnpackFormat>, f: UnpackFormat)
    ensures (exists i :: 0 <= i < |formats| && formats[i].name == f.name) ==>
      SupportedFormats(WithFormat(formats, f)) == SupportedFormats(formats)
    ensures (forall i :: 0 <= i < |formats| ==> formats[i].name != f.name) ==> WithFormat(formats, f) == formats + [f]
  {
    if i :| 0 <= i < |formats| && formats[i].name == f.name {
      WithFormatReplaces(formats, f, i);
    } else {
      WithFormatSkip(formats, f, |formats|);
    }
  }

  /** Registering a name held at index `i` keeps the length and the name at every index. */
  lemma {:induction false} WithFormatReplaces(formats: seq<UnpackFormat>, f: UnpackFormat, i: int)
    requires 0 <= i < |formats| && formats[i].name == f.name
    ensures |WithFormat(formats, f)| == |formats|
    ensures forall j :: 0 <= j < |formats| ==> WithFormat(formats, f)[j].name == formats[j].name
    decreases |formats|
  {
    if formats[0].name != f.name {
      assert formats[1..][i - 1] == formats[i];
      WithFormatReplaces(formats[1..], f, i - 1);
      var w := WithFormat(formats[1..], f);
      forall j | 0 <= j < |formats|
        ensures WithFormat(formats, f)[j].name == formats[j].name
      {
        if j > 0 {
          assert WithFormat(formats, f)[j] == w[j - 1] && formats[1..][j - 1] == formats[j];
        }
      }
    }
  }

  /** Registering keeps the names unique. */
  lemma {:induction false} WithFormatUnique(formats: seq<UnpackFormat>, f: UnpackFormat)
    requires UniqueNames(formats)
    ensures UniqueNames(WithFormat(formats, f))
    decreases |formats|
  {
    if formats != [] && formats[0].name != f.name {
      assert UniqueNames(formats[1..]) by {
        forall i, j | 0 <= i < j < |formats[1..]|
          ensures formats[1..][i].name != formats[1..][j].name
        {
          assert formats[1..][i] == formats[i + 1] && formats[1..][j] == formats[j + 1];
        }
      }
      WithFormatUnique(formats[1..], f);
      var rest := WithFormat(formats[1..], f);
      WithFormatContents(formats[1..], f);
      forall j | 0 <= j < |rest|
        ensures formats[0].name != rest[j].name
      {
        assert rest[j] in rest;
        if rest[j] != f {
          var k :| 0 <= k < |formats[1..]| && formats[1..][k] == rest[j];
          assert formats[k + 1] == rest[j];
        }
      }
    }
  }

  /** Registering the same format twice is registering it once. */
  lemma {:induction false} WithFormatIdempotent(formats: seq<UnpackFormat>, f: UnpackFormat)
    ensures WithFormat(WithFormat(formats, f), f) == WithFormat(formats, f)
    decreases |formats|
  {
    if formats != [] && formats[0].name != f.name {
      WithFormatIdempotent(formats[1..], f);
    }
  }

  /** Formats of other names in front of position `i` are passed over and kept in front. */
  lemma {:induction false} WithFormatSkip(fs: seq<UnpackFormat>, f: UnpackFormat, i: int)
    requires 0 <= i <= |fs| && forall j :: 0 <= j < i ==> fs[j].name != f.name
    ensures WithFormat(fs, f) == fs[..i] + WithFormat(fs[i..], f)
    decreases i
  {
    if i == 0 {
      assert fs[..0] == [] && fs[0..] == fs;
    } else {
      var tail := fs[1..];
      assert forall j :: 0 <= j < i - 1 ==> tail[j] == fs[j + 1];
      WithFormatSkip(tail, f, i - 1);
      var head, rest := [fs[0]] + tail[..i - 1], WithFormat(fs[i..], f);
      assert tail[i - 1..] == fs[i..];
      assert WithFormat(fs, f) == [fs[0]] + (tail[..i - 1] + rest);
      assert head == fs[..i];
    }
  }

  /** `shutil`'s table of unpack formats, the global state that `Archiver` extends. */
  class UnpackRegistry {
    var formats: seq<UnpackFormat>

    constructor (initial: seq<UnpackFormat>)
      ensures formats == initial
    {
      formats := initial;
    }

    /** `shutil.register_unpack_format(name, extensions, function, description=description)`. */
    method Register(name: string, extensions: seq<string>, description: string)
      modifies this
      ensures formats == WithFormat(old(formats), UnpackFormat(name, extensions, description))
    {
      var f := UnpackFormat(name, extensions, description);
      var fs := formats;
      var i := 0;
      while i < |fs| && fs[i].name != name
        invariant 0 <= i <= |fs|
        invariant forall j :: 0 <= j < i ==> fs[j].name != name
      {
        i := i + 1;
      }
      WithFormatSkip(fs, f, i);
      if i < |fs| {
        assert fs[i..][0] == fs[i] && fs[i..][1..] == fs[i + 1..];
        assert fs[..i] + ([f] + fs[i + 1..]) == fs[i := f];
        formats := fs[i := f];
      } else {
        assert fs[..i] == fs && fs[i..] == [];
        formats := fs + [f];
      }
    }
  }

  /** The archive helper; constructing one registers the `gz` format with the shared registry. */
  class Archiver {
    constructor (registry: UnpackRegistry)
      modifies registry
      ensures registry.formats == WithFormat(old(registry.formats), GZ_FORMAT)
    {
      registry.Register("gz", [".gz"], "");
    }
  }

  // ---------------------------------------------------------------------------------------------
  // Queries over the registry

  /** `get_supported_formats`: one name per registered format, in registry order. */
  function SupportedFormats(formats: seq<UnpackFormat>): (r: seq<string>)
    ensures |r| == |formats| && forall i :: 0 <= i < |formats| ==> r[i] == formats[i].name
  {
    seq(|formats|, i requires 0 <= i < |formats| => formats[i].name)
  }

  /** `get_supported_extensions`: the extension lists of the formats, concatenated in order. */
  function SupportedExtensions(formats: seq<UnpackFormat>): (r: seq<string>)
    ensures forall ext :: ext in r <==> exists i :: 0 <= i < |formats| && ext in formats[i].extensions
  {
    if formats == [] then []
    else
      var rest := SupportedExtensions(formats[1..]);
      assert forall i :: 0 <= i < |formats[1..]| ==> formats[1..][i] == formats[i + 1];
      formats[0].extensions + rest
  }

  /** The extension list of a registry is the concatenation of those of its parts, in order. */
  lemma {:induction false} SupportedExtensionsAppend(a: seq<UnpackFormat>, b: seq<UnpackFormat>)
    ensures SupportedExtensions(a + b) == SupportedExtensions(a) + SupportedExtensions(b)
    decreases |a|
  {
    if a == [] {
      assert a + b == b;
    } else {
      assert (a + b)[0] == a[0] && (a + b)[1..] == a[1..] + b;
      SupportedExtensionsAppend(a[1..], b);
    }
  }

  /** `check_extensions`: scan the supported extensions and stop at the first that ends the name. */
  method CheckExtensions(formats: seq<UnpackFormat>, fileName: string) returns (b: bool)
    ensures b <==> exists ext :: ext in SupportedExtensions(formats) && EndsWith(fileName, ext)
  {
    var exts := SupportedExtensions(formats);
    for i := 0 to |exts|
      invariant forall j :: 0 <= j < i ==> !EndsWith(fileName, exts[j])
    {
      if EndsWith(fileName, exts[i]) {
        return true;
      }
    }
    return false;
  }

  /** After the `gz` registration every name ending in ".gz" has a supported extension. */
  lemma GzNamesSupported(formats: seq<UnpackFormat>, fileName: string)
    requires EndsWith(fileName, ".gz")
    ensures ".gz" in SupportedExtensions(WithFormat(formats, GZ_FORMAT))
    ensures exists ext :: ext in SupportedExtensions(WithFormat(formats, GZ_FORMAT)) && EndsWith(fileName, ext)
  {
    var r := WithFormat(formats, GZ_FORMAT);
    WithFormatContents(formats, GZ_FORMAT);
    var i :| 0 <= i < |r| && r[i] == GZ_FORMAT;
    assert ".gz" in r[i].extensions;
  }

  // ---------------------------------------------------------------------------------------------
  // gunzip_file: the name of the decompressed file

  /** `s[i..i + 3]` is ".gz" in some letter case. */
  predicate GzAt(s: string, i: int)
  {
    && 0 <= i && i + 3 <= |s| && s[i] == '.'
    && (s[i + 1] == 'g' || s[i + 1] == 'G')
    && (s[i + 2] == 'z' || s[i + 2] == 'Z')
  }

  /** A spelling of ".gz" in any letter case. */
  predicate GzSpelling(g: string)
  {
    |g| == 3 && GzAt(g, 0)
  }

  /** `re.sub(r"\.gz$", "", name, flags=re.IGNORECASE)`: `$` matches at the end of the name or just
      before a final newline, and at most one of the two places can hold the suffix. */
  function StripGz(name: string): (r: string)
    ensures |r| == |name| || |r| == |name| - 3
    ensures |r| == |name| ==> r == name
    ensures '/' in r ==> '/' in name
  {
    if |name| >= 3 && GzAt(name, |name| - 3) then name[..|name| - 3]
    else if |name| >= 4 && name[|name| - 1] == '\n' && GzAt(name, |name| - 4) then name[..|name| - 4] + "\n"
    else name
  }

  /** One trailing ".gz", in whatever letter case, is removed. */
  lemma StripGzSuffix(stem: string, g: string)
    requires GzSpelling(g)
    ensures StripGz(stem + g) == stem
  {
    var s := stem + g;
    assert s[|s| - 3..] == g;
    assert s[..|s| - 3] == stem;
  }

  /** The suffix is also removed before a final newline, which `$` lets through. */
  lemma StripGzBeforeNewline(stem: string, g: string)
    requires GzSpelling(g)
    ensures StripGz(stem + g + "\n") == stem + "\n"
  {
    var s := stem + g + "\n";
    assert s[|s| - 4..|s| - 1] == g;
    assert !GzAt(s, |s| - 3);
    assert s[..|s| - 4] == stem;
  }

  /** A name without the suffix in either place is left as it is. */
  lemma StripGzKeeps(name: string)
    requires !(|name| >= 3 && GzSpelling(name[|name| - 3..]))
    requires !(|name| >= 4 && name[|name| - 1] == '\n' && GzSpelling(name[|name| - 4..|name| - 1]))
    ensures StripGz(name) == name
  {
    if |name| >= 3 {
      assert GzAt(name, |name| - 3) <==> GzSpelling(name[|name| - 3..]);
    }
    if |name| >= 4 {
      assert GzAt(name, |name| - 4) <==> GzSpelling(name[|name| - 4..|name| - 1]);
    }
  }

  /** The path `gunzip_file` writes: the last component of `fileName`, without its ".gz", directly in
      `workDir`. The stem never holds a '/', and `os.path.join` adds one only when `workDir` is
      non-empty and does not end in one. */
  function GunzipTarget(fileName: string, workDir: string): (r: string)
    ensures var stem := StripGz(Tail(fileName));
      && '/' !in stem
      && ((workDir == [] || workDir[|workDir| - 1] == '/') ==> r == workDir + stem)
      && (workDir != [] && workDir[|workDir| - 1] != '/' ==> r == workDir + "/" + stem)
  {
    GunzipStemRelative(fileName);
    Join(workDir, StripGz(Tail(fileName)))
  }

  /** The stem `gunzip_file` writes holds no '/', so `os.path.join` keeps it below `workDir`. */
  lemma GunzipStemRelative(fileName: string)
    ensures var stem := StripGz(Tail(fileName)); '/' !in stem && (stem == [] || stem[0] != '/')
  {
    var stem := StripGz(Tail(fileName));
    NoSlashRelative(stem);
  }

  /** The stem of an archive `dir/stem.gz` is `stem`. */
  lemma GunzipStemOf(dir: string, stem: string, g: string)
    requires dir == [] || dir[|dir| - 1] == '/'
    requires forall j :: 0 <= j < |stem| ==> stem[j] != '/'
    requires GzSpelling(g)
    ensures StripGz(Tail(dir + stem + g)) == stem
  {
    var name := stem + g;
    assert forall j :: 0 <= j < |name| ==> name[j] != '/' by {
      assert forall j :: |stem| <= j < |name| ==> name[j] == g[j - |stem|];
    }
    if dir == [] {
      assert dir + stem + g == name;
      NoSlashTail(name);
    } else {
      assert dir + stem + g == dir + name;
      TailUnderDir(dir, name);
    }
    StripGzSuffix(stem, g);
  }

  /** An archive `dir/stem.gz` is decompressed to `stem` in `workDir`. */
  lemma GunzipTargetOf(dir: string, stem: string, g: string, workDir: string)
    requires dir == [] || dir[|dir| - 1] == '/'
    requires forall j :: 0 <= j < |stem| ==> stem[j] != '/'
    requires GzSpelling(g)
    ensures (workDir == [] || workDir[|workDir| - 1] == '/') ==>
      GunzipTarget(dir + stem + g, workDir) == workDir + stem
    ensures workDir != [] && workDir[|workDir| - 1] != '/' ==>
      GunzipTarget(dir + stem + g, workDir) == workDir + "/" + stem
  {
    GunzipStemOf(dir, stem, g);
  }

  // ---------------------------------------------------------------------------------------------
  // unpack: mapping the outcome of `shutil.unpack_archive`

  /** How the foreign `shutil.unpack_archive` call ends. */
  datatype UnpackOutcome =
    | Unpacked              // returned normally
    | ReadError             // raised `shutil.ReadError`: no format claims the file
    | Failed(error: string) // raised any other exception, identified by its description

  /** What `unpack` lets escape. */
  datatype UnpackError =
    | ValueError            // raised from a ReadError
    | IndexError            // `file_location.split('.', 1)[1]` in the ReadError handler, name without a dot
    | Reraised(error: string)

  /** The arguments `unpack` passes on: the extraction directory only when it is a non-empty string. */
  datatype UnpackCall = UnpackCall(fileLocation: string, extractDir: Option<string>)

  function UnpackArgs(fileLocation: string, extractDir: Option<string>): (c: UnpackCall)
    ensures c.fileLocation == fileLocation
    ensures c.extractDir.Some? <==> extractDir.Some? && extractDir.value != ""
    ensures c.extractDir.Some? ==> c.extractDir == extractDir
  {
    match extractDir
    case Some(d) => if d != "" then UnpackCall(fileLocation, extractDir) else UnpackCall(fileLocation, None)
    case None => UnpackCall(fileLocation, None)
  }

  /** `s.split('.', 1)`: the part before the first dot and the rest, or None when there is no dot. */
  function SplitFirstDot(s: string): (r: Option<(string, string)>)
    ensures r.None? <==> '.' !in s
    ensures r.Some? ==> s == r.value.0 + "." + r.value.1 && '.' !in r.value.0
  {
    if s == [] then None
    else if s[0] == '.' then Some(([], s[1..]))
    else
      match SplitFirstDot(s[1..])
      case None => None
      case Some(p) => Some(([s[0]] + p.0, p.1))
  }

  /** `unpack(file_location, extract_dir)` given how the foreign call ends. */
  function Unpack(fileLocation: string, extractDir: Option<string>, unpackArchive: UnpackCall -> UnpackOutcome)
    : (r: Result<bool, UnpackError>)
    ensures var outcome := unpackArchive(UnpackArgs(fileLocation, extractDir));
      && (r.Ok? <==> outcome == Unpacked)
      && (r.Ok? ==> r.value)
      && (outcome == ReadError ==> r == Err(if '.' in fileLocation then ValueError else IndexError))
      && (outcome.Failed? ==> r == Err(Reraised(outcome.error)))
  {
    match unpackArchive(UnpackArgs(fileLocation, extractDir))
    case Unpacked => Ok(true)
    case ReadError => if SplitFirstDot(fileLocation).None? then Err(IndexError) else Err(ValueError)
    case Failed(e) => Err(Reraised(e))
  }

  /** The mapping the docstring of `unpack` promises: every format error becomes a ValueError. */
  function UnpackIntended(fileLocation: string, extractDir: Option<string>, unpackArchive: UnpackCall -> UnpackOutcome)
    : (r: Result<bool, UnpackError>)
    ensures var outcome := unpackArchive(UnpackArgs(fileLocation, extractDir));
      && (r == Ok(true) <==> outcome == Unpacked)
      && (r == Err(ValueError) <==> outcome == ReadError)
      && (outcome.Failed? ==> r == Err(Reraised(outcome.error)))
  {
    match unpackArchive(UnpackArgs(fileLocation, extractDir))
    case Unpacked => Ok(true)
    case ReadError => Err(ValueError)
    case Failed(e) => Err(Reraised(e))
  }

  /** The two agree on every name with a dot; on a name without one, a format error escapes as the
      IndexError of the log message instead of the ValueError. */
  lemma UnpackAsWritten(fileLocation: string, extractDir: Option<string>, unpackArchive: UnpackCall -> UnpackOutcome)
    ensures '.' in fileLocation ==>
      Unpack(fileLocation, extractDir, unpackArchive) == UnpackIntended(fileLocation, extractDir, unpackArchive)
    ensures '.' !in fileLocation && unpackArchive(UnpackArgs(fileLocation, extractDir)) == ReadError ==>
      Unpack(fileLocation, extractDir, unpackArchive) == Err(IndexError)
      && UnpackIntended(fileLocation, extractDir, unpackArchive) == Err(ValueError)
  {
  }

  /** The input that shows it: an upload named "firmware" in a format `shutil` does not know. */
  lemma UnpackNoDotExample()
    ensures Unpack("firmware", None, _ => ReadError) == Err(IndexError)
    ensures UnpackIntended("firmware", None, _ => ReadError) == Err(ValueError)
  {
    var name := "firmware";
    assert '.' !in name by {
      forall i | 0 <= i < |name|
        ensures name[i] != '.'
      {
      }
    }
    assert SplitFirstDot(name).None?;
    assert UnpackArgs(name, None) == UnpackCall(name, None);
  }

  // ---------------------------------------------------------------------------------------------
  // make_zipfile: the entries of the archive

  /** One name of a walked directory's file list and whether it is a regular file. */
  datatype WalkFile = WalkFile(name: string, isRegular: bool)

  /** One step of `os.walk(source_dir)`: the directory, as the components below `source_dir`, and its files. */
  datatype WalkStep = WalkStep(sub: seq<string>, files: seq<WalkFile>)

  /** One `zip_.write(path, arcname)` call. */
  datatype ZipEntry = ZipEntry(path: string, arcname: string)

  /** The path `os.walk` reports for a directory below the source. */
  function RootPath(sourceDir: string, sub: seq<string>): string
    decreases |sub|
  {
    if sub == [] then sourceDir else Join(RootPath(sourceDir, sub[..|sub| - 1]), sub[|sub| - 1])
  }

  /** `os.path.relpath(root, relroot)` where `relroot` is the parent of the source directory,
      whose absolute components are `source`; the parent of "/" is "/" itself. */
  function RelName(source: seq<string>, sub: seq<string>): (r: string)
    ensures source != [] ==> |r| >= |source[|source| - 1]| && r[..|source[|source| - 1]|] == source[|source| - 1]
  {
    if source == [] then (if sub == [] then "." else JoinPath(sub))
    else JoinPath([source[|source| - 1]] + sub)
  }

  /** The absolute path of a list of components: "/" for the root. */
  function AbsPath(cs: seq<string>): string
  {
    "/" + JoinPath(cs)
  }

  /** `os.path.abspath(os.path.join(source_dir, os.pardir))` for the source with absolute components
      `source`: the path of its parent, and "/" for the root. */
  function ParentPath(source: seq<string>): string
  {
    if source == [] then "/" else AbsPath(source[..|source| - 1])
  }

  /** Names without '/' that are not empty: the components of a normalised path. */
  predicate Components(cs: seq<string>)
  {
    forall i :: 0 <= i < |cs| ==> cs[i] != [] && '/' !in cs[i]
  }

  /** The archive name of a directory is its path below the parent of the source: joined to that
      parent it gives the absolute path of the directory. */
  lemma RelNameUnderParent(source: seq<string>, sub: seq<string>)
    requires source != [] && Components(source) && Components(sub)
    ensures Join(ParentPath(source), RelName(source, sub)) == AbsPath(source + sub)
  {
    var n := |source|;
    var last := source[n - 1];
    var rel := JoinPath([last] + sub);
    assert rel[0] == last[0] && last[0] != '/';
    if n == 1 {
      assert source + sub == [last] + sub;
    } else {
      var init := source[..n - 1];
      forall i | 0 <= i < |init|
        ensures init[i] != [] && init[i][|init[i]| - 1] != '/'
      {
        assert init[i] == source[i];
      }
      JoinPathLast(init);
      var p := JoinPath(init);
      JoinRelative("/" + p, rel);
      assert source + sub == init + ([last] + sub);
      JoinPathConcat(init, [last] + sub);
      ConcatAssoc("/", p, "/" + rel);
      ConcatAssoc(p, "/", rel);
      ConcatAssoc("/" + p, "/", rel);
    }
  }

  /** The entries of the regular files of one walked directory, in listing order. */
  function FileEntries(root: string, rel: string, files: seq<WalkFile>): (r: seq<ZipEntry>)
    ensures |r| <= |files|
    decreases |files|
  {
    if files == [] then []
    else
      var f := files[|files| - 1];
      FileEntries(root, rel, files[..|files| - 1])
        + (if f.isRegular then [ZipEntry(Join(root, f.name), Join(rel, f.name))] else [])
  }

  /** The entries of the walk up to a step: per directory, the directory itself and then its files. */
  function ZipEntries(sourceDir: string, source: seq<string>, walk: seq<WalkStep>): seq<ZipEntry>
    decreases |walk|
  {
    if walk == [] then []
    else
      var s := walk[|walk| - 1];
      ZipEntries(sourceDir, source, walk[..|walk| - 1])
        + [ZipEntry(RootPath(sourceDir, s.sub), RelName(source, s.sub))]
        + FileEntries(RootPath(sourceDir, s.sub), RelName(source, s.sub), s.files)
  }

  /** `make_zipfile(output_filename, source_dir)` up to the bytes: the entries written, in order,
      and the returned name. `source` is the absolute form of `source_dir`, split into components. */
  method MakeZipfile(outputFilename: string, sourceDir: string, source: seq<string>, walk: seq<WalkStep>)
    returns (r: string, entries: seq<ZipEntry>)
    ensures r == outputFilename
    ensures entries == ZipEntries(sourceDir, source, walk)
  {
    entries := [];
    var n := 0;
    while n < |walk|
      invariant 0 <= n <= |walk|
      invariant entries == ZipEntries(sourceDir, source, walk[..n])
    {
      var root := RootPath(sourceDir, walk[n].sub);
      var rel := RelName(source, walk[n].sub);
      assert walk[..n + 1][..n] == walk[..n];
      entries := entries + [ZipEntry(root, rel)];
      ghost var before := entries;
      var files := walk[n].files;
      var k := 0;
      while k < |files|
        invariant 0 <= k <= |files|
        invariant entries == before + FileEntries(root, rel, files[..k])
      {
        assert files[..k + 1][..k] == files[..k];
        if files[k].isRegular {
          entries := entries + [ZipEntry(Join(root, files[k].name), Join(rel, files[k].name))];
        }
        k := k + 1;
      }
      assert files[..k] == files;
      n := n + 1;
    }
    assert walk[..n] == walk;
    r := outputFilename;
  }

  /** The number of regular files in one file list. */
  function Regular(files: seq<WalkFile>): nat
    decreases |files|
  {
    if files == [] then 0 else Regular(files[..|files| - 1]) + (if files[|files| - 1].isRegular then 1 else 0)
  }

  /** The number of regular files the whole walk lists. */
  function RegularInWalk(walk: seq<WalkStep>): nat
    decreases |walk|
  {
    if walk == [] then 0 else RegularInWalk(walk[..|walk| - 1]) + Regular(walk[|walk| - 1].files)
  }

  /** One entry per regular file of a directory, none for anything else. */
  lemma {:induction false} FileEntriesCount(root: string, rel: string, files: seq<WalkFile>)
    ensures |FileEntries(root, rel, files)| == Regular(files)
    decreases |files|
  {
    if files != [] {
      FileEntriesCount(root, rel, files[..|files| - 1]);
    }
  }

  /** `make_zipfile` writes one entry per walked directory and one per regular file. */
  lemma {:induction false} ZipEntriesCount(sourceDir: string, source: seq<string>, walk: seq<WalkStep>)
    ensures |ZipEntries(sourceDir, source, walk)| == |walk| + RegularInWalk(walk)
    decreases |walk|
  {
    if walk != [] {
      var s := walk[|walk| - 1];
      ZipEntriesCount(sourceDir, source, walk[..|walk| - 1]);
      FileEntriesCount(RootPath(sourceDir, s.sub), RelName(source, s.sub), s.files);
    }
  }

  /** The file entries of a directory are exactly its regular files, each named by joining it to the
      directory's path and to the directory's archive name. */
  lemma {:induction false} FileEntriesAre(root: string, rel: string, files: seq<WalkFile>, e: ZipEntry)
    ensures e in FileEntries(root, rel, files) <==>
      exists j :: 0 <= j < |files| && files[j].isRegular
        && e == ZipEntry(Join(root, files[j].name), Join(rel, files[j].name))
    decreases |files|
  {
    if files != [] {
      var init := files[..|files| - 1];
      FileEntriesAre(root, rel, init, e);
      assert forall j :: 0 <= j < |init| ==> init[j] == files[j];
    }
  }

  /** The archive name of a regular file is the path of its directory relative to the parent of the
      source, with the file name as one more component. */
  lemma ArcnameOfFile(source: seq<string>, sub: seq<string>, name: string)
    requires source != []
    requires forall i :: 0 <= i < |source| ==> source[i] != [] && source[i][|source[i]| - 1] != '/'
    requires forall i :: 0 <= i < |sub| ==> sub[i] != [] && sub[i][|sub[i]| - 1] != '/'
    requires name == [] || name[0] != '/'
    ensures Join(RelName(source, sub), name) == JoinPath([source[|source| - 1]] + sub + [name])
  {
    JoinPathSnoc([source[|source| - 1]] + sub, name);
  }
}
