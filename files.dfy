/** src/files.rs: the second classifier, which turns the files of a post
    folder into archive file records sorted by name (images with their
    dimensions from the cache, videos, everything else) and unpacks `zip`
    archives beside themselves. */
module Files {
  import opened Base
  import opened Utils
  import opened Cache
  import opened Capabilities
  import opened Sorting

  /** `post_archiver::ArchiveFile` as this classifier builds it. */
  datatype ArchiveFile =
    | Image(path: Path, filename: string, width: u32, height: u32)
    | Video(path: Path, filename: string)
    | File(path: Path, filename: string)

  /** `ArchiveFile::filename`, the key `collect_files` sorts by. */
  function FileNameOf(f: ArchiveFile): string {
    f.filename
  }

  /** The order `collect_files` sorts by is a total preorder. */
  lemma StrLeqTotalPreorder()
    ensures TotalPreorder(StrLeq)
  {
    forall a, b ensures StrLeq(a, b) || StrLeq(b, a) {
      StrLeqTotal(a, b);
    }
    forall a, b, c | StrLeq(a, b) && StrLeq(b, c) ensures StrLeq(a, c) {
      StrLeqTransitive(a, b, c);
    }
  }

  // ---------------------------------------------------------------------------
  // handle_file_mime

  /** What `imagesize::size` reports, each side truncated `as u32`, or (0, 0)
      when the probe fails. */
  function ProbedSize(probe: Option<(nat, nat)>): (s: Size)
    ensures probe.None? ==> s == (0, 0)
    ensures probe.Some? && probe.value.0 < U32_LIMIT && probe.value.1 < U32_LIMIT ==> s == probe.value
  {
    match probe
    case None => (0, 0)
    case Some(d) => (TruncateU32(d.0), TruncateU32(d.1))
  }

  /** `handle_file_mime` on the cache's map `inner`: the record of a file of
      a known MIME type, and the map afterwards. */
  function HandleMimeF(mime: MimeKind, file: DefinedFile, inner: map<Path, Size>, ignore: bool, probe: Path -> Option<(nat, nat)>): (r: (ArchiveFile, map<Path, Size>))
    ensures r.0.path == file.path && r.0.filename == file.Name()
    ensures r.0.Image? <==> mime == ImageMime
    ensures r.0.Video? <==> mime == VideoMime
  {
    match mime
    case ImageMime =>
      (match Lookup(inner, file.path)
       case Some(size) => (Image(file.path, file.Name(), size.0, size.1), inner)
       case None =>
         var size := ProbedSize(probe(file.path));
         (Image(file.path, file.Name(), size.0, size.1), Inserted(inner, ignore, file.path, size)))
    case VideoMime => (Video(file.path, file.Name()), inner)
    case OtherMime => (ArchiveFile.File(file.path, file.Name()), inner)
  }

  /** A cached size is used as it is, and the cache is not written. */
  lemma ImageCacheHit(file: DefinedFile, inner: map<Path, Size>, ignore: bool, probe: Path -> Option<(nat, nat)>)
    requires file.path in inner
    ensures HandleMimeF(ImageMime, file, inner, ignore, probe)
         == (Image(file.path, file.Name(), inner[file.path].0, inner[file.path].1), inner)
  {
  }

  /** On a miss, the probed size, or (0, 0) when the probe fails, is both
      recorded and inserted into the cache. */
  lemma ImageCacheMiss(file: DefinedFile, inner: map<Path, Size>, ignore: bool, probe: Path -> Option<(nat, nat)>)
    requires file.path !in inner
    ensures var size := ProbedSize(probe(file.path));
      HandleMimeF(ImageMime, file, inner, ignore, probe)
        == (Image(file.path, file.Name(), size.0, size.1), Inserted(inner, ignore, file.path, size))
  {
  }

  /** With a writable cache, the size an image is recorded with is what the
      cache answers for it afterwards, hit or miss. */
  lemma ImageSizeCached(file: DefinedFile, inner: map<Path, Size>, probe: Path -> Option<(nat, nat)>)
    ensures var r := HandleMimeF(ImageMime, file, inner, false, probe);
      r.0.Image? && Lookup(r.1, file.path) == Some((r.0.width, r.0.height))
  {
  }

  /** Videos become `Video`, every other known type `File`, and neither
      touches the cache. */
  lemma NonImageMime(mime: MimeKind, file: DefinedFile, inner: map<Path, Size>, ignore: bool, probe: Path -> Option<(nat, nat)>)
    requires mime != ImageMime
    ensures var r := HandleMimeF(mime, file, inner, ignore, probe);
      r.1 == inner && r.0 == (if mime == VideoMime then Video(file.path, file.Name()) else ArchiveFile.File(file.path, file.Name()))
  {
  }

  /** `handle_file_mime` with the cache object. */
  method HandleFileMime(mime: MimeKind, file: DefinedFile, cache: ImageCache, probe: Path -> Option<(nat, nat)>) returns (af: ArchiveFile)
    modifies cache
    ensures (af, cache.inner) == HandleMimeF(mime, file, old(cache.inner), cache.ignore, probe)
  {
    var filename := file.Name();
    match mime
    case ImageMime =>
      var size: Size;
      var cached := cache.Get(file.path);
      if cached.Some? {
        size := cached.value;
      } else {
        size := ProbedSize(probe(file.path));
        cache.Insert(file.path, size);
      }
      af := Image(file.path, filename, size.0, size.1);
    case VideoMime =>
      af := Video(file.path, filename);
    case OtherMime =>
      af := ArchiveFile.File(file.path, filename);
  }

  // ---------------------------------------------------------------------------
  // try_get_mime

  /** `try_get_mime`: the guessed type; when there is none, the file is
      recorded as a plain `File` and the caller stops. */
  method TryGetMime(file: DefinedFile, guess: Option<MimeKind>, result: seq<ArchiveFile>) returns (mime: Option<MimeKind>, after: seq<ArchiveFile>)
    ensures mime == guess
    ensures guess.Some? ==> after == result
    ensures guess.None? ==> after == result + [ArchiveFile.File(file.path, file.Name())]
  {
    if guess.Some? {
      return guess, result;
    }
    after := result + [ArchiveFile.File(file.path, file.Name())];
    mime := None;
  }

  // ---------------------------------------------------------------------------
  // try_extract

  /** The one extension `try_extract` unpacks. */
  predicate IsZip(p: Path) {
    |p| > 0 && Extension(p) == "zip"
  }

  /** An entry `try_extract` writes out: not a directory, not a `psd` file. */
  predicate Extracted(e: ZipEntry) {
    !e.isDir && Extension(e.path) !in ["psd"]
  }

  /** The entry path as `to_string_lossy` spells it, every '/' turned into '.'. */
  function DottedPath(path: Path): (r: string)
    ensures forall k :: 0 <= k < |r| ==> r[k] != '/'
  {
    ReplaceChar(JoinWith(path, '/'), '/', '.')
  }

  /** Where an entry is written: `<prefix>.<dotted entry path>` beside the
      archive. */
  function UnhashedPath(parent: Path, prefix: string, e: ZipEntry): (p: Path)
    ensures |p| == |parent| + 1 && p[..|parent|] == parent
    ensures p[|parent|] == prefix + "." + DottedPath(e.path)
  {
    parent + [prefix + "." + DottedPath(e.path)]
  }

  /** `try_extract`: the disk afterwards, and whether the source got through
      without panicking. Each written entry is handed to `collect_files` as
      a folder, whose `read_dir` of a file panics; so the first entry that is
      written is also the last, and it ends the run. */
  function TryExtractF(file: DefinedFile, disk: Disk, env: Env): (r: (Disk, bool))
  {
    if !IsZip(file.path) then (disk, true)
    else
      var parent := file.path[..|file.path| - 1];
      var prefix := NamePrefix(FileName(file.path));
      var marker := Marker(file.path);
      if disk.Exists(marker) then (disk, true)
      else
        match env.open(file.path)
        case None => (disk.MakeDir(marker), true)
        case Some(a) =>
          match Position(a.entries, Extracted, 0)
          case None => (disk.MakeDir(marker), true)
          case Some(i) =>
            var out := UnhashedPath(parent, prefix, a.entries[i]);
            if out in disk.dirs then (disk, false) else (disk.MakeFile(out), false)
  }

  method TryExtract(file: DefinedFile, disk: Disk, env: Env) returns (after: Disk, ok: bool)
    ensures (after, ok) == TryExtractF(file, disk, env)
  {
    if !IsZip(file.path) {
      return disk, true;
    }
    var parent := file.path[..|file.path| - 1];
    var prefix := NamePrefix(FileName(file.path));
    var marker := Marker(file.path);
    if disk.Exists(marker) {
      return disk, true;
    }
    var archive := env.open(file.path);
    if archive.None? {
      return disk.MakeDir(marker), true;
    }
    var es := archive.value.entries;
    var i := 0;
    while i < |es|
      invariant 0 <= i <= |es|
      invariant Position(es, Extracted, 0) == Position(es, Extracted, i)
    {
      var e := es[i];
      if e.isDir {
        i := i + 1;
        continue;
      }
      if Extension(e.path) in ["psd"] {
        i := i + 1;
        continue;
      }
      var out := parent + [prefix + "." + ReplaceChar(JoinWith(e.path, '/'), '/', '.')];
      if out in disk.dirs {
        return disk, false;
      }
      return disk.MakeFile(out), false;
    }
    return disk.MakeDir(marker), true;
  }

  /** Only `zip` files are touched. */
  lemma TryExtractOnlyZip(file: DefinedFile, disk: Disk, env: Env)
    requires !IsZip(file.path)
    ensures TryExtractF(file, disk, env) == (disk, true)
  {
  }

  /** An archive whose marker `parent/prefix` exists is left alone. */
  lemma TryExtractMarkerPresent(file: DefinedFile, disk: Disk, env: Env)
    requires IsZip(file.path) && disk.Exists(Marker(file.path))
    ensures TryExtractF(file, disk, env) == (disk, true)
  {
  }

  /** An archive that does not open, or has nothing but directories and
      `psd` files, only gets its marker. */
  lemma TryExtractOnlyMarker(file: DefinedFile, disk: Disk, env: Env)
    requires IsZip(file.path) && !disk.Exists(Marker(file.path))
    requires env.open(file.path).None? || forall j :: 0 <= j < |env.open(file.path).value.entries| ==> !Extracted(env.open(file.path).value.entries[j])
    ensures TryExtractF(file, disk, env) == (disk.MakeDir(Marker(file.path)), true)
  {
  }

  /** An archive with an entry to write gets that entry, the first one that
      is neither a directory nor a `psd` file, under its unhashed name
      (unless a directory is in the way), and the run ends in failure. */
  lemma TryExtractWritesFirst(file: DefinedFile, disk: Disk, env: Env, i: nat)
    requires IsZip(file.path) && !disk.Exists(Marker(file.path)) && env.open(file.path).Some?
    requires var es := env.open(file.path).value.entries;
      i < |es| && Extracted(es[i]) && forall j :: 0 <= j < i ==> !Extracted(es[j])
    ensures var out := UnhashedPath(file.path[..|file.path| - 1], NamePrefix(FileName(file.path)), env.open(file.path).value.entries[i]);
      TryExtractF(file, disk, env) == (if out in disk.dirs then disk else disk.MakeFile(out), false)
  {
    FirstExtractedAt(env.open(file.path).value.entries, i);
  }

  lemma FirstExtractedAt(es: seq<ZipEntry>, i: nat)
    requires i < |es| && Extracted(es[i]) && forall j :: 0 <= j < i ==> !Extracted(es[j])
    ensures Position(es, Extracted, 0) == Some(i)
  {
    PositionIs(es, Extracted, 0, i);
  }

  /** Such a run never creates the archive's marker. */
  lemma TryExtractWritesNoMarker(file: DefinedFile, disk: Disk, env: Env, i: nat)
    requires IsZip(file.path) && !disk.Exists(Marker(file.path)) && env.open(file.path).Some?
    requires var es := env.open(file.path).value.entries;
      i < |es| && Extracted(es[i]) && forall j :: 0 <= j < i ==> !Extracted(es[j])
    ensures !TryExtractF(file, disk, env).0.Exists(Marker(file.path))
  {
    TryExtractWritesFirst(file, disk, env, i);
    var out := UnhashedPath(file.path[..|file.path| - 1], NamePrefix(FileName(file.path)), env.open(file.path).value.entries[i]);
    assert |out[|out| - 1]| != |Marker(file.path)[|out| - 1]|;
  }

  /** `replace` distributes over concatenation. */
  lemma ReplaceCharAppend(a: string, b: string, from: char, to: char)
    ensures ReplaceChar(a + b, from, to) == ReplaceChar(a, from, to) + ReplaceChar(b, from, to)
  {
    var l, r := ReplaceChar(a + b, from, to), ReplaceChar(a, from, to) + ReplaceChar(b, from, to);
    forall k | 0 <= k < |l| ensures l[k] == r[k] {
      if k >= |a| { assert (a + b)[k] == b[k - |a|]; }
    }
  }

  /** For entry paths whose components contain no '/', the written name
      after the prefix is the components joined by '.'. */
  lemma {:induction false} DottedPathJoins(path: Path)
    requires forall k :: 0 <= k < |path| ==> '/' !in path[k]
    ensures DottedPath(path) == JoinWith(path, '.')
  {
    if |path| == 1 {
      assert ReplaceChar(path[0], '/', '.') == path[0];
    } else if |path| > 1 {
      var init, last := path[..|path| - 1], path[|path| - 1];
      DottedPathJoins(init);
      ReplaceCharAppend(JoinWith(init, '/') + ['/'], last, '/', '.');
      ReplaceCharAppend(JoinWith(init, '/'), ['/'], '/', '.');
      assert ReplaceChar(last, '/', '.') == last;
      assert ReplaceChar(['/'], '/', '.') == ['.'];
    }
  }

  // ---------------------------------------------------------------------------
  // match_file and collect_files

  /** The records so far, the cache's map, the disk, and whether the source
      got this far without panicking. */
  datatype Progress = Progress(result: seq<ArchiveFile>, inner: map<Path, Size>, disk: Disk, ok: bool)

  /** `match_file`: one entry of the folder listing. */
  function MatchFileF(result: seq<ArchiveFile>, inner: map<Path, Size>, ignore: bool, disk: Disk, file: DefinedFile, env: Env): (r: Progress)
  {
    if file.ty != FileType.File then Progress(result, inner, disk, true)
    else
      match env.guess(file.path)
      case None => Progress(result + [ArchiveFile.File(file.path, file.Name())], inner, disk, true)
      case Some(mime) =>
        var extracted := TryExtractF(file, disk, env);
        if !extracted.1 then Progress(result, inner, extracted.0, false)
        else
          var handled := HandleMimeF(mime, file, inner, ignore, env.probe);
          Progress(result + [handled.0], handled.1, extracted.0, true)
  }

  method MatchFile(file: DefinedFile, result: seq<ArchiveFile>, cache: ImageCache, env: Env, disk: Disk) returns (after: seq<ArchiveFile>, afterDisk: Disk, ok: bool)
    modifies cache
    ensures Progress(after, cache.inner, afterDisk, ok) == MatchFileF(result, old(cache.inner), cache.ignore, disk, file, env)
  {
    if file.ty != FileType.File {
      return result, disk, true;
    }
    var mime;
    mime, after := TryGetMime(file, env.guess(file.path), result);
    if mime.None? {
      return after, disk, true;
    }
    afterDisk, ok := TryExtract(file, disk, env);
    if !ok {
      return;
    }
    var af := HandleFileMime(mime.value, file, cache, env.probe);
    after := after + [af];
  }

  /** An unknown-type file is recorded once as `File`; nothing is unpacked
      and nothing else changes. */
  lemma MatchUnknownMime(result: seq<ArchiveFile>, inner: map<Path, Size>, ignore: bool, disk: Disk, file: DefinedFile, env: Env)
    requires file.ty == FileType.File && env.guess(file.path).None?
    ensures MatchFileF(result, inner, ignore, disk, file, env)
         == Progress(result + [ArchiveFile.File(file.path, file.Name())], inner, disk, true)
  {
  }

  /** A known-type file that gets through `try_extract` is recorded once,
      after every earlier record, as `handle_file_mime` classifies it; a
      `zip` is recorded itself, as a `File`, after its unpacking. */
  lemma MatchKnownMime(result: seq<ArchiveFile>, inner: map<Path, Size>, ignore: bool, disk: Disk, file: DefinedFile, env: Env)
    requires file.ty == FileType.File && env.guess(file.path).Some?
    ensures var r := MatchFileF(result, inner, ignore, disk, file, env);
      var h := HandleMimeF(env.guess(file.path).value, file, inner, ignore, env.probe);
      var x := TryExtractF(file, disk, env);
      && r.ok == x.1 && r.disk == x.0
      && (r.ok ==> r.result == result + [h.0] && r.inner == h.1)
  {
  }

  /** The fold of `match_file` over the first `k` files of a listing. */
  function MatchAllF(fs: seq<DefinedFile>, k: nat, inner: map<Path, Size>, ignore: bool, disk: Disk, env: Env): (r: Progress)
    requires k <= |fs|
  {
    if k == 0 then Progress([], inner, disk, true)
    else
      var r := MatchAllF(fs, k - 1, inner, ignore, disk, env);
      if !r.ok then r else MatchFileF(r.result, r.inner, ignore, r.disk, fs[k - 1], env)
  }

  lemma {:induction false} MatchAllFailStays(fs: seq<DefinedFile>, i: nat, k: nat, inner: map<Path, Size>, ignore: bool, disk: Disk, env: Env)
    requires i <= k <= |fs| && !MatchAllF(fs, i, inner, ignore, disk, env).ok
    ensures MatchAllF(fs, k, inner, ignore, disk, env) == MatchAllF(fs, i, inner, ignore, disk, env)
    decreases k
  {
    if k > i {
      MatchAllFailStays(fs, i, k - 1, inner, ignore, disk, env);
    }
  }

  /** `result` holds one record per file of `fs[..k]`, in order, each with
      the file's own path and name. */
  predicate RecordsOf(result: seq<ArchiveFile>, fs: seq<DefinedFile>, k: nat)
    requires k <= |fs|
  {
    |result| == k && forall j :: 0 <= j < k ==> result[j].path == fs[j].path && result[j].filename == fs[j].Name()
  }

  /** Before the sort, every file of the listing has exactly one record, in
      listing order. */
  lemma {:induction false} MatchAllRecordsEach(fs: seq<DefinedFile>, k: nat, inner: map<Path, Size>, ignore: bool, disk: Disk, env: Env)
    requires k <= |fs| && forall j :: 0 <= j < |fs| ==> fs[j].ty == FileType.File
    ensures var r := MatchAllF(fs, k, inner, ignore, disk, env);
      r.ok ==> RecordsOf(r.result, fs, k)
  {
    if k > 0 {
      MatchAllRecordsEach(fs, k - 1, inner, ignore, disk, env);
      var r := MatchAllF(fs, k - 1, inner, ignore, disk, env);
      if r.ok {
        MatchFileRecordsOne(r.result, r.inner, ignore, r.disk, fs, k - 1, env);
      }
    }
  }

  /** A file that `match_file` gets through adds exactly one record, its own. */
  lemma MatchFileRecordsOne(result: seq<ArchiveFile>, inner: map<Path, Size>, ignore: bool, disk: Disk, fs: seq<DefinedFile>, k: nat, env: Env)
    requires k < |fs| && fs[k].ty == FileType.File && RecordsOf(result, fs, k)
    ensures var r := MatchFileF(result, inner, ignore, disk, fs[k], env);
      r.ok ==> RecordsOf(r.result, fs, k + 1)
  {
  }

  /** `collect_files` on a post folder; a folder that cannot be listed makes
      `parse_dir` panic. */
  function CollectFilesF(post: DefinedFile, inner: map<Path, Size>, ignore: bool, disk: Disk, env: Env): (r: Progress)
  {
    match env.list(post.path)
    case None => Progress([], inner, disk, false)
    case Some(listing) =>
      var fs := Kept(listing, FileType.File);
      var r := MatchAllF(fs, |fs|, inner, ignore, disk, env);
      if !r.ok then r else r.(result := SortBy(r.result, FileNameOf, StrLeq))
  }

  method CollectFiles(post: DefinedFile, cache: ImageCache, env: Env, disk: Disk) returns (result: seq<ArchiveFile>, after: Disk, ok: bool)
    modifies cache
    ensures Progress(result, cache.inner, after, ok) == CollectFilesF(post, old(cache.inner), cache.ignore, disk, env)
  {
    var listing := env.list(post.path);
    if listing.None? {
      return [], disk, false;
    }
    var fs := ParseDir(listing.value, FileType.File);
    result, after := [], disk;
    var i := 0;
    while i < |fs|
      invariant 0 <= i <= |fs|
      invariant MatchAllF(fs, i, old(cache.inner), cache.ignore, disk, env) == Progress(result, cache.inner, after, true)
    {
      result, after, ok := MatchFile(fs[i], result, cache, env, after);
      if !ok {
        MatchAllFailStays(fs, i + 1, |fs|, old(cache.inner), cache.ignore, disk, env);
        return;
      }
      i := i + 1;
    }
    result := SortBy(result, FileNameOf, StrLeq);
    ok := true;
  }

  /** `collect_files` returns its records sorted by file name, the records
      of `match_file` exactly, and records of equal names in listing order. */
  lemma CollectFilesSorted(post: DefinedFile, inner: map<Path, Size>, ignore: bool, disk: Disk, env: Env, name: string)
    requires env.list(post.path).Some?
    ensures var fs := Kept(env.list(post.path).value, FileType.File);
      var m := MatchAllF(fs, |fs|, inner, ignore, disk, env);
      var r := CollectFilesF(post, inner, ignore, disk, env);
      r.ok ==>
        && SortedBy(r.result, FileNameOf, StrLeq)
        && multiset(r.result) == multiset(m.result)
        && Equivalents(r.result, name, FileNameOf, StrLeq) == Equivalents(m.result, name, FileNameOf, StrLeq)
  {
    var fs := Kept(env.list(post.path).value, FileType.File);
    var m := MatchAllF(fs, |fs|, inner, ignore, disk, env);
    StrLeqTotalPreorder();
    SortBySorted(m.result, FileNameOf, StrLeq);
    SortByStable(m.result, name, FileNameOf, StrLeq);
  }

  /** A successful `collect_files` has one record per non-hidden file of
      the folder. */
  lemma CollectFilesCount(post: DefinedFile, inner: map<Path, Size>, ignore: bool, disk: Disk, env: Env)
    requires env.list(post.path).Some?
    ensures var r := CollectFilesF(post, inner, ignore, disk, env);
      r.ok ==> |r.result| == |Kept(env.list(post.path).value, FileType.File)|
  {
    var listing := env.list(post.path).value;
    var fs := Kept(listing, FileType.File);
    forall j | 0 <= j < |fs| ensures fs[j].ty == FileType.File {
      KeptMembership(listing, FileType.File, fs[j]);
    }
    MatchAllRecordsEach(fs, |fs|, inner, ignore, disk, env);
  }

  // ---------------------------------------------------------------------------
  // get_thumb

  /** `get_thumb`'s loop over the first files: the index of the chosen image
      and the name it was chosen by, `""` while nothing is chosen. An empty
      name doubles as "unset", so an image named `""` is displaced by the
      next image whatever its name. */
  function ThumbScan(files: seq<ArchiveFile>): (r: (Option<nat>, string))
    ensures r.0.None? ==> r.1 == ""
    ensures r.0.Some? ==> r.0.value < |files| && files[r.0.value].Image? && r.1 == files[r.0.value].filename
  {
    if |files| == 0 then (None, "")
    else
      var prev := ThumbScan(files[..|files| - 1]);
      var f := files[|files| - 1];
      if f.Image? && (prev.1 == "" || StrLess(f.filename, prev.1)) then (Some(|files| - 1), f.filename)
      else prev
  }

  /** The path `get_thumb` returns. */
  function Thumb(files: seq<ArchiveFile>): Option<Path> {
    match ThumbScan(files).0
    case None => None
    case Some(i) => Some(files[i].path)
  }

  method GetThumb(files: seq<ArchiveFile>) returns (thumb: Option<Path>)
    ensures thumb == Thumb(files)
  {
    thumb := None;
    var newest := "";
    ghost var chosen: Option<nat> := None;
    var i := 0;
    while i < |files|
      invariant 0 <= i <= |files|
      invariant ThumbScan(files[..i]) == (chosen, newest)
      invariant chosen.Some? ==> chosen.value < i && thumb == Some(files[chosen.value].path)
      invariant chosen.None? ==> thumb == None
    {
      assert files[..i + 1][..i] == files[..i];
      var file := files[i];
      if file.Image? {
        var filename := file.filename;
        if newest == "" || StrLess(filename, newest) {
          newest := filename;
          thumb := Some(file.path);
          chosen := Some(i);
        }
      }
      i := i + 1;
    }
    assert files[..i] == files;
  }

  /** The empty name is below every other. */
  lemma EmptyLeast(b: string)
    requires b != ""
    ensures StrLess("", b)
  {
  }

  /** No image strictly after `lo` and up to `hi` has the empty name. */
  predicate NamedBetween(files: seq<ArchiveFile>, lo: nat, hi: nat) {
    forall m :: lo < m <= hi && m < |files| && files[m].Image? ==> files[m].filename != ""
  }

  /** What the scan `r` of the first `n` files keeps true: every empty-named
      image is at or before the chosen one; every later image has a name,
      and the chosen name is not above it; every named image before the
      chosen one, with no empty-named image between them, has a strictly
      greater name. */
  ghost predicate ScanFacts(files: seq<ArchiveFile>, n: nat, r: (Option<nat>, string)) {
    && (forall j :: 0 <= j < n && j < |files| && files[j].Image? && files[j].filename == "" ==>
          r.0.Some? && j <= r.0.value)
    && (forall j :: 0 <= j < n && j < |files| && files[j].Image? && (r.0.None? || r.0.value < j) ==>
          r.1 != "" && !StrLess(files[j].filename, r.1))
    && (r.0.Some? ==> forall j :: 0 <= j < r.0.value && j < |files| && files[j].Image? && files[j].filename != "" && NamedBetween(files, j, r.0.value) ==>
          StrLess(r.1, files[j].filename))
  }

  lemma {:induction false} ThumbScanFacts(files: seq<ArchiveFile>, n: nat)
    requires n <= |files|
    ensures ScanFacts(files, n, ThumbScan(files[..n]))
  {
    if n > 0 {
      ThumbScanFacts(files, n - 1);
      var prev := ThumbScan(files[..n - 1]);
      var f := files[n - 1];
      assert files[..n][..n - 1] == files[..n - 1];
      if f.Image? && (prev.1 == "" || StrLess(f.filename, prev.1)) {
        assert ThumbScan(files[..n]) == (Some(n - 1), f.filename);
        ThumbChosen(files, n - 1, prev);
      } else {
        assert ThumbScan(files[..n]) == prev;
        if f.Image? {
          assert prev.1 != "";
          if f.filename == "" { EmptyLeast(prev.1); }
        }
      }
    }
  }

  /** The step of `ThumbScanFacts` at which file `i` is chosen. */
  lemma ThumbChosen(files: seq<ArchiveFile>, i: nat, prev: (Option<nat>, string))
    requires i < |files| && ScanFacts(files, i, prev)
    requires prev.0.Some? ==> prev.0.value < i && files[prev.0.value].Image? && prev.1 == files[prev.0.value].filename
    requires prev.0.None? ==> prev.1 == ""
    requires files[i].Image? && (prev.1 == "" || StrLess(files[i].filename, prev.1))
    ensures ScanFacts(files, i + 1, (Some(i), files[i].filename))
  {
    var f := files[i];
    forall j | 0 <= j < i && files[j].Image? && files[j].filename != "" && NamedBetween(files, j, i)
      ensures StrLess(f.filename, files[j].filename)
    {
      if prev.0.None? || prev.0.value < j {
        StrLessTrichotomy(files[j].filename, prev.1);
        if StrLess(prev.1, files[j].filename) {
          StrLessTransitive(f.filename, prev.1, files[j].filename);
        }
      } else if prev.0.value != j {
        assert NamedBetween(files, j, prev.0.value);
        StrLessTransitive(f.filename, prev.1, files[j].filename);
      }
    }
  }

  /** The facts for the whole list. */
  lemma ThumbFacts(files: seq<ArchiveFile>)
    ensures ScanFacts(files, |files|, ThumbScan(files))
  {
    ThumbScanFacts(files, |files|);
    assert files[..|files|] == files;
  }

  /** `get_thumb` returns `None` exactly when there is no image. */
  lemma ThumbNone(files: seq<ArchiveFile>)
    ensures Thumb(files).None? <==> forall j :: 0 <= j < |files| ==> !files[j].Image?
  {
    ThumbFacts(files);
  }

  /** Without empty names, `get_thumb` returns the path of the first image of
      smallest name: no image has a smaller name, and every earlier image a
      strictly greater one. */
  lemma ThumbFirstSmallest(files: seq<ArchiveFile>)
    requires forall j :: 0 <= j < |files| && files[j].Image? ==> files[j].filename != ""
    ensures Thumb(files).Some? ==>
      var i := ThumbScan(files).0.value;
      && Thumb(files) == Some(files[i].path) && files[i].Image?
      && (forall j :: 0 <= j < |files| && files[j].Image? ==> StrLeq(files[i].filename, files[j].filename))
      && (forall j :: 0 <= j < i && files[j].Image? ==> StrLess(files[i].filename, files[j].filename))
  {
    ThumbFacts(files);
    if Thumb(files).Some? {
      var i := ThumbScan(files).0.value;
      forall j | 0 <= j < |files| && files[j].Image? ensures StrLeq(files[i].filename, files[j].filename) {
        if j < i {
          StrLessAsymmetric(files[i].filename, files[j].filename);
        } else if j == i {
          StrLessIrreflexive(files[i].filename);
        }
      }
    }
  }

  /** The sentinel quirk: an image named `""` followed by any other image is
      never the thumbnail. */
  lemma ThumbEmptyDisplaced(files: seq<ArchiveFile>, j: nat, k: nat)
    requires j < k < |files| && files[j].Image? && files[j].filename == "" && files[k].Image?
    ensures ThumbScan(files).0.Some? && ThumbScan(files).0.value > j
  {
    ThumbEmptyChosenOrLater(files, j);
    var r := ThumbScan(files);
    if r.0.value == j {
      ThumbLaterNamed(files, k);
    }
  }

  /** Every empty-named image is at or before the thumbnail. */
  lemma ThumbEmptyChosenOrLater(files: seq<ArchiveFile>, j: nat)
    requires j < |files| && files[j].Image? && files[j].filename == ""
    ensures ThumbScan(files).0.Some? && j <= ThumbScan(files).0.value
  {
    ThumbFacts(files);
  }

  /** Every image after the thumbnail has a name, as the thumbnail does. */
  lemma ThumbLaterNamed(files: seq<ArchiveFile>, k: nat)
    requires k < |files| && files[k].Image?
    requires ThumbScan(files).0.None? || ThumbScan(files).0.value < k
    ensures ThumbScan(files).1 != ""
  {
    ThumbFacts(files);
  }
}
