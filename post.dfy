/** src/post.rs: a post folder and the first classifier, which sorts a
    post's files into video, other and image buckets and expands
    `zip`/`7z`/`tar` containers into hashed sibling files. */
module Post {
  import opened Base
  import opened Utils
  import opened Cache
  import opened Capabilities

  /** The current contents of a `PostFiles`. */
  datatype Files = Files(videos: seq<DefinedFile>, others: seq<DefinedFile>, images: seq<(DefinedFile, Size)>) {
    /** `PostFiles::len`. */
    function Len(): (n: nat)
    {
      |videos| + |others| + |images|
    }

    /** `PostFiles::collect_all`: the videos, then the others, then the image
        files, each bucket in its own order. */
    function CollectAll(): (r: seq<DefinedFile>)
      ensures |r| == Len()
      ensures r[..|videos|] == videos
      ensures r[|videos|..|videos| + |others|] == others
      ensures forall k :: 0 <= k < |images| ==> r[|videos| + |others| + k] == images[k].0
    {
      videos + others + ImageFiles(images)
    }

    /** Every bucket of `this` is a prefix of the same bucket of `later`. */
    predicate ExtendsTo(later: Files) {
      videos <= later.videos && others <= later.others && images <= later.images
    }
  }

  function ImageFiles(images: seq<(DefinedFile, Size)>): (r: seq<DefinedFile>)
    ensures |r| == |images|
    ensures forall k :: 0 <= k < |images| ==> r[k] == images[k].0
  {
    if |images| == 0 then [] else ImageFiles(images[..|images| - 1]) + [images[|images| - 1].0]
  }

  const NoFiles: Files := Files([], [], [])

  /** A post folder: its name `<10-byte date>-<title>`, its path and its
      classified files. */
  datatype Post = Post(filename: string, path: Path, files: Files) {
    /** `Post::name`: the folder name from byte offset 11 on; `None` where
        the slice panics, because offset 11 is past the end or inside a
        character. */
    function Name(): (r: Option<string>)
      ensures r.None? <==> forall k :: 0 <= k <= |filename| ==> Utf8Len(filename[..k]) != 11
      ensures r.Some? ==>
        && |r.value| <= |filename| && r.value == filename[|filename| - |r.value|..]
        && Utf8Len(filename[..|filename| - |r.value|]) == 11
    {
      match CharBoundary(filename, 11, 0)
      case None => None
      case Some(k) => Some(filename[k..])
    }

    /** `Post::date`: the first ten bytes, taken as they are; `None` where the
        slice panics. */
    function Date(): (r: Option<string>)
      ensures r.None? <==> forall k :: 0 <= k <= |filename| ==> Utf8Len(filename[..k]) != 10
      ensures r.Some? ==> |r.value| <= |filename| && r.value == filename[..|r.value|] && Utf8Len(r.value) == 10
    {
      match CharBoundary(filename, 10, 0)
      case None => None
      case Some(k) => Some(filename[..k])
    }

    /** Both slices of the folder name succeed. */
    predicate Sliceable() {
      Name().Some? && Date().Some?
    }
  }

  /** The folder name is its date, one ASCII separator character and its
      name; no part of it is checked to be a date or a separator. */
  lemma DateSeparatorName(p: Post)
    requires p.Sliceable()
    ensures var d, n := p.Date().value, p.Name().value;
      && |d| < |p.filename| && p.filename == d + [p.filename[|d|]] + n
      && (p.filename[|d|] as int) < 0x80
  {
    var s := p.filename;
    var d, n := p.Date().value, p.Name().value;
    var k, m := |d|, |s| - |n|;
    assert s[..k] == d;
    if m <= k {
      if m < k { Utf8LenIncreasing(s, m, k); }
      assert false;
    }
    Utf8LenStep(s, k);
    if m > k + 1 {
      Utf8LenIncreasing(s, k + 1, m);
      assert false;
    }
    assert s == s[..k] + [s[k]] + s[k + 1..];
  }

  /** With an ASCII start, the date is the first ten characters and the name
      everything after the eleventh. */
  lemma AsciiDateName(p: Post)
    requires |p.filename| >= 11 && forall i :: 0 <= i < 11 ==> (p.filename[i] as int) < 0x80
    ensures p.Date() == Some(p.filename[..10]) && p.Name() == Some(p.filename[11..])
  {
    var s := p.filename;
    AsciiUtf8Len(s, 10);
    AsciiUtf8Len(s, 11);
    var k := CharBoundary(s, 10, 0).value;
    if k < 10 { Utf8LenIncreasing(s, k, 10); }
    if k > 10 { Utf8LenIncreasing(s, 10, k); }
    var m := CharBoundary(s, 11, 0).value;
    if m < 11 { Utf8LenIncreasing(s, m, 11); }
    if m > 11 { Utf8LenIncreasing(s, 11, m); }
  }

  /** A folder name shorter than 11 bytes makes `name` panic. */
  lemma ShortNamePanics(p: Post)
    requires Utf8Len(p.filename) < 11
    ensures p.Name().None?
  {
    var s := p.filename;
    forall k | 0 <= k <= |s| ensures Utf8Len(s[..k]) != 11 {
      assert s[..|s|] == s;
      if k < |s| { Utf8LenIncreasing(s, k, |s|); }
    }
  }

  /** The extensions this classifier treats as containers. */
  predicate IsContainer(p: Path) {
    |p| > 0 && Extension(p) in ["zip", "7z", "tar"]
  }

  /** The bucket a file of a known MIME type goes to; images get (0, 0). */
  function Classified(files: Files, file: DefinedFile, mime: MimeKind): (r: Files)
    ensures r.Len() == files.Len() + 1
    ensures files.ExtendsTo(r)
  {
    match mime
    case ImageMime => files.(images := files.images + [(file, (0, 0))])
    case VideoMime => files.(videos := files.videos + [file])
    case OtherMime => files.(others := files.others + [file])
  }

  /** `file` was the last file put into the bucket of `mime`. */
  predicate LastRecorded(files: Files, file: DefinedFile, mime: MimeKind) {
    match mime
    case ImageMime => |files.images| > 0 && files.images[|files.images| - 1] == (file, (0, 0))
    case VideoMime => |files.videos| > 0 && files.videos[|files.videos| - 1] == file
    case OtherMime => |files.others| > 0 && files.others[|files.others| - 1] == file
  }

  /** The name the classifier gives an archive entry's contents, after the
      container's prefix: `<cyrb53 of the entry path>.<entry extension>`,
      with any '/' turned into '.'. */
  function EntryName(path: Path): (r: string)
    ensures forall i :: 0 <= i < |r| ==> r[i] != '/'
  {
    ReplaceChar(Cyrb53(JoinWith(path, '/')) + "." + Extension(path), '/', '.')
  }

  /** The replacement changes nothing when the entry's last component holds no
      '/': the name is then the hash, a '.', and the entry's extension. */
  lemma EntryNamePlain(path: Path)
    requires forall k :: 0 <= k < |FileName(path)| ==> FileName(path)[k] != '/'
    ensures EntryName(path) == Cyrb53(JoinWith(path, '/')) + "." + Extension(path)
  {
    var h, e := Cyrb53(JoinWith(path, '/')), Extension(path);
    var s := h + "." + e;
    Cyrb53Format(JoinWith(path, '/'));
    forall k | 0 <= k < |e| ensures e[k] != '/' {
      var name := FileName(path);
      var i :| 0 < i < |name| && name[i] == '.' && e == name[i + 1..];
      assert e[k] == name[i + 1 + k];
    }
    forall k | 0 <= k < |s| ensures s[k] != '/' {
      if k < |h| { assert s[k] == h[k]; }
      else if k > |h| { assert s[k] == e[k - |h| - 1]; }
    }
    assert ReplaceChar(s, '/', '.') == s;
  }

  /** Where an archive entry is written: `<prefix>.<name>` beside the
      container. The classifier names entries with `EntryName`; the
      properties below hold for any naming. */
  function ExtractedPath(parent: Path, prefix: string, e: ZipEntry, naming: Path -> string): (p: Path)
    ensures |p| == |parent| + 1 && p[..|parent|] == parent
  {
    parent + [prefix + "." + naming(e.path)]
  }

  /** Buckets and disk after one step, and whether the source got through it
      without panicking. */
  datatype Outcome = Outcome(files: Files, disk: Disk, ok: bool)

  /** `PostFiles::add` on a file whose bytes decode as `contents`. */
  function AddFileF(files: Files, disk: Disk, file: DefinedFile, contents: Option<Archive>, env: Env, naming: Path -> string): Outcome
    decreases contents, 0
  {
    match env.guess(file.path)
    case None => Outcome(files.(others := files.others + [file]), disk, true)
    case Some(mime) =>
      if IsContainer(file.path) && !disk.Exists(Marker(file.path)) then
        var marker := Marker(file.path);
        match contents
        case None => Outcome(files, disk.MakeDir(marker), true)
        case Some(a) =>
          var r := ExpandF(files, disk, file.path[..|file.path| - 1], NamePrefix(FileName(file.path)), a, |a.entries|, env, naming);
          if !r.ok then r
          else if r.disk.Exists(marker) then Outcome(r.files, r.disk, false)
          else Outcome(Classified(r.files, file, mime), r.disk.MakeDir(marker), true)
      else Outcome(Classified(files, file, mime), disk, true)
  }

  /** The extraction loop over the first `k` entries of an opened container. */
  function ExpandF(files: Files, disk: Disk, parent: Path, prefix: string, a: Archive, k: nat, env: Env, naming: Path -> string): Outcome
    requires k <= |a.entries|
    decreases a, k
  {
    if k == 0 then Outcome(files, disk, true)
    else ExpandStep(ExpandF(files, disk, parent, prefix, a, k - 1, env, naming), parent, prefix, a, k - 1, env, naming)
  }

  /** One turn of the extraction loop, on entry `j`: directories are skipped,
      a directory already at the output path makes `File::create` panic, and
      the written file is added in turn. */
  function ExpandStep(r: Outcome, parent: Path, prefix: string, a: Archive, j: nat, env: Env, naming: Path -> string): Outcome
    requires j < |a.entries|
    decreases a, j
  {
    var e := a.entries[j];
    assert e in a.entries;
    if !r.ok || e.isDir then r
    else
      var out := ExtractedPath(parent, prefix, e, naming);
      if out in r.disk.dirs then Outcome(r.files, r.disk, false)
      else AddFileF(r.files, r.disk.MakeFile(out), DefinedFile(out, File), e.contents, env, naming)
  }

  /** The loop of the folder case over the first `k` listed files. */
  function AddAllF(files: Files, disk: Disk, fs: seq<DefinedFile>, k: nat, env: Env, naming: Path -> string): Outcome
    requires k <= |fs|
  {
    if k == 0 then Outcome(files, disk, true)
    else
      var r := AddAllF(files, disk, fs, k - 1, env, naming);
      if !r.ok then r
      else AddFileF(r.files, r.disk, fs[k - 1], env.open(fs[k - 1].path), env, naming)
  }

  /** `PostFiles::add`: a file is classified; a folder has its immediate
      non-hidden files classified, and a folder that cannot be read panics. */
  function AddF(files: Files, disk: Disk, file: DefinedFile, env: Env, naming: Path -> string): Outcome
    requires file.ty != Both
  {
    if file.ty == File then AddFileF(files, disk, file, env.open(file.path), env, naming)
    else
      match env.list(file.path)
      case None => Outcome(files, disk, false)
      case Some(listing) =>
        var fs := Kept(listing, File);
        AddAllF(files, disk, fs, |fs|, env, naming)
  }

  lemma {:induction false} ExpandFailStays(files: Files, disk: Disk, parent: Path, prefix: string, a: Archive, i: nat, k: nat, env: Env, naming: Path -> string)
    requires i <= k <= |a.entries|
    requires !ExpandF(files, disk, parent, prefix, a, i, env, naming).ok
    ensures ExpandF(files, disk, parent, prefix, a, k, env, naming) == ExpandF(files, disk, parent, prefix, a, i, env, naming)
  {
    if k > i { ExpandFailStays(files, disk, parent, prefix, a, i, k - 1, env, naming); }
  }

  lemma {:induction false} AddAllFailStays(files: Files, disk: Disk, fs: seq<DefinedFile>, i: nat, k: nat, env: Env, naming: Path -> string)
    requires i <= k <= |fs|
    requires !AddAllF(files, disk, fs, i, env, naming).ok
    ensures AddAllF(files, disk, fs, k, env, naming) == AddAllF(files, disk, fs, i, env, naming)
  {
    if k > i { AddAllFailStays(files, disk, fs, i, k - 1, env, naming); }
  }

  class PostFiles {
    var videos: seq<DefinedFile>
    var others: seq<DefinedFile>
    var images: seq<(DefinedFile, Size)>

    function Value(): Files
      reads this
    {
      Files(videos, others, images)
    }

    /** `PostFiles::new`: every bucket empty. */
    constructor ()
      ensures Value() == NoFiles && Value().Len() == 0
    {
      videos, others, images := [], [], [];
    }

    /** The final `match mime.type_()` of `add`. */
    method Record(file: DefinedFile, mime: MimeKind)
      modifies this
      ensures Value() == Classified(old(Value()), file, mime)
    {
      match mime
      case ImageMime => images := images + [(file, (0, 0))];
      case VideoMime => videos := videos + [file];
      case OtherMime => others := others + [file];
    }

    /** The `FileType::File` arm of `add`, for a file whose bytes decode as
        `contents`; `ok` is false where the source panics. */
    method AddFile(file: DefinedFile, contents: Option<Archive>, env: Env, disk: Disk) returns (after: Disk, ok: bool)
      modifies this
      ensures Outcome(Value(), after, ok) == AddFileF(old(Value()), disk, file, contents, env, EntryName)
      decreases contents, 0
    {
      var mime := env.guess(file.path);
      if mime.None? {
        others := others + [file];
        return disk, true;
      }
      if IsContainer(file.path) {
        var parent := file.path[..|file.path| - 1];
        var prefix := NamePrefix(FileName(file.path));
        var marker := parent + [prefix];
        if !disk.Exists(marker) {
          if contents.None? {
            return disk.MakeDir(marker), true;
          }
          var a := contents.value;
          after := disk;
          var i := 0;
          while i < |a.entries|
            invariant 0 <= i <= |a.entries|
            invariant ExpandF(old(Value()), disk, parent, prefix, a, i, env, EntryName) == Outcome(Value(), after, true)
          {
            var e := a.entries[i];
            assert e in a.entries;
            if e.isDir {
              i := i + 1;
              continue;
            }
            var digest := ComputeCyrb53(JoinWith(e.path, '/'));
            var out := parent + [prefix + "." + ReplaceChar(digest + "." + Extension(e.path), '/', '.')];
            if out in after.dirs {
              ExpandFailStays(old(Value()), disk, parent, prefix, a, i + 1, |a.entries|, env, EntryName);
              return after, false;
            }
            after, ok := AddFile(DefinedFile(out, File), e.contents, env, after.MakeFile(out));
            if !ok {
              ExpandFailStays(old(Value()), disk, parent, prefix, a, i + 1, |a.entries|, env, EntryName);
              return after, false;
            }
            i := i + 1;
          }
          if after.Exists(marker) {
            return after, false;
          }
          Record(file, mime.value);
          return after.MakeDir(marker), true;
        }
      }
      Record(file, mime.value);
      return disk, true;
    }

    /** `PostFiles::add`, which is never called with `FileType::Both`. */
    method Add(file: DefinedFile, env: Env, disk: Disk) returns (after: Disk, ok: bool)
      requires file.ty != Both
      modifies this
      ensures Outcome(Value(), after, ok) == AddF(old(Value()), disk, file, env, EntryName)
    {
      if file.ty == File {
        after, ok := AddFile(file, env.open(file.path), env, disk);
        return;
      }
      var listing := env.list(file.path);
      if listing.None? {
        return disk, false;
      }
      var fs := ParseDir(listing.value, File);
      after := disk;
      var i := 0;
      while i < |fs|
        invariant 0 <= i <= |fs|
        invariant AddAllF(old(Value()), disk, fs, i, env, EntryName) == Outcome(Value(), after, true)
      {
        after, ok := AddFile(fs[i], env.open(fs[i].path), env, after);
        if !ok {
          AddAllFailStays(old(Value()), disk, fs, i + 1, |fs|, env, EntryName);
          return after, false;
        }
        i := i + 1;
      }
      return after, true;
    }
  }

  /** `From<DefinedFile> for Post`, which asserts that it is given a folder. */
  method PostOf(folder: DefinedFile, env: Env, disk: Disk) returns (post: Post, after: Disk, ok: bool)
    requires folder.ty == Folder
    ensures var r := AddF(NoFiles, disk, folder, env, EntryName);
      post == Post(folder.Name(), folder.path, r.files) && after == r.disk && ok == r.ok
  {
    var files := new PostFiles();
    after, ok := files.Add(folder, env, disk);
    post := Post(folder.Name(), folder.path, files.Value());
  }

  // ---------------------------------------------------------------------------
  // Properties of the classifier

  /** A file of unknown MIME type goes to `others` and nothing else changes. */
  lemma AddUnknownMime(files: Files, disk: Disk, file: DefinedFile, contents: Option<Archive>, env: Env, naming: Path -> string)
    requires env.guess(file.path).None?
    ensures AddFileF(files, disk, file, contents, env, naming)
         == Outcome(files.(others := files.others + [file]), disk, true)
  {
  }

  /** A known-MIME file that is not expanded (no container extension, or its
      marker already there) adds exactly one record, to its bucket. */
  lemma AddKnownNotExpanded(files: Files, disk: Disk, file: DefinedFile, contents: Option<Archive>, env: Env, naming: Path -> string)
    requires env.guess(file.path).Some?
    requires !IsContainer(file.path) || disk.Exists(Marker(file.path))
    ensures AddFileF(files, disk, file, contents, env, naming)
         == Outcome(Classified(files, file, env.guess(file.path).value), disk, true)
  {
  }

  /** A container that does not open only gets its marker: it is not itself
      recorded. */
  lemma AddOpenFailure(files: Files, disk: Disk, file: DefinedFile, env: Env, naming: Path -> string)
    requires env.guess(file.path).Some? && IsContainer(file.path)
    requires !disk.Exists(Marker(file.path))
    ensures AddFileF(files, disk, file, None, env, naming) == Outcome(files, disk.MakeDir(Marker(file.path)), true)
  {
  }

  /** An expanded container is recorded after its entries and leaves its
      marker directory behind. */
  lemma AddExpandedRecordsSelf(files: Files, disk: Disk, file: DefinedFile, a: Archive, env: Env, naming: Path -> string)
    requires env.guess(file.path).Some? && IsContainer(file.path)
    requires !disk.Exists(Marker(file.path))
    ensures var r := AddFileF(files, disk, file, Some(a), env, naming);
      r.ok ==> LastRecorded(r.files, file, env.guess(file.path).value) && Marker(file.path) in r.disk.dirs
  {
  }

  /** Adding only ever appends to the buckets and creates files and
      directories. */
  lemma {:induction false} AddFileGrows(files: Files, disk: Disk, file: DefinedFile, contents: Option<Archive>, env: Env, naming: Path -> string)
    ensures var r := AddFileF(files, disk, file, contents, env, naming);
      r.ok ==> files.ExtendsTo(r.files) && disk.GrowsTo(r.disk)
    decreases contents, 0
  {
    match env.guess(file.path)
    case None =>
    case Some(mime) =>
      if IsContainer(file.path) && !disk.Exists(Marker(file.path)) {
        match contents
        case None =>
        case Some(a) =>
          ExpandGrows(files, disk, file.path[..|file.path| - 1], NamePrefix(FileName(file.path)), a, |a.entries|, env, naming);
      }
  }

  lemma {:induction false} ExpandGrows(files: Files, disk: Disk, parent: Path, prefix: string, a: Archive, k: nat, env: Env, naming: Path -> string)
    requires k <= |a.entries|
    ensures var r := ExpandF(files, disk, parent, prefix, a, k, env, naming);
      r.ok ==> files.ExtendsTo(r.files) && disk.GrowsTo(r.disk)
    decreases a, k
  {
    if k > 0 {
      var r := ExpandF(files, disk, parent, prefix, a, k - 1, env, naming);
      var s := ExpandStep(r, parent, prefix, a, k - 1, env, naming);
      assert ExpandF(files, disk, parent, prefix, a, k, env, naming) == s;
      ExpandGrows(files, disk, parent, prefix, a, k - 1, env, naming);
      StepGrows(r, parent, prefix, a, k - 1, env, naming);
      if s.ok {
        ExtendsTransitive(files, r.files, s.files);
      }
    }
  }

  lemma ExtendsTransitive(a: Files, b: Files, c: Files)
    requires a.ExtendsTo(b) && b.ExtendsTo(c)
    ensures a.ExtendsTo(c)
  {
  }

  /** One extraction step only appends and creates, and a file entry it gets
      through has been written. */
  lemma {:induction false} StepGrows(r: Outcome, parent: Path, prefix: string, a: Archive, j: nat, env: Env, naming: Path -> string)
    requires j < |a.entries|
    ensures var s := ExpandStep(r, parent, prefix, a, j, env, naming);
      s.ok ==>
        && r.ok && r.files.ExtendsTo(s.files) && r.disk.GrowsTo(s.disk)
        && (!a.entries[j].isDir ==> ExtractedPath(parent, prefix, a.entries[j], naming) in s.disk.files)
    decreases a, j
  {
    var e := a.entries[j];
    assert e in a.entries;
    if r.ok && !e.isDir {
      var out := ExtractedPath(parent, prefix, e, naming);
      if out !in r.disk.dirs {
        AddFileGrows(r.files, r.disk.MakeFile(out), DefinedFile(out, File), e.contents, env, naming);
      }
    }
  }

  /** Every file entry of an expanded container has been written, under its
      hashed name, beside the container. */
  lemma {:induction false} ExpandWritesEntries(files: Files, disk: Disk, parent: Path, prefix: string, a: Archive, k: nat, env: Env, naming: Path -> string)
    requires k <= |a.entries|
    ensures var r := ExpandF(files, disk, parent, prefix, a, k, env, naming);
      r.ok ==> forall j :: 0 <= j < k && !a.entries[j].isDir ==> ExtractedPath(parent, prefix, a.entries[j], naming) in r.disk.files
  {
    if k > 0 {
      var r := ExpandF(files, disk, parent, prefix, a, k - 1, env, naming);
      var s := ExpandStep(r, parent, prefix, a, k - 1, env, naming);
      assert ExpandF(files, disk, parent, prefix, a, k, env, naming) == s;
      ExpandWritesEntries(files, disk, parent, prefix, a, k - 1, env, naming);
      StepGrows(r, parent, prefix, a, k - 1, env, naming);
      if s.ok {
        forall j | 0 <= j < k && !a.entries[j].isDir
          ensures ExtractedPath(parent, prefix, a.entries[j], naming) in s.disk.files
        {
          if j < k - 1 {
            assert ExtractedPath(parent, prefix, a.entries[j], naming) in r.disk.files;
          }
        }
      }
    }
  }

  /** The file prefix of an extracted entry's name is the container's prefix,
      so a nested container shares the outer container's marker. */
  lemma NestedMarker(parent: Path, prefix: string, e: ZipEntry, naming: Path -> string)
    requires |prefix| > 0 && forall j :: 0 < j < |prefix| ==> prefix[j] != '.'
    ensures Marker(ExtractedPath(parent, prefix, e, naming)) == parent + [prefix]
  {
    var out := ExtractedPath(parent, prefix, e, naming);
    var name := FileName(out);
    assert name[|prefix|] == '.';
    assert name[..|prefix|] == prefix;
    var i := IndexOfFrom(name, '.', 1);
    if |prefix| == 1 {
      assert i == Some(1);
    } else {
      assert i.Some? && i.value == |prefix|;
    }
  }

  /** An archive entry of a container type that has a MIME type. */
  predicate NestedContainer(env: Env, naming: Path -> string, parent: Path, prefix: string, e: ZipEntry) {
    !e.isDir && IsContainer(ExtractedPath(parent, prefix, e, naming)) && env.guess(ExtractedPath(parent, prefix, e, naming)).Some?
  }

  /** The step that handles a nested container leaves the shared marker. */
  lemma StepMarksNested(r: Outcome, parent: Path, prefix: string, a: Archive, j: nat, env: Env, naming: Path -> string)
    requires |prefix| > 0 && forall i :: 0 < i < |prefix| ==> prefix[i] != '.'
    requires j < |a.entries| && NestedContainer(env, naming, parent, prefix, a.entries[j])
    ensures var s := ExpandStep(r, parent, prefix, a, j, env, naming);
      s.ok ==> s.disk.Exists(parent + [prefix])
  {
    var e := a.entries[j];
    var out := ExtractedPath(parent, prefix, e, naming);
    NestedMarker(parent, prefix, e, naming);
    if r.ok && out !in r.disk.dirs {
      AddContainerMarks(r.files, r.disk.MakeFile(out), DefinedFile(out, File), e.contents, env, naming);
    }
  }

  /** Whatever happens to a container of a known MIME type, if it gets
      through, its marker exists afterwards. */
  lemma AddContainerMarks(files: Files, disk: Disk, file: DefinedFile, contents: Option<Archive>, env: Env, naming: Path -> string)
    requires env.guess(file.path).Some? && IsContainer(file.path)
    ensures var s := AddFileF(files, disk, file, contents, env, naming);
      s.ok ==> s.disk.Exists(Marker(file.path))
  {
  }

  /** Nothing that exists after `i` extraction steps has gone after `k`, if
      the loop gets that far. */
  lemma {:induction false} ExpandKeeps(files: Files, disk: Disk, parent: Path, prefix: string, a: Archive, i: nat, k: nat, env: Env, naming: Path -> string)
    requires i <= k <= |a.entries|
    ensures var r := ExpandF(files, disk, parent, prefix, a, k, env, naming);
      r.ok ==> ExpandF(files, disk, parent, prefix, a, i, env, naming).disk.GrowsTo(r.disk)
  {
    if k > i {
      var r := ExpandF(files, disk, parent, prefix, a, k - 1, env, naming);
      var s := ExpandStep(r, parent, prefix, a, k - 1, env, naming);
      assert ExpandF(files, disk, parent, prefix, a, k, env, naming) == s;
      ExpandKeeps(files, disk, parent, prefix, a, i, k - 1, env, naming);
      StepGrows(r, parent, prefix, a, k - 1, env, naming);
      if s.ok {
        GrowsTransitive(ExpandF(files, disk, parent, prefix, a, i, env, naming).disk, r.disk, s.disk);
      }
    }
  }

  lemma GrowsTransitive(a: Disk, b: Disk, c: Disk)
    requires a.GrowsTo(b) && b.GrowsTo(c)
    ensures a.GrowsTo(c)
  {
  }

  lemma MarksAfterNested(files: Files, disk: Disk, parent: Path, prefix: string, a: Archive, j: nat, env: Env, naming: Path -> string)
    requires |prefix| > 0 && forall i :: 0 < i < |prefix| ==> prefix[i] != '.'
    requires j < |a.entries| && NestedContainer(env, naming, parent, prefix, a.entries[j])
    ensures var s := ExpandF(files, disk, parent, prefix, a, j + 1, env, naming);
      s.ok ==> s.disk.Exists(parent + [prefix])
  {
    var r := ExpandF(files, disk, parent, prefix, a, j, env, naming);
    assert ExpandF(files, disk, parent, prefix, a, j + 1, env, naming) == ExpandStep(r, parent, prefix, a, j, env, naming);
    StepMarksNested(r, parent, prefix, a, j, env, naming);
  }

  /** A container's file prefix is non-empty and has no '.' after its
      first character. */
  lemma ContainerPrefix(p: Path)
    requires IsContainer(p)
    ensures var prefix := NamePrefix(FileName(p));
      |prefix| > 0 && forall i :: 0 < i < |prefix| ==> prefix[i] != '.'
  {
    assert NameExtension(FileName(p)).Some?;
  }

  /** If the loop gets through a container holding a nested container, the
      shared marker exists at its end. */
  lemma ExpandLeavesMarker(files: Files, disk: Disk, parent: Path, prefix: string, a: Archive, j: nat, env: Env, naming: Path -> string)
    requires |prefix| > 0 && forall i :: 0 < i < |prefix| ==> prefix[i] != '.'
    requires j < |a.entries| && NestedContainer(env, naming, parent, prefix, a.entries[j])
    ensures var r := ExpandF(files, disk, parent, prefix, a, |a.entries|, env, naming);
      r.ok ==> r.disk.Exists(parent + [prefix])
  {
    MarksAfterNested(files, disk, parent, prefix, a, j, env, naming);
    if ExpandF(files, disk, parent, prefix, a, j + 1, env, naming).ok {
      ExpandKeeps(files, disk, parent, prefix, a, j + 1, |a.entries|, env, naming);
    } else {
      ExpandFailStays(files, disk, parent, prefix, a, j + 1, |a.entries|, env, naming);
    }
  }

  /** As written, a container holding another container of a known MIME type
      always panics: the nested one creates the shared marker directory and
      the outer `create_dir` then finds it present. */
  lemma NestedContainerPanics(files: Files, disk: Disk, file: DefinedFile, a: Archive, j: nat, env: Env, naming: Path -> string)
    requires env.guess(file.path).Some? && IsContainer(file.path)
    requires !disk.Exists(Marker(file.path))
    requires j < |a.entries|
    requires NestedContainer(env, naming, file.path[..|file.path| - 1], NamePrefix(FileName(file.path)), a.entries[j])
    ensures !AddFileF(files, disk, file, Some(a), env, naming).ok
  {
    ContainerPrefix(file.path);
    ExpandLeavesMarker(files, disk, file.path[..|file.path| - 1], NamePrefix(FileName(file.path)), a, j, env, naming);
  }

  /** Recording a file adds exactly that file to `collect_all`. */
  lemma ClassifiedCollect(files: Files, file: DefinedFile, mime: MimeKind)
    ensures multiset(Classified(files, file, mime).CollectAll()) == multiset(files.CollectAll()) + multiset{file}
  {
    if mime == ImageMime {
      var images := files.images + [(file, (0, 0))];
      assert images[..|images| - 1] == files.images;
      assert ImageFiles(images) == ImageFiles(files.images) + [file];
    }
  }

  /** So does the `others` push of an unknown-MIME file. */
  lemma OthersCollect(files: Files, file: DefinedFile)
    ensures multiset(files.(others := files.others + [file]).CollectAll()) == multiset(files.CollectAll()) + multiset{file}
  {
  }

  /** Growing a prefix by one element adds that element. */
  lemma PrefixMultiset<T>(s: seq<T>, k: nat)
    requires 0 < k <= |s|
    ensures multiset(s[..k]) == multiset(s[..k - 1]) + multiset{s[k - 1]}
  {
    assert s[..k] == s[..k - 1] + [s[k - 1]];
  }

  /** Where a plain (non-container) file goes: `others` when its MIME type
      is unknown, its bucket otherwise. */
  function Filed(files: Files, file: DefinedFile, env: Env): (r: Files)
    ensures multiset(r.CollectAll()) == multiset(files.CollectAll()) + multiset{file}
  {
    match env.guess(file.path)
    case None =>
      OthersCollect(files, file);
      files.(others := files.others + [file])
    case Some(mime) =>
      ClassifiedCollect(files, file, mime);
      Classified(files, file, mime)
  }

  /** The first `k` plain files, filed one after another. */
  function FiledAll(files: Files, fs: seq<DefinedFile>, k: nat, env: Env): (r: Files)
    requires k <= |fs|
    ensures multiset(r.CollectAll()) == multiset(files.CollectAll()) + multiset(fs[..k])
    ensures r.Len() == files.Len() + k
  {
    if k == 0 then files
    else
      PrefixMultiset(fs, k);
      Filed(FiledAll(files, fs, k - 1, env), fs[k - 1], env)
  }

  /** Adding plain (non-container) files never fails, leaves the disk alone
      and files each of them once, in order. */
  lemma {:induction false} AddAllPlain(files: Files, disk: Disk, fs: seq<DefinedFile>, k: nat, env: Env, naming: Path -> string)
    requires k <= |fs|
    requires forall i :: 0 <= i < |fs| ==> !IsContainer(fs[i].path)
    ensures AddAllF(files, disk, fs, k, env, naming).ok
    ensures AddAllF(files, disk, fs, k, env, naming).disk == disk
    ensures AddAllF(files, disk, fs, k, env, naming).files == FiledAll(files, fs, k, env)
  {
    if k > 0 { AddAllPlain(files, disk, fs, k - 1, env, naming); }
  }

  /** A folder contributes its immediate non-hidden files and nothing from
      its sub-folders: with no container among them, exactly those files,
      one record each. */
  lemma AddFolderPlain(files: Files, disk: Disk, folder: DefinedFile, env: Env, naming: Path -> string, listing: seq<DirEntry>)
    requires folder.ty == Folder && env.list(folder.path) == Some(listing)
    requires forall i :: 0 <= i < |listing| ==> !IsContainer(listing[i].path)
    ensures var r := AddF(files, disk, folder, env, naming);
      && r.ok && r.disk == disk && r.files.Len() == files.Len() + |Kept(listing, File)|
      && multiset(r.files.CollectAll()) == multiset(files.CollectAll()) + multiset(Kept(listing, File))
  {
    var fs := Kept(listing, File);
    forall i | 0 <= i < |fs| ensures !IsContainer(fs[i].path) {
      KeptMembership(listing, File, fs[i]);
    }
    AddAllPlain(files, disk, fs, |fs|, env, naming);
    assert fs[..|fs|] == fs;
  }

  /** `collect_all` yields every file once, bucket by bucket. */
  lemma CollectAllMembers(files: Files, f: DefinedFile)
    ensures f in files.CollectAll() <==>
      f in files.videos || f in files.others || exists k :: 0 <= k < |files.images| && files.images[k].0 == f
  {
    var all := files.CollectAll();
    assert all == files.videos + files.others + ImageFiles(files.images);
    if f in ImageFiles(files.images) {
      var k :| 0 <= k < |files.images| && ImageFiles(files.images)[k] == f;
    }
  }
}
