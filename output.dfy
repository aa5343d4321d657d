/** src/output.rs: the output plan. An `OutputBuilder` records the folders,
    JSON files and links of the output tree and `finish` carries them out;
    `OutputPosts` and `OutputPostMetadata` are the JSON records of a post. */
module Output {
  import opened Base
  import Utils
  import opened Cache
  import opened Sorting
  import opened Post

  // ---------------------------------------------------------------------------
  // The operation log and `finish`

  /** One recorded effect; `File(from, to)` links `to` to the file `from`. */
  datatype OutputType =
    | Folder(path: Path)
    | Json(path: Path, data: string)
    | File(from: Path, to: Path)

  /** The output tree as far as `finish` creates or tests it: directories,
      the contents of written files, and symbolic links with their targets. */
  datatype View = View(dirs: set<Path>, json: map<Path, string>, links: map<Path, Path>) {
    /** `Path::exists`. Link targets are canonical paths of files that
        existed when the link was made, so a link counts as existing. */
    predicate Exists(p: Path) {
      p in dirs || p in json || p in links
    }

    /** Nothing here has disappeared in `later`, and no link was retargeted. */
    predicate GrowsTo(later: View) {
      && dirs <= later.dirs
      && json.Keys <= later.json.Keys
      && (forall p :: p in links ==> p in later.links && later.links[p] == links[p])
    }
  }

  /** The directories `create_dir_all` leaves behind: `p` and every prefix
      of it, down to the empty path, the working directory. */
  function Ancestors(p: Path): (r: set<Path>)
    ensures p in r
    ensures forall q :: q in r ==> |q| <= |p| && q == p[..|q|]
  {
    assert p[..|p|] == p;
    set k | 0 <= k <= |p| :: p[..k]
  }

  /** One iteration of `finish`'s loop with root `target`; `canon` stands
      for `canonicalize` (`None` where it fails). The result is `None` where
      the source panics. */
  function Step(op: OutputType, v: View, target: Path, canon: Path -> Option<Path>): (r: Option<View>)
  {
    match op
    case Folder(path) =>
      var full := target + path;
      if v.Exists(full) then Some(v) else Some(v.(dirs := v.dirs + Ancestors(full)))
    case Json(path, data) =>
      Some(v.(json := v.json[target + path := data]))
    case File(from, to) =>
      match canon(from)
      case None => None
      case Some(src) =>
        var full := target + to;
        if full in v.links then Some(v)
        else if v.Exists(full) then None
        else Some(v.(links := v.links[full := src]))
  }

  /** `finish` over the log `ops`, in order, from the tree `v`. */
  function Apply(ops: seq<OutputType>, v: View, target: Path, canon: Path -> Option<Path>): Option<View>
  {
    if |ops| == 0 then Some(v)
    else
      match Apply(ops[..|ops| - 1], v, target, canon)
      case None => None
      case Some(w) => Step(ops[|ops| - 1], w, target, canon)
  }

  /** The last data written to each path by the log. */
  function Writes(ops: seq<OutputType>, target: Path): map<Path, string>
  {
    if |ops| == 0 then map[]
    else
      var w := Writes(ops[..|ops| - 1], target);
      match ops[|ops| - 1]
      case Json(path, data) => w[target + path := data]
      case _ => w
  }

  class OutputBuilder {
    const target: Path
    var files: seq<OutputType>

    /** `OutputBuilder::new`: an empty log. */
    constructor (target: Path)
      ensures this.target == target && files == []
    {
      this.target := target;
      files := [];
    }

    method Write(path: Path, data: string)
      modifies this
      ensures files == old(files) + [Json(path, data)]
    {
      files := files + [Json(path, data)];
    }

    method Copy(from: Path, to: Path)
      modifies this
      ensures files == old(files) + [OutputType.File(from, to)]
    {
      files := files + [OutputType.File(from, to)];
    }

    method Folder(path: Path)
      modifies this
      ensures files == old(files) + [OutputType.Folder(path)]
    {
      files := files + [OutputType.Folder(path)];
    }

    /** `finish` on the tree `view`: `ok` is false where the source panics,
        and otherwise `after` is the tree the log leaves. */
    method Finish(view: View, canon: Path -> Option<Path>) returns (after: View, ok: bool)
      ensures Apply(files, view, target, canon) == if ok then Some(after) else None
    {
      after := view;
      var i := 0;
      while i < |files|
        invariant 0 <= i <= |files|
        invariant Apply(files[..i], view, target, canon) == Some(after)
      {
        assert files[..i + 1][..i] == files[..i];
        assert Apply(files[..i + 1], view, target, canon) == Step(files[i], after, target, canon);
        match files[i] {
          case Folder(path) =>
            var full := target + path;
            if !after.Exists(full) {
              after := after.(dirs := after.dirs + Ancestors(full));
            }
          case Json(path, data) =>
            after := after.(json := after.json[target + path := data]);
          case File(from, to) =>
            var src := canon(from);
            if src.None? {
              ApplyFailStays(files, i + 1, view, target, canon);
              return after, false;
            }
            var full := target + to;
            if full !in after.links {
              if after.Exists(full) {
                ApplyFailStays(files, i + 1, view, target, canon);
                return after, false;
              }
              after := after.(links := after.links[full := src.value]);
            }
        }
        i := i + 1;
      }
      assert files[..i] == files;
      ok := true;
    }
  }

  /** Once `finish` has panicked it stays panicked. */
  lemma {:induction false} ApplyFailStays(ops: seq<OutputType>, k: nat, v: View, target: Path, canon: Path -> Option<Path>)
    requires k <= |ops| && Apply(ops[..k], v, target, canon).None?
    ensures Apply(ops, v, target, canon).None?
    decreases |ops| - k
  {
    if k < |ops| {
      assert ops[..k + 1][..k] == ops[..k];
      ApplyFailStays(ops, k + 1, v, target, canon);
    } else {
      assert ops[..k] == ops;
    }
  }

  /** The log is carried out in order: running `a + b` is running `a`, then
      `b` on what `a` left. */
  lemma {:induction false} ApplyAppend(a: seq<OutputType>, b: seq<OutputType>, v: View, target: Path, canon: Path -> Option<Path>)
    ensures Apply(a + b, v, target, canon)
         == match Apply(a, v, target, canon) case None => None case Some(w) => Apply(b, w, target, canon)
  {
    if |b| == 0 {
      assert a + b == a;
    } else {
      var b0 := b[..|b| - 1];
      assert (a + b)[..|a + b| - 1] == a + b0;
      assert (a + b)[|a + b| - 1] == b[|b| - 1];
      ApplyAppend(a, b0, v, target, canon);
    }
  }

  /** A folder is created, with its missing ancestors, only when nothing is
      at its path; otherwise the tree is left as it is. */
  lemma FolderOnlyIfAbsent(path: Path, v: View, target: Path, canon: Path -> Option<Path>)
    ensures var full := target + path;
      Step(Folder(path), v, target, canon)
        == Some(if v.Exists(full) then v else v.(dirs := v.dirs + Ancestors(full)))
    ensures !v.Exists(target + path) ==> target + path in Step(Folder(path), v, target, canon).value.dirs
  {
  }

  /** A link whose destination already is a link is skipped; one onto
      anything else panics; otherwise it points at the canonical source. */
  lemma LinkSkippedIfLinked(from: Path, to: Path, v: View, target: Path, canon: Path -> Option<Path>)
    requires canon(from).Some?
    ensures var full := target + to;
      && (full in v.links ==> Step(File(from, to), v, target, canon) == Some(v))
      && (full !in v.links && v.Exists(full) ==> Step(File(from, to), v, target, canon).None?)
      && (!v.Exists(full) ==> Step(File(from, to), v, target, canon) == Some(v.(links := v.links[full := canon(from).value])))
  {
  }

  /** A step never removes or retargets anything. */
  lemma StepGrows(op: OutputType, v: View, target: Path, canon: Path -> Option<Path>)
    requires Step(op, v, target, canon).Some?
    ensures v.GrowsTo(Step(op, v, target, canon).value)
  {
  }

  /** JSON files are always overwritten: after `finish`, each written path
      holds the data of the last write to it, every other file is as before. */
  lemma {:induction false} ApplyJson(ops: seq<OutputType>, v: View, target: Path, canon: Path -> Option<Path>)
    requires Apply(ops, v, target, canon).Some?
    ensures Apply(ops, v, target, canon).value.json == v.json + Writes(ops, target)
  {
    if |ops| > 0 {
      var init := ops[..|ops| - 1];
      ApplyJson(init, v, target, canon);
      var w := Apply(init, v, target, canon).value;
      if ops[|ops| - 1].Json? {
        var op := ops[|ops| - 1];
        assert (v.json + Writes(init, target))[target + op.path := op.data] == v.json + Writes(ops, target);
      }
    }
  }

  /** After `op`, this tree would let `op` run again without effect on
      directories and links. */
  predicate Settled(op: OutputType, v: View, target: Path, canon: Path -> Option<Path>) {
    match op
    case Folder(path) => v.Exists(target + path)
    case Json(_, _) => true
    case File(from, to) => canon(from).Some? && target + to in v.links
  }

  lemma SettledGrows(op: OutputType, v: View, w: View, target: Path, canon: Path -> Option<Path>)
    requires Settled(op, v, target, canon) && v.GrowsTo(w)
    ensures Settled(op, w, target, canon)
  {
  }

  /** Every operation of a log that ran through is settled in its result. */
  lemma {:induction false} ApplySettles(ops: seq<OutputType>, v: View, target: Path, canon: Path -> Option<Path>)
    requires Apply(ops, v, target, canon).Some?
    ensures forall k :: 0 <= k < |ops| ==> Settled(ops[k], Apply(ops, v, target, canon).value, target, canon)
  {
    if |ops| > 0 {
      var init, op := ops[..|ops| - 1], ops[|ops| - 1];
      ApplySettles(init, v, target, canon);
      var u := Apply(init, v, target, canon).value;
      var w := Apply(ops, v, target, canon).value;
      StepGrows(op, u, target, canon);
      forall k | 0 <= k < |ops| ensures Settled(ops[k], w, target, canon) {
        if k < |init| {
          assert ops[k] == init[k];
          SettledGrows(init[k], u, w, target, canon);
        }
      }
    }
  }

  /** A log whose operations are all settled only rewrites JSON. */
  lemma {:induction false} ApplySettled(ops: seq<OutputType>, w: View, target: Path, canon: Path -> Option<Path>)
    requires forall k :: 0 <= k < |ops| ==> Settled(ops[k], w, target, canon)
    ensures Apply(ops, w, target, canon) == Some(w.(json := w.json + Writes(ops, target)))
  {
    if |ops| > 0 {
      var init, op := ops[..|ops| - 1], ops[|ops| - 1];
      assert forall k :: 0 <= k < |init| ==> init[k] == ops[k];
      ApplySettled(init, w, target, canon);
      var t := w.(json := w.json + Writes(init, target));
      assert Settled(op, w, target, canon);
      assert Apply(ops, w, target, canon) == Step(op, t, target, canon);
      match op {
        case Json(path, data) =>
          assert (w.json + Writes(init, target))[target + path := data] == w.json + Writes(ops, target);
        case Folder(path) =>
          assert t.Exists(target + path);
          assert Writes(ops, target) == Writes(init, target);
        case File(from, to) =>
          assert target + to in t.links;
          assert Writes(ops, target) == Writes(init, target);
      }
    } else {
      assert w.json + Writes(ops, target) == w.json;
    }
  }

  /** Running `finish` again with the same log on its own result changes
      nothing. */
  lemma FinishIdempotent(ops: seq<OutputType>, v: View, target: Path, canon: Path -> Option<Path>)
    requires Apply(ops, v, target, canon).Some?
    ensures var w := Apply(ops, v, target, canon).value;
      Apply(ops, w, target, canon) == Some(w)
  {
    var w := Apply(ops, v, target, canon).value;
    ApplySettles(ops, v, target, canon);
    ApplySettled(ops, w, target, canon);
    ApplyJson(ops, v, target, canon);
    assert w.json + Writes(ops, target) == w.json;
  }

  // ---------------------------------------------------------------------------
  // OutputPosts

  /** A post's entry in its author's list. */
  datatype OutputPosts = OutputPosts(id: string, name: string, date: string, preview: Option<Path>, length: u32) {
    /** `OutputPosts::thumb`. */
    function Thumb(): Option<Path> {
      preview
    }
  }

  /** The links of a post's files: source path, and the file name alone. */
  function LinksOf(fs: seq<Utils.DefinedFile>): (r: seq<(Path, Path)>)
    ensures |r| == |fs|
    ensures forall k :: 0 <= k < |fs| ==> r[k] == (fs[k].path, [fs[k].Name()])
  {
    if |fs| == 0 then [] else LinksOf(fs[..|fs| - 1]) + [(fs[|fs| - 1].path, [fs[|fs| - 1].Name()])]
  }

  /** `OutputPosts::new`: the post's folder, its entry, and its links. The
      source slices the folder name, which panics unless both slices fall on
      character boundaries. The folder is the post's identity, the entry
      carries it with the name and date, the preview is the first image
      inside that folder, and there is one link per file, bucket by bucket. */
  function OutputPostsOf(post: Post): (r: (Path, OutputPosts, seq<(Path, Path)>))
    requires post.Sliceable()
    ensures r.0 == [r.1.id] && r.1.id == Utils.Cyrb53(post.filename)
    ensures r.1.name == post.Name().value && r.1.date == post.Date().value
    ensures r.1.Thumb().None? <==> |post.files.images| == 0
    ensures r.1.Thumb().Some? ==>
      Parent(r.1.Thumb().value) == Some(r.0) && FileName(r.1.Thumb().value) == post.files.images[0].0.Name()
    ensures r.1.length == TruncateU32(post.files.Len()) && (post.files.Len() < U32_LIMIT ==> r.1.length == post.files.Len())
    ensures BucketLinks(post.files, r.2)
  {
    var id := Utils.Cyrb53(post.filename);
    var path := [id];
    var thumb := if |post.files.images| == 0 then None else Some(Join(path, post.files.images[0].0.Name()));
    LinksByBucket(post.files);
    (path, OutputPosts(id, post.Name().value, post.Date().value, thumb, TruncateU32(post.files.Len())), LinksOf(post.files.CollectAll()))
  }

  /** The post's folder is one component of lower-case hex digits that
      reads back as the post's hash. */
  lemma OutputPostsIdentity(post: Post)
    requires post.Sliceable()
    ensures var id := OutputPostsOf(post).1.id;
      && 1 <= |id| <= 16 && (forall k :: 0 <= k < |id| ==> Utils.IsHexDigit(id[k]))
      && Utils.ParseHex(id) == Utils.Cyrb53Value(post.filename)
  {
    Utils.Cyrb53Format(post.filename);
  }

  /** `links` holds one link per file of `fs`, bucket by bucket. */
  ghost predicate BucketLinks(fs: Files, links: seq<(Path, Path)>) {
    && |links| == fs.Len()
    && (forall k :: 0 <= k < |fs.videos| ==> links[k] == (fs.videos[k].path, [fs.videos[k].Name()]))
    && (forall k :: 0 <= k < |fs.others| ==> links[|fs.videos| + k] == (fs.others[k].path, [fs.others[k].Name()]))
    && (forall k :: 0 <= k < |fs.images| ==>
          links[|fs.videos| + |fs.others| + k] == (fs.images[k].0.path, [fs.images[k].0.Name()]))
  }

  lemma LinksByBucket(fs: Files)
    ensures BucketLinks(fs, LinksOf(fs.CollectAll()))
  {
    var all := fs.CollectAll();
    forall k | 0 <= k < |fs.videos| ensures all[k] == fs.videos[k] {
      assert all[..|fs.videos|][k] == all[k];
    }
    forall k | 0 <= k < |fs.others| ensures all[|fs.videos| + k] == fs.others[k] {
      assert all[|fs.videos|..|fs.videos| + |fs.others|][k] == all[|fs.videos| + k];
    }
  }

  // ---------------------------------------------------------------------------
  // OutputPostMetadata

  /** What `get_date` makes of a name: `Ok(n)` for the first `-`-separated
      part that parses as a `u32`, otherwise `Err(name)`. */
  datatype DateKey = Numbered(n: u32) | Unnumbered(name: string)

  predicate IsNumber(part: string) {
    ParseU32(part).Some?
  }

  function GetDate(a: string): (r: DateKey)
    ensures r.Unnumbered? ==> r.name == a && forall k :: 0 <= k < |Split(a, '-')| ==> !IsNumber(Split(a, '-')[k])
    ensures r.Numbered? ==> exists k ::
      && 0 <= k < |Split(a, '-')| && ParseU32(Split(a, '-')[k]) == Some(r.n)
      && forall m :: 0 <= m < k ==> !IsNumber(Split(a, '-')[m])
  {
    var parts := Split(a, '-');
    match Position(parts, IsNumber, 0)
    case None => Unnumbered(a)
    case Some(k) => Numbered(ParseU32(parts[k]).value)
  }

  /** The derived order of `Result<u32, &str>`: every `Ok` before every
      `Err`, numbers by value, strings by `str` order. */
  predicate DateLeq(a: DateKey, b: DateKey) {
    match a
    case Numbered(x) => b.Numbered? ==> x <= b.n
    case Unnumbered(s) => b.Unnumbered? && StrLeq(s, b.name)
  }

  lemma DateLeqTotalPreorder()
    ensures TotalPreorder(DateLeq)
  {
    forall a, b ensures DateLeq(a, b) || DateLeq(b, a) {
      if a.Unnumbered? && b.Unnumbered? { StrLeqTotal(a.name, b.name); }
    }
    forall a, b, c | DateLeq(a, b) && DateLeq(b, c) ensures DateLeq(a, c) {
      if a.Unnumbered? { StrLeqTransitive(a.name, b.name, c.name); }
    }
  }

  datatype OutputImageFile = OutputImageFile(name: string, size: Size)
  datatype OutputNormalFile = OutputNormalFile(name: string)

  function ImageKey(f: OutputImageFile): DateKey {
    GetDate(f.name)
  }

  function NormalKey(f: OutputNormalFile): DateKey {
    GetDate(f.name)
  }

  /** A post's metadata file. */
  datatype OutputPostMetadata = OutputPostMetadata(
    name: string, date: string,
    images: seq<OutputImageFile>, videos: seq<OutputNormalFile>, files: seq<OutputNormalFile>)

  function ImageEntries(images: seq<(Utils.DefinedFile, Size)>): (r: seq<OutputImageFile>)
    ensures |r| == |images|
    ensures forall k :: 0 <= k < |images| ==> r[k] == OutputImageFile(images[k].0.Name(), images[k].1)
  {
    if |images| == 0 then []
    else ImageEntries(images[..|images| - 1]) + [OutputImageFile(images[|images| - 1].0.Name(), images[|images| - 1].1)]
  }

  function NormalEntries(fs: seq<Utils.DefinedFile>): (r: seq<OutputNormalFile>)
    ensures |r| == |fs|
    ensures forall k :: 0 <= k < |fs| ==> r[k] == OutputNormalFile(fs[k].Name())
  {
    if |fs| == 0 then [] else NormalEntries(fs[..|fs| - 1]) + [OutputNormalFile(fs[|fs| - 1].Name())]
  }

  /** `OutputPostMetadata::new`: the post's name and date, and each bucket's
      entries, reordered by `get_date` into a sorted permutation. */
  function MetadataOf(post: Post): (m: OutputPostMetadata)
    requires post.Sliceable()
    ensures m.name == post.Name().value && m.date == post.Date().value
    ensures SortedBy(m.images, ImageKey, DateLeq) && multiset(m.images) == multiset(ImageEntries(post.files.images))
    ensures SortedBy(m.videos, NormalKey, DateLeq) && multiset(m.videos) == multiset(NormalEntries(post.files.videos))
    ensures SortedBy(m.files, NormalKey, DateLeq) && multiset(m.files) == multiset(NormalEntries(post.files.others))
  {
    var images, videos, others := ImageEntries(post.files.images), NormalEntries(post.files.videos), NormalEntries(post.files.others);
    DateLeqTotalPreorder();
    SortBySorted(images, ImageKey, DateLeq);
    SortBySorted(videos, NormalKey, DateLeq);
    SortBySorted(others, NormalKey, DateLeq);
    OutputPostMetadata(post.Name().value, post.Date().value,
      SortBy(images, ImageKey, DateLeq), SortBy(videos, NormalKey, DateLeq), SortBy(others, NormalKey, DateLeq))
  }

  /** In a list sorted by `get_date`, names with a number come before names
      without; numbered names go by their first number, the others by
      string order. */
  lemma DateSortedOrder<T>(s: seq<T>, key: T -> DateKey)
    requires SortedBy(s, key, DateLeq)
    ensures forall i, j :: 0 <= i < j < |s| && key(s[j]).Numbered? ==> key(s[i]).Numbered? && key(s[i]).n <= key(s[j]).n
    ensures forall i, j :: 0 <= i < j < |s| && key(s[i]).Unnumbered? ==> key(s[j]).Unnumbered? && StrLeq(key(s[i]).name, key(s[j]).name)
  {
  }

  /** The sort is stable: entries of equal key keep their bucket order. */
  lemma MetadataStable(post: Post, key: DateKey)
    requires post.Sliceable()
    ensures var m := MetadataOf(post);
      var images, videos, others := ImageEntries(post.files.images), NormalEntries(post.files.videos), NormalEntries(post.files.others);
      && Equivalents(m.images, key, ImageKey, DateLeq) == Equivalents(images, key, ImageKey, DateLeq)
      && Equivalents(m.videos, key, NormalKey, DateLeq) == Equivalents(videos, key, NormalKey, DateLeq)
      && Equivalents(m.files, key, NormalKey, DateLeq) == Equivalents(others, key, NormalKey, DateLeq)
  {
    var images, videos, others := ImageEntries(post.files.images), NormalEntries(post.files.videos), NormalEntries(post.files.others);
    DateLeqTotalPreorder();
    SortByStable(images, key, ImageKey, DateLeq);
    SortByStable(videos, key, NormalKey, DateLeq);
    SortByStable(others, key, NormalKey, DateLeq);
  }
}
