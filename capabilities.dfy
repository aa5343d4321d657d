/** The outside world as the classifiers see it: a MIME guess, a dimension
    probe, directory listings, archive decoding, and a filesystem reduced to
    the set of existing directories and files. */
module Capabilities {
  import opened Base
  import opened Utils

  /** The top-level type of a guessed MIME type (`mime.type_()`). */
  datatype MimeKind = ImageMime | VideoMime | OtherMime

  /** What `zip::ZipArchive::new` makes of a file's bytes: its entries in
      index order. */
  datatype Archive = Archive(entries: seq<ZipEntry>)

  /** One archive entry: its `mangled_name` as path components, whether it is
      a directory, and what `ZipArchive::new` would make of its bytes once
      extracted (`None`: they do not open as an archive). */
  datatype ZipEntry = ZipEntry(path: Path, isDir: bool, contents: Option<Archive>)

  /** The capabilities the classifiers call.
      - guess: `MimeGuess::from_path(p).first()`, reduced to its top-level type;
      - open: `ZipArchive::new` on the bytes of an existing file;
      - list: `fs::read_dir` enumerated, `None` when the path is not a readable directory;
      - probe: `imagesize::size`, `None` on failure. */
  datatype Env = Env(
    guess: Path -> Option<MimeKind>,
    open: Path -> Option<Archive>,
    list: Path -> Option<seq<DirEntry>>,
    probe: Path -> Option<(nat, nat)>)

  /** The filesystem as far as extraction changes or tests it. */
  datatype Disk = Disk(dirs: set<Path>, files: set<Path>) {
    /** `Path::exists`: something, file or directory, is at `p`. */
    predicate Exists(p: Path) {
      p in dirs || p in files
    }

    /** `fs::create_dir` of a path known to be absent. */
    function MakeDir(p: Path): (d: Disk)
      requires !Exists(p)
      ensures d.dirs == dirs + {p} && d.files == files
    {
      this.(dirs := dirs + {p})
    }

    /** `fs::File::create` of a path that is not a directory. */
    function MakeFile(p: Path): (d: Disk)
      requires p !in dirs
      ensures d.files == files + {p} && d.dirs == dirs
    {
      this.(files := files + {p})
    }

    /** Nothing that exists here has disappeared in `later`. */
    predicate GrowsTo(later: Disk) {
      dirs <= later.dirs && files <= later.files
    }
  }

  /** The marker directory of a container: `parent/<file_prefix>`. */
  function Marker(p: Path): (m: Path)
    requires |p| > 0
    ensures |m| == |p| && m[..|p| - 1] == p[..|p| - 1]
  {
    p[..|p| - 1] + [NamePrefix(FileName(p))]
  }
}
