# FanboxArchiveTools, modelled in Dafny

FanboxArchiveTools turns folders of downloaded Fanbox posts into an archive.
An author folder holds one folder per post, named `<10-byte date>-<title>`; the date and title are byte slices of that name.
This project models the sequential logic behind that conversion, and proves
what each piece promises:

- **`utils`**: the directory filter `parse_dir`, the typing of directory
  entries, `DefinedFile::name`, and the `cyrb53` identity hash with its
  `{:x}` rendering. The 64-bit wrapping arithmetic is written out modulo 2^64.
- **`cache`**: the image-dimension cache. It is a class holding a map, plus an
  `ignore` flag that turns `insert` and `save` into no-ops.
- **`post`**: the first classifier, `PostFiles::add`. It sorts a post's
  files into video, other and image buckets, and expands `zip`/`7z`/`tar`
  containers into hashed sibling files. A marker directory guards each expansion.
- **`files`**: the second classifier. `collect_files` and `match_file`
  turn a post's files into archive records, sorted by file name.
  - `handle_file_mime` takes image sizes from the cache.
  - `try_extract` unpacks `zip` archives under un-hashed names, skipping
    directories and `psd` files.
  - `get_thumb` picks the thumbnail.
- **`output`**: the output plan. `OutputBuilder` is an append-only log of
  folders, JSON writes and links, and `finish` carries it out on an abstract
  tree. `OutputPosts::new` and `OutputPostMetadata::new` are the JSON records
  of a post; the metadata lists are stably sorted by the first number in each name.
- **`author`**: the author record `archive_author`.

The filesystem, MIME guessing, the image-size probe and archive decoding are
parameters: the record `Env` and the values `Disk` and `View`. A panic of the
source (`unwrap`, `expect`, a failing `create_dir`) is an `ok == false` /
`None` outcome, and the run stops there.

Some consequences of the code, proved as they are written:

- **Nested containers in `post`.** A container that holds another container
  of a known MIME type always ends in a panic. The nested file's prefix is
  the outer prefix, so the nested expansion creates the outer marker
  directory, and the outer `create_dir` then fails (`Post.NestedContainerPanics`).
- **Entries handed to `collect_files` in `files`.** Each extracted entry is
  passed to `collect_files`, which lists the entry as if it were a folder,
  and `read_dir` on a file panics. So the first entry that is written ends
  the run, and the marker is never created (`Files.TryExtractWritesFirst`,
  `Files.TryExtractWritesNoMarker`).
- **The empty name in `get_thumb`.** The empty string doubles as "nothing
  chosen yet", so an image with an empty name is displaced by the next image,
  whatever its name (`Files.ThumbEmptyDisplaced`).

Modules: `Base` (paths, string order, `str::split`, `u32::from_str`), `Sorting`
(the stable `sort_by`), `Utils`, `Cache`, `Capabilities`, `Post`, `Files`,
`Output`, `Author`.

## Model

| member | source | states |
|---|---|---|
| Base.TruncateU32 | src/output.rs:110 | `as u32` keeps the low 32 bits, so a count below 2^32 is unchanged |
| Base.NamePrefix | src/files.rs:105 | `file_prefix`: a non-empty prefix of the name, with no '.' after its first character, followed in the name by '.' when shorter than the name |
| Base.NameExtension | src/files.rs:101 | `extension`: `None` exactly when no '.' follows the first character; otherwise the text after a non-leading '.', holding no '.' itself, so after the last one |
| Base.Split | src/output.rs:164 | `split("-")`: at least one part, no part holds the separator, and joining the parts with it gives the string back |
| Base.ParseU32 | src/output.rs:164 | `parse::<u32>`: a string parses exactly when, less one optional leading '+', it is a non-empty run of digits whose decimal value is below 2^32, and it parses to that value |
| Base.Utf8Width | src/post.rs:17-20 | a character takes 1 to 4 bytes, exactly 1 when it is ASCII |
| Base.Utf8LenIncreasing | src/post.rs:17-20 | a longer prefix takes strictly more bytes |
| Base.AsciiUtf8Len | src/post.rs:17-20 | an all-ASCII prefix takes one byte per character |
| Base.CharBoundary | src/post.rs:17-20 | the character index whose prefix takes exactly `b` bytes, `None` exactly when no index does, i.e. byte `b` is not a character boundary |
| Base.Position | src/output.rs:164 | `find_map`: the first index meeting the test, all earlier ones failing; `None` exactly when no index meets it |
| Base.StrLessTransitive | src/files.rs:33 | the `str` order is transitive |
| Base.StrLessTrichotomy | src/files.rs:33 | any two strings are equal or ordered one way |
| Base.StrLeqTotal | src/files.rs:20 | the non-strict `str` order is total |
| Utils.DefinedFile.Name | src/utils.rs:60-63 | the last path component, or "" when the path has none |
| Utils.FromEntry | src/utils.rs:66-76 | the path is kept; the type is `Folder` exactly when the entry is a directory, otherwise `File`, never `Both` |
| Utils.ParseDir | src/utils.rs:7-24 | the loop's output is the specification `Kept` of the listing |
| Utils.KeptNotHidden | src/utils.rs:13-21 | no returned entry has a name starting with '.', none is `Both`, and with filter `File`/`Folder` every one has that type |
| Utils.KeptMembership | src/utils.rs:13-21 | a file is returned if and only if some entry converts to it, it is not hidden, and the filter is `Both` or its type |
| Utils.KeptIsSubsequence | src/utils.rs:9-23 | the output is a subsequence of the converted listing, in enumeration order |
| Utils.Converted | src/utils.rs:10-11 | one converted file per entry, in order |
| Utils.SeededStart | src/utils.rs:27-29 | the starting state is 0xdeadbeef ^ 1 and 0x41c6ce57 ^ 1 |
| Utils.AbsorbSteps | src/utils.rs:27-34 | each character multiplies (h ^ code) by 2654435761 and 1597334677 modulo 2^64, from the seeded start |
| Utils.HighTermBound | src/utils.rs:40 | `4294967296 * (2097151 & h2)` is below 2^53 |
| Utils.ComputeCyrb53 | src/utils.rs:26-41 | the character loop plus finalisation computes `Cyrb53` |
| Utils.Finalize | src/utils.rs:35-40 | the avalanche rounds and `{:x}` of the wrapped sum |
| Utils.Hex | src/utils.rs:40 | `{:x}`: non-empty, lower-case hex digits only, a leading '0' only for "0" |
| Utils.HexRoundTrip | src/utils.rs:40 | reading the rendering back as hexadecimal gives the number |
| Utils.HexLength | src/utils.rs:40 | a value below 16^k renders in at most k digits |
| Utils.Cyrb53Format | src/utils.rs:26-41 | the hash is 1 to 16 lower-case hex digits with no leading zero that read back as the hash value |
| Cache.Lookup | src/cache.rs:29-31 | `get`: a value exactly for keys in the map, the bound value |
| Cache.Inserted | src/cache.rs:23-28 | with `ignore` the map is unchanged; otherwise the key set gains the key |
| Cache.LookupEmpty | src/cache.rs:17-22 | a new cache answers `None` for every key |
| Cache.InsertIgnored | src/cache.rs:24-26 | with `ignore` set, `insert` leaves the map unchanged |
| Cache.LookupAfterInsert | src/cache.rs:27-31 | without `ignore`, `get(k)` after `insert(k, v)` is `Some(v)` |
| Cache.LookupOtherAfterInsert | src/cache.rs:27 | `insert(k, v)` never changes `get(k')` for `k' != k` |
| Cache.ImageCache.constructor | src/cache.rs:17-22 | the map is empty and `ignore` is the argument |
| Cache.ImageCache.Insert | src/cache.rs:23-28 | the new map is `Inserted` of the old one |
| Cache.ImageCache.Get | src/cache.rs:29-31 | a value exactly for cached keys, the cached one |
| Cache.ImageCache.Save | src/cache.rs:41-50 | nothing is written with `ignore`; otherwise the whole map is written |
| Cache.ImageCache.Load | src/cache.rs:32-40 | no cache when the snapshot is missing or unparsable; otherwise a new cache holding exactly the snapshot, with the given `ignore` |
| Capabilities.Marker | src/files.rs:104-108 | the marker is a sibling of the container: same parent, one component |
| Post.Post.Name | src/post.rs:16-18 | `filename[11..]`: `None`, the panic, exactly when byte 11 is not a character boundary; otherwise the suffix after the first 11 bytes |
| Post.Post.Date | src/post.rs:19-21 | `filename[0..10]`: `None` exactly when byte 10 is not a character boundary; otherwise the prefix of exactly 10 bytes |
| Post.DateSeparatorName | src/post.rs:16-21 | when both slices succeed, date, one ASCII character and name concatenate to the folder name; nothing is validated |
| Post.AsciiDateName | src/post.rs:16-21 | with 11 leading ASCII characters, the date is the first 10 characters and the name what follows the 11th |
| Post.ShortNamePanics | src/post.rs:17 | a folder name under 11 bytes makes `name` panic |
| Post.Files.CollectAll | src/post.rs:130-136 | videos, then others, then image files, each in bucket order; its length is `len()` |
| Post.ImageFiles | src/post.rs:134 | the files of the images, one per image, in order |
| Post.CollectAllMembers | src/post.rs:130-136 | a file is in `collect_all` exactly when it is in some bucket |
| Post.Classified | src/post.rs:106-116 | recording adds exactly one entry, and only appends to buckets |
| Post.EntryName | src/post.rs:87-91 | the hashed entry name holds no '/' |
| Post.EntryNamePlain | src/post.rs:88-91 | when the entry's last component holds no '/', the replace changes nothing: the name is `<cyrb53 of the path>.<extension>` |
| Post.ExtractedPath | src/post.rs:90-91 | an extracted entry is written beside the container |
| Post.PostFiles.constructor | src/post.rs:45-51 | every bucket is empty and `len() == 0` |
| Post.PostFiles.Record | src/post.rs:106-116 | image to `images` with (0, 0), video to `videos`, else to `others` |
| Post.PostFiles.AddFile | src/post.rs:54-117 | the `File` arm, loop and recursion included, computes `AddFileF` |
| Post.PostFiles.Add | src/post.rs:52-126 | `add` computes `AddF`, the folder arm over `parse_dir(File)` |
| Post.PostOf | src/post.rs:24-35 | a post has the folder's name, path and the buckets `add` fills from empty |
| Post.AddUnknownMime | src/post.rs:57-59 | an unknown-MIME file is appended to `others` and nothing else changes |
| Post.AddKnownNotExpanded | src/post.rs:61-116 | a known-MIME file that is not expanded (no container extension, or marker present) adds one record, to its bucket |
| Post.AddOpenFailure | src/post.rs:74-77 | a container that does not open only gets its marker; the container is not recorded |
| Post.AddExpandedRecordsSelf | src/post.rs:100-116 | an expanded container is recorded last and leaves its marker |
| Post.AddFileGrows | src/post.rs:52-117 | adding only appends to buckets and only creates files and directories |
| Post.ExpandGrows | src/post.rs:79-98 | the extraction loop only appends and creates |
| Post.StepGrows | src/post.rs:83-97 | one entry: directories are skipped, a file entry is written under its hashed name |
| Post.ExpandWritesEntries | src/post.rs:79-98 | after the loop, every file entry has been written |
| Post.ExpandKeeps | src/post.rs:79-98 | what exists after some entries still exists after more |
| Post.ExpandFailStays | src/post.rs:79-98 | once the loop panics it stays panicked |
| Post.AddAllFailStays | src/post.rs:118-123 | once the folder loop panics it stays panicked |
| Post.ContainerPrefix | src/post.rs:61-66 | a container's prefix is non-empty with no '.' after its first character |
| Post.NestedMarker | src/post.rs:65-91 | an extracted entry's marker is the container's marker |
| Post.StepMarksNested | src/post.rs:94-97 | handling a nested container leaves the shared marker |
| Post.MarksAfterNested | src/post.rs:79-98 | after the nested entry, the shared marker exists |
| Post.ExpandLeavesMarker | src/post.rs:79-101 | a loop that gets through a nested container ends with the shared marker present |
| Post.AddContainerMarks | src/post.rs:61-101 | a known-MIME container that gets through has its marker afterwards |
| Post.NestedContainerPanics | src/post.rs:69-101 | a container holding a known-MIME container always panics at its final `create_dir` |
| Post.ClassifiedCollect | src/post.rs:106-116 | recording a file adds exactly that file to `collect_all` |
| Post.Filed | src/post.rs:57-116 | a plain file, whatever its MIME type, adds exactly itself to `collect_all` |
| Post.FiledAll | src/post.rs:118-123 | filing `k` plain files adds `k` records, and exactly those files to `collect_all` |
| Post.AddAllPlain | src/post.rs:118-123 | plain files never fail, leave the disk alone, and the buckets are those files filed one by one, in order |
| Post.AddFolderPlain | src/post.rs:118-123 | a folder of plain files adds exactly its non-hidden files to `collect_all`, one record each, nothing from its sub-folders |
| Sorting.Insert | src/files.rs:20 | inserting adds exactly the element |
| Sorting.SortBy | src/files.rs:20 | the sort is a permutation |
| Sorting.InsertSorted | src/files.rs:20 | insertion keeps a list sorted |
| Sorting.SortBySorted | src/files.rs:20 | the output of `sort_by` is sorted by its key |
| Sorting.EquivalentsAppend | src/output.rs:169-171 | the elements of one key class of a concatenation are those of each part |
| Sorting.EquivalentsNone | src/output.rs:169-171 | a list with no element of a class has an empty class |
| Sorting.InsertStable | src/output.rs:169-171 | an inserted element joins its key class last |
| Sorting.SortByStable | src/output.rs:169-171 | stability: each key class leaves the sort in input order |
| Files.StrLeqTotalPreorder | src/files.rs:20 | `filename().cmp` is a total preorder |
| Files.ProbedSize | src/files.rs:64-66 | a failed probe gives (0, 0), a fitting one its own size |
| Files.HandleMimeF | src/files.rs:58-81 | path and name are the file's; `Image` exactly for image MIME types, `Video` exactly for video ones |
| Files.ImageCacheHit | src/files.rs:63 | a cached size is used verbatim and the cache is not written |
| Files.ImageCacheMiss | src/files.rs:63-69 | on a miss the probed size, or (0, 0), is both returned and inserted |
| Files.ImageSizeCached | src/files.rs:63-69 | with a writable cache, the size recorded is what `get` then answers |
| Files.NonImageMime | src/files.rs:78-79 | video gives `Video`, any other known type `File`, and the cache is untouched |
| Files.HandleFileMime | src/files.rs:58-81 | the method's record and new cache map are `HandleMimeF`'s |
| Files.TryGetMime | src/files.rs:83-98 | the guess is returned; with no guess exactly one `File` record is appended |
| Files.DottedPath | src/files.rs:143 | the dotted entry path holds no '/' |
| Files.DottedPathJoins | src/files.rs:143 | for components without '/', the dotted path is the components joined by '.' |
| Files.UnhashedPath | src/files.rs:140-144 | the output is `parent/<prefix>.<dotted entry path>` |
| Files.TryExtract | src/files.rs:100-159 | the method computes `TryExtractF` |
| Files.TryExtractOnlyZip | src/files.rs:101-102 | anything but `zip` is left alone |
| Files.TryExtractMarkerPresent | src/files.rs:104-111 | an archive whose marker exists is left alone |
| Files.TryExtractOnlyMarker | src/files.rs:113-157 | an archive that does not open, or has only directories and `psd` files, only gets its marker |
| Files.TryExtractWritesFirst | src/files.rs:122-153 | the first entry neither a directory nor `psd` is written under its un-hashed name, and the run ends there |
| Files.FirstExtractedAt | src/files.rs:122-137 | the loop's skip rule finds exactly that first entry |
| Files.TryExtractWritesNoMarker | src/files.rs:147-157 | such a run never creates the marker |
| Files.MatchFile | src/files.rs:41-56 | the method computes `MatchFileF` |
| Files.MatchUnknownMime | src/files.rs:88-97 | an unknown-MIME file is recorded once as `File`; nothing is unpacked |
| Files.MatchKnownMime | src/files.rs:45-51 | a known-MIME file goes through `try_extract`; if that gets through, exactly one record is appended, as `handle_file_mime` classifies it |
| Files.MatchAllFailStays | src/files.rs:16-18 | once the listing loop panics it stays panicked |
| Files.MatchFileRecordsOne | src/files.rs:41-56 | a file that gets through adds exactly its own record |
| Files.MatchAllRecordsEach | src/files.rs:16-18 | before the sort there is one record per listed file, in listing order |
| Files.CollectFiles | src/files.rs:12-23 | the method computes `CollectFilesF` |
| Files.CollectFilesSorted | src/files.rs:20 | the result is sorted by file name, a permutation of the records, and stable for equal names |
| Files.CollectFilesCount | src/files.rs:13-18 | one record per non-hidden file of the folder |
| Files.ThumbScan | src/files.rs:28-37 | the chosen index is an image, and the remembered name is its name |
| Files.GetThumb | src/files.rs:25-39 | the loop returns `Thumb` |
| Files.ThumbScanFacts | src/files.rs:28-37 | the invariants of the scan hold after every prefix |
| Files.ThumbNone | src/files.rs:25-38 | `None` if and only if no file is an image |
| Files.ThumbFirstSmallest | src/files.rs:33-36 | without empty names: the path of an image with the smallest name, strictly smaller than every earlier image |
| Files.ThumbEmptyDisplaced | src/files.rs:33 | an empty-named image followed by another image is never the thumbnail |
| Files.ThumbEmptyChosenOrLater | src/files.rs:33 | something is chosen at or after every empty-named image |
| Files.ThumbLaterNamed | src/files.rs:33-36 | an image after the chosen one leaves a non-empty remembered name |
| Output.Ancestors | src/output.rs:42 | `create_dir_all` creates the path and only prefixes of it |
| Output.OutputBuilder.constructor | src/output.rs:20-25 | the target is the argument and the log is empty |
| Output.OutputBuilder.Write | src/output.rs:26-28 | appends one `Json` op and keeps earlier ops |
| Output.OutputBuilder.Copy | src/output.rs:29-31 | appends one `File` op and keeps earlier ops |
| Output.OutputBuilder.Folder | src/output.rs:32-34 | appends one `Folder` op and keeps earlier ops |
| Output.OutputBuilder.Finish | src/output.rs:36-64 | the loop computes `Apply` of the log: the final tree, or `ok == false` where it panics |
| Output.ApplyAppend | src/output.rs:38 | ops are applied in list order: `a + b` is `a`, then `b` |
| Output.ApplyFailStays | src/output.rs:50-61 | once `finish` panics, the whole log panics |
| Output.FolderOnlyIfAbsent | src/output.rs:40-45 | a folder is created with its ancestors only when absent, and nothing changes when present |
| Output.LinkSkippedIfLinked | src/output.rs:50-61 | a link onto an existing link is skipped; onto anything else that exists it panics; otherwise it is created |
| Output.StepGrows | src/output.rs:38-62 | no step removes anything or retargets a link |
| Output.ApplyJson | src/output.rs:46-49 | JSON is always overwritten: each path ends with the last data the log writes to it |
| Output.ApplySettles | src/output.rs:38-62 | every op of a completed log is settled in its result |
| Output.ApplySettled | src/output.rs:38-62 | a log of settled ops only rewrites JSON |
| Output.FinishIdempotent | src/output.rs:38-62 | running `finish` again with the same log on its result changes nothing |
| Output.OutputPostsOf | src/output.rs:97-119 | the folder is `[id]` with `id == cyrb53(filename)`; name and date are the post's slices; the preview is `None` exactly without images, else `id/<name of images[0]>`; `length` is `len() as u32`; one link per file, bucket by bucket |
| Output.OutputPostsIdentity | src/output.rs:98-99 | the post's folder is 1 to 16 lower-case hex digits that read back as the hash value |
| Output.LinksOf | src/output.rs:112-117 | one `(path, name)` pair per file, in order |
| Output.LinksByBucket | src/output.rs:112-117 | the link of each bucket entry sits at its `collect_all` position |
| Output.GetDate | src/output.rs:163-165 | `Ok` from the first `-`-separated part that parses as u32, else `Err(name)` when no part parses |
| Output.DateLeqTotalPreorder | src/output.rs:166 | the order on `Result<u32, &str>` is a total preorder |
| Output.ImageEntries | src/output.rs:139-144 | one `(name, size)` entry per image, in order |
| Output.NormalEntries | src/output.rs:146-158 | one name entry per video or other file, in order |
| Output.DateSortedOrder | src/output.rs:162-167 | in a sorted list numbered names come first, by number, then the others by string order |
| Output.MetadataOf | src/output.rs:137-180 | name and date are the post's; each list is a permutation of its bucket's entries, sorted by `get_date` |
| Output.MetadataStable | src/output.rs:169-171 | the sort is stable: entries of equal key keep their bucket order |
| Author.Summaries | src/author.rs:17 | one summary per post, in order |
| Author.ArchiveAuthorOf | src/author.rs:6-19 | `id == name ==` the author folder's last component ("" without one); `from == {Fanbox}`; no thumbnail without posts, else the first post's; one summary per post, in order |
| Author.AuthorThumb | src/author.rs:8-11 | posts after the first have no say on the thumbnail |

## Left out

- `src/main.rs`, `src/config.rs` and `src/args.rs` are not part of this model. They hold command-line parsing, logging, timing and the parallel fan-out over authors and posts.
- The cache is modelled as used by one thread. The sharing between workers, and `insert` being called through a shared reference in `src/files.rs:67`, are left out.
- JSON serialisation and file I/O of `ImageCache::load`/`save` are left out. `Load` takes the parsed snapshot and `Save` returns the map it would write.
- MIME guessing, `imagesize::size`, `read_dir` and zip decoding are parameters of `Env`. So are the bytes of archive entries, given as a finite tree of archives; an archive that contains itself, which would make the source recurse forever, is outside the model.
- Files.TryExtract: the recursive `collect_files` on each extracted file is modelled as the panic it is (`read_dir` on a file). Its records are therefore never modelled.
- Output.OutputBuilder.Finish: these I/O failures are left out:
  - `create_dir_all` blocked by a file;
  - `fs::write` into a missing parent folder or onto a directory;
  - `symlink` into a missing parent folder.
  The modelled failures are `canonicalize` failing and a link onto an existing non-link entry. The target of a created link is kept as the canonical path and is not checked.
- Output.Step: a JSON write onto an existing link adds a JSON entry beside the link, and the link stays. `fs::write` (`src/output.rs:48`) follows the link and overwrites the file it points to. The model captures neither the write-through nor the overwrite of the link's target.
- Output.Ancestors also records the empty path, the working directory, as existing; `target + path` stands for `root.join(path)` with relative paths only.
- `OutputAuthors::new` (`src/output.rs:81-85`) is a plain pair constructor and is not modelled. `OutputPosts::thumb` is `Output.OutputPosts.Thumb`.
- Rust's byte order on strings is modelled as code-point order on `seq<char>`; the two agree because UTF-8 preserves code-point order.
- Utils.Combine: the final `4294967296 * (2097151 & h2) + h1` can exceed 2^64. It is modelled as wrapping, as in a release build; a debug build would panic.
- Post.PostFiles.AddFile / Files.TryExtract: these panics are left out: `archive.by_index(i).unwrap()` on an entry that cannot be read (`src/post.rs:80`, `src/files.rs:123`), and the `to_str().unwrap()` calls on paths that are not valid UTF-8 (`src/post.rs:61`, `src/post.rs:88`, `src/files.rs:101`, `src/files.rs:132`). Entries are always readable, and paths are always `seq<char>`, so always valid.
- Paths are sequences of already-normalised components: an entry name with `..` or a leading `/`, which `mangled_name` sanitises, is not modelled differently from any other.
- Base.NameExtension: for a component `..` it gives `Some("")`, where `Path::extension` gives `None` because `file_name()` has no name for it.
- Post.PostFiles.AddFile: `File::open`/`io::copy` failures are left out. Only `create_dir` on an existing marker and `File::create` onto a directory are modelled as panics.
- `ArchiveAuthor` is generic in the post summary type; the conversion `post.clone().into()` and the `thumb` field of `post_archiver` are parameters.
