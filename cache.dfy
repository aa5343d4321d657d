/** src/cache.rs: the image-dimension cache, a map from image path to
    (width, height) with an `ignore` flag that turns writes into no-ops. */
module Cache {
  import opened Base

  type Size = (u32, u32)

  /** `HashMap::get` on the cache's map. */
  function Lookup(m: map<Path, Size>, key: Path): (r: Option<Size>)
    ensures r.Some? <==> key in m
    ensures r.Some? ==> r.value == m[key]
  {
    if key in m then Some(m[key]) else None
  }

  /** The map after `insert(key, value)`: unchanged when `ignore` is set,
      otherwise `key` bound to `value` (replacing any earlier binding). */
  function Inserted(m: map<Path, Size>, ignore: bool, key: Path, value: Size): (r: map<Path, Size>)
    ensures ignore ==> r == m
    ensures !ignore ==> r.Keys == m.Keys + {key}
  {
    if ignore then m else m[key := value]
  }

  /** A new cache answers `None` for every key. */
  lemma LookupEmpty(key: Path)
    ensures Lookup(map[], key) == None
  {
  }

  /** With `ignore` set, `insert` changes nothing. */
  lemma InsertIgnored(m: map<Path, Size>, key: Path, value: Size)
    ensures Inserted(m, true, key, value) == m
  {
  }

  /** Without `ignore`, the inserted value is what `get` returns next. */
  lemma LookupAfterInsert(m: map<Path, Size>, key: Path, value: Size)
    ensures Lookup(Inserted(m, false, key, value), key) == Some(value)
  {
  }

  /** `insert` never changes what `get` returns for another key. */
  lemma LookupOtherAfterInsert(m: map<Path, Size>, ignore: bool, key: Path, value: Size, other: Path)
    requires other != key
    ensures Lookup(Inserted(m, ignore, key, value), other) == Lookup(m, other)
  {
  }

  class ImageCache {
    var inner: map<Path, Size>
    /** Set at construction and never reassigned. */
    const ignore: bool

    /** `ImageCache::new`: an empty map. */
    constructor (ignore: bool)
      ensures inner == map[] && this.ignore == ignore
    {
      inner := map[];
      this.ignore := ignore;
    }

    method Insert(key: Path, value: Size)
      modifies this
      ensures inner == Inserted(old(inner), ignore, key, value)
    {
      if ignore {
        return;
      }
      inner := inner[key := value];
    }

    function Get(key: Path): (r: Option<Size>)
      reads this
      ensures r.Some? <==> key in inner
      ensures r.Some? ==> r.value == inner[key]
    {
      Lookup(inner, key)
    }

    /** `save`: the snapshot written to `image-cache.json`, or nothing at all
        when the cache is ignored. Serialisation and file I/O are not modelled. */
    method Save() returns (written: Option<map<Path, Size>>)
      ensures ignore ==> written == None
      ensures !ignore ==> written == Some(inner)
    {
      if ignore {
        return None;
      }
      written := Some(inner);
    }

    /** `load`: `snapshot` is the parsed `image-cache.json`, `None` when the
        file is missing or does not parse; then no cache is returned. */
    static method Load(snapshot: Option<map<Path, Size>>, ignore: bool) returns (cache: ImageCache?)
      ensures snapshot.None? <==> cache == null
      ensures cache != null ==> fresh(cache) && cache.inner == snapshot.value && cache.ignore == ignore
    {
      if snapshot.None? {
        return null;
      }
      cache := new ImageCache(ignore);
      cache.inner := snapshot.value;
    }
  }
}
