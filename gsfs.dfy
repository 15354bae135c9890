/** The filesystem façade over the object store (gcp/gcs/gsfs.py): a bucket cache that is
    filled lazily, the classification of addresses as files, directories or nothing, and
    the listing, mkdir, create, copy, removal and rename operations.

    Each operation is a method of FileSystem, whose fields are the store and the bucket
    cache; what the operation returns and what the store becomes is given by a function of
    the store before the call, and the properties of the operations are lemmas about those
    functions. */
module GsFs {
  import opened Wrappers
  import opened Strings
  import PosixPath
  import opened GcsErrors
  import opened GcsUri
  import opened GcsStat
  import GcsFile
  import opened GcsStore

  /** _append_separator: a '/' is added to a non-empty path that does not end in one. */
  function AppendSeparator(path: string): (r: string)
    ensures path == "" ==> r == ""
    ensures path != "" && EndsWith(path, "/") ==> r == path
    ensures path != "" && !EndsWith(path, "/") ==> r == path + "/"
  {
    if path != "" && path[|path| - 1] != '/' then path + "/" else path
  }

  /** The result is empty or ends in '/', and adding the separator twice adds it once. */
  lemma AppendSeparatorShape(path: string)
    ensures var r := AppendSeparator(path); r == "" || EndsWith(r, "/")
    ensures AppendSeparator(AppendSeparator(path)) == AppendSeparator(path)
    ensures StartsWith(AppendSeparator(path), path)
  {
    if path != "" && path[|path| - 1] != '/' {
      var r := path + "/";
      assert r[|r| - 1] == '/';
      assert r[..|path|] == path;
    }
  }

  /** _cut_separator: one final '/' is removed, except from "/" itself, where the `and`/`or`
      idiom falls back to the path because "" is false; it undoes _append_separator. */
  function CutSeparator(path: string): (r: string)
    ensures |path| > 1 && EndsWith(path, "/") ==> r + "/" == path
    ensures |path| <= 1 || !EndsWith(path, "/") ==> r == path
  {
    if |path| > 1 && path[|path| - 1] == '/' then path[..|path| - 1] else path
  }

  lemma CutAppendSeparator(path: string)
    requires path != "" && !EndsWith(path, "/")
    ensures CutSeparator(AppendSeparator(path)) == path
  {
    var r := path + "/";
    assert r[|r| - 1] == '/';
    assert r[..|r| - 1] == path;
  }

  // ---------------------------------------------------------------------------------------
  // Stat classification (_get_blob, _stats, _stats_blob)

  /** What _get_blob resolves an address to: its bucket and key, and the bucket's objects. */
  datatype Handle = Handle(bucket: string, key: string, objs: Objects)

  /** _get_blob's lookups: parse_uri, then the bucket (cached or fetched). */
  function HandleOf(s: Store, path: string): (r: Outcome<Handle>)
    ensures r.Success? ==> ParseUri(path).Success? && r.value.bucket == ParseUri(path).value.bucket &&
                           r.value.key == ParseUri(path).value.key &&
                           r.value.bucket in s.buckets && r.value.objs == s.buckets[r.value.bucket]
    ensures r.Failure? ==> r.error == ValueError || r.error == NotFound
  {
    var p :- ParseUri(path);
    var objs :- GetBucket(s, p.bucket);
    Success(Handle(p.bucket, p.key, objs))
  }

  /** _stats_blob of a fetched object: a directory exactly when its name is empty or ends
      in '/'. */
  function BlobStat(bucket: string, key: string, o: Object): (st: Stat)
    ensures st.isDir <==> key == "" || EndsWith(key, "/")
    ensures st.size == |o.data| && st.mtime == o.updated
  {
    FromBlob(BlobInfo(bucket, key, Some(|o.data|), Some(o.updated)), key == "" || key[|key| - 1] == '/')
  }

  /** _stats_blob of a handle that names no object: the name gets a final '/', and the
      handle is a directory when some key starts with that name, and nothing otherwise. */
  function PlaceholderStat(bucket: string, key: string, objs: Objects): (st: Option<Stat>)
    ensures st.Some? <==> KeysWithPrefix(objs, AppendSeparator(key)) != {}
    ensures st.Some? ==> st.value.isDir && st.value.size == 0 && st.value.mtime == 0
  {
    var name := AppendSeparator(key);
    if KeysWithPrefix(objs, name) != {} then Some(FromBlob(BlobInfo(bucket, name, None, None), true))
    else None
  }

  /** _stats for an address of a bucket that exists. */
  function StatOfKey(bucket: string, key: string, objs: Objects): Option<Stat> {
    if key in objs then Some(BlobStat(bucket, key, objs[key])) else PlaceholderStat(bucket, key, objs)
  }

  /** _stats: the root stat for the root, otherwise the stat of what the address names. */
  function StatOf(s: Store, path: string): Outcome<Option<Stat>> {
    if IsRoot(path) then Success(Some(ForGcsRoot()))
    else
      var h :- HandleOf(s, path);
      Success(StatOfKey(h.bucket, h.key, h.objs))
  }

  /** A key is a file when an object of that name exists and the name is neither empty nor
      ends in '/'; it is a directory when such an object exists with an empty name or a
      final '/', or when no object has the name but some key lies under name + '/'; it is
      nothing otherwise. */
  lemma StatOfKeyClassifies(bucket: string, key: string, objs: Objects)
    ensures var st := StatOfKey(bucket, key, objs);
            st.Some? && !st.value.isDir <==> key in objs && key != "" && !EndsWith(key, "/")
    ensures var st := StatOfKey(bucket, key, objs);
            st.Some? && st.value.isDir <==>
              (key in objs && (key == "" || EndsWith(key, "/"))) ||
              (key !in objs && KeysWithPrefix(objs, AppendSeparator(key)) != {})
    ensures StatOfKey(bucket, key, objs).None? <==>
              key !in objs && KeysWithPrefix(objs, AppendSeparator(key)) == {}
  {
  }

  /** The stat of the address of an object describes that object, and its path is an
      address that parse_uri takes apart into the bucket, the key and the stat's name. */
  lemma StatOfObject(s: Store, bucket: string, key: string)
    requires bucket != "" && '/' !in bucket && '\n' !in key
    requires bucket in s.buckets && key in s.buckets[bucket]
    ensures var st := StatOf(s, Address(bucket, key));
            st.Success? && st.value.Some? &&
            st.value.value == BlobStat(bucket, key, s.buckets[bucket][key]) &&
            ParseUri(st.value.value.path) == Success(Parsed(bucket, key, st.value.value.name))
  {
    StatOfAddress(s, bucket, key);
    var o := s.buckets[bucket][key];
    FromBlobParsesBack(BlobInfo(bucket, key, Some(|o.data|), Some(o.updated)), key == "" || key[|key| - 1] == '/');
  }

  /** An address with a bucket after the scheme is not the root. */
  lemma NotRootWithBucket(bucket: string, rest: string)
    requires bucket != "" && StartsWith(rest, bucket)
    ensures !IsRoot(GcsRoot + rest)
  {
    IsRootIff(GcsRoot + rest);
  }

  // ---------------------------------------------------------------------------------------
  // Queries (isfile, isdir, exists, stats)

  /** isfile: False for nothing, otherwise whether the stat is not a directory. */
  function IsFileSpec(s: Store, path: string): Outcome<bool> {
    Translate(var st :- StatOf(s, path); Success(st.Some? && !st.value.isDir))
  }

  /** isdir: False for nothing, otherwise whether the stat is a directory. */
  function IsDirSpec(s: Store, path: string): Outcome<bool> {
    Translate(var st :- StatOf(s, path); Success(st.Some? && st.value.isDir))
  }

  /** exists: whether there is a stat. */
  function ExistsSpec(s: Store, path: string): Outcome<bool> {
    Translate(var st :- StatOf(s, path); Success(st.Some?))
  }

  /** The IOError for a path that names nothing. */
  function NoSuchFile(path: string): Error {
    IoError(ENOENT, "No such file or directory: '" + path + "'")
  }

  /** stats: the stat of the normalised path, or ENOENT when it names nothing. */
  function StatsSpec(s: Store, normpath: string -> string, path: string): Outcome<Stat> {
    var p := normpath(path);
    Translate(var st :- StatOf(s, p); if st.Some? then Success(st.value) else Failure(NoSuchFile(p)))
  }

  /** An address is a file, a directory, or nothing, and exists exactly when it is one of
      the first two; stats fails with ENOENT exactly where exists is False; and no store
      error other than the translated ones escapes. */
  lemma QueriesAgree(s: Store, path: string)
    ensures IsFileSpec(s, path).Success? <==> StatOf(s, path).Success?
    ensures StatOf(s, path).Success? ==>
              IsDirSpec(s, path).Success? && ExistsSpec(s, path).Success? &&
              ExistsSpec(s, path).value == (IsFileSpec(s, path).value || IsDirSpec(s, path).value) &&
              !(IsFileSpec(s, path).value && IsDirSpec(s, path).value)
    ensures StatOf(s, path).Failure? ==>
              IsFileSpec(s, path) == IsDirSpec(s, path) == ExistsSpec(s, path) &&
              (ExistsSpec(s, path).error == ValueError || ExistsSpec(s, path).error == IoError(ENOENT, "Not Found"))
  {
  }

  lemma StatsAgreesWithExists(s: Store, normpath: string -> string, path: string)
    ensures var p := normpath(path);
            StatsSpec(s, normpath, path).Success? <==> ExistsSpec(s, p) == Success(true)
    ensures var p := normpath(path);
            ExistsSpec(s, p) == Success(false) ==> StatsSpec(s, normpath, path) == Failure(NoSuchFile(p))
  {
  }

  // ---------------------------------------------------------------------------------------
  // Listing (listdir_stats, listdir)

  /** The stat of one element of a delimited listing of prefix, or nothing for the marker
      object of the listed directory itself. A common prefix is a directory. */
  function ItemStat(bucket: string, prefix: string, it: Item): (r: seq<Stat>)
    ensures |r| <= 1
    ensures it.PrefixItem? ==> r == [FromBlob(BlobInfo(bucket, it.name, None, None), true)]
    ensures it.BlobItem? && it.name == prefix ==> r == []
    ensures it.BlobItem? && it.name != prefix ==> r == [BlobStat(bucket, it.name, it.obj)]
  {
    match it
    case PrefixItem(n) => [FromBlob(BlobInfo(bucket, n, None, None), true)]
    case BlobItem(n, o) => if n == prefix then [] else [BlobStat(bucket, n, o)]
  }

  /** The stats listdir_stats collects for the listing items, in their order. */
  function ItemStats(bucket: string, prefix: string, items: seq<Item>): (r: seq<Stat>)
    ensures |r| <= |items|
    decreases |items|
  {
    if items == [] then []
    else ItemStats(bucket, prefix, items[..|items| - 1]) + ItemStat(bucket, prefix, items[|items| - 1])
  }

  /** The stats of the buckets at the root, in the order of their names. */
  function BucketStats(names: seq<string>): (r: seq<Stat>)
    ensures |r| == |names|
    ensures forall i :: 0 <= i < |names| ==> r[i] == FromBucket(names[i])
  {
    seq(|names|, i requires 0 <= i < |names| => FromBucket(names[i]))
  }

  /** listdir_stats(path, glob): NotImplementedError for a glob; the cached buckets at the
      root; otherwise the stats of the delimited listing under the key and a '/'. */
  function ListdirStatsSpec(s: Store, cached: set<string>, path: string, glob: Option<string>): Outcome<seq<Stat>> {
    Translate(
      if glob.Some? then Failure(NotImplementedError)
      else if IsRoot(path) then Success(BucketStats(SortedList(cached)))
      else
        var h :- HandleOf(s, path);
        var prefix := AppendSeparator(h.key);
        Success(ItemStats(h.bucket, prefix, ListDelimited(h.objs, prefix))))
  }

  /** A glob is refused; the root lists one directory per cached bucket, each at the
      bucket's address and named after it. */
  lemma ListdirRoot(s: Store, cached: set<string>, path: string, glob: string)
    ensures ListdirStatsSpec(s, cached, path, Some(glob)) == Failure(NotImplementedError)
    ensures IsRoot(path) ==>
              ListdirStatsSpec(s, cached, path, None).Success? &&
              var r := ListdirStatsSpec(s, cached, path, None).value;
              |r| == |cached| &&
              (forall st :: st in r ==> st.isDir && st.name in cached && st.path == GcsRoot + st.name) &&
              (forall b :: b in cached ==> FromBucket(b) in r)
  {
    if IsRoot(path) {
      var names := SortedList(cached);
      var r := BucketStats(names);
      forall b | b in cached
        ensures FromBucket(b) in r
      {
        var i :| 0 <= i < |names| && names[i] == b;
        assert r[i] == FromBucket(b);
      }
    }
  }

  /** No element of a listing stands for the listed directory's own marker object, and
      each listed object is one that lies directly in the directory. */
  lemma {:induction false} ItemStatsSkipSelf(bucket: string, prefix: string, objs: Objects, items: seq<Item>)
    requires forall i :: 0 <= i < |items| ==> ListedItem(objs, prefix, items[i])
    ensures forall st :: st in ItemStats(bucket, prefix, items) ==>
              exists it :: it in items && it.name != prefix && st in ItemStat(bucket, prefix, it)
    decreases |items|
  {
    if items != [] {
      var init := items[..|items| - 1];
      assert forall i :: 0 <= i < |init| ==> init[i] == items[i];
      ItemStatsSkipSelf(bucket, prefix, objs, init);
      var last := items[|items| - 1];
      LastItemNotSelf(bucket, prefix, objs, last);
      assert ItemStats(bucket, prefix, items) == ItemStats(bucket, prefix, init) + ItemStat(bucket, prefix, last);
      forall st | st in ItemStats(bucket, prefix, items)
        ensures exists it :: it in items && it.name != prefix && st in ItemStat(bucket, prefix, it)
      {
        if st in ItemStats(bucket, prefix, init) {
          var it :| it in init && it.name != prefix && st in ItemStat(bucket, prefix, it);
          assert it in items;
        } else {
          assert last in items;
        }
      }
    }
  }

  /** A listed common prefix is longer than the prefix, so only an object can be the
      listing's own key. */
  lemma LastItemNotSelf(bucket: string, prefix: string, objs: Objects, it: Item)
    requires ListedItem(objs, prefix, it)
    ensures ItemStat(bucket, prefix, it) != [] ==> it.name != prefix
  {
    if it.PrefixItem? {
      assert prefix[|prefix|..] == [];
    }
  }

  /** listdir: the basenames parse_uri takes from the paths of listdir_stats. */
  function Names(stats: seq<Stat>): (r: Outcome<seq<string>>)
    ensures r.Success? <==> forall i :: 0 <= i < |stats| ==> ParseUri(stats[i].path).Success?
    ensures r.Success? ==> |r.value| == |stats|
    ensures r.Success? ==> forall i :: 0 <= i < |stats| ==> r.value[i] == ParseUri(stats[i].path).value.basename
    ensures r.Failure? ==> r.error == ValueError
  {
    var parsed := seq(|stats|, i requires 0 <= i < |stats| => ParseUri(stats[i].path));
    assert forall i :: 0 <= i < |stats| ==> parsed[i] == ParseUri(stats[i].path);
    var r := Basenames(parsed);
    r
  }

  /** The list comprehension of listdir over the parses of the paths: the basename of each,
      or the first parse's error. */
  function Basenames(parsed: seq<Outcome<Parsed>>): (r: Outcome<seq<string>>)
    ensures r.Success? <==> forall i :: 0 <= i < |parsed| ==> parsed[i].Success?
    ensures r.Success? ==> |r.value| == |parsed|
    ensures r.Success? ==> forall i :: 0 <= i < |parsed| ==> r.value[i] == parsed[i].value.basename
    ensures r.Failure? ==> exists i :: 0 <= i < |parsed| && parsed[i].Failure? && r.error == parsed[i].error
    decreases |parsed|
  {
    if parsed == [] then Success([])
    else
      var init := parsed[..|parsed| - 1];
      assert forall i :: 0 <= i < |init| ==> init[i] == parsed[i];
      var names :- Basenames(init);
      var p :- parsed[|parsed| - 1];
      Success(names + [p.basename])
  }

  // ---------------------------------------------------------------------------------------
  // Changes to the store (create, mkdir, remove, rmtree, restore)

  /** The body create uploads: `data or ''`. */
  function Body(data: Option<seq<byte>>): seq<byte> {
    if data.Some? then data.value else []
  }

  /** create(path, overwrite, data): uploads the body at the key when overwriting or when no
      object has that key; otherwise the store stays as it is. */
  function CreateSpec(s: Store, path: string, overwrite: bool, data: Option<seq<byte>>, now: int): Outcome<Store> {
    Translate(
      var h :- HandleOf(s, path);
      if overwrite || h.key !in h.objs then Success(Put(s, h.bucket, h.key, Object(Body(data), now)))
      else Success(s))
  }

  /** After create the key holds an object: the new body when overwriting or when the key
      was free, the old one otherwise; every other key and bucket is unchanged. */
  lemma CreateEffect(s: Store, path: string, overwrite: bool, data: Option<seq<byte>>, now: int)
    requires CreateSpec(s, path, overwrite, data, now).Success?
    ensures var h := HandleOf(s, path).value;
            var t := CreateSpec(s, path, overwrite, data, now).value;
            && h.key in t.buckets[h.bucket]
            && ((overwrite || h.key !in h.objs) ==> t.buckets[h.bucket][h.key] == Object(Body(data), now))
            && (!overwrite && h.key in h.objs ==> t == s)
            && (forall k :: k in h.objs && k != h.key ==> k in t.buckets[h.bucket] && t.buckets[h.bucket][k] == h.objs[k])
            && (forall b :: b in s.buckets && b != h.bucket ==> t.buckets[b] == s.buckets[b])
  {
  }

  /** The IOError of mkdir over a file. */
  function NotADirectory(path: string): Error {
    IoError(ENOTDIR, "'" + path + "' already exists and is not a directory")
  }

  /** mkdir(path): nothing to do for a directory, ENOTDIR for a file, and otherwise create
      of the empty object at path with a final '/'. */
  function MkdirSpec(s: Store, path: string, now: int): Outcome<Store> {
    Translate(
      var st :- StatOf(s, path);
      if st.Some? then
        if st.value.isDir then Success(s) else Failure(NotADirectory(path))
      else CreateSpec(s, AppendSeparator(path), false, None, now))
  }

  /** mkdir of a directory changes nothing, and mkdir of a file fails with ENOTDIR. */
  lemma MkdirOnExisting(s: Store, path: string, now: int)
    ensures IsDirSpec(s, path) == Success(true) ==> MkdirSpec(s, path, now) == Success(s)
    ensures IsFileSpec(s, path) == Success(true) ==> MkdirSpec(s, path, now) == Failure(NotADirectory(path))
  {
  }

  /** The address of key in bucket: gs://bucket/key, or gs://bucket for the empty key. */
  function Address(bucket: string, key: string): string {
    if key == "" then GcsRoot + bucket else GcsRoot + (bucket + "/" + key)
  }

  lemma AddressParses(bucket: string, key: string)
    requires bucket != "" && '/' !in bucket && '\n' !in key
    ensures ParseUri(Address(bucket, key)) == Success(Parsed(bucket, key, PosixPath.BaseName(StripTrailingSlash(key))))
    ensures !IsRoot(Address(bucket, key))
  {
    if key == "" {
      ParseBucketOnly(bucket);
      NotRootWithBucket(bucket, bucket);
    } else {
      ParseBuilt(bucket, key);
      NotRootWithBucket(bucket, bucket + "/" + key);
    }
  }

  /** The address mkdir creates for a directory address: its key with a final '/'. */
  lemma AppendSeparatorAddress(bucket: string, key: string)
    requires bucket != "" && '/' !in bucket && '\n' !in key && !EndsWith(key, "/")
    ensures AppendSeparator(Address(bucket, key)) == GcsRoot + (bucket + "/" + AppendSeparator(key))
  {
    var p := Address(bucket, key);
    assert p[|p| - 1] != '/' by {
      if key == "" {
        assert p[|p| - 1] == bucket[|bucket| - 1];
        assert bucket[|bucket| - 1] in bucket;
      } else {
        assert p[|p| - 1] == key[|key| - 1];
      }
    }
    if key != "" {
      assert p + "/" == GcsRoot + (bucket + "/" + (key + "/"));
    }
  }

  /** mkdir of an address that names nothing creates exactly one empty object, at the key
      with a final '/', and the address is a directory afterwards. */
  lemma MkdirMakesDirectory(s: Store, bucket: string, key: string, now: int)
    requires bucket != "" && '/' !in bucket && '\n' !in key && !EndsWith(key, "/")
    requires bucket in s.buckets && ExistsSpec(s, Address(bucket, key)) == Success(false)
    ensures MkdirSpec(s, Address(bucket, key), now) == Success(Put(s, bucket, AppendSeparator(key), Object([], now)))
    ensures IsDirSpec(MkdirSpec(s, Address(bucket, key), now).value, Address(bucket, key)) == Success(true)
  {
    var path := Address(bucket, key);
    var marker := AppendSeparator(key);
    var objs := s.buckets[bucket];
    StatOfAddress(s, bucket, key);
    StatOfKeyClassifies(bucket, key, objs);
    assert KeysWithPrefix(objs, marker) == {};
    SelfPrefix(objs, marker);
    HandleOfMarker(s, bucket, key);
    var t := Put(s, bucket, marker, Object([], now));
    assert CreateSpec(s, AppendSeparator(path), false, None, now) == Success(t);
    assert MkdirSpec(s, path, now) == Success(t);
    MarkerMakesDirectory(t, bucket, key);
  }

  /** create of an address in a bucket that exists uploads unless the object is there
      and overwrite is off; either way the address exists afterwards. */
  lemma CreateThenExists(s: Store, bucket: string, key: string, overwrite: bool, data: Option<seq<byte>>, now: int)
    requires bucket != "" && '/' !in bucket && '\n' !in key && bucket in s.buckets
    ensures var objs := s.buckets[bucket];
            CreateSpec(s, Address(bucket, key), overwrite, data, now) ==
              Success(if overwrite || key !in objs then Put(s, bucket, key, Object(Body(data), now)) else s)
    ensures ExistsSpec(CreateSpec(s, Address(bucket, key), overwrite, data, now).value, Address(bucket, key)) == Success(true)
  {
    HandleOfAddress(s, bucket, key);
    var t := CreateSpec(s, Address(bucket, key), overwrite, data, now).value;
    StatOfAddress(t, bucket, key);
  }

  /** _get_blob of an address in a bucket that exists. */
  lemma HandleOfAddress(s: Store, bucket: string, key: string)
    requires bucket != "" && '/' !in bucket && '\n' !in key && bucket in s.buckets
    ensures HandleOf(s, Address(bucket, key)) == Success(Handle(bucket, key, s.buckets[bucket]))
  {
    AddressParses(bucket, key);
  }

  /** A key lies under itself. */
  lemma SelfPrefix(objs: Objects, p: string)
    ensures p in objs ==> p in KeysWithPrefix(objs, p)
  {
    assert p[..|p|] == p;
  }

  /** create's lookup for the address mkdir passes it: the marker key in the same bucket. */
  lemma HandleOfMarker(s: Store, bucket: string, key: string)
    requires bucket != "" && '/' !in bucket && '\n' !in key && !EndsWith(key, "/") && bucket in s.buckets
    ensures HandleOf(s, AppendSeparator(Address(bucket, key))) == Success(Handle(bucket, AppendSeparator(key), s.buckets[bucket]))
  {
    AppendSeparatorAddress(bucket, key);
    ParseBuilt(bucket, AppendSeparator(key));
  }

  /** The stat of an address in a bucket that exists is the stat of its key there. */
  lemma StatOfAddress(t: Store, bucket: string, key: string)
    requires bucket != "" && '/' !in bucket && '\n' !in key && bucket in t.buckets
    ensures StatOf(t, Address(bucket, key)) == Success(StatOfKey(bucket, key, t.buckets[bucket]))
  {
    AddressParses(bucket, key);
  }

  /** An address is a directory once the marker object of its key is stored, unless an
      object has the key itself. */
  lemma MarkerMakesDirectory(t: Store, bucket: string, key: string)
    requires bucket != "" && '/' !in bucket && '\n' !in key
    requires bucket in t.buckets && AppendSeparator(key) in t.buckets[bucket]
    requires key == "" || key !in t.buckets[bucket]
    ensures IsDirSpec(t, Address(bucket, key)) == Success(true)
  {
    StatOfAddress(t, bucket, key);
    var objs := t.buckets[bucket];
    if key !in objs {
      AppendSeparatorShape(key);
      assert AppendSeparator(key) in KeysWithPrefix(objs, AppendSeparator(key));
    }
  }

  /** remove(path, skip_trash): only with skip_trash; deletes the object at the key, and a
      missing object is the store's NotFound error. */
  function RemoveSpec(s: Store, path: string, skipTrash: bool): Outcome<Store> {
    Translate(
      if !skipTrash then Failure(NotImplementedError)
      else
        var h :- HandleOf(s, path);
        if h.key in h.objs then Success(Delete(s, h.bucket, {h.key})) else Failure(NotFound))
  }

  /** The keys rmtree deletes: the object at the key if there is one, and, for a directory,
      every key under the key and a '/'. */
  function Doomed(h: Handle, isDir: bool): set<string> {
    (if h.key in h.objs then {h.key} else {}) +
    (if isDir then KeysWithPrefix(h.objs, AppendSeparator(h.key)) else {})
  }

  /** rmtree(path, skipTrash): only with skipTrash; deletes the doomed keys. */
  function RmtreeSpec(s: Store, path: string, skipTrash: bool): Outcome<Store> {
    Translate(
      if !skipTrash then Failure(NotImplementedError)
      else
        var h :- HandleOf(s, path);
        var isDir :- IsDirSpec(s, path);
        Success(Delete(s, h.bucket, Doomed(h, isDir))))
  }

  /** restore: moving to and from trash is not implemented. */
  function Restore(): (r: Outcome<()>)
    ensures r.Failure? && r.error == NotImplementedError
  {
    Failure(NotImplementedError)
  }

  /** Removal without skipping trash fails with NotImplementedError and deletes nothing. */
  lemma TrashRefused(s: Store, path: string)
    ensures RemoveSpec(s, path, false) == Failure(NotImplementedError)
    ensures RmtreeSpec(s, path, false) == Failure(NotImplementedError)
  {
  }

  /** rmtree leaves neither the object at the key nor, for a directory, anything under it;
      every other key keeps its object, so a sibling such as a_new survives rmtree of a. */
  lemma RmtreeEffect(s: Store, path: string)
    requires RmtreeSpec(s, path, true).Success?
    ensures var h := HandleOf(s, path).value;
            var t := RmtreeSpec(s, path, true).value;
            var left := t.buckets[h.bucket];
            h.key !in left &&
            (IsDirSpec(s, path) == Success(true) ==> KeysWithPrefix(left, AppendSeparator(h.key)) == {}) &&
            (IsDirSpec(s, path) == Success(true) ==>
               forall k :: k in h.objs && k != h.key && !StartsWith(k, AppendSeparator(h.key)) ==>
                             k in left && left[k] == h.objs[k]) &&
            (IsDirSpec(s, path) == Success(false) ==>
               forall k :: k in h.objs && k != h.key ==> k in left && left[k] == h.objs[k]) &&
            (forall b :: b in s.buckets && b != h.bucket ==> t.buckets[b] == s.buckets[b])
  {
    RmtreeDeletes(s, path);
    DoomedFrame(HandleOf(s, path).value, IsDirSpec(s, path).value);
  }

  /** A successful rmtree is the deletion of the doomed keys. */
  lemma RmtreeDeletes(s: Store, path: string)
    requires RmtreeSpec(s, path, true).Success?
    ensures HandleOf(s, path).Success? && IsDirSpec(s, path).Success?
    ensures var h := HandleOf(s, path).value;
            RmtreeSpec(s, path, true) == Success(Delete(s, h.bucket, Doomed(h, IsDirSpec(s, path).value)))
  {
  }

  /** What is left of a bucket once the doomed keys are gone. */
  lemma DoomedFrame(h: Handle, isDir: bool)
    ensures var left := h.objs - Doomed(h, isDir);
            h.key !in left &&
            (isDir ==> KeysWithPrefix(left, AppendSeparator(h.key)) == {}) &&
            (isDir ==> forall k :: k in h.objs && k != h.key && !StartsWith(k, AppendSeparator(h.key)) ==>
                                   k in left && left[k] == h.objs[k]) &&
            (!isDir ==> forall k :: k in h.objs && k != h.key ==> k in left && left[k] == h.objs[k])
  {
  }

  /** The outcome is a store whose bucket holds the object o at the key k. */
  predicate HoldsAt(r: Outcome<Store>, bucket: string, k: string, o: Object) {
    r.Success? && bucket in r.value.buckets && k in r.value.buckets[bucket] && r.value.buckets[bucket][k] == o
  }

  /** The case of the comment in rmtree: rmtree of gs://bucket/a succeeds and keeps the
      object a_new, which extends the name without a '/'. */
  lemma RmtreeKeepsSibling(s: Store, bucket: string)
    requires bucket != "" && '/' !in bucket && bucket in s.buckets && "a_new" in s.buckets[bucket]
    ensures HoldsAt(RmtreeSpec(s, Address(bucket, "a"), true), bucket, "a_new", s.buckets[bucket]["a_new"])
  {
    SiblingOutside();
    RmtreeKeepsOutside(s, bucket, "a", "a_new");
  }

  /** a_new is neither a nor under a + '/'. */
  lemma SiblingOutside()
    ensures '\n' !in "a" && "a_new" != "a" && !StartsWith("a_new", AppendSeparator("a"))
  {
    assert AppendSeparator("a") == "a/";
    assert "a_new"[..2] == "a_";
  }

  /** rmtree of an address keeps every other key that does not lie under its key and '/'. */
  lemma RmtreeKeepsOutside(s: Store, bucket: string, key: string, k: string)
    requires bucket != "" && '/' !in bucket && '\n' !in key && bucket in s.buckets
    requires k in s.buckets[bucket] && k != key && !StartsWith(k, AppendSeparator(key))
    ensures HoldsAt(RmtreeSpec(s, Address(bucket, key), true), bucket, k, s.buckets[bucket][k])
  {
    var path, h := Address(bucket, key), Handle(bucket, key, s.buckets[bucket]);
    var st := StatOfKey(bucket, key, s.buckets[bucket]);
    HandleOfAddress(s, bucket, key);
    StatOfAddress(s, bucket, key);
    RmtreeAt(s, path, h, st);
    DoomedFrame(h, st.Some? && st.value.isDir);
  }

  /** rmtree of a path whose handle and stat are known deletes the doomed keys. */
  lemma RmtreeAt(s: Store, path: string, h: Handle, st: Option<Stat>)
    requires HandleOf(s, path) == Success(h) && StatOf(s, path) == Success(st)
    ensures h.bucket in s.buckets
    ensures RmtreeSpec(s, path, true) == Success(Delete(s, h.bucket, Doomed(h, st.Some? && st.value.isDir)))
  {
  }

  // ---------------------------------------------------------------------------------------
  // Copy (_copy, copy, copyfile, copy_remote_dir)

  /** The length of the key prefix that _copy cuts off every source key: the parent
      directory and its '/' when the source's basename is kept, the whole source key and
      the '/' after it otherwise. */
  function Cut(srcKey: string, keepBasename: bool): nat {
    if keepBasename then
      var c := |PosixPath.DirName(srcKey)|;
      if c > 0 then c + 1 else 0
    else if EndsWith(srcKey, "/") then |srcKey| else |srcKey| + 1
  }

  /** name[cut:], which is empty when cut is past the end. */
  function Tail(name: string, cut: nat): (r: string)
    ensures cut <= |name| ==> r == name[cut..]
    ensures cut > |name| ==> r == ""
  {
    if cut <= |name| then name[cut..] else ""
  }

  /** Where _copy puts a source key: posixpath.normpath of join(dst_key, name[cut:]). */
  function DestName(dstKey: string, name: string, cut: nat): string {
    PosixPath.NormPath(Join([dstKey, Tail(name, cut)]))
  }

  /** The keys the copy loop enumerates, as written: every key that starts with the source
      key, including siblings that only extend its last segment. */
  function CopySourcesAsWritten(objs: Objects, srcKey: string): seq<string> {
    ListKeys(objs, srcKey)
  }

  /** The keys of the object at the source key and of everything under it. */
  function CopySources(objs: Objects, srcKey: string): (r: seq<string>)
    ensures StrictlySorted(r)
  {
    SortedList(set k | k in objs && (k == srcKey || StartsWith(k, AppendSeparator(srcKey))))
  }

  /** The corrected enumeration holds exactly the source object and what lies under it;
      each of its keys starts with the source key, so the loop's RuntimeError check never
      fires. */
  lemma CopySourcesSpec(objs: Objects, srcKey: string)
    ensures forall k :: k in CopySources(objs, srcKey) <==>
              k in objs && (k == srcKey || StartsWith(k, AppendSeparator(srcKey)))
    ensures forall k :: k in CopySources(objs, srcKey) ==> StartsWith(k, srcKey)
  {
    AppendSeparatorShape(srcKey);
  }

  /** As written, copying a key such as "a" also enumerates a sibling such as "ab" that
      extends its last segment by one character other than '/'; the sibling's name[cut:] is
      empty like that of the key itself, so it is copied onto the key's destination. */
  lemma CopySiblingAsWritten(objs: Objects, srcKey: string, c: char, dstKey: string)
    requires srcKey != "" && !EndsWith(srcKey, "/") && c != '/'
    requires srcKey in objs && srcKey + [c] in objs
    ensures srcKey + [c] in CopySourcesAsWritten(objs, srcKey)
    ensures DestName(dstKey, srcKey + [c], Cut(srcKey, false)) == DestName(dstKey, srcKey, Cut(srcKey, false))
    ensures srcKey + [c] !in CopySources(objs, srcKey)
  {
    var sib := srcKey + [c];
    assert sib[..|srcKey|] == srcKey;
    assert Tail(sib, Cut(srcKey, false)) == "" == Tail(srcKey, Cut(srcKey, false));
    CopySourcesSpec(objs, srcKey);
    var sep := AppendSeparator(srcKey);
    assert sep == srcKey + "/";
    assert sib[|srcKey|] != sep[|srcKey|];
  }

  /** Under the source directory the cut leaves the path relative to it; with the basename
      kept it leaves the basename and that relative path. */
  lemma CutKeepsRelativePath(dir: string, base: string, rel: string)
    requires base != "" && '/' !in base
    ensures var srcKey := base;
            Tail(srcKey + "/" + rel, Cut(srcKey, false)) == rel &&
            Tail(srcKey + "/" + rel, Cut(srcKey, true)) == srcKey + "/" + rel
    ensures dir != "" && dir[|dir| - 1] != '/' ==>
              var srcKey := dir + "/" + base;
              Tail(srcKey + "/" + rel, Cut(srcKey, false)) == rel &&
              Tail(srcKey + "/" + rel, Cut(srcKey, true)) == base + "/" + rel
  {
    CutPlain(base, rel);
    if dir != "" && dir[|dir| - 1] != '/' {
      CutNested(dir, base, rel);
    }
  }

  lemma CutNested(dir: string, base: string, rel: string)
    requires base != "" && '/' !in base && dir != "" && dir[|dir| - 1] != '/'
    ensures Tail(dir + "/" + base + "/" + rel, Cut(dir + "/" + base, false)) == rel
    ensures Tail(dir + "/" + base + "/" + rel, Cut(dir + "/" + base, true)) == base + "/" + rel
  {
    var srcKey := dir + "/" + base;
    CutPlain(srcKey, rel);
    DirNameOf(dir, base);
    assert Cut(srcKey, true) == |dir| + 1;
    var k := srcKey + "/" + rel;
    assert k == (dir + "/") + (base + "/" + rel);
    assert k[|dir| + 1..] == base + "/" + rel;
  }

  lemma CutPlain(srcKey: string, rel: string)
    requires srcKey != "" && srcKey[|srcKey| - 1] != '/'
    ensures Tail(srcKey + "/" + rel, Cut(srcKey, false)) == rel
    ensures '/' !in srcKey ==> Tail(srcKey + "/" + rel, Cut(srcKey, true)) == srcKey + "/" + rel
  {
    var k := srcKey + "/" + rel;
    assert k[|srcKey| + 1..] == rel;
    if '/' !in srcKey {
      assert PosixPath.LastSlashEnd(srcKey) == 0;
      assert PosixPath.DirName(srcKey) == "";
    }
  }

  /** posixpath.dirname(dir + "/" + base) is dir when base has no '/' and dir does not end
      in one. */
  lemma DirNameOf(dir: string, base: string)
    requires base != "" && '/' !in base && dir != "" && dir[|dir| - 1] != '/'
    ensures PosixPath.DirName(dir + "/" + base) == dir
  {
    var p := dir + "/" + base;
    var i := PosixPath.LastSlashEnd(p);
    assert p[|dir|] == '/';
    assert forall j :: |dir| < j < |p| ==> p[j] == base[j - |dir| - 1];
    assert i == |dir| + 1;
    var head := p[..i];
    assert head == dir + "/";
    assert head[|head| - 2] != '/';
    assert !PosixPath.AllSlashes(head);
    assert head[..|head| - 1] == dir;
  }

  /** What _copy is to do once its checks have passed: copy the source keys of one bucket
      to their destination names in another. */
  datatype CopyJob = CopyJob(srcBucket: string, dstBucket: string, moves: seq<Move>)

  /** One iteration of the loop: the source key and the name it is copied to. */
  datatype Move = Move(src: string, dst: string)

  /** The moves for the enumerated keys, each to its destination name. */
  function Moves(keys: seq<string>, dstKey: string, cut: nat): (m: seq<Move>)
    ensures |m| == |keys|
    ensures forall i :: 0 <= i < |keys| ==> m[i].src == keys[i] && m[i].dst == DestName(dstKey, keys[i], cut)
  {
    seq(|keys|, i requires 0 <= i < |keys| => Move(keys[i], DestName(dstKey, keys[i], cut)))
  }

  /** The checks and lookups of _copy before its loop: the source's stat (ENOENT when it is
      missing), and no job for a directory without recursion; then the destination,
      resolved with abspath against the source. */
  function CopyPlan(s: Store, normpath: string -> string, src: string, dst: string, recursive: bool,
                    useSrcBasename: bool): (r: Outcome<Option<CopyJob>>)
    ensures r.Success? && r.value.Some? ==> r.value.value.srcBucket in s.buckets && r.value.value.dstBucket in s.buckets
  {
    var srcSt :- StatsSpec(s, normpath, src);
    if srcSt.isDir && !recursive then Success(None)
    else CopyPlanTo(s, src, AbsPath(src, dst, normpath), srcSt.isDir, useSrcBasename)
  }

  /** The destination's stat: EEXIST for a directory onto a non-directory; the basename of
      the source is kept only for copy onto a directory. */
  function CopyPlanTo(s: Store, src: string, dstPath: string, srcIsDir: bool,
                      useSrcBasename: bool): (r: Outcome<Option<CopyJob>>)
    ensures r.Success? && r.value.Some? ==> r.value.value.srcBucket in s.buckets && r.value.value.dstBucket in s.buckets
  {
    var dstSt :- StatOf(s, dstPath);
    if srcIsDir && dstSt.Some? && !dstSt.value.isDir then
      Failure(IoError(EEXIST, "Cannot overwrite non-directory '" + dstPath + "' with directory '" + src + "'"))
    else CopyJobFor(s, src, dstPath, useSrcBasename && dstSt.Some? && dstSt.value.isDir)
  }

  /** Both addresses parsed and both buckets fetched: the job over the source's keys. */
  function CopyJobFor(s: Store, src: string, dstPath: string, keep: bool): (r: Outcome<Option<CopyJob>>)
    ensures r.Success? ==> r.value.Some? && r.value.value.srcBucket in s.buckets && r.value.value.dstBucket in s.buckets
  {
    var sp :- ParseUri(src);
    var dp :- ParseUri(dstPath);
    var srcObjs :- GetBucket(s, sp.bucket);
    var dstObjs :- GetBucket(s, dp.bucket);
    Success(Some(CopyJob(sp.bucket, dp.bucket, Moves(CopySources(srcObjs, sp.key), dp.key, Cut(sp.key, keep)))))
  }

  /** The store after the loop has copied each of keys, in order. */
  function CopyAll(s: Store, job: CopyJob, moves: seq<Move>, now: int): (t: Store)
    requires job.srcBucket in s.buckets && job.dstBucket in s.buckets
    ensures t.listed == s.listed && t.buckets.Keys == s.buckets.Keys
    decreases |moves|
  {
    if moves == [] then s
    else
      var before := CopyAll(s, job, moves[..|moves| - 1], now);
      var m := moves[|moves| - 1];
      CopyObject(before, job.srcBucket, m.src, job.dstBucket, m.dst, now)
  }

  /** Copying one more key is one more store-side copy. */
  lemma CopyAllStep(s: Store, job: CopyJob, moves: seq<Move>, i: nat, now: int)
    requires job.srcBucket in s.buckets && job.dstBucket in s.buckets && i < |moves|
    ensures var before := CopyAll(s, job, moves[..i], now);
            job.srcBucket in before.buckets && job.dstBucket in before.buckets &&
            CopyAll(s, job, moves[..i + 1], now)
            == CopyObject(before, job.srcBucket, moves[i].src, job.dstBucket, moves[i].dst, now)
  {
    assert moves[..i + 1][..i] == moves[..i];
  }

  /** The names copying keys writes to. */
  function DestNames(moves: seq<Move>): set<string> {
    set i | 0 <= i < |moves| :: moves[i].dst
  }

  /** Copying writes only the destination names of the copied keys, in the destination
      bucket; everything else keeps its object. */
  lemma {:induction false} CopyAllFrame(s: Store, job: CopyJob, moves: seq<Move>, now: int)
    requires job.srcBucket in s.buckets && job.dstBucket in s.buckets
    ensures var t := CopyAll(s, job, moves, now);
            (forall b :: b in s.buckets && b != job.dstBucket ==> t.buckets[b] == s.buckets[b]) &&
            (forall k :: k in s.buckets[job.dstBucket] && k !in DestNames(moves) ==>
                          k in t.buckets[job.dstBucket] && t.buckets[job.dstBucket][k] == s.buckets[job.dstBucket][k])
    decreases |moves|
  {
    if moves != [] {
      var init := moves[..|moves| - 1];
      CopyAllFrame(s, job, init, now);
      assert forall i :: 0 <= i < |init| ==> init[i] == moves[i];
      assert DestNames(init) <= DestNames(moves);
      assert moves[|moves| - 1].dst in DestNames(moves);
    }
  }

  /** Between two buckets, with no two keys copied to the same name, each copied key's
      destination holds the body of its source, stamped with the time of the copy. */
  lemma {:induction false} CopyAllEffect(s: Store, job: CopyJob, moves: seq<Move>, now: int)
    requires job.srcBucket in s.buckets && job.dstBucket in s.buckets && job.srcBucket != job.dstBucket
    requires forall i, j :: 0 <= i < j < |moves| ==> moves[i].dst != moves[j].dst
    ensures var t := CopyAll(s, job, moves, now);
            forall i :: 0 <= i < |moves| && moves[i].src in s.buckets[job.srcBucket] ==>
              moves[i].dst in t.buckets[job.dstBucket] &&
              t.buckets[job.dstBucket][moves[i].dst] == Object(s.buckets[job.srcBucket][moves[i].src].data, now)
    decreases |moves|
  {
    if moves != [] {
      var init := moves[..|moves| - 1];
      var m := moves[|moves| - 1];
      assert forall i :: 0 <= i < |init| ==> init[i] == moves[i];
      CopyAllEffect(s, job, init, now);
      CopyAllFrame(s, job, init, now);
      var before := CopyAll(s, job, init, now);
      assert before.buckets[job.srcBucket] == s.buckets[job.srcBucket];
      var t := CopyObject(before, job.srcBucket, m.src, job.dstBucket, m.dst, now);
      assert CopyAll(s, job, moves, now) == t;
      forall i | 0 <= i < |moves| && moves[i].src in s.buckets[job.srcBucket]
        ensures moves[i].dst in t.buckets[job.dstBucket] &&
                t.buckets[job.dstBucket][moves[i].dst] == Object(s.buckets[job.srcBucket][moves[i].src].data, now)
      {
        if i < |init| {
          assert init[i] == moves[i] && moves[i].dst != m.dst;
        }
      }
    }
  }

  /** copy, copyfile and copy_remote_dir: _copy's plan carried out, or its failure. */
  function CopySpec(s: Store, normpath: string -> string, src: string, dst: string, recursive: bool,
                    useSrcBasename: bool, now: int): Outcome<Store> {
    Translate(
      var plan :- CopyPlan(s, normpath, src, dst, recursive, useSrcBasename);
      if plan.None? then Success(s) else Success(CopyAll(s, plan.value, plan.value.moves, now)))
  }

  /** copyfile refuses a destination that is a directory before anything else. */
  function CopyFileSpec(s: Store, normpath: string -> string, src: string, dst: string, now: int): Outcome<Store> {
    Translate(
      var dstIsDir :- IsDirSpec(s, dst);
      if dstIsDir then Failure(IoError(EINVAL, "Copy dst '" + dst + "' is a directory"))
      else CopySpec(s, normpath, src, dst, false, false, now))
  }

  /** A directory source without recursion copies nothing, and copyfile onto a directory
      fails with EINVAL. */
  lemma CopyGuards(s: Store, normpath: string -> string, src: string, dst: string, now: int)
    ensures StatsSpec(s, normpath, src).Success? && StatsSpec(s, normpath, src).value.isDir ==>
              CopySpec(s, normpath, src, dst, false, true, now) == Success(s) &&
              CopySpec(s, normpath, src, dst, false, false, now) == Success(s)
    ensures IsDirSpec(s, dst) == Success(true) ==>
              CopyFileSpec(s, normpath, src, dst, now) == Failure(IoError(EINVAL, "Copy dst '" + dst + "' is a directory"))
  {
  }

  /** A directory copied onto an existing non-directory fails with EEXIST, before anything
      is copied. */
  lemma CopyDirOntoFile(s: Store, normpath: string -> string, src: string, dst: string,
                        useSrcBasename: bool, now: int)
    requires StatsSpec(s, normpath, src).Success? && StatsSpec(s, normpath, src).value.isDir
    requires var d := StatOf(s, AbsPath(src, dst, normpath)); d.Success? && d.value.Some? && !d.value.value.isDir
    ensures var r := CopySpec(s, normpath, src, dst, true, useSrcBasename, now);
            r.Failure? && r.error.IoError? && r.error.errno == EEXIST
  {
    PlanDirOntoFile(s, normpath, src, dst, useSrcBasename);
    FailedPlan(s, normpath, src, dst, true, useSrcBasename, now);
  }

  /** The plan of a directory copy onto a non-directory is EEXIST. */
  lemma PlanDirOntoFile(s: Store, normpath: string -> string, src: string, dst: string, useSrcBasename: bool)
    requires StatsSpec(s, normpath, src).Success? && StatsSpec(s, normpath, src).value.isDir
    requires var d := StatOf(s, AbsPath(src, dst, normpath)); d.Success? && d.value.Some? && !d.value.value.isDir
    ensures var r := CopyPlan(s, normpath, src, dst, true, useSrcBasename);
            r.Failure? && r.error.IoError? && r.error.errno == EEXIST
  {
    var dstPath := AbsPath(src, dst, normpath);
    PlanOntoFile(s, src, dstPath, useSrcBasename);
    assert CopyPlan(s, normpath, src, dst, true, useSrcBasename) == CopyPlanTo(s, src, dstPath, true, useSrcBasename);
  }

  /** A copy is its plan carried out: the plan's error, nothing, or the copy loop. */
  lemma CopyByPlan(s: Store, normpath: string -> string, src: string, dst: string, recursive: bool,
                   useSrcBasename: bool, now: int)
    ensures var p := CopyPlan(s, normpath, src, dst, recursive, useSrcBasename);
            var r := CopySpec(s, normpath, src, dst, recursive, useSrcBasename, now);
            && (p.Failure? ==> r == Translate(Failure(p.error)))
            && (p.Success? && p.value.None? ==> r == Success(s))
            && (p.Success? && p.value.Some? ==> r == Success(CopyAll(s, p.value.value, p.value.value.moves, now)))
  {
  }

  /** A copy whose plan fails with an IOError fails with that error, copying nothing. */
  lemma FailedPlan(s: Store, normpath: string -> string, src: string, dst: string, recursive: bool,
                   useSrcBasename: bool, now: int)
    requires var p := CopyPlan(s, normpath, src, dst, recursive, useSrcBasename); p.Failure? && p.error.IoError?
    ensures CopySpec(s, normpath, src, dst, recursive, useSrcBasename, now)
            == Failure(CopyPlan(s, normpath, src, dst, recursive, useSrcBasename).error)
  {
  }

  /** The destination step of a directory copy onto a non-directory stat is EEXIST. */
  lemma PlanOntoFile(s: Store, src: string, dstPath: string, useSrcBasename: bool)
    requires var d := StatOf(s, dstPath); d.Success? && d.value.Some? && !d.value.value.isDir
    ensures var r := CopyPlanTo(s, src, dstPath, true, useSrcBasename);
            r.Failure? && r.error.IoError? && r.error.errno == EEXIST
  {
  }

  // ---------------------------------------------------------------------------------------
  // rename_star and read

  /** The IOError of rename_star for an argument that is not a directory. */
  function NotADir(path: string): Error {
    IoError(ENOTDIR, "'" + path + "' is not a directory")
  }

  /** rename_star(old_dir, new_dir): ENOTDIR unless old_dir is a directory and new_dir is not
      a file; then listdir of old_dir, and the first rename fails with AttributeError, since
      rename takes its first argument for an object handle while rename_star passes a
      string. The store never changes. */
  function RenameStarSpec(s: Store, cached: set<string>, oldDir: string, newDir: string): Outcome<()> {
    Translate(RenameStarChecks(s, cached, oldDir, newDir))
  }

  function RenameStarChecks(s: Store, cached: set<string>, oldDir: string, newDir: string): Outcome<()> {
    RenameGuards(IsDirSpec(s, oldDir), IsFileSpec(s, newDir), oldDir, newDir, RenameEach(s, cached, oldDir))
  }

  /** The two checks of rename_star, given the answers of isdir(old_dir) and isfile(new_dir),
      before `rest`. */
  function RenameGuards(oldIsDir: Outcome<bool>, newIsFile: Outcome<bool>, oldDir: string, newDir: string,
                        rest: Outcome<()>): (r: Outcome<()>)
    ensures r.Success? <==> oldIsDir == Success(true) && newIsFile == Success(false) && rest.Success?
  {
    var d :- oldIsDir;
    if !d then Failure(NotADir(oldDir))
    else
      var f :- newIsFile;
      if f then Failure(NotADir(newDir)) else rest
  }

  /** The loop of rename_star: listdir of the old directory, and the first rename fails. */
  function RenameEach(s: Store, cached: set<string>, oldDir: string): Outcome<()> {
    var stats :- ListdirStatsSpec(s, cached, oldDir, None);
    var names :- Names(stats);
    if |names| > 0 then Failure(AttributeError) else Success(())
  }

  /** rename_star succeeds only for an empty directory, where it has nothing to do. */
  lemma RenameStarOnlyEmpty(s: Store, cached: set<string>, oldDir: string, newDir: string)
    requires RenameStarSpec(s, cached, oldDir, newDir).Success?
    ensures IsDirSpec(s, oldDir) == Success(true)
    ensures IsFileSpec(s, newDir) == Success(false)
    ensures ListdirStatsSpec(s, cached, oldDir, None) == Success([])
  {
    assert RenameStarChecks(s, cached, oldDir, newDir).Success?;
    RenameEachOnlyEmpty(s, cached, oldDir);
  }

  lemma RenameEachOnlyEmpty(s: Store, cached: set<string>, oldDir: string)
    requires RenameEach(s, cached, oldDir).Success?
    ensures ListdirStatsSpec(s, cached, oldDir, None) == Success([])
  {
    var stats := ListdirStatsSpec(s, cached, oldDir, None).value;
    assert Names(stats).Success? && |Names(stats).value| == 0;
  }

  /** read(path, offset, length) as written: the stream has no seek, so every read of an
      object that opens fails with AttributeError. */
  function ReadAsWrittenSpec(s: Store, path: string): Outcome<seq<byte>> {
    Translate(
      var h :- HandleOf(s, path);
      if h.key !in h.objs then Failure(NoSuchFile(path)) else Failure(AttributeError))
  }

  lemma ReadAsWrittenNeverReads(s: Store, path: string)
    ensures ReadAsWrittenSpec(s, path).Failure?
    ensures HandleOf(s, path).Success? && HandleOf(s, path).value.key in HandleOf(s, path).value.objs ==>
              ReadAsWrittenSpec(s, path) == Failure(AttributeError)
  {
  }

  /** read(path, offset, length) with a seek on the stream: the bytes of the object from
      offset on, at most length of them. */
  function ReadSpec(s: Store, path: string, offset: int, length: int): Outcome<seq<byte>> {
    Translate(
      var h :- HandleOf(s, path);
      if h.key !in h.objs then Failure(NoSuchFile(path))
      else
        var data := h.objs[h.key].data;
        var pos :- GcsFile.SeekTarget(|data|, 0, offset, 0);
        Success(GcsFile.Chunk(data, pos, length)))
  }

  lemma ReadReturnsRange(s: Store, path: string, offset: int, length: int)
    requires HandleOf(s, path).Success? && HandleOf(s, path).value.key in HandleOf(s, path).value.objs
    ensures var h := HandleOf(s, path).value;
            var data := h.objs[h.key].data;
            (offset < 0 <==> ReadSpec(s, path, offset, length) == Failure(ValueError)) &&
            (0 <= offset && 0 <= length && offset + length <= |data| ==>
               ReadSpec(s, path, offset, length) == Success(data[offset..offset + length])) &&
            (0 <= offset && (length < 0 || offset + length > |data|) ==>
               ReadSpec(s, path, offset, length) == Success(if offset < |data| then data[offset..] else []))
  {
  }

  // ---------------------------------------------------------------------------------------
  // The façade object

  /** The buckets of the project's listing. */
  function ListedSet(s: Store): set<string> {
    set i | 0 <= i < |s.listed| :: s.listed[i]
  }

  /** The bucket cache once _init_bucket_cache has run. */
  function Filled(cache: Option<set<string>>, s: Store): set<string> {
    if cache.Some? then cache.value else ListedSet(s)
  }

  /** The cache only ever grows: once filled it stays filled and keeps its entries. */
  predicate Grown(before: Option<set<string>>, after: Option<set<string>>) {
    before.Some? ==> after.Some? && before.value <= after.value
  }

  /** The contents of the cache, empty while it is unfilled. */
  function Cached(cache: Option<set<string>>): set<string> {
    if cache.Some? then cache.value else {}
  }

  /** The outcome of a call that returns nothing: success with the new store, or the error
      with the store unchanged. */
  predicate Applied(spec: Outcome<Store>, r: Outcome<()>, before: Store, after: Store) {
    && (spec.Success? ==> r == Success(()) && after == spec.value)
    && (spec.Failure? ==> r == Failure(spec.error) && after == before)
  }

  /** The loop of listdir_stats: a stat per listing item, except the directory's own
      marker object. */
  method CollectStats(bucket: string, prefix: string, items: seq<Item>) returns (res: seq<Stat>)
    ensures res == ItemStats(bucket, prefix, items)
  {
    res := [];
    for i := 0 to |items|
      invariant res == ItemStats(bucket, prefix, items[..i])
    {
      assert items[..i + 1][..i] == items[..i];
      assert ItemStats(bucket, prefix, items[..i + 1]) == res + ItemStat(bucket, prefix, items[i]);
      match items[i]
      case PrefixItem(n) =>
        res := res + [FromBlob(BlobInfo(bucket, n, None, None), true)];
      case BlobItem(n, o) =>
        if n != prefix {
          res := res + [BlobStat(bucket, n, o)];
        }
    }
    assert items[..|items|] == items;
  }

  class FileSystem {
    /** The object store behind the connection. */
    var store: Store
    /** _bucket_cache: None until first used, then the names of the cached buckets. */
    var cache: Option<set<string>>
    /** hadoop.fs.normpath, used by stats and abspath. */
    const normpath: string -> string

    /** Every cached bucket is one the store has. */
    ghost predicate Valid()
      reads this
    {
      GcsStore.Valid(store) && (cache.Some? ==> cache.value <= store.buckets.Keys)
    }

    constructor (connection: Store, normpath: string -> string)
      requires GcsStore.Valid(connection)
      ensures Valid() && store == connection && cache == None && this.normpath == normpath
    {
      store := connection;
      cache := None;
      this.normpath := normpath;
    }

    /** _init_bucket_cache: on first use the cache is filled with the listed buckets. */
    method InitBucketCache()
      requires Valid()
      modifies this
      ensures Valid() && store == old(store)
      ensures cache == Some(Filled(old(cache), store))
    {
      if cache.None? {
        var c: set<string> := {};
        for i := 0 to |store.listed|
          invariant c == set j | 0 <= j < i :: store.listed[j]
        {
          c := c + {store.listed[i]};
        }
        cache := Some(c);
      }
    }

    /** _get_bucket: a hit is answered from the cache; a miss fetches the bucket and caches
      it, and a bucket the store does not have is the client's NotFound. */
    method GetBucketHandle(name: string) returns (r: Outcome<Objects>)
      requires Valid()
      modifies this
      ensures Valid() && store == old(store)
      ensures r == GetBucket(store, name)
      ensures name in Filled(old(cache), store) || name !in store.buckets ==> cache == Some(Filled(old(cache), store))
      ensures name !in Filled(old(cache), store) && name in store.buckets ==> cache == Some(Filled(old(cache), store) + {name})
    {
      InitBucketCache();
      if name !in cache.value {
        r := GetBucket(store, name);
        if r.Success? {
          cache := Some(cache.value + {name});
        }
      } else {
        r := Success(store.buckets[name]);
      }
    }

    /** _get_blob's lookups. */
    method GetBlob(path: string) returns (r: Outcome<Handle>)
      requires Valid()
      modifies this
      ensures Valid() && store == old(store) && Grown(old(cache), cache)
      ensures r == HandleOf(store, path)
    {
      var p := ParseUri(path);
      if p.Failure? {
        return Failure(p.error);
      }
      var objs := GetBucketHandle(p.value.bucket);
      if objs.Failure? {
        return Failure(objs.error);
      }
      r := Success(Handle(p.value.bucket, p.value.key, objs.value));
    }

    /** _stats. */
    method StatPath(path: string) returns (r: Outcome<Option<Stat>>)
      requires Valid()
      modifies this
      ensures Valid() && store == old(store) && Grown(old(cache), cache)
      ensures r == StatOf(store, path)
    {
      if IsRoot(path) {
        return Success(Some(ForGcsRoot()));
      }
      var h := GetBlob(path);
      if h.Failure? {
        return Failure(h.error);
      }
      r := Success(StatOfKey(h.value.bucket, h.value.key, h.value.objs));
    }

    method IsFile(path: string) returns (r: Outcome<bool>)
      requires Valid()
      modifies this
      ensures Valid() && store == old(store) && Grown(old(cache), cache)
      ensures r == IsFileSpec(store, path)
    {
      var st := StatPath(path);
      if st.Failure? {
        return Translate(Failure(st.error));
      }
      r := Success(st.value.Some? && !st.value.value.isDir);
    }

    method IsDir(path: string) returns (r: Outcome<bool>)
      requires Valid()
      modifies this
      ensures Valid() && store == old(store) && Grown(old(cache), cache)
      ensures r == IsDirSpec(store, path)
    {
      var st := StatPath(path);
      if st.Failure? {
        return Translate(Failure(st.error));
      }
      r := Success(st.value.Some? && st.value.value.isDir);
    }

    method Exists(path: string) returns (r: Outcome<bool>)
      requires Valid()
      modifies this
      ensures Valid() && store == old(store) && Grown(old(cache), cache)
      ensures r == ExistsSpec(store, path)
    {
      var st := StatPath(path);
      if st.Failure? {
        return Translate(Failure(st.error));
      }
      r := Success(st.value.Some?);
    }

    method Stats(path: string) returns (r: Outcome<Stat>)
      requires Valid()
      modifies this
      ensures Valid() && store == old(store) && Grown(old(cache), cache)
      ensures r == StatsSpec(store, normpath, path)
    {
      var p := normpath(path);
      var st := StatPath(p);
      if st.Failure? {
        return Translate(Failure(st.error));
      }
      if st.value.None? {
        return Failure(NoSuchFile(p));
      }
      r := Success(st.value.value);
    }

    /** listdir_stats: the root lists the cache once it is filled; elsewhere the loop adds
      the stat of each listing item. */
    method ListdirStats(path: string, glob: Option<string>) returns (r: Outcome<seq<Stat>>)
      requires Valid()
      modifies this
      ensures Valid() && store == old(store) && Grown(old(cache), cache)
      ensures r == ListdirStatsSpec(store, Cached(cache), path, glob)
      ensures r.Success? && IsRoot(path) ==> cache == Some(Filled(old(cache), store))
    {
      if glob.Some? {
        return Failure(NotImplementedError);
      }
      if IsRoot(path) {
        InitBucketCache();
        return Success(BucketStats(SortedList(cache.value)));
      }
      var h := GetBlob(path);
      if h.Failure? {
        return Translate(Failure(h.error));
      }
      var prefix := AppendSeparator(h.value.key);
      var res := CollectStats(h.value.bucket, prefix, ListDelimited(h.value.objs, prefix));
      r := Success(res);
    }

    /** create. */
    method Create(path: string, overwrite: bool, data: Option<seq<byte>>, now: int) returns (r: Outcome<()>)
      requires Valid()
      modifies this
      ensures Valid() && Grown(old(cache), cache)
      ensures Applied(CreateSpec(old(store), path, overwrite, data, now), r, old(store), store)
    {
      var h := GetBlob(path);
      if h.Failure? {
        return Translate(Failure(h.error));
      }
      if overwrite || h.value.key !in h.value.objs {
        store := Put(store, h.value.bucket, h.value.key, Object(Body(data), now));
      }
      r := Success(());
    }

    /** mkdir. */
    method Mkdir(path: string, now: int) returns (r: Outcome<()>)
      requires Valid()
      modifies this
      ensures Valid() && Grown(old(cache), cache)
      ensures Applied(MkdirSpec(old(store), path, now), r, old(store), store)
    {
      var st := StatPath(path);
      if st.Failure? {
        return Translate(Failure(st.error));
      }
      if st.value.Some? {
        if st.value.value.isDir {
          return Success(());
        }
        return Failure(NotADirectory(path));
      }
      r := Create(AppendSeparator(path), false, None, now);
    }

    /** remove. */
    method Remove(path: string, skipTrash: bool) returns (r: Outcome<()>)
      requires Valid()
      modifies this
      ensures Valid() && Grown(old(cache), cache)
      ensures Applied(RemoveSpec(old(store), path, skipTrash), r, old(store), store)
    {
      if !skipTrash {
        return Failure(NotImplementedError);
      }
      var h := GetBlob(path);
      if h.Failure? {
        return Translate(Failure(h.error));
      }
      if h.value.key !in h.value.objs {
        return Translate(Failure(NotFound));
      }
      store := Delete(store, h.value.bucket, {h.value.key});
      r := Success(());
    }

    /** rmtree. */
    method Rmtree(path: string, skipTrash: bool) returns (r: Outcome<()>)
      requires Valid()
      modifies this
      ensures Valid() && Grown(old(cache), cache)
      ensures Applied(RmtreeSpec(old(store), path, skipTrash), r, old(store), store)
    {
      if !skipTrash {
        return Failure(NotImplementedError);
      }
      var h := GetBlob(path);
      if h.Failure? {
        return Translate(Failure(h.error));
      }
      var isDir := IsDir(path);
      if isDir.Failure? {
        return Failure(isDir.error);
      }
      store := Delete(store, h.value.bucket, Doomed(h.value, isDir.value));
      r := Success(());
    }

    /** _copy's checks and lookups, through the cache. */
    method PlanCopy(src: string, dst: string, recursive: bool, useSrcBasename: bool)
      returns (r: Outcome<Option<CopyJob>>)
      requires Valid()
      modifies this
      ensures Valid() && store == old(store) && Grown(old(cache), cache)
      ensures r == CopyPlan(store, normpath, src, dst, recursive, useSrcBasename)
    {
      var srcSt := Stats(src);
      if srcSt.Failure? {
        return Failure(srcSt.error);
      }
      if srcSt.value.isDir && !recursive {
        return Success(None);
      }
      r := PlanCopyTo(src, AbsPath(src, dst, normpath), srcSt.value.isDir, useSrcBasename);
    }

    method PlanCopyTo(src: string, dstPath: string, srcIsDir: bool, useSrcBasename: bool)
      returns (r: Outcome<Option<CopyJob>>)
      requires Valid()
      modifies this
      ensures Valid() && store == old(store) && Grown(old(cache), cache)
      ensures r == CopyPlanTo(store, src, dstPath, srcIsDir, useSrcBasename)
    {
      var dstSt := StatPath(dstPath);
      if dstSt.Failure? {
        return Failure(dstSt.error);
      }
      if srcIsDir && dstSt.value.Some? && !dstSt.value.value.isDir {
        return Failure(IoError(EEXIST, "Cannot overwrite non-directory '" + dstPath + "' with directory '" + src + "'"));
      }
      r := PlanCopyJob(src, dstPath, useSrcBasename && dstSt.value.Some? && dstSt.value.value.isDir);
    }

    method PlanCopyJob(src: string, dstPath: string, keep: bool) returns (r: Outcome<Option<CopyJob>>)
      requires Valid()
      modifies this
      ensures Valid() && store == old(store) && Grown(old(cache), cache)
      ensures r == CopyJobFor(store, src, dstPath, keep)
    {
      var sp := ParseUri(src);
      if sp.Failure? {
        return Failure(sp.error);
      }
      var dp := ParseUri(dstPath);
      if dp.Failure? {
        return Failure(dp.error);
      }
      var srcObjs := GetBucketHandle(sp.value.bucket);
      if srcObjs.Failure? {
        return Failure(srcObjs.error);
      }
      var dstObjs := GetBucketHandle(dp.value.bucket);
      if dstObjs.Failure? {
        return Failure(dstObjs.error);
      }
      var keys := CopySources(srcObjs.value, sp.value.key);
      r := Success(Some(CopyJob(sp.value.bucket, dp.value.bucket, Moves(keys, dp.value.key, Cut(sp.value.key, keep)))));
    }

    /** The loop of _copy: one store-side copy per enumerated key, in order. */
    method CopyKeys(job: CopyJob, now: int)
      requires Valid() && job.srcBucket in store.buckets && job.dstBucket in store.buckets
      modifies this
      ensures Valid() && cache == old(cache)
      ensures store == CopyAll(old(store), job, job.moves, now)
    {
      ghost var s0 := store;
      var moves := job.moves;
      for i := 0 to |moves|
        invariant store == CopyAll(s0, job, moves[..i], now)
        invariant cache == old(cache) && Valid()
      {
        CopyAllStep(s0, job, moves, i, now);
        store := CopyObject(store, job.srcBucket, moves[i].src, job.dstBucket, moves[i].dst, now);
      }
      assert moves[..|moves|] == moves;
    }

    /** _copy: the checks, then the loop. */
    method CopyTree(src: string, dst: string, recursive: bool, useSrcBasename: bool, now: int)
      returns (r: Outcome<()>)
      requires Valid()
      modifies this
      ensures Valid() && Grown(old(cache), cache)
      ensures Applied(CopySpec(old(store), normpath, src, dst, recursive, useSrcBasename, now), r, old(store), store)
    {
      var plan := PlanCopy(src, dst, recursive, useSrcBasename);
      CopyByPlan(store, normpath, src, dst, recursive, useSrcBasename, now);
      if plan.Failure? {
        return Translate(Failure(plan.error));
      }
      if plan.value.None? {
        return Success(());
      }
      CopyKeys(plan.value.value, now);
      r := Success(());
    }

    /** copy(src, dst, recursive): keeps the source's basename under a directory. */
    method Copy(src: string, dst: string, recursive: bool, now: int) returns (r: Outcome<()>)
      requires Valid()
      modifies this
      ensures Valid() && Grown(old(cache), cache)
      ensures Applied(CopySpec(old(store), normpath, src, dst, recursive, true, now), r, old(store), store)
    {
      r := CopyTree(src, dst, recursive, true, now);
    }

    /** copyfile(src, dst). */
    method CopyFile(src: string, dst: string, now: int) returns (r: Outcome<()>)
      requires Valid()
      modifies this
      ensures Valid() && Grown(old(cache), cache)
      ensures Applied(CopyFileSpec(old(store), normpath, src, dst, now), r, old(store), store)
    {
      var dstIsDir := IsDir(dst);
      if dstIsDir.Failure? {
        return Failure(dstIsDir.error);
      }
      if dstIsDir.value {
        return Failure(IoError(EINVAL, "Copy dst '" + dst + "' is a directory"));
      }
      r := CopyTree(src, dst, false, false, now);
    }

    /** copy_remote_dir(src, dst). */
    method CopyRemoteDir(src: string, dst: string, now: int) returns (r: Outcome<()>)
      requires Valid()
      modifies this
      ensures Valid() && Grown(old(cache), cache)
      ensures Applied(CopySpec(old(store), normpath, src, dst, true, false, now), r, old(store), store)
    {
      r := CopyTree(src, dst, true, false, now);
    }

    /** rename_star. */
    method RenameStar(oldDir: string, newDir: string) returns (r: Outcome<()>)
      requires Valid()
      modifies this
      ensures Valid() && store == old(store) && Grown(old(cache), cache)
      ensures r == RenameStarSpec(store, Cached(cache), oldDir, newDir)
    {
      var oldIsDir := IsDir(oldDir);
      if oldIsDir.Failure? {
        return Failure(oldIsDir.error);
      }
      if !oldIsDir.value {
        return Failure(NotADir(oldDir));
      }
      var newIsFile := IsFile(newDir);
      if newIsFile.Failure? {
        return Failure(newIsFile.error);
      }
      if newIsFile.value {
        return Failure(NotADir(newDir));
      }
      r := RenameEachIn(oldDir);
    }

    method RenameEachIn(oldDir: string) returns (r: Outcome<()>)
      requires Valid()
      modifies this
      ensures Valid() && store == old(store) && Grown(old(cache), cache)
      ensures r == RenameEach(store, Cached(cache), oldDir)
    {
      var stats := ListdirStats(oldDir, None);
      if stats.Failure? {
        return Failure(stats.error);
      }
      var names := Names(stats.value);
      if names.Failure? {
        return Failure(names.error);
      }
      if |names.value| > 0 {
        return Failure(AttributeError);
      }
      r := Success(());
    }

    /** open(path, mode): ENOENT when no object has the key, then gcsfile.open. */
    method Open(path: string, mode: string) returns (r: Outcome<GcsFile.ReadableFile>)
      requires Valid()
      modifies this
      ensures Valid() && store == old(store) && Grown(old(cache), cache)
      ensures HandleOf(store, path).Failure? ==> r == Failure(Translate(HandleOf(store, path)).error)
      ensures HandleOf(store, path).Success? && HandleOf(store, path).value.key !in HandleOf(store, path).value.objs ==>
                r == Failure(NoSuchFile(path))
      ensures HandleOf(store, path).Success? && HandleOf(store, path).value.key in HandleOf(store, path).value.objs ==>
                var h := HandleOf(store, path).value;
                (GcsFile.ModeError(mode).Some? ==> r == Failure(GcsFile.ModeError(mode).value)) &&
                (GcsFile.ModeError(mode).None? ==>
                   r.Success? && fresh(r.value) && r.value.buf == h.objs[h.key].data && r.value.pos == 0)
    {
      var h := GetBlob(path);
      if h.Failure? {
        return Failure(Translate(h).error);
      }
      if h.value.key !in h.value.objs {
        return Failure(NoSuchFile(path));
      }
      r := GcsFile.Open(h.value.objs[h.value.key].data, mode);
    }

    /** read(path, offset, length) as written: the stream it opens has no seek. */
    method ReadAsWritten(path: string, offset: int, length: int) returns (r: Outcome<seq<byte>>)
      requires Valid()
      modifies this
      ensures Valid() && store == old(store) && Grown(old(cache), cache)
      ensures r == ReadAsWrittenSpec(store, path)
    {
      var fh := Open(path, "r");
      if fh.Failure? {
        return Failure(fh.error);
      }
      r := Failure(AttributeError);
    }

    /** read(path, offset, length) over a stream that seeks like io.BytesIO. */
    method Read(path: string, offset: int, length: int) returns (r: Outcome<seq<byte>>)
      requires Valid()
      modifies this
      ensures Valid() && store == old(store) && Grown(old(cache), cache)
      ensures r == ReadSpec(store, path, offset, length)
    {
      var fh := Open(path, "r");
      if fh.Failure? {
        return Failure(fh.error);
      }
      var f := fh.value;
      var pos := f.Seek(offset, 0);
      if pos.Failure? {
        return Failure(pos.error);
      }
      var data := f.Read(length);
      r := Success(data);
    }
  }
}
