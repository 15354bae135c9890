/** The stat record of the adapter (gcp/gcs/gcsstat.py): five stored fields, the attributes
    derived from them, the factories for buckets, objects and the root, and the JSON view. */
module GcsStat {
  import opened Wrappers
  import opened Strings
  import PosixPath
  import opened GcsUri

  /** stat.S_IFDIR, stat.S_IFREG and the file-type mask stat.S_IFMT. */
  const S_IFDIR: bv32 := 0x4000
  const S_IFREG: bv32 := 0x8000
  const S_IFMT: bv32 := 0xF000

  /** DIR_MODE = 0777 | S_IFDIR and FILE_MODE = 0666 | S_IFREG. */
  const DirMode: bv32 := 0x1FF | S_IFDIR
  const FileMode: bv32 := 0x1B6 | S_IFREG

  datatype Kind = DIRECTORY | FILE

  /** GCSStat(name, path, isDir, size, mtime); mtime is in seconds since the epoch. */
  datatype Stat = Stat(name: string, path: string, isDir: bool, size: int, mtime: int) {

    function Type(): (k: Kind)
      ensures k == DIRECTORY <==> isDir
      ensures k == FILE <==> !isDir
    {
      if isDir then DIRECTORY else FILE
    }

    function Mode(): bv32 {
      if isDir then DirMode else FileMode
    }

    /** The store has no owners, groups, access times or ACLs. */
    function User(): string { "" }
    function Group(): string { "" }
    function Atime(): int { mtime }
    function AclBit(): bool { false }
  }

  /** The mode says what the stat says: S_ISDIR of the mode holds exactly for directories,
      S_ISREG exactly for files, and the permission bits are rwx for all on directories
      and rw for all on files. */
  lemma ModeAgreesWithType(s: Stat)
    ensures s.Mode() & S_IFMT == S_IFDIR <==> s.isDir
    ensures s.Mode() & S_IFMT == S_IFREG <==> !s.isDir
    ensures s.isDir ==> s.Mode() & 0x1FF == 0x1FF
    ensures !s.isDir ==> s.Mode() & 0x1FF == 0x1B6
  {
  }

  /** The test vectors for the derived attributes. */
  lemma DerivedAttributes()
    ensures var s := Stat("foo", "gs://bar/foo", false, 40, 1424983327);
            s.Type() == FILE && s.Mode() == FileMode && s.User() == "" && s.Group() == "" &&
            s.Atime() == 1424983327 && !s.AclBit()
    ensures var s := Stat("bar", "gs://bar", true, 0, 1424983327);
            s.Type() == DIRECTORY && s.Mode() == DirMode
  {
  }

  /** GCSStat.from_bucket: a bucket is a directory named after it, at gs://name. */
  function FromBucket(bucket: string): (s: Stat)
    ensures s.name == bucket && s.path == GcsRoot + bucket
    ensures s.isDir && s.size == 0 && s.mtime == 0 && s.Atime() == 0
  {
    Stat(bucket, GcsRoot + bucket, true, 0, 0)
  }

  /** An object handle as from_blob sees it: the bucket's name, the object's name, its size
      (absent for a handle that was never fetched) and its update time in seconds. */
  datatype BlobInfo = BlobInfo(bucket: string, name: string, size: Option<int>, updated: Option<int>)

  /** GCSStat.from_blob(blob, is_dir): the name is the basename of the object name less one
      final '/'; an object with an empty name stands for the bucket itself. A missing size
      or update time becomes 0, and is_dir is taken as given. */
  function FromBlob(blob: BlobInfo, isDir: bool): (s: Stat)
    ensures s.isDir == isDir
    ensures s.size == (if blob.size.Some? then blob.size.value else 0)
    ensures s.mtime == (if blob.updated.Some? then blob.updated.value else 0)
    ensures blob.name == "" ==> s.name == "" && s.path == GcsRoot + blob.bucket
    ensures blob.name != "" ==> s.path == GcsRoot + (blob.bucket + "/" + blob.name)
    ensures blob.name != "" ==> s.name == PosixPath.BaseName(StripTrailingSlash(blob.name))
  {
    var size := if blob.size.Some? then blob.size.value else 0;
    var mtime := if blob.updated.Some? then blob.updated.value else 0;
    if blob.name != "" then
      var n := PosixPath.BaseName(if blob.name[|blob.name| - 1] == '/' then blob.name[..|blob.name| - 1] else blob.name);
      Stat(n, GcsRoot + (blob.bucket + "/" + blob.name), isDir, size, mtime)
    else
      Stat("", GcsRoot + blob.bucket, isDir, size, mtime)
  }

  /** The path of an object's stat is an address that parse_uri takes apart into the
      object's bucket, its name, and the stat's name: the listing's names and paths agree. */
  lemma FromBlobParsesBack(blob: BlobInfo, isDir: bool)
    requires blob.bucket != "" && '/' !in blob.bucket && '\n' !in blob.name
    ensures var s := FromBlob(blob, isDir);
            ParseUri(s.path) == Success(Parsed(blob.bucket, blob.name, s.name))
  {
    if blob.name == "" {
      ParseBucketOnly(blob.bucket);
    } else {
      ParseBuilt(blob.bucket, blob.name);
    }
  }

  /** GCSStat.for_gcs_root: the synthetic directory that holds the buckets. */
  function ForGcsRoot(): (s: Stat)
    ensures s.name == "GCS" && IsRoot(s.path)
    ensures s.isDir && s.size == 0 && s.mtime == 0
  {
    IsRootExamples();
    Stat("GCS", GcsRoot, true, 0, 0)
  }

  /** The attributes that can be read with stat[name] (__getitem__). */
  datatype Attr = Name | Path | IsDir | Size | Mtime | Type | Mode | User | Group | Atime | AclBit

  function AttrName(a: Attr): string {
    match a
    case Name => "name"
    case Path => "path"
    case IsDir => "isDir"
    case Size => "size"
    case Mtime => "mtime"
    case Type => "type"
    case Mode => "mode"
    case User => "user"
    case Group => "group"
    case Atime => "atime"
    case AclBit => "aclBit"
  }

  /** A JSON-serialisable attribute value. */
  datatype Value = Str(s: string) | Int(i: int) | Bool(b: bool)

  /** stat[a]: the stored field or the derived attribute. */
  function Get(s: Stat, a: Attr): Value {
    match a
    case Name => Str(s.name)
    case Path => Str(s.path)
    case IsDir => Bool(s.isDir)
    case Size => Int(s.size)
    case Mtime => Int(s.mtime)
    case Type => Str(if s.Type() == DIRECTORY then "DIRECTORY" else "FILE")
    case Mode => Int(s.Mode() as int)
    case User => Str(s.User())
    case Group => Str(s.Group())
    case Atime => Int(s.Atime())
    case AclBit => Bool(s.AclBit())
  }

  /** The attributes to_json_dict serialises, in its order. */
  const JsonAttrs: seq<Attr> := [Path, Size, Atime, Mtime, Mode, User, Group, AclBit]

  /** to_json_dict: one entry per serialised attribute, keyed by the attribute's name and
      holding that attribute's value. */
  method ToJsonDict(s: Stat) returns (res: map<string, Value>)
    ensures res.Keys == set a | a in JsonAttrs :: AttrName(a)
    ensures forall k :: k in res ==> exists a :: a in JsonAttrs && AttrName(a) == k && res[k] == Get(s, a)
  {
    res := map[];
    for i := 0 to |JsonAttrs|
      invariant res.Keys == set a | a in JsonAttrs[..i] :: AttrName(a)
      invariant forall k :: k in res ==> exists a :: a in JsonAttrs[..i] && AttrName(a) == k && res[k] == Get(s, a)
    {
      var a := JsonAttrs[i];
      assert JsonAttrs[..i + 1] == JsonAttrs[..i] + [a];
      res := res[AttrName(a) := Get(s, a)];
    }
    assert JsonAttrs[..|JsonAttrs|] == JsonAttrs;
  }
}
