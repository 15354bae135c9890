# Google Cloud Storage filesystem adapter, modelled in Dafny

This project models the adapter that presents `gs://bucket/key` object storage to Hue as a
POSIX-like filesystem (`desktop/libs/gcp/src/gcp/gcs/`), and proves properties of the model.
It has four parts, one module each, plus small shared modules:

- `GcsUri` (`gcs_uri.dfy`) is the address algebra of `__init__.py`:
  - `parse_uri` is written as the matcher of its anchored pattern (leading slashes, a
    case-insensitive scheme, a bucket, the key and its basename, and Python's `$` before a
    final line feed);
  - `is_root`, `join` (with its `_prep` step), and `abspath`, whose relative branch takes
    `hadoop.fs.normpath` as a parameter.
- `GcsErrors` (`gcs_errors.dfy`) holds the exceptions the adapter raises, `ERRNO_MAP` /
  `lookup_gcserror`, and `translate_gcs_error` as a function on outcomes.
- `GcsStat` (`gcs_stat.dfy`) is the five-field stat record of `gcsstat.py`. It covers the
  derived attributes, the factories for buckets, objects and the root, and `to_json_dict` as
  a loop that fills a map.
- `GcsFile` (`gcs_file.dfy`) is `gcsfile.py`: the mode check of `open`, and the readable
  stream as a class whose fields are the downloaded body and the read position.
- `GsFs` (`gsfs.dfy`) is `gsfs.py`. Its class `FileSystem` has two fields: the object store
  and the lazily filled bucket cache.
  - Every public operation is a method whose result, and whose new store, is given by a
    specification function of the old store (`StatOf`, `ListdirStatsSpec`, `MkdirSpec`,
    `CreateSpec`, `CopySpec`, `RmtreeSpec` and so on).
  - The properties of the operations are lemmas about those functions.
  - Loops of the source are loops here: the cache fill, the listing loop and the copy loop.
- `GcsStore` (`gcs_store.dfy`) is the object store, as an in-memory value: a map from
  bucket names to maps from keys to objects, plus the bucket list. It provides the prefix
  listing, the delimited listing (common prefixes, tagged apart from objects), upload, copy
  and delete.
- `PosixPath`, `Strings` and `Wrappers` hold the pieces of Python's `posixpath` the adapter
  calls (join, basename, dirname, normpath), string helpers, the lexicographic key order,
  and `Option`/`Result`.

The object store's client library, the network and the clock are not modelled. Upload and
copy times are a `now` parameter, and a stored object's update time is an integer.

## Model

Source paths are relative to the repository root.

| member | source | states |
|---|---|---|
| GcsErrors.LookupGcsError | desktop/libs/gcp/src/gcp/gcs/__init__.py:32-44 | the result is an IOError carrying the client's reason; its errno is EACCES exactly for 403, ENOENT exactly for 404 and EINVAL exactly for every other status |
| GcsErrors.Translate | desktop/libs/gcp/src/gcp/gcs/__init__.py:47-57 | a client error becomes the IOError of lookup_gcserror; success and every other error pass through unchanged |
| GcsErrors.TranslateIdempotent | desktop/libs/gcp/src/gcp/gcs/__init__.py:47-57 | no client error leaves a translated operation, and translating twice is translating once |
| GcsUri.DropSlashesShape | desktop/libs/gcp/src/gcp/gcs/__init__.py:38 | the `^/*` step removes only slashes, and only at the front |
| GcsUri.MatchTail | desktop/libs/gcp/src/gcp/gcs/__init__.py:38 | a match of the key part ends where `$` may match, and its basename group holds no '/' and ends the key group, possibly before one final '/' |
| GcsUri.ParseTail | desktop/libs/gcp/src/gcp/gcs/__init__.py:38-69 | the key is the whole tail, less a final line feed; the basename holds no '/' and ends the key, possibly before one '/' |
| GcsUri.ParseUri | desktop/libs/gcp/src/gcp/gcs/__init__.py:60-70 | success only when the address, after its leading slashes, starts with the scheme in any letter case; every failure is ValueError |
| GcsUri.ParseUriShape | desktop/libs/gcp/src/gcp/gcs/__init__.py:38-70 | on success the bucket is non-empty with no '/'; bucket, '/' and key rebuild the text after the scheme; the basename has no '/' and ends the key, optionally before one '/' |
| GcsUri.ParseRestShape | desktop/libs/gcp/src/gcp/gcs/__init__.py:38-70 | the same shape, for the text after the scheme |
| GcsUri.ParseUriNoNewline | desktop/libs/gcp/src/gcp/gcs/__init__.py:38-70 | for an address without line feeds: it parses exactly when the scheme is followed by a character other than '/'; the key is all that follows the bucket's '/'; the basename is posixpath.basename of the key less one final '/' |
| GcsUri.ParseRestNoNewline | desktop/libs/gcp/src/gcp/gcs/__init__.py:38-70 | the same, for the text after the scheme |
| GcsUri.ParseRestSlash | desktop/libs/gcp/src/gcp/gcs/__init__.py:38-70 | with a '/' and no line feed, the bucket ends at the first '/', and an empty bucket is a ValueError |
| GcsUri.ParseBuilt | desktop/libs/gcp/src/gcp/gcs/gcs_test.py:24-31 | `gs://bucket/key` parses into the bucket, the key (keeping a final '/') and the key's basename without that '/'; with key "" this is `gs://bucket/` |
| GcsUri.ParseBucketOnly | desktop/libs/gcp/src/gcp/gcs/gcs_test.py:30 | `gs://bucket` parses into the bucket, an empty key and an empty basename |
| GcsUri.ParseUriRejectsBucket | desktop/libs/gcp/src/gcp/gcs/gcs_test.py:36 | `gs://` and `gs:///key` are refused |
| GcsUri.NoSchemeRejected | desktop/libs/gcp/src/gcp/gcs/__init__.py:65-67 | an address whose text after its leading slashes does not start with the scheme is refused |
| GcsUri.ParseUriRejectsScheme | desktop/libs/gcp/src/gcp/gcs/gcs_test.py:33-35 | `/local/path`, `ftp://ancient/archive` and `gs:/missed/slash` are refused |
| GcsUri.IsRootIff | desktop/libs/gcp/src/gcp/gcs/__init__.py:73-77 | is_root holds exactly for five-character addresses that are the scheme in some letter case |
| GcsUri.RootNotParsed | desktop/libs/gcp/src/gcp/gcs/__init__.py:60-77 | the root is not a parseable address |
| GcsUri.IsRootExamples | desktop/libs/gcp/src/gcp/gcs/gcs_test.py:55-61 | true for `gs://` and `GS://`; false for `gs:/`, `gs://bucket` and `/local/path` |
| GcsUri.Prep | desktop/libs/gcp/src/gcp/gcs/__init__.py:93-97 | the prepared component is absolute exactly for an address, the root or an absolute path; anything else is kept as it is |
| GcsUri.PrepAll | desktop/libs/gcp/src/gcp/gcs/__init__.py:98 | `map(_prep, …)`: one prepared component per component, in order |
| GcsUri.Unprep | desktop/libs/gcp/src/gcp/gcs/__init__.py:99-101 | an absolute join result gets `gs:/` in front; any other result is unchanged |
| GcsUri.JoinReset | desktop/libs/gcp/src/gcp/gcs/__init__.py:92-101 | a component that is an address, the root or an absolute path discards every component before it |
| GcsUri.JoinRootBucket | desktop/libs/gcp/src/gcp/gcs/gcs_test.py:41 | joining the root with a bucket name gives `gs://bucket` |
| GcsUri.JoinBucketKey | desktop/libs/gcp/src/gcp/gcs/gcs_test.py:42 | joining `gs://bucket` with a relative key gives `gs://bucket/key` |
| GcsUri.JoinBucketTwo | desktop/libs/gcp/src/gcp/gcs/gcs_test.py:43 | joining `gs://bucket` with two relative components gives `gs://bucket/k1/k2` |
| GcsUri.JoinAddressRelative | desktop/libs/gcp/src/gcp/gcs/gcs_test.py:44 | joining the address of a key with a relative component such as `../f3` appends it after '/' without resolving `..` |
| GcsUri.JoinParseRoundTrip | desktop/libs/gcp/src/gcp/gcs/__init__.py:60-101 | the join of a bucket address and a key parses back into that bucket and key |
| GcsUri.NoColonNotAddress | desktop/libs/gcp/src/gcp/gcs/__init__.py:60-77 | a string without ':' is neither an address nor the root, so `_prep` keeps it |
| GcsUri.IsAbsoluteIff | desktop/libs/gcp/src/gcp/gcs/__init__.py:87 | abspath's test holds exactly when the first five characters are the root in some letter case |
| GcsUri.AbsPathKeepsAddress | desktop/libs/gcp/src/gcp/gcs/__init__.py:80-89 | an address parse_uri accepts, written without leading slashes, is returned unchanged whatever the current directory |
| GcsUri.AbsPathRelative | desktop/libs/gcp/src/gcp/gcs/__init__.py:87-88 | a relative path without ':' is resolved against the parent of a bucket directory: normpath is given `gs://bucket/../path` |
| PosixPath.BaseName | desktop/libs/gcp/src/gcp/gcs/gcsstat.py:73 | posixpath.basename: no '/', a suffix of the path, preceded by '/' when shorter than it |
| PosixPath.JoinListReset | desktop/libs/gcp/src/gcp/gcs/__init__.py:98 | in posixpath.join an absolute part discards every part before it |
| PosixPath.NormPathClean | desktop/libs/gcp/src/gcp/gcs/gsfs.py:273 | posixpath.normpath leaves a relative path of plain components unchanged |
| PosixPath.CleanJoin | desktop/libs/gcp/src/gcp/gcs/gsfs.py:273 | joining two such paths with '/' gives such a path |
| Strings.SortedList | desktop/libs/gcp/src/gcp/gcs/gsfs.py:162 | the listing order: every element once, strictly increasing |
| GcsStat.Stat.Type | desktop/libs/gcp/src/gcp/gcs/gcsstat.py:42-44 | DIRECTORY exactly for directories, FILE exactly for the rest |
| GcsStat.ModeAgreesWithType | desktop/libs/gcp/src/gcp/gcs/gcsstat.py:22-48 | the file-type bits of the mode are S_IFDIR exactly for directories and S_IFREG exactly for files; the permissions are 0777 and 0666 |
| GcsStat.DerivedAttributes | desktop/libs/gcp/src/gcp/gcs/gcsstat_test.py:25-36 | the test's file stat has type FILE, mode 0666/S_IFREG, empty user and group, atime = mtime, no ACL bit; its directory stat has type DIRECTORY and mode 0777/S_IFDIR |
| GcsStat.FromBucket | desktop/libs/gcp/src/gcp/gcs/gcsstat.py:66-68 | a bucket is a directory with the bucket's name, path `gs://name`, size 0 and mtime and atime 0 |
| GcsStat.FromBlob | desktop/libs/gcp/src/gcp/gcs/gcsstat.py:70-81 | isDir is the argument; a missing size or update time is 0; an empty name gives name "" and path `gs://bucket`; otherwise the path is `gs://bucket/name` and the name is the basename without one final '/' |
| GcsStat.FromBlobParsesBack | desktop/libs/gcp/src/gcp/gcs/gcsstat.py:70-81 | the path of an object's stat parses back into its bucket, its key and the stat's name |
| GcsStat.ForGcsRoot | desktop/libs/gcp/src/gcp/gcs/gcsstat.py:83-85 | the root stat is a directory named GCS whose path is the root, with size 0 and mtime 0 |
| GcsStat.ToJsonDict | desktop/libs/gcp/src/gcp/gcs/gcsstat.py:87-95 | the keys are exactly path, size, atime, mtime, mode, user, group and aclBit; each holds the value of the attribute of that name |
| GcsFile.ModeError | desktop/libs/gcp/src/gcp/gcs/gcsfile.py:26-30 | only mode 'r' is accepted; any other mode is an EINVAL IOError |
| GcsFile.Open | desktop/libs/gcp/src/gcp/gcs/gcsfile.py:26-30 | another mode fails and makes no stream; mode 'r' gives a new stream over the body at position 0 |
| GcsFile.ReadableFile.constructor | desktop/libs/gcp/src/gcp/gcs/gcsfile.py:33-42 | the buffer holds the whole body and the position is 0 |
| GcsFile.Chunk | desktop/libs/gcp/src/gcp/gcs/gcsfile.py:44-46 | a read returns the bytes at the position: `length` of them, or fewer at the end, or all remaining ones for a negative length, and nothing at or past the end |
| GcsFile.ReadableFile.Read | desktop/libs/gcp/src/gcp/gcs/gcsfile.py:44-46 | returns the chunk at the position and moves past it; the buffer never changes and the position stays within it |
| GcsFile.ChunkConcat | desktop/libs/gcp/src/gcp/gcs/gcsfile.py:44-46 | two successive reads return what one read of both lengths returns |
| GcsFile.ReadFromStart | desktop/libs/gcp/src/gcp/gcs/gcsfile_test.py:32-38 | a default 1 MiB read of a body up to 1 MiB returns all of it; read(n) from the start returns the first n bytes |
| GcsFile.SeekTarget | desktop/libs/gcp/src/gcp/gcs/gsfs.py:126 | seek from the start, the current position or the end; a negative absolute offset and an unknown whence are ValueErrors; a position before the start becomes 0 |
| GcsFile.ReadableFile.Seek | desktop/libs/gcp/src/gcp/gcs/gsfs.py:126 | moves to the seek target and changes nothing else; on failure the position stays |
| GcsFile.SeekThenRead | desktop/libs/gcp/src/gcp/gcs/gcsfile_test.py:48-62 | seek(k, SET) then read(n) gives the n bytes at k; seek(-1, END) then read() gives the last byte; seek(2, CUR) from 0 lands on 2 |
| GcsStore.GetBucket | desktop/libs/gcp/src/gcp/gcs/gsfs.py:57 | get_bucket succeeds exactly for a bucket the store has, with its objects; otherwise it is the client's 404 |
| GcsStore.ListKeys | desktop/libs/gcp/src/gcp/gcs/gsfs.py:270 | a prefix listing holds exactly the keys that start with the prefix, in increasing order |
| GcsStore.Entry | desktop/libs/gcp/src/gcp/gcs/gsfs.py:168 | a key under the prefix is listed as itself, or as its common prefix up to the first '/' after the prefix |
| GcsStore.ListDelimitedComplete | desktop/libs/gcp/src/gcp/gcs/gsfs.py:168 | every key under the prefix is reported, as itself or as the common prefix that holds it |
| GcsStore.ListDelimitedSound | desktop/libs/gcp/src/gcp/gcs/gsfs.py:168-174 | every reported object lies directly under the prefix and carries its body; every common prefix ends in '/' and holds a key |
| GcsStore.Put | desktop/libs/gcp/src/gcp/gcs/gsfs.py:294 | the upload sets one key of one bucket; every other bucket is unchanged |
| GcsStore.Delete | desktop/libs/gcp/src/gcp/gcs/gsfs.py:196 | the deletion removes a set of keys from one bucket; every other bucket is unchanged |
| GcsStore.CopyObject | desktop/libs/gcp/src/gcp/gcs/gsfs.py:274 | a store-side copy writes the source's body at the destination key; a missing source changes nothing |
| GsFs.AppendSeparator | desktop/libs/gcp/src/gcp/gcs/gsfs.py:94-98 | '/' is added exactly to a non-empty path that does not end in one |
| GsFs.AppendSeparatorShape | desktop/libs/gcp/src/gcp/gcs/gsfs.py:94-98 | the result is empty or ends in '/', starts with the path, and adding the separator again changes nothing |
| GsFs.CutSeparator | desktop/libs/gcp/src/gcp/gcs/gsfs.py:100-102 | one final '/' is removed, and nothing else; "/" itself is kept, since its cut "" is false for `and`/`or` |
| GsFs.CutAppendSeparator | desktop/libs/gcp/src/gcp/gcs/gsfs.py:94-102 | cutting the separator undoes appending it |
| GsFs.HandleOf | desktop/libs/gcp/src/gcp/gcs/gsfs.py:60-67 | _get_blob's lookups succeed with the parsed bucket and key and the bucket's objects; they fail only with ValueError or the client's 404 |
| GsFs.BlobStat | desktop/libs/gcp/src/gcp/gcs/gsfs.py:83-86 | an object is a directory exactly when its name is empty or ends in '/'; the stat has its size and update time |
| GsFs.PlaceholderStat | desktop/libs/gcp/src/gcp/gcs/gsfs.py:87-92 | a name without an object is a directory exactly when some key starts with name + '/', and nothing otherwise |
| GsFs.StatOfKeyClassifies | desktop/libs/gcp/src/gcp/gcs/gsfs.py:72-92 | file, directory or nothing, each stated as an if-and-only-if over the objects |
| GsFs.StatOfObject | desktop/libs/gcp/src/gcp/gcs/gsfs.py:72-92 | the stat of an object's address describes that object, and its path parses back into its bucket and key |
| GsFs.StatOfAddress | desktop/libs/gcp/src/gcp/gcs/gsfs.py:72-80 | _stats of an address in a bucket the store has is the stat of its key there |
| GsFs.HandleOfAddress | desktop/libs/gcp/src/gcp/gcs/gsfs.py:60-62 | _get_blob of an address in a bucket the store has finds its bucket and key |
| GsFs.AddressParses | desktop/libs/gcp/src/gcp/gcs/__init__.py:60-77 | the address of a key parses back into bucket and key, and is not the root |
| GsFs.NotRootWithBucket | desktop/libs/gcp/src/gcp/gcs/gsfs.py:73 | an address with a bucket is never taken for the root |
| GsFs.QueriesAgree | desktop/libs/gcp/src/gcp/gcs/gsfs.py:129-145 | a path is a file, a directory, or nothing, never both; exists is "file or directory"; on a lookup failure the three give the same error, a ValueError or the translated 404 |
| GsFs.StatsAgreesWithExists | desktop/libs/gcp/src/gcp/gcs/gsfs.py:147-153 | stats succeeds exactly where exists is True, and fails with ENOENT for the normalised path where exists is False |
| GsFs.ItemStat | desktop/libs/gcp/src/gcp/gcs/gsfs.py:168-174 | a common prefix is a sizeless directory; the marker object of the listed directory is skipped; any other object gets its stat |
| GsFs.BucketStats | desktop/libs/gcp/src/gcp/gcs/gsfs.py:160-162 | one bucket stat per cached name, in order |
| GsFs.ListdirRoot | desktop/libs/gcp/src/gcp/gcs/gsfs.py:155-162 | a glob is NotImplementedError; the root lists exactly one directory per cached bucket, named after it, at its address |
| GsFs.ItemStatsSkipSelf | desktop/libs/gcp/src/gcp/gcs/gsfs.py:167-175 | every listed stat comes from a listing item other than the directory's own marker |
| GsFs.LastItemNotSelf | desktop/libs/gcp/src/gcp/gcs/gsfs.py:172 | only an object can have the prefix as its name, so a common prefix is never skipped |
| GsFs.CollectStats | desktop/libs/gcp/src/gcp/gcs/gsfs.py:167-175 | the listing loop collects exactly the item stats, in order |
| GsFs.Names | desktop/libs/gcp/src/gcp/gcs/gsfs.py:177-178 | listdir succeeds exactly when every stat's path parses; then the i-th name is parse_uri's basename of the i-th path; otherwise it is the ValueError of parse_uri |
| GsFs.Basenames | desktop/libs/gcp/src/gcp/gcs/gsfs.py:178 | the comprehension over the parses: the basename of each, or the error of a failing parse |
| GsFs.CreateEffect | desktop/libs/gcp/src/gcp/gcs/gsfs.py:290-294 | after create the key holds the new body when overwriting or when it was free; otherwise the store is unchanged; other keys and buckets keep their objects |
| GsFs.CreateThenExists | desktop/libs/gcp/src/gcp/gcs/gsfs.py:290-294 | create of an address in a bucket the store has gives exactly the uploaded store, or the old one, and the address exists afterwards |
| GsFs.MkdirOnExisting | desktop/libs/gcp/src/gcp/gcs/gsfs.py:221-226 | mkdir of a directory changes nothing (so it is idempotent); mkdir of a file is ENOTDIR |
| GsFs.AppendSeparatorAddress | desktop/libs/gcp/src/gcp/gcs/gsfs.py:227 | the path mkdir passes to create is the address of the key with a final '/' |
| GsFs.HandleOfMarker | desktop/libs/gcp/src/gcp/gcs/gsfs.py:227-228 | create's lookup of that path finds the marker key in the same bucket |
| GsFs.MkdirMakesDirectory | desktop/libs/gcp/src/gcp/gcs/gsfs.py:214-228 | mkdir of an address that names nothing creates exactly one empty object, at the key plus '/', and the address is a directory afterwards |
| GsFs.MarkerMakesDirectory | desktop/libs/gcp/src/gcp/gcs/gsfs.py:87-92 | once the marker object is stored, the address is a directory unless an object has the key itself |
| GsFs.Restore | desktop/libs/gcp/src/gcp/gcs/gsfs.py:211-212 | restore always fails with NotImplementedError |
| GsFs.TrashRefused | desktop/libs/gcp/src/gcp/gcs/gsfs.py:180-207 | remove and rmtree without skip-trash fail with NotImplementedError and change nothing |
| GsFs.RmtreeEffect | desktop/libs/gcp/src/gcp/gcs/gsfs.py:180-196 | after rmtree the key's object is gone; for a directory nothing under key + '/' is left and every other key keeps its object; for a non-directory every key but the path's own keeps its object, including keys under key + '/'; other buckets are unchanged |
| GsFs.RmtreeDeletes | desktop/libs/gcp/src/gcp/gcs/gsfs.py:184-196 | a successful rmtree found its object handle and isdir's answer, and deleted exactly the doomed keys |
| GsFs.DoomedFrame | desktop/libs/gcp/src/gcp/gcs/gsfs.py:186-195 | once the doomed keys are deleted: the key is gone, a directory has nothing left under key + '/', and every other key keeps its object |
| GsFs.RmtreeKeepsSibling | desktop/libs/gcp/src/gcp/gcs/gsfs.py:192-193 | rmtree of gs://bucket/a succeeds and the object a_new keeps its body |
| GsFs.RmtreeKeepsOutside | desktop/libs/gcp/src/gcp/gcs/gsfs.py:184-196 | rmtree of any address succeeds, and every other key outside key + '/' keeps its object |
| GsFs.RmtreeAt | desktop/libs/gcp/src/gcp/gcs/gsfs.py:184-196 | once the path's handle and stat are found, rmtree deletes exactly the doomed keys of that handle, with isdir taken from the stat |
| GsFs.Tail | desktop/libs/gcp/src/gcp/gcs/gsfs.py:273 | `name[cut:]`, empty past the end |
| GsFs.CutPlain | desktop/libs/gcp/src/gcp/gcs/gsfs.py:261-268 | without the basename, the cut of the source key leaves the path relative to it; for a top-level key, keeping the basename keeps the whole name |
| GsFs.CutNested | desktop/libs/gcp/src/gcp/gcs/gsfs.py:261-268 | for a nested source key: the relative path without the basename, or the basename and that relative path with it |
| GsFs.CutKeepsRelativePath | desktop/libs/gcp/src/gcp/gcs/gsfs.py:261-268 | the same for a top-level and for a nested source key |
| GsFs.DirNameOf | desktop/libs/gcp/src/gcp/gcs/gsfs.py:262 | posixpath.dirname of dir/base is dir |
| GsFs.CopySourcesSpec | desktop/libs/gcp/src/gcp/gcs/gsfs.py:270-272 | the enumerated keys are exactly the source key and the keys under it plus '/'; each starts with the source key, so the RuntimeError check never fires |
| GsFs.CopySiblingAsWritten | desktop/libs/gcp/src/gcp/gcs/gsfs.py:266-274 | as written, the prefix listing of key "a" also holds its sibling "ab", whose destination is that of "a" itself; the corrected enumeration leaves it out |
| GsFs.Moves | desktop/libs/gcp/src/gcp/gcs/gsfs.py:270-273 | one move per enumerated key, to normpath(join(dst_key, name[cut:])) |
| GsFs.CopyPlan | desktop/libs/gcp/src/gcp/gcs/gsfs.py:245-249 | a plan found by _copy's checks names two buckets the store has |
| GsFs.CopyPlanTo | desktop/libs/gcp/src/gcp/gcs/gsfs.py:250-257 | the same, after the destination's stat |
| GsFs.CopyJobFor | desktop/libs/gcp/src/gcp/gcs/gsfs.py:254-270 | once both addresses parse and both buckets exist, there is a job over those buckets; it enumerates the corrected CopySources, not the prefix listing as written (first Findings row) |
| GsFs.CopyAll | desktop/libs/gcp/src/gcp/gcs/gsfs.py:270-274 | the copy loop keeps the bucket list and the set of buckets |
| GsFs.CopyAllFrame | desktop/libs/gcp/src/gcp/gcs/gsfs.py:270-274 | copying writes only the destination names of the moves, in the destination bucket; every other key and bucket keeps its objects |
| GsFs.CopyGuards | desktop/libs/gcp/src/gcp/gcs/gsfs.py:234-247 | a directory source without recursion copies nothing; copyfile onto a directory fails with EINVAL |
| GsFs.CopyDirOntoFile | desktop/libs/gcp/src/gcp/gcs/gsfs.py:249-252 | a directory copied onto an existing non-directory (after abspath) fails with EEXIST |
| GsFs.PlanDirOntoFile | desktop/libs/gcp/src/gcp/gcs/gsfs.py:244-252 | the checks of _copy stop at EEXIST for a directory source whose destination is a non-directory |
| GsFs.PlanOntoFile | desktop/libs/gcp/src/gcp/gcs/gsfs.py:249-252 | a directory source onto an existing non-directory stat is EEXIST, whatever the basename setting |
| GsFs.FailedPlan | desktop/libs/gcp/src/gcp/gcs/gsfs.py:244-252 | when the checks of _copy raise an IOError, the copy fails with it and the store is left as it was |
| GsFs.CopyAllEffect | desktop/libs/gcp/src/gcp/gcs/gsfs.py:270-274 | between two buckets, with distinct destination names, each copied key's destination holds its source's body stamped with the copy time |
| GsFs.RenameGuards | desktop/libs/gcp/src/gcp/gcs/gsfs.py:282-285 | rename_star's checks succeed exactly when isdir of the old path is True, isfile of the new path is False and what follows succeeds |
| GsFs.RenameStarOnlyEmpty | desktop/libs/gcp/src/gcp/gcs/gsfs.py:280-288 | rename_star succeeds only when the old path is a directory, the new path is not a file, and the old directory lists nothing |
| GsFs.RenameEachOnlyEmpty | desktop/libs/gcp/src/gcp/gcs/gsfs.py:286-288 | the rename loop succeeds only over an empty listing |
| GsFs.ReadAsWrittenNeverReads | desktop/libs/gcp/src/gcp/gcs/gsfs.py:123-127 | as written, read never returns data; for an object that opens it fails with AttributeError |
| GsFs.ReadReturnsRange | desktop/libs/gcp/src/gcp/gcs/gsfs.py:123-127 | with a seeking stream, read(path, offset, length) returns the `length` bytes at `offset`, or all bytes from `offset` on when fewer remain; a negative offset is a ValueError |
| GsFs.FileSystem.constructor | desktop/libs/gcp/src/gcp/gcs/gsfs.py:43-45 | the store is the connection and the cache is unfilled |
| GsFs.FileSystem.InitBucketCache | desktop/libs/gcp/src/gcp/gcs/gsfs.py:47-52 | an unfilled cache is filled with the listed buckets; a filled one is left as it is |
| GsFs.FileSystem.GetBucketHandle | desktop/libs/gcp/src/gcp/gcs/gsfs.py:54-58 | returns get_bucket's answer; a hit leaves the filled cache as it is; a miss on an existing bucket adds exactly that name |
| GsFs.FileSystem.GetBlob | desktop/libs/gcp/src/gcp/gcs/gsfs.py:60-67 | returns HandleOf of the store; the store is unchanged and the cache only grows |
| GsFs.FileSystem.StatPath | desktop/libs/gcp/src/gcp/gcs/gsfs.py:72-80 | returns StatOf of the store |
| GsFs.FileSystem.IsFile | desktop/libs/gcp/src/gcp/gcs/gsfs.py:129-134 | returns IsFileSpec of the store; the store is unchanged and the cache only grows |
| GsFs.FileSystem.IsDir | desktop/libs/gcp/src/gcp/gcs/gsfs.py:136-141 | returns IsDirSpec of the store |
| GsFs.FileSystem.Exists | desktop/libs/gcp/src/gcp/gcs/gsfs.py:143-145 | returns ExistsSpec of the store |
| GsFs.FileSystem.Stats | desktop/libs/gcp/src/gcp/gcs/gsfs.py:147-153 | returns StatsSpec of the store |
| GsFs.FileSystem.ListdirStats | desktop/libs/gcp/src/gcp/gcs/gsfs.py:155-175 | returns ListdirStatsSpec over the cache it leaves; after listing the root the cache is filled |
| GsFs.FileSystem.Create | desktop/libs/gcp/src/gcp/gcs/gsfs.py:290-294 | the store becomes CreateSpec's, or stays as it was on failure |
| GsFs.FileSystem.Mkdir | desktop/libs/gcp/src/gcp/gcs/gsfs.py:214-228 | the store becomes MkdirSpec's, or stays as it was on failure |
| GsFs.FileSystem.Remove | desktop/libs/gcp/src/gcp/gcs/gsfs.py:204-209 | the store becomes RemoveSpec's: the key deleted, with the client's 404 when there is no object |
| GsFs.FileSystem.Rmtree | desktop/libs/gcp/src/gcp/gcs/gsfs.py:180-196 | the store becomes RmtreeSpec's, or stays as it was on failure |
| GsFs.FileSystem.PlanCopy | desktop/libs/gcp/src/gcp/gcs/gsfs.py:244-249 | returns CopyPlan of the store |
| GsFs.FileSystem.PlanCopyTo | desktop/libs/gcp/src/gcp/gcs/gsfs.py:249-257 | returns CopyPlanTo of the store |
| GsFs.FileSystem.PlanCopyJob | desktop/libs/gcp/src/gcp/gcs/gsfs.py:254-270 | returns CopyJobFor of the store: the intended enumeration, not the prefix listing as written |
| GsFs.FileSystem.CopyKeys | desktop/libs/gcp/src/gcp/gcs/gsfs.py:270-274 | the loop leaves CopyAll of the old store; the cache is unchanged |
| GsFs.FileSystem.CopyTree | desktop/libs/gcp/src/gcp/gcs/gsfs.py:244-274 | the store becomes CopySpec's, or stays as it was on failure; CopySpec copies the intended enumeration (first Findings row) |
| GsFs.FileSystem.Copy | desktop/libs/gcp/src/gcp/gcs/gsfs.py:230-232 | CopySpec keeping the source's basename, over the intended enumeration |
| GsFs.FileSystem.CopyFile | desktop/libs/gcp/src/gcp/gcs/gsfs.py:234-238 | CopyFileSpec: EINVAL onto a directory, otherwise a copy without recursion, over the intended enumeration |
| GsFs.FileSystem.CopyRemoteDir | desktop/libs/gcp/src/gcp/gcs/gsfs.py:240-242 | CopySpec with recursion and without the basename, over the intended enumeration |
| GsFs.FileSystem.RenameStar | desktop/libs/gcp/src/gcp/gcs/gsfs.py:280-288 | returns RenameStarSpec over the cache it leaves; the store never changes |
| GsFs.FileSystem.RenameEachIn | desktop/libs/gcp/src/gcp/gcs/gsfs.py:286-288 | returns RenameEach over the cache it leaves |
| GsFs.FileSystem.Open | desktop/libs/gcp/src/gcp/gcs/gsfs.py:116-121 | a failed lookup gives its translated error; a missing object is ENOENT; otherwise gcsfile.open over the object's body |
| GsFs.FileSystem.ReadAsWritten | desktop/libs/gcp/src/gcp/gcs/gsfs.py:123-127 | returns ReadAsWrittenSpec: the error of open, or AttributeError |
| GsFs.FileSystem.Read | desktop/libs/gcp/src/gcp/gcs/gsfs.py:123-127 | returns ReadSpec: open, seek(offset), read(length) |

## Left out

- The object-store client, its HTTP transport and its authentication are replaced by the
  in-memory `GcsStore.Store`. The client calls the source makes are mapped onto store
  functions:
  - `get_all_buckets` and `get_bucket` onto `listed` and `GetBucket`;
  - `get_blob` and `blob` onto `HandleOf` and the key lookup;
  - `list_blobs` and `list` onto `ListKeys` and `ListDelimited`;
  - `upload_from_string` onto `Put`;
  - `delete_blob` and `delete_blobs` onto `Delete`;
  - `copy` onto `CopyObject`.

  `bucket.list` and `bucket.copy` are the names of an older client library; the model uses
  what they evidently mean. The same holds for two other uses of the client's API:
  - rmtree reads `result.errors` from what `delete_blobs` returns (gsfs.py:196-197). The
    model takes that to be a batch result whose `errors` is empty when every deletion
    succeeds. In the `google.cloud.storage` client the source imports, `delete_blobs`
    returns None. So, as written, every rmtree that reaches that call deletes its keys
    and then raises AttributeError, which `translate_gcs_error` does not translate.
  - `lookup_gcserror` reads `error.status` and `error.reason` (`__init__.py`:43-44). The
    model takes the HTTP status and the message of the client's error. The
    `google.cloud.exceptions.ClientError` the source catches exposes the status as `code`,
    so, as written, the lookup raises AttributeError instead of building the IOError.
- `get_blob` cannot fail in the in-memory store, so the wrapping of its exceptions into
  ValueError in `_get_blob` is not modelled.
- `translate_gcs_error`'s logging, and its re-raise with the original traceback, are not
  modelled. Only the mapping of the error is.
- `listdir_stats` refers to `Prefix`, `Key` and `GCSStat.from_key`, which are not defined:
  their imports are commented out. So, as written, it raises NameError on any listing with
  an entry. The model follows the evident intent, with a tagged listing element: a common
  prefix becomes a sizeless directory stat, and an object gets the stat `_stats_blob` gives it.
- `_stats_blob` calls `len()` on the iterator of `list_blobs`, which has no length. The model
  uses its evident meaning: whether the listing is non-empty.
- `GcsStore.ListDelimited`: the listing is given in lexicographic key order, and the root
  listing in sorted name order. The source iterates a dict whose order Python 2 leaves
  unspecified.
- `GsFs.RmtreeSpec`: the deletion is one set of keys. For a path ending in '/' whose marker
  object exists, the source passes that marker to `delete_blobs` twice: once from the
  prefix listing and once as the path's own object. The model assumes that the second
  deletion, of an object already gone, has no effect and raises no error. As written,
  `delete_blobs` without `on_error` re-raises the client's NotFound for that second
  deletion, so such an rmtree fails after deleting the marker and everything listed before
  it. That NotFound is a client error: read as intended it becomes ENOENT, and as written
  its lookup raises AttributeError (see the client mapping above). Every other rmtree that
  reaches `delete_blobs` ends, as written, in the AttributeError of `result.errors`.
  `GsFs.RmtreeSpec` returns the store after the deletion in all these cases. The aggregate
  error of a batch deletion that fails part-way is not modelled either: the in-memory
  deletion cannot fail, and the source's message has three placeholders for two arguments.
- `GcsErrors.LookupGcsError`: the status is the HTTP code of the client's error, read as
  intended. The source reads it as `error.status`, which the `ClientError` it catches does
  not have (it is `code`), so, as written, every translated client error is an
  AttributeError.
- `GsFs.CopyJobFor`: the job enumerates the source object and the keys under its key plus '/'
  (`CopySources`). It does not use the prefix listing `src_bucket.list(prefix=src_key)` as
  written, which also takes sibling keys such as "ab" for "a" (first Findings row). A copy
  that, as written, overwrites a destination with a sibling's body is therefore not modelled.
- `GsFs.FileSystem.PlanCopyJob`: returns CopyJobFor, so it shares that corrected enumeration.
- `GsFs.FileSystem.CopyTree`: carries out CopySpec, which uses CopyJobFor's corrected
  enumeration rather than `_copy`'s loop as written.
- `GsFs.FileSystem.Copy`: copy is CopyTree with the basename kept, so it shares that
  corrected enumeration.
- `GsFs.FileSystem.CopyFile`: copyfile is CopyTree without recursion after its directory
  check, so it shares that corrected enumeration.
- `GsFs.FileSystem.CopyRemoteDir`: copy_remote_dir is CopyTree with recursion, so it shares
  that corrected enumeration.
- `GsFs.CopyAllEffect`: the contents after a copy are stated only between two different
  buckets with distinct destination names. Within one bucket, a copy can read a key that an
  earlier copy of the same loop has written, and `CopyAllFrame` then gives only the frame.
- `GsFs.CopyAll`: the copy loop iterates a listing taken before the loop. Keys that copies
  add to the source bucket during the loop are not enumerated.
- `GsFs.FileSystem.Open` and the other façade methods except `GetBucketHandle`,
  `InitBucketCache` and `ListdirStats`: their cache contract states only that the cache
  grows (`Grown`), not which buckets each lookup adds.
- `rename`: it passes its first argument to `rename_blob` as an object handle, while
  `rename_star` passes it strings. So every rename raises AttributeError. The model gives
  rename_star that AttributeError for a non-empty directory, and does not model `rename`
  on its own.
- `copyFromLocal` reads the local disk and is not modelled; nor are `setuser`, nor the
  static pass-throughs `isroot`, `join` and `normpath`.
- `GcsStat.Stat.Mode` and the other derived attributes are functions of the stat.
  `__getitem__` is `GcsStat.Get`. `__setitem__` changes an attribute of the record in place
  and is not modelled: the model's stat is a value.
- `GcsStat.FromBlob`: the update time is taken as an integer number of seconds. The
  `strftime('%s')` of the source is platform date formatting.
- `GcsUri.AbsPath`: the relative branch uses `hadoop.fs.normpath`, which is not part of
  this model. It is a parameter, so the resolution of `..` in that branch is not modelled.
- `GcsUri.Join` requires at least one component. Python's `posixpath.join()` with none
  raises TypeError, which is not modelled.
- `GcsUri.ParseUri`: strings are sequences of characters. The byte and Unicode strings of
  Python 2, and its locale-dependent `lower()`, are modelled by ASCII lower-casing.
- `GsFs.StatsSpec`: a stat is always a true value in Python 2, so `if stats:` is modelled as
  "there is a stat".
- Most test vectors of the repository's tests are proved in general form, for any bucket
  and key of the shape the test uses, rather than for the literal strings.
- Concurrency, and changes made to the store by other clients between the calls of one
  operation, are not modelled.

## Findings

| source | as written | input that shows it | evidently intended | confidence | as-written member | corrected member |
|---|---|---|---|---|---|---|
| desktop/libs/gcp/src/gcp/gcs/gsfs.py:270-274 | the copy loop lists every key that starts with `src_key`, including siblings that only extend its last segment. With the cut of a copy that does not keep the basename, a sibling one character longer, such as `ab` for `a`, has an empty `name[cut:]`, so it is copied onto the destination of the source object; a longer sibling such as `abc` lands under the destination as `dst_key/c` | copy of key `a` in a bucket holding `a` and `ab`: `ab` is copied to the same destination as `a` | enumerate the source object and the keys under `src_key + '/'`, as `rmtree` does (gsfs.py:192-194) | not executed; high | GsFs.CopySiblingAsWritten | GsFs.CopySourcesSpec |
| desktop/libs/gcp/src/gcp/gcs/gsfs.py:123-127 | `read` calls `seek` on the stream `open` returns, but `_ReadableGCSFile` (gcsfile.py:33-46) defines only `read`, so each read of an existing object raises AttributeError | read of any existing object, at any offset | seek the downloaded buffer to the offset, then read `length` bytes | not executed; high | GsFs.ReadAsWrittenNeverReads | GsFs.ReadReturnsRange |
