/** The object store the adapter talks to, as an in-memory value: buckets of named objects,
    the bucket list of the project, and the listing, upload, copy and delete primitives the
    adapter uses. The store's client library and its transport are not part of this model. */
module GcsStore {
  import opened Wrappers
  import opened Strings
  import PosixPath
  import opened GcsErrors

  type byte = bv8

  /** A stored object: its body and the time it was last written, in seconds. */
  datatype Object = Object(data: seq<byte>, updated: int)

  type Objects = map<string, Object>

  /** All buckets the client can reach, by name, and the names get_all_buckets lists. */
  datatype Store = Store(buckets: map<string, Objects>, listed: seq<string>)

  /** Every listed bucket can be reached. */
  predicate Valid(s: Store) {
    forall i :: 0 <= i < |s.listed| ==> s.listed[i] in s.buckets
  }

  /** The client error get_bucket raises for a bucket that does not exist. */
  const NotFound: Error := ClientError(404, "Not Found")

  /** get_bucket(name). */
  function GetBucket(s: Store, name: string): (r: Outcome<Objects>)
    ensures r.Success? <==> name in s.buckets
    ensures r.Success? ==> r.value == s.buckets[name]
    ensures r.Failure? ==> r.error == NotFound
  {
    if name in s.buckets then Success(s.buckets[name]) else Failure(NotFound)
  }

  /** The keys that list_blobs(prefix=prefix) enumerates. */
  function KeysWithPrefix(objs: Objects, prefix: string): set<string> {
    set k | k in objs && StartsWith(k, prefix)
  }

  /** list_blobs(prefix=prefix): those keys in the store's (lexicographic) order. */
  function ListKeys(objs: Objects, prefix: string): (r: seq<string>)
    ensures forall k :: k in r <==> k in objs && StartsWith(k, prefix)
    ensures StrictlySorted(r)
  {
    SortedList(KeysWithPrefix(objs, prefix))
  }

  /** What a listing with delimiter '/' reports for key k under prefix: k itself when no '/'
      follows the prefix, otherwise the common prefix up to and including the first such '/'. */
  function Entry(prefix: string, k: string): (e: string)
    requires StartsWith(k, prefix)
    ensures StartsWith(e, prefix) && StartsWith(k, e)
    ensures !IsCommonPrefix(prefix, k) ==> e == k
    ensures IsCommonPrefix(prefix, k) ==> IsCommonPrefix(prefix, e) && EndsWith(e, "/")
  {
    var rest := k[|prefix|..];
    var i := PosixPath.FirstSlash(rest);
    if i < |rest| then
      var e := k[..|prefix| + i + 1];
      assert e[|prefix|..][i] == rest[i] == '/';
      e
    else k
  }

  /** The distinct entries of the delimited listing. */
  function Entries(objs: Objects, prefix: string): set<string> {
    set k | k in objs && StartsWith(k, prefix) :: Entry(prefix, k)
  }

  /** One element of a delimited listing: a common prefix, standing for a sub-directory, or
      an object directly under the prefix. */
  datatype Item = PrefixItem(name: string) | BlobItem(name: string, obj: Object)

  /** Whether a name in the listing of prefix is a common prefix: it has a '/' after prefix. */
  predicate IsCommonPrefix(prefix: string, e: string) {
    |prefix| <= |e| && '/' in e[|prefix|..]
  }

  function ItemOf(objs: Objects, prefix: string, e: string): Item {
    if IsCommonPrefix(prefix, e) || e !in objs then PrefixItem(e) else BlobItem(e, objs[e])
  }

  /** list(prefix=prefix, delimiter='/'): the entries in lexicographic order, each tagged. */
  function ListDelimited(objs: Objects, prefix: string): (r: seq<Item>)
    ensures |r| == |Entries(objs, prefix)|
  {
    var names := SortedList(Entries(objs, prefix));
    seq(|names|, i requires 0 <= i < |names| => ItemOf(objs, prefix, names[i]))
  }

  /** Every key under the prefix is reported, as itself or as the common prefix that holds
      it. */
  lemma ListDelimitedComplete(objs: Objects, prefix: string, k: string)
    requires k in objs && StartsWith(k, prefix)
    ensures exists i :: 0 <= i < |ListDelimited(objs, prefix)| &&
                        ListDelimited(objs, prefix)[i].name == Entry(prefix, k)
  {
    var names := SortedList(Entries(objs, prefix));
    var e := Entry(prefix, k);
    assert e in Entries(objs, prefix);
    var i :| 0 <= i < |names| && names[i] == e;
    assert ListDelimited(objs, prefix)[i].name == e;
  }

  /** Every reported name is a key or a common prefix of keys, and a plain key is reported
      with its object. */
  lemma ListDelimitedSound(objs: Objects, prefix: string)
    ensures forall i :: 0 <= i < |ListDelimited(objs, prefix)| ==>
              ListedItem(objs, prefix, ListDelimited(objs, prefix)[i])
  {
    var names := SortedList(Entries(objs, prefix));
    var r := ListDelimited(objs, prefix);
    forall i | 0 <= i < |r|
      ensures ListedItem(objs, prefix, r[i])
    {
      ItemOfEntry(objs, prefix, names[i]);
    }
  }

  /** What an element of the listing of prefix is: an object directly under the prefix, with
      its body, or a common prefix ending in '/' that some key starts with. */
  predicate ListedItem(objs: Objects, prefix: string, it: Item) {
    && (it.BlobItem? ==> it.name in objs && it.obj == objs[it.name] &&
                         StartsWith(it.name, prefix) && !IsCommonPrefix(prefix, it.name))
    && (it.PrefixItem? ==> IsCommonPrefix(prefix, it.name) && EndsWith(it.name, "/") &&
                           exists k :: k in objs && StartsWith(k, it.name))
  }

  lemma ItemOfEntry(objs: Objects, prefix: string, e: string)
    requires e in Entries(objs, prefix)
    ensures ItemOf(objs, prefix, e).name == e
    ensures ListedItem(objs, prefix, ItemOf(objs, prefix, e))
  {
    var k :| k in objs && StartsWith(k, prefix) && Entry(prefix, k) == e;
  }

  /** The store with one object written. */
  function Put(s: Store, bucket: string, key: string, obj: Object): (t: Store)
    requires bucket in s.buckets
    ensures t.listed == s.listed && t.buckets.Keys == s.buckets.Keys
    ensures t.buckets[bucket] == s.buckets[bucket][key := obj]
    ensures forall b :: b in s.buckets && b != bucket ==> t.buckets[b] == s.buckets[b]
  {
    s.(buckets := s.buckets[bucket := s.buckets[bucket][key := obj]])
  }

  /** The store with a set of keys deleted from one bucket. */
  function Delete(s: Store, bucket: string, keys: set<string>): (t: Store)
    requires bucket in s.buckets
    ensures t.listed == s.listed && t.buckets.Keys == s.buckets.Keys
    ensures t.buckets[bucket] == s.buckets[bucket] - keys
    ensures forall b :: b in s.buckets && b != bucket ==> t.buckets[b] == s.buckets[b]
  {
    s.(buckets := s.buckets[bucket := s.buckets[bucket] - keys])
  }

  /** A server-side copy of srcKey to dstKey, stamped with the time of the copy; a source
      that is not there leaves the store as it is. */
  function CopyObject(s: Store, srcBucket: string, srcKey: string, dstBucket: string, dstKey: string,
                      now: int): (t: Store)
    requires srcBucket in s.buckets && dstBucket in s.buckets
    ensures t.listed == s.listed && t.buckets.Keys == s.buckets.Keys
    ensures srcKey in s.buckets[srcBucket] ==>
              t == Put(s, dstBucket, dstKey, Object(s.buckets[srcBucket][srcKey].data, now))
    ensures srcKey !in s.buckets[srcBucket] ==> t == s
  {
    if srcKey in s.buckets[srcBucket] then
      Put(s, dstBucket, dstKey, Object(s.buckets[srcBucket][srcKey].data, now))
    else s
  }
}
