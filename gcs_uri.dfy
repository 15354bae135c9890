/** The URI algebra of gs://bucket/key addresses (gcp/gcs/__init__.py): parse_uri, is_root,
    join and abspath. */
module GcsUri {
  import opened Wrappers
  import opened Strings
  import PosixPath
  import opened GcsErrors

  const GcsRoot := "gs://"

  /** The triple parse_uri returns: (bucket_name, key_name, key_basename). */
  datatype Parsed = Parsed(bucket: string, key: string, basename: string)

  /** The leading-slashes part of the address pattern: every leading '/' is skipped. */
  function DropSlashes(s: string): (r: string)
    ensures |r| <= |s|
    ensures r == [] || r[0] != '/'
  {
    s[LeadingSlashes(s, 0)..]
  }

  /** Index of the first character at or after k that is not '/'. */
  function LeadingSlashes(s: string, k: nat): (n: nat)
    requires k <= |s|
    ensures k <= n <= |s|
    ensures forall j :: k <= j < n ==> s[j] == '/'
    ensures n < |s| ==> s[n] != '/'
    decreases |s| - k
  {
    if k < |s| && s[k] == '/' then LeadingSlashes(s, k + 1) else k
  }

  /** Only slashes are dropped, and only at the front. */
  lemma DropSlashesShape(s: string)
    ensures EndsWith(s, DropSlashes(s))
    ensures PosixPath.AllSlashes(s[..|s| - |DropSlashes(s)|])
  {
  }

  lemma DropSlashesNotIn(s: string, c: char)
    requires c !in s
    ensures c !in DropSlashes(s)
  {
    NotInSlice(s, c, LeadingSlashes(s, 0), |s|);
  }

  /** `[gG][sS]://` at the start of t. */
  predicate HasScheme(t: string) {
    |t| >= 5 && (t[0] == 'g' || t[0] == 'G') && (t[1] == 's' || t[1] == 'S') && t[2..5] == "://"
  }

  /** Where Python's `$` matches: at the end, or just before a final line feed. */
  predicate EndOk(t: string, p: nat) {
    p == |t| || (p + 1 == |t| && t[p] == '\n')
  }

  /** How `(.*?([^/]+)?/?)$` matched the text after the bucket's slash: group 3 is
      t[..keyEnd] and group 4 is t[baseStart..baseEnd]. */
  datatype TailMatch = TailMatch(keyEnd: nat, baseStart: nat, baseEnd: nat)

  /** The regular-expression engine's search for the tail: the lazy `.*?` first tries to
      stop at k; the greedy `([^/]+)?` then takes the whole run of non-slashes and `/?` one
      slash after it. When `$` does not match there, `.*?` grows by one character, which it
      cannot do over a line feed. */
  function MatchTail(t: string, k: nat): (m: Option<TailMatch>)
    requires k <= |t|
    ensures m.Some? ==> k <= m.value.baseStart <= m.value.baseEnd <= m.value.keyEnd <= |t|
    ensures m.Some? ==> EndOk(t, m.value.keyEnd)
    ensures m.Some? ==> forall j :: m.value.baseStart <= j < m.value.baseEnd ==> t[j] != '/'
    ensures m.Some? ==> m.value.keyEnd == m.value.baseEnd ||
                        (m.value.keyEnd == m.value.baseEnd + 1 && t[m.value.baseEnd] == '/')
    decreases |t| - k
  {
    var e := PosixPath.NextSlash(t, k);
    var p := if e < |t| then e + 1 else e;
    if EndOk(t, p) then Some(TailMatch(p, k, e))
    else if k < |t| && t[k] != '\n' then MatchTail(t, k + 1)
    else None
  }

  /** Groups 3 and 4 of the address pattern: the key and its basename. */
  datatype KeyPart = KeyPart(key: string, basename: string)

  /** The key and basename the pattern takes from the text after the bucket's slash. */
  function ParseTail(tail: string): (r: Option<KeyPart>)
    ensures r.Some? ==> tail == r.value.key || tail == r.value.key + "\n"
    ensures r.Some? ==> '/' !in r.value.basename
    ensures r.Some? ==>
              EndsWith(r.value.key, r.value.basename) || EndsWith(r.value.key, r.value.basename + "/")
  {
    match MatchTail(tail, 0)
    case None => None
    case Some(m) =>
      TailGroups(tail, m.keyEnd, m.baseStart, m.baseEnd);
      Some(KeyPart(tail[..m.keyEnd], tail[m.baseStart..m.baseEnd]))
  }

  /** The groups of a tail match are a key, less a final line feed, ending in a basename. */
  lemma TailGroups(t: string, keyEnd: nat, baseStart: nat, baseEnd: nat)
    requires baseStart <= baseEnd <= keyEnd <= |t| && EndOk(t, keyEnd)
    requires forall j :: baseStart <= j < baseEnd ==> t[j] != '/'
    requires keyEnd == baseEnd || (keyEnd == baseEnd + 1 && t[baseEnd] == '/')
    ensures t == t[..keyEnd] || t == t[..keyEnd] + "\n"
    ensures '/' !in t[baseStart..baseEnd]
    ensures EndsWith(t[..keyEnd], t[baseStart..baseEnd]) || EndsWith(t[..keyEnd], t[baseStart..baseEnd] + "/")
  {
    var key := t[..keyEnd];
    var base := t[baseStart..baseEnd];
    assert key[baseStart..baseEnd] == base;
    if keyEnd == baseEnd + 1 {
      assert key[baseStart..] == base + "/";
    }
    if keyEnd < |t| {
      assert t == key + "\n";
    }
  }

  /** What follows the scheme: a bucket with no '/', then optionally "/" and the key. */
  function ParseRest(rest: string): (r: Outcome<Parsed>)
    ensures r.Success? ==> r.value.bucket != "" && '/' !in r.value.bucket
    ensures r.Failure? ==> r.error == ValueError
  {
    if '/' !in rest then
      if rest == "" then Failure(ValueError) else Success(Parsed(rest, "", ""))
    else
      var i := PosixPath.FirstSlash(rest);
      if i == 0 then Failure(ValueError)
      else
        match ParseTail(rest[i + 1..])
        case None => Failure(ValueError)
        case Some(kp) => Success(Parsed(rest[..i], kp.key, kp.basename))
  }

  /** parse_uri: slashes, a case-insensitive "gs://", a bucket without '/' and an optional
      "/" followed by the key, as the address pattern matches it; ValueError otherwise. */
  function ParseUri(uri: string): (r: Outcome<Parsed>)
    ensures r.Success? ==> HasScheme(DropSlashes(uri)) && r == ParseRest(DropSlashes(uri)[5..])
    ensures r.Failure? ==> r.error == ValueError
  {
    var t := DropSlashes(uri);
    if !HasScheme(t) then Failure(ValueError) else ParseRest(t[5..])
  }

  /** The address text after the scheme, rebuilt from the parts of a successful parse. */
  predicate Reassembles(rest: string, p: Parsed) {
    || (rest == p.bucket && p.key == "" && p.basename == "")
    || SplitsAt(rest, p.bucket, p.key)
    || SplitsAt(rest, p.bucket, p.key + "\n")
  }

  /** What a successful parse_uri returns: a non-empty bucket without '/', a key that is
      the rest of the address (less a final line feed), and a basename without '/' that
      ends the key, possibly before one final '/'. */
  lemma ParseUriShape(uri: string)
    requires ParseUri(uri).Success?
    ensures ParseUri(uri).value.bucket != "" && '/' !in ParseUri(uri).value.bucket
    ensures Reassembles(DropSlashes(uri)[5..], ParseUri(uri).value)
    ensures '/' !in ParseUri(uri).value.basename
    ensures EndsWith(ParseUri(uri).value.key, ParseUri(uri).value.basename) ||
            EndsWith(ParseUri(uri).value.key, ParseUri(uri).value.basename + "/")
  {
    ParseRestShape(DropSlashes(uri)[5..]);
  }

  lemma ParseRestShape(rest: string)
    requires ParseRest(rest).Success?
    ensures Reassembles(rest, ParseRest(rest).value)
    ensures '/' !in ParseRest(rest).value.basename
    ensures EndsWith(ParseRest(rest).value.key, ParseRest(rest).value.basename) ||
            EndsWith(ParseRest(rest).value.key, ParseRest(rest).value.basename + "/")
  {
    var p := ParseRest(rest).value;
    if '/' in rest {
      var i := PosixPath.FirstSlash(rest);
      var tail := rest[i + 1..];
      var kp := ParseTail(tail).value;
      assert p == Parsed(rest[..i], kp.key, kp.basename);
      PosixPath.FirstSlashSplits(rest);
      assert SplitsAt(rest, p.bucket, tail);
    }
  }

  /** For text without line feeds the tail always matches in full, and group 4 is
      posixpath.basename of the key without its final slash. */
  lemma {:induction false} MatchTailNoNewline(t: string)
    requires '\n' !in t
    ensures var l := StripTrailingSlash(t);
            MatchTail(t, 0) == Some(TailMatch(|t|, PosixPath.LastSlashEnd(l), |l|))
  {
    var l := StripTrailingSlash(t);
    var j := PosixPath.LastSlashEnd(l);
    MatchTailSkips(t, l, j, 0);
  }

  lemma {:induction false} MatchTailSkips(t: string, l: string, j: nat, k: nat)
    requires '\n' !in t
    requires l == StripTrailingSlash(t) && j == PosixPath.LastSlashEnd(l)
    requires k <= j
    ensures MatchTail(t, k) == Some(TailMatch(|t|, j, |l|))
    decreases j - k
  {
    assert |l| <= |t| && l == t[..|l|];
    if k == j {
      assert PosixPath.NextSlash(t, k) == |l| by { PosixPath.NextSlashAt(t, k, |l|); }
    } else {
      var e := PosixPath.NextSlash(t, k);
      assert l[j - 1] == '/' && t[j - 1] == '/';
      assert e <= j - 1;
      assert t[k] != '\n' by { assert t[k] in t; }
      MatchTailSkips(t, l, j, k + 1);
    }
  }

  /** Without line feeds, parse_uri succeeds exactly when the scheme is there and a
      non-empty bucket follows it; the key is everything after the bucket's slash and the
      basename is its last path segment. */
  lemma ParseUriNoNewline(uri: string)
    requires '\n' !in uri
    ensures var t := DropSlashes(uri);
            ParseUri(uri).Success? <==> HasScheme(t) && |t| > 5 && t[5] != '/'
    ensures ParseUri(uri).Success? ==>
              var p := ParseUri(uri).value;
              var rest := DropSlashes(uri)[5..];
              (rest == p.bucket && p.key == "") || SplitsAt(rest, p.bucket, p.key)
    ensures ParseUri(uri).Success? ==>
              var p := ParseUri(uri).value;
              p.basename == PosixPath.BaseName(StripTrailingSlash(p.key))
  {
    var t := DropSlashes(uri);
    DropSlashesNotIn(uri, '\n');
    if HasScheme(t) {
      NotInSlice(t, '\n', 5, |t|);
      ParseRestNoNewline(t[5..]);
    }
  }

  lemma ParseRestNoNewline(rest: string)
    requires '\n' !in rest
    ensures ParseRest(rest).Success? <==> rest != "" && rest[0] != '/'
    ensures ParseRest(rest).Success? ==>
              var p := ParseRest(rest).value;
              (rest == p.bucket && p.key == "") || SplitsAt(rest, p.bucket, p.key)
    ensures ParseRest(rest).Success? ==>
              var p := ParseRest(rest).value;
              p.basename == PosixPath.BaseName(StripTrailingSlash(p.key))
  {
    if '/' in rest {
      ParseRestSlash(rest);
      PosixPath.FirstSlashSplits(rest);
    } else if rest != "" {
      assert rest[0] in rest;
    }
  }

  /** With a '/' and no line feed, the bucket ends at the first '/' and the key is all
      that follows it. */
  lemma ParseRestSlash(rest: string)
    requires '\n' !in rest && '/' in rest
    ensures var i := PosixPath.FirstSlash(rest);
            ParseRest(rest) ==
              if i == 0 then Failure(ValueError)
              else Success(Parsed(rest[..i], rest[i + 1..], PosixPath.BaseName(StripTrailingSlash(rest[i + 1..]))))
  {
    var i := PosixPath.FirstSlash(rest);
    NotInSlice(rest, '\n', i + 1, |rest|);
    ParseTailNoNewline(rest[i + 1..]);
  }

  /** Without a line feed the whole tail is the key. */
  lemma ParseTailNoNewline(tail: string)
    requires '\n' !in tail
    ensures ParseTail(tail) == Some(KeyPart(tail, PosixPath.BaseName(StripTrailingSlash(tail))))
  {
    var l := StripTrailingSlash(tail);
    MatchTailNoNewline(tail);
    assert l == tail[..|l|];
    assert tail[..|tail|] == tail;
    assert tail[PosixPath.LastSlashEnd(l)..|l|] == l[PosixPath.LastSlashEnd(l)..];
  }

  /** parse_uri recovers the bucket and key of an address built from them. */
  lemma ParseBuilt(bucket: string, key: string)
    requires bucket != "" && '/' !in bucket && '\n' !in key
    ensures ParseUri(GcsRoot + (bucket + "/" + key)) ==
            Success(Parsed(bucket, key, PosixPath.BaseName(StripTrailingSlash(key))))
  {
    SchemePrefix(GcsRoot, bucket + "/" + key);
    ParseRestBuilt(bucket, key);
  }

  /** parse_uri of a bucket address alone gives the bucket and an empty key. */
  lemma ParseBucketOnly(bucket: string)
    requires bucket != "" && '/' !in bucket
    ensures ParseUri(GcsRoot + bucket) == Success(Parsed(bucket, "", ""))
  {
    SchemePrefix(GcsRoot, bucket);
  }

  /** Behind a scheme, parse_uri parses whatever follows. */
  lemma SchemePrefix(scheme: string, rest: string)
    requires |scheme| == 5 && HasScheme(scheme)
    ensures ParseUri(scheme + rest) == ParseRest(rest)
  {
    var uri := scheme + rest;
    assert uri[0] == scheme[0];
    assert DropSlashes(uri) == uri;
    assert uri[..5] == scheme;
    assert HasScheme(uri);
    assert uri[5..] == rest;
  }

  lemma ParseRestBuilt(bucket: string, key: string)
    requires bucket != "" && '/' !in bucket && '\n' !in key
    ensures ParseRest(bucket + "/" + key) ==
            Success(Parsed(bucket, key, PosixPath.BaseName(StripTrailingSlash(key))))
  {
    var rest := bucket + "/" + key;
    assert rest[|bucket|] == '/';
    assert PosixPath.FirstSlash(rest) == |bucket| by {
      assert rest == (bucket + "/") + key;
      PosixPath.FirstSlashPrefix(bucket + "/", key);
      PosixPath.FirstSlashAfter(bucket);
    }
    assert rest[..|bucket|] == bucket;
    assert rest[|bucket| + 1..] == key;
    ParseTailNoNewline(key);
  }

  /** Addresses parse_uri refuses: no bucket after the scheme. */
  lemma ParseUriRejectsBucket()
    ensures ParseUri("gs://").Failure?
    ensures ParseUri("gs:///key").Failure?
  {
    SchemePrefix("gs://", "");
    SchemePrefix("gs://", "/key");
  }

  /** An address whose text after its n leading slashes does not start with the scheme is
      refused. */
  lemma NoSchemeRejected(uri: string, n: nat)
    requires n < |uri| && uri[n] != '/' && !HasScheme(uri[n..])
    requires forall j :: 0 <= j < n ==> uri[j] == '/'
    ensures ParseUri(uri).Failure?
  {
    LeadingSlashesAt(uri, 0, n);
  }

  lemma {:induction false} LeadingSlashesAt(s: string, k: nat, n: nat)
    requires k <= n < |s| && s[n] != '/'
    requires forall j :: k <= j < n ==> s[j] == '/'
    ensures LeadingSlashes(s, k) == n
    decreases n - k
  {
    if k < n { LeadingSlashesAt(s, k + 1, n); }
  }

  /** The addresses the tests expect parse_uri to refuse for their scheme: a local path,
      another scheme, and a scheme with one slash. */
  lemma ParseUriRejectsScheme()
    ensures ParseUri("/local/path").Failure?
    ensures ParseUri("ftp://ancient/archive").Failure?
    ensures ParseUri("gs:/missed/slash").Failure?
  {
    NoSchemeRejected("/local/path", 1);
    NoSchemeRejected("ftp://ancient/archive", 0);
    var u := "gs:/missed/slash";
    assert u[0..][2..5][2] == u[4] == 'm';
    NoSchemeRejected(u, 0);
  }

  /** is_root: the address is the bare root, in any letter case. */
  predicate IsRoot(uri: string) {
    Lower(uri) == GcsRoot
  }

  /** is_root holds exactly for "gs://" written in any mix of cases, and the root itself
      is not a parseable address. */
  lemma IsRootIff(uri: string)
    ensures IsRoot(uri) <==> |uri| == 5 && HasScheme(uri)
  {
    if |uri| == 5 {
      var l := Lower(uri);
      assert l[0] == LowerChar(uri[0]) && l[1] == LowerChar(uri[1]);
      assert l[2] == LowerChar(uri[2]) && l[3] == LowerChar(uri[3]) && l[4] == LowerChar(uri[4]);
      if IsRoot(uri) {
        assert uri[2..5] == "://";
      }
      if HasScheme(uri) {
        assert l == GcsRoot;
      }
    }
  }

  /** The root itself is not a parseable address. */
  lemma RootNotParsed(uri: string)
    requires IsRoot(uri)
    ensures ParseUri(uri).Failure?
  {
    IsRootIff(uri);
    assert uri == uri[..5] + "";
    SchemePrefix(uri[..5], "");
  }

  /** The examples the adapter's tests check for is_root. */
  lemma IsRootExamples()
    ensures IsRoot("gs://") && IsRoot("GS://")
    ensures !IsRoot("gs:/") && !IsRoot("gs://bucket") && !IsRoot("/local/path")
  {
    assert |"gs:/"| == 4 && |"gs://bucket"| == 11 && |"/local/path"| == 11;
    IsRootIff("gs://");
    IsRootIff("GS://");
    IsRootIff("gs:/");
    IsRootIff("gs://bucket");
    IsRootIff("/local/path");
  }

  /** join's _prep: a parseable address becomes /bucket/key, the bare root becomes /,
      anything else is kept as it is; so the result is absolute exactly for addresses, the
      root and absolute paths. */
  function Prep(c: string): (r: string)
    ensures StartsWith(r, "/") <==> ParseUri(c).Success? || IsRoot(c) || StartsWith(c, "/")
    ensures ParseUri(c).Failure? && !IsRoot(c) ==> r == c
  {
    match ParseUri(c)
    case Success(p) => "/" + p.bucket + "/" + p.key
    case Failure(_) => if IsRoot(c) then "/" else c
  }

  function PrepAll(comps: seq<string>): (r: seq<string>)
    ensures |r| == |comps|
    ensures forall i :: 0 <= i < |comps| ==> r[i] == Prep(comps[i])
    decreases |comps|
  {
    if comps == [] then [] else [Prep(comps[0])] + PrepAll(comps[1..])
  }

  lemma {:induction false} PrepAllConcat(a: seq<string>, b: seq<string>)
    ensures PrepAll(a + b) == PrepAll(a) + PrepAll(b)
    decreases |a|
  {
    if a == [] {
      assert a + b == b;
    } else {
      assert (a + b)[1..] == a[1..] + b;
      PrepAllConcat(a[1..], b);
    }
  }

  /** join: posixpath.join of the prepared components, turned back into an address when it
      is absolute. */
  function Join(comps: seq<string>): string
    requires |comps| > 0
  {
    Unprep(PosixPath.JoinList(PrepAll(comps)))
  }

  /** The last step of join: an absolute result gets the scheme back. */
  function Unprep(joined: string): (r: string)
    ensures StartsWith(joined, "/") ==> r == "gs:/" + joined
    ensures !StartsWith(joined, "/") ==> r == joined
  {
    if |joined| > 0 && joined[0] == '/' then "gs:/" + joined else joined
  }

  /** A component that is an address, the root, or an absolute path discards all the
      components before it. */
  lemma JoinReset(pre: seq<string>, c: string, post: seq<string>)
    requires ParseUri(c).Success? || IsRoot(c) || StartsWith(c, "/")
    ensures Join(pre + [c] + post) == Join([c] + post)
  {
    var p := Prep(c);
    PrepAllConcat(pre + [c], post);
    PrepAllConcat(pre, [c]);
    PrepAllConcat([c], post);
    assert PrepAll([c]) == [p];
    assert PrepAll(pre + [c] + post) == PrepAll(pre) + [p] + PrepAll(post);
    assert PrepAll([c] + post) == [p] + PrepAll(post);
    PosixPath.JoinListReset(PrepAll(pre), p, PrepAll(post));
  }

  /** The prepared forms of a bucket address and of a component without ':'. */
  lemma PrepBucket(bucket: string)
    requires bucket != "" && '/' !in bucket
    ensures Prep(GcsRoot + bucket) == "/" + bucket + "/"
  {
    ParseBucketOnly(bucket);
  }

  lemma PrepPlain(s: string)
    requires ':' !in s
    ensures Prep(s) == s
  {
    NoColonNotAddress(s);
  }

  /** Joining a bucket address with a relative key that is not itself an address gives the
      address of that key. */
  lemma JoinBucketKey(bucket: string, key: string)
    requires bucket != "" && '/' !in bucket
    requires ':' !in key && !StartsWith(key, "/")
    ensures Join([GcsRoot + bucket, key]) == GcsRoot + (bucket + "/" + key)
  {
    PrepAllPair(GcsRoot + bucket, key);
    PrepBucket(bucket);
    PrepPlain(key);
    PosixPath.JoinListPair("/" + bucket + "/", key);
    UnprepBucketKey(bucket, key);
  }

  /** Joining the root with a bucket name gives the bucket's address. */
  lemma JoinRootBucket(bucket: string)
    requires bucket != "" && ':' !in bucket && !StartsWith(bucket, "/")
    ensures Join([GcsRoot, bucket]) == GcsRoot + bucket
  {
    PrepAllPair(GcsRoot, bucket);
    PrepRoot();
    PrepPlain(bucket);
    PosixPath.JoinListPair("/", bucket);
    UnprepRootBucket(bucket);
  }

  /** The bare root prepares to "/". */
  lemma PrepRoot()
    ensures Prep(GcsRoot) == "/"
  {
    ParseUriRejectsBucket();
    IsRootExamples();
  }

  lemma UnprepRootBucket(bucket: string)
    requires !StartsWith(bucket, "/")
    ensures Unprep(PosixPath.Join2("/", bucket)) == GcsRoot + bucket
  {
    assert "gs:/" + ("/" + bucket) == GcsRoot + bucket;
  }

  /** Joining the address of a key with a relative component that is not an address appends
      it after a '/', leaving any ".." in it unresolved. */
  lemma JoinAddressRelative(bucket: string, key: string, rel: string)
    requires bucket != "" && '/' !in bucket && '\n' !in key && key != "" && !EndsWith(key, "/")
    requires ':' !in rel && !StartsWith(rel, "/")
    ensures Join([GcsRoot + (bucket + "/" + key), rel]) == GcsRoot + (bucket + "/" + key + "/" + rel)
  {
    PrepAllPair(GcsRoot + (bucket + "/" + key), rel);
    PrepAddress(bucket, key);
    PrepPlain(rel);
    PosixPath.JoinListPair("/" + bucket + "/" + key, rel);
    UnprepAddressRelative(bucket, key, rel);
  }

  lemma PrepAddress(bucket: string, key: string)
    requires bucket != "" && '/' !in bucket && '\n' !in key
    ensures Prep(GcsRoot + (bucket + "/" + key)) == "/" + bucket + "/" + key
  {
    ParseBuilt(bucket, key);
  }

  lemma UnprepAddressRelative(bucket: string, key: string, rel: string)
    requires key != "" && !EndsWith(key, "/") && !StartsWith(rel, "/")
    ensures Unprep(PosixPath.Join2("/" + bucket + "/" + key, rel)) == GcsRoot + (bucket + "/" + key + "/" + rel)
  {
    var x := "/" + bucket + "/" + key;
    LastNotSlash(key);
    assert x[|x| - 1] == key[|key| - 1];
    var y := bucket + "/" + key + "/" + rel;
    assert x + "/" + rel == "/" + y;
    assert "gs:/" + "/" == GcsRoot;
    assert "gs:/" + ("/" + y) == ("gs:/" + "/") + y;
  }

  lemma LastNotSlash(s: string)
    requires s != "" && !EndsWith(s, "/")
    ensures s[|s| - 1] != '/'
  {
    assert s[|s| - 1..] == [s[|s| - 1]];
  }

  /** Joining a bucket address with two relative components gives the key of both. */
  lemma JoinBucketTwo(bucket: string, k1: string, k2: string)
    requires bucket != "" && '/' !in bucket
    requires ':' !in k1 && !StartsWith(k1, "/") && k1 != "" && !EndsWith(k1, "/")
    requires ':' !in k2 && !StartsWith(k2, "/")
    ensures Join([GcsRoot + bucket, k1, k2]) == GcsRoot + (bucket + "/" + k1 + "/" + k2)
  {
    PrepAllTriple(GcsRoot + bucket, k1, k2);
    PrepBucket(bucket);
    PrepPlain(k1);
    PrepPlain(k2);
    PosixPath.JoinListTriple("/" + bucket + "/", k1, k2);
    UnprepBucketTwo(bucket, k1, k2);
  }

  lemma PrepAllTriple(a: string, b: string, c: string)
    ensures PrepAll([a, b, c]) == [Prep(a), Prep(b), Prep(c)]
  {
    assert [a, b, c] == [a] + [b, c];
    PrepAllConcat([a], [b, c]);
    PrepAllPair(b, c);
    assert PrepAll([a]) == [Prep(a)];
  }

  lemma UnprepBucketTwo(bucket: string, k1: string, k2: string)
    requires k1 != "" && !StartsWith(k1, "/") && !EndsWith(k1, "/") && !StartsWith(k2, "/")
    ensures Unprep(PosixPath.Join2(PosixPath.Join2("/" + bucket + "/", k1), k2)) ==
            GcsRoot + (bucket + "/" + k1 + "/" + k2)
  {
    var d := "/" + bucket + "/";
    assert d[|d| - 1] == '/';
    var j1 := d + k1;
    LastNotSlash(k1);
    assert j1[|j1| - 1] == k1[|k1| - 1];
    var y := bucket + "/" + k1 + "/" + k2;
    assert j1 + "/" + k2 == "/" + y;
    assert "gs:/" + "/" == GcsRoot;
    assert "gs:/" + ("/" + y) == ("gs:/" + "/") + y;
  }


  lemma PrepAllPair(a: string, b: string)
    ensures PrepAll([a, b]) == [Prep(a), Prep(b)]
  {
    var parts := PrepAll([a, b]);
    assert parts[0] == Prep(a) && parts[1] == Prep(b);
  }

  /** The address of a key, from the joined local form /bucket/key. */
  lemma UnprepBucketKey(bucket: string, key: string)
    requires !StartsWith(key, "/")
    ensures Unprep(PosixPath.Join2("/" + bucket + "/", key)) == GcsRoot + (bucket + "/" + key)
  {
    var dir := "/" + bucket + "/";
    assert dir[|dir| - 1] == '/';
    var x := bucket + "/" + key;
    assert dir + key == "/" + x;
    assert "gs:/" + "/" == GcsRoot;
    assert "gs:/" + ("/" + x) == ("gs:/" + "/") + x;
  }

  /** ... and that address parses back into the bucket and key. */
  lemma JoinParseRoundTrip(bucket: string, key: string)
    requires bucket != "" && '/' !in bucket && '\n' !in key
    requires ':' !in key && !StartsWith(key, "/")
    ensures ParseUri(Join([GcsRoot + bucket, key])) ==
            Success(Parsed(bucket, key, PosixPath.BaseName(StripTrailingSlash(key))))
  {
    JoinBucketKey(bucket, key);
    ParseBuilt(bucket, key);
  }

  /** A string without ':' is neither an address nor the root. */
  lemma NoColonNotAddress(s: string)
    requires ':' !in s
    ensures ParseUri(s).Failure? && !IsRoot(s)
  {
    var t := DropSlashes(s);
    DropSlashesNotIn(s, ':');
    if |t| >= 3 { assert t[2] in t; }
    IsRootIff(s);
    if |s| >= 3 { assert s[2] in s; }
  }

  /** abspath's test: the address starts with the root, in any letter case. */
  predicate IsAbsolute(uri: string) {
    StartsWith(Lower(uri), GcsRoot)
  }

  lemma IsAbsoluteIff(uri: string)
    ensures IsAbsolute(uri) <==> |uri| >= 5 && IsRoot(uri[..5])
  {
    if |uri| >= 5 {
      assert Lower(uri)[..5] == Lower(uri[..5]);
    }
  }

  /** abspath: an absolute address is returned unchanged; anything else is resolved against
      the parent of cd with the given normpath (hadoop.fs.normpath, outside this model). */
  function AbsPath(cd: string, uri: string, normpath: string -> string): string {
    if IsAbsolute(uri) then uri else normpath(Join([cd, "..", uri]))
  }

  /** An address that parse_uri accepts and that has no leading slash is already absolute:
      abspath returns it unchanged, whatever the current directory. */
  lemma AbsPathKeepsAddress(cd: string, uri: string, normpath: string -> string)
    requires ParseUri(uri).Success? && !StartsWith(uri, "/")
    ensures AbsPath(cd, uri, normpath) == uri
  {
    assert LeadingSlashes(uri, 0) == 0;
    assert DropSlashes(uri) == uri;
    var h := uri[..5];
    assert h[0] == uri[0] && h[1] == uri[1] && h[2..5] == uri[2..5];
    IsRootIff(h);
    IsAbsoluteIff(uri);
  }

  /** A relative path is resolved against the parent of a bucket directory: normpath is
      given the bucket's address followed by "/../" and the path. */
  lemma AbsPathRelative(bucket: string, uri: string, normpath: string -> string)
    requires bucket != "" && '/' !in bucket
    requires ':' !in uri && !StartsWith(uri, "/")
    ensures AbsPath(GcsRoot + bucket, uri, normpath) == normpath(GcsRoot + (bucket + "/" + ".." + "/" + uri))
  {
    IsAbsoluteIff(uri);
    if |uri| >= 5 {
      IsRootIff(uri[..5]);
      assert uri[..5][2] == uri[2] && uri[2] in uri;
    }
    var up := "..";
    assert ':' !in up && up[0] != ':' && up[1] != ':';
    assert !StartsWith(up, "/") && !EndsWith(up, "/") by { assert up[..1] == "." && up[1..] == "."; }
    JoinBucketTwo(bucket, up, uri);
  }
}
