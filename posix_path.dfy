/** The parts of Python 2's posixpath module that the adapter relies on: join, basename,
    dirname and normpath, with '/' as the only separator. */
module PosixPath {
  import opened Strings

  /** One step of posixpath.join: an absolute component replaces what came before,
      otherwise it is appended after a separator unless one is already there. */
  function Join2(path: string, b: string): (r: string)
    ensures StartsWith(b, "/") ==> r == b
    ensures !StartsWith(b, "/") ==> StartsWith(r, path) && EndsWith(r, b)
  {
    if |b| > 0 && b[0] == '/' then b
    else if path == [] || path[|path| - 1] == '/' then path + b
    else path + "/" + b
  }

  /** posixpath.join(a, *rest). */
  function JoinAll(a: string, rest: seq<string>): string
    decreases |rest|
  {
    if rest == [] then a else JoinAll(Join2(a, rest[0]), rest[1..])
  }

  /** An absolute component discards every component before it. */
  lemma {:induction false} JoinAllReset(a: string, pre: seq<string>, b: string, post: seq<string>)
    requires StartsWith(b, "/")
    ensures JoinAll(a, pre + [b] + post) == JoinAll(b, post)
    decreases |pre|
  {
    if pre == [] {
      assert pre + [b] + post == [b] + post;
    } else {
      assert (pre + [b] + post)[1..] == pre[1..] + [b] + post;
      JoinAllReset(Join2(a, pre[0]), pre[1..], b, post);
    }
  }

  /** posixpath.join(*parts). */
  function JoinList(parts: seq<string>): string
    requires |parts| > 0
  {
    JoinAll(parts[0], parts[1..])
  }

  lemma JoinListPair(a: string, b: string)
    ensures JoinList([a, b]) == Join2(a, b)
  {
    var parts := [a, b];
    assert parts[0] == a && parts[1..] == [b];
    assert JoinAll(a, [b]) == JoinAll(Join2(a, b), [b][1..]);
    assert [b][1..] == [];
  }

  lemma JoinListTriple(a: string, b: string, c: string)
    ensures JoinList([a, b, c]) == Join2(Join2(a, b), c)
  {
    var parts := [a, b, c];
    assert parts[0] == a && parts[1..] == [b, c];
    assert [b, c][0] == b && [b, c][1..] == [c];
    assert JoinAll(a, [b, c]) == JoinAll(Join2(a, b), [c]);
    assert [c][0] == c && [c][1..] == [];
    assert JoinAll(Join2(a, b), [c]) == JoinAll(Join2(Join2(a, b), c), []);
  }

  /** An absolute part discards every part before it. */
  lemma JoinListReset(pre: seq<string>, b: string, post: seq<string>)
    requires StartsWith(b, "/")
    ensures JoinList(pre + [b] + post) == JoinList([b] + post)
  {
    var parts := pre + [b] + post;
    if pre == [] {
      assert parts == [b] + post;
    } else {
      assert parts[0] == pre[0];
      assert parts[1..] == pre[1..] + [b] + post;
      JoinAllReset(pre[0], pre[1..], b, post);
    }
    assert ([b] + post)[1..] == post;
  }

  /** Index just after the last '/' of p (0 when there is none), i.e. p.rfind('/') + 1. */
  function LastSlashEnd(p: string): (i: nat)
    ensures i <= |p|
    ensures i > 0 ==> p[i - 1] == '/'
    ensures forall j :: i <= j < |p| ==> p[j] != '/'
  {
    SlashEndBefore(p, |p|)
  }

  /** Index just after the last '/' among the first n characters of p. */
  function SlashEndBefore(p: string, n: nat): (i: nat)
    requires n <= |p|
    ensures i <= n
    ensures i > 0 ==> p[i - 1] == '/'
    ensures forall j :: i <= j < n ==> p[j] != '/'
  {
    if n == 0 then 0 else if p[n - 1] == '/' then n else SlashEndBefore(p, n - 1)
  }

  /** posixpath.basename. */
  function BaseName(p: string): (r: string)
    ensures '/' !in r
    ensures EndsWith(p, r)
    ensures |r| < |p| ==> p[|p| - |r| - 1] == '/'
  {
    p[LastSlashEnd(p)..]
  }

  /** The basename of dir/name is name when name has no '/'. */
  lemma BaseNameAfter(dir: string, name: string)
    requires '/' !in name
    ensures BaseName(dir + "/" + name) == name
  {
    var p := dir + "/" + name;
    var i := LastSlashEnd(p);
    assert p[|dir|] == '/';
    assert forall j :: |dir| < j < |p| ==> p[j] == name[j - |dir| - 1];
    assert p[|dir| + 1..] == name;
  }

  predicate AllSlashes(s: string) {
    forall i :: 0 <= i < |s| ==> s[i] == '/'
  }

  function RStripSlashes(s: string): (r: string)
    ensures StartsWith(s, r)
    ensures r == [] || r[|r| - 1] != '/'
    ensures AllSlashes(s[|r|..])
  {
    if s == [] || s[|s| - 1] != '/' then s else RStripSlashes(s[..|s| - 1])
  }

  /** posixpath.dirname: the head up to the last '/', with trailing slashes removed unless
      the head consists of slashes only. */
  function DirName(p: string): (r: string)
    ensures StartsWith(p, r)
  {
    var head := p[..LastSlashEnd(p)];
    if head != [] && !AllSlashes(head) then RStripSlashes(head) else head
  }

  /** p.split('/'). */
  function Split(p: string): (r: seq<string>)
    ensures |r| > 0
    ensures forall i :: 0 <= i < |r| ==> '/' !in r[i]
    decreases |p|
  {
    if '/' !in p then [p]
    else
      var i := FirstSlash(p);
      [p[..i]] + Split(p[i + 1..])
  }

  /** Index of the first '/' of p, or |p| when there is none. */
  function FirstSlash(p: string): (i: nat)
    ensures i <= |p| && '/' !in p[..i]
    ensures i < |p| ==> p[i] == '/'
    ensures '/' in p ==> i < |p|
  {
    NextSlash(p, 0)
  }

  /** Index of the first '/' of p at or after k, or |p| when there is none: the end of the
      run of other characters that starts at k. */
  function NextSlash(p: string, k: nat): (e: nat)
    requires k <= |p|
    ensures k <= e <= |p|
    ensures forall j :: k <= j < e ==> p[j] != '/'
    ensures e < |p| ==> p[e] == '/'
    decreases |p| - k
  {
    if k == |p| || p[k] == '/' then k else NextSlash(p, k + 1)
  }

  /** NextSlash is the only index with its two properties. */
  lemma {:induction false} NextSlashAt(p: string, k: nat, e: nat)
    requires k <= e <= |p|
    requires forall i :: k <= i < e ==> p[i] != '/'
    requires e == |p| || p[e] == '/'
    ensures NextSlash(p, k) == e
    decreases e - k
  {
    if k < e { NextSlashAt(p, k + 1, e); }
  }

  /** The first '/' splits p into what precedes it and what follows it. */
  lemma FirstSlashSplits(p: string)
    requires '/' in p
    ensures SplitsAt(p, p[..FirstSlash(p)], p[FirstSlash(p) + 1..])
    ensures FirstSlash(p) > 0 <==> p[0] != '/'
  {
  }

  /** '/'.join(comps). */
  function JoinSlash(comps: seq<string>): string
    decreases |comps|
  {
    if comps == [] then ""
    else if |comps| == 1 then comps[0]
    else comps[0] + "/" + JoinSlash(comps[1..])
  }

  lemma {:induction false} JoinSplit(p: string)
    ensures JoinSlash(Split(p)) == p
    decreases |p|
  {
    if '/' in p {
      var i := FirstSlash(p);
      JoinSplit(p[i + 1..]);
      assert p == p[..i] + "/" + p[i + 1..];
    }
  }

  /** The loop of posixpath.normpath over the components; `rooted` says whether the path
      had initial slashes. */
  function NormComps(rooted: bool, acc: seq<string>, comps: seq<string>): seq<string>
    decreases |comps|
  {
    if comps == [] then acc
    else
      var c := comps[0];
      if c == "" || c == "." then NormComps(rooted, acc, comps[1..])
      else if c != ".." || (!rooted && acc == []) || (acc != [] && acc[|acc| - 1] == "..") then
        NormComps(rooted, acc + [c], comps[1..])
      else if acc != [] then NormComps(rooted, acc[..|acc| - 1], comps[1..])
      else NormComps(rooted, acc, comps[1..])
  }

  /** posixpath.normpath: collapses empty and '.' components, resolves '..' against the
      previous component, and keeps one initial slash, or two when there are exactly two. */
  function NormPath(p: string): string {
    if p == "" then "."
    else
      var initial: nat :=
        if StartsWith(p, "//") && !StartsWith(p, "///") then 2
        else if StartsWith(p, "/") then 1
        else 0;
      var joined := JoinSlash(NormComps(initial > 0, [], Split(p)));
      var r := (seq(initial, _ => '/')) + joined;
      if r == "" then "." else r
  }

  /** A component that normpath keeps unchanged. */
  predicate PlainComponent(c: string) {
    c != "" && c != "." && c != ".."
  }

  /** A relative path made of plain components only, such as "dir/sub/file". */
  predicate Clean(p: string) {
    forall c :: c in Split(p) ==> PlainComponent(c)
  }

  lemma {:induction false} NormCompsKeepsPlain(acc: seq<string>, comps: seq<string>)
    requires forall c :: c in comps ==> PlainComponent(c)
    ensures NormComps(false, acc, comps) == acc + comps
    decreases |comps|
  {
    if comps != [] {
      assert comps[0] in comps;
      assert forall c :: c in comps[1..] ==> c in comps;
      NormCompsKeepsPlain(acc + [comps[0]], comps[1..]);
      assert acc + [comps[0]] + comps[1..] == acc + comps;
    }
  }

  /** normpath leaves a clean path unchanged. */
  lemma NormPathClean(p: string)
    requires Clean(p)
    ensures NormPath(p) == p
  {
    var s := Split(p);
    assert s[0] in s;
    assert Split("") == [""];
    assert p != "";
    if '/' in p {
      assert s[0] == p[..FirstSlash(p)];
    }
    assert p[0] != '/';
    assert !StartsWith(p, "/") && !StartsWith(p, "//");
    NormCompsKeepsPlain([], s);
    assert [] + s == s;
    JoinSplit(p);
    assert seq(0, _ => '/') + p == p;
  }

  lemma {:induction false} SplitConcat(a: string, b: string)
    requires '/' !in a
    ensures Split(a + "/" + b) == [a] + Split(b)
  {
    var p := a + "/" + b;
    FirstSlashAfter(a);
    FirstSlashPrefix(a + "/", b);
    assert p[..|a|] == a && p[|a| + 1..] == b;
  }

  lemma {:induction false} SplitJoin(a: string, b: string)
    ensures Split(a + "/" + b) == Split(a) + Split(b)
    decreases |a|
  {
    if '/' !in a {
      SplitConcat(a, b);
    } else {
      var i := FirstSlash(a);
      var c := "/" + b;
      assert a + "/" + b == a + c;
      FirstSlashPrefix(a, c);
      TakeAppend(a, c, i);
      DropAppend(a, c, i + 1);
      assert a[i + 1..] + c == a[i + 1..] + "/" + b;
      SplitJoin(a[i + 1..], b);
    }
  }

  lemma FirstSlashPrefix(a: string, b: string)
    requires '/' in a
    ensures FirstSlash(a + b) == FirstSlash(a)
  {
    var i := FirstSlash(a);
    assert forall j :: 0 <= j < i ==> (a + b)[j] == a[j] && a[j] == a[..i][j];
    NextSlashAt(a + b, 0, i);
  }

  /** The first '/' of a + "/" is the appended one when a has none. */
  lemma FirstSlashAfter(a: string)
    requires '/' !in a
    ensures FirstSlash(a + "/") == |a|
  {
    assert forall j :: 0 <= j < |a| ==> (a + "/")[j] == a[j];
    NextSlashAt(a + "/", 0, |a|);
  }

  /** Joining two clean paths with one separator gives a clean path. */
  lemma CleanJoin(a: string, b: string)
    requires Clean(a) && Clean(b)
    ensures Clean(a + "/" + b)
  {
    SplitJoin(a, b);
  }
}
