/** Character-string helpers shared by the model: prefixes and suffixes, ASCII lower-casing,
    and the lexicographic order in which the object store lists keys. */
module Strings {

  predicate StartsWith(s: string, prefix: string) {
    |prefix| <= |s| && s[..|prefix|] == prefix
  }

  predicate EndsWith(s: string, suffix: string) {
    |suffix| <= |s| && s[|s| - |suffix|..] == suffix
  }

  lemma NotInSlice(s: string, c: char, i: nat, j: nat)
    requires i <= j <= |s| && c !in s
    ensures c !in s[i..j]
  {
    assert forall k :: 0 <= k < j - i ==> s[i..j][k] == s[i + k];
  }

  lemma TakeAppend<T>(a: seq<T>, c: seq<T>, i: nat)
    requires i <= |a|
    ensures (a + c)[..i] == a[..i]
  {
  }

  lemma DropAppend<T>(a: seq<T>, c: seq<T>, i: nat)
    requires i <= |a|
    ensures (a + c)[i..] == a[i..] + c
  {
  }

  /** s consists of a, one '/', and b; stated by position, so that a proof about a slice
      of s does not also carry an equation between s and its own slices. */
  predicate SplitsAt(s: string, a: string, b: string) {
    |s| == |a| + 1 + |b| && s[..|a|] == a && s[|a|] == '/' && s[|a| + 1..] == b
  }

  lemma SplitsAtConcat(a: string, b: string)
    ensures SplitsAt(a + "/" + b, a, b)
  {
    var s := a + "/" + b;
    assert s[..|a|] == a;
    assert s[|a| + 1..] == b;
  }

  lemma SplitsAtEq(s: string, a: string, b: string)
    requires SplitsAt(s, a, b)
    ensures s == a + "/" + b
  {
    assert s == s[..|a|] + [s[|a|]] + s[|a| + 1..];
  }

  /** s without one final '/', if it has one. */
  function StripTrailingSlash(s: string): (r: string)
    ensures EndsWith(s, "/") ==> r + "/" == s
    ensures !EndsWith(s, "/") ==> r == s
  {
    if |s| > 0 && s[|s| - 1] == '/' then s[..|s| - 1] else s
  }

  /** The character set Python's lower() maps onto 'a'..'z' for 8-bit strings. */
  function LowerChar(c: char): (r: char)
    ensures 'A' <= c <= 'Z' ==> r as int == c as int + 32
    ensures !('A' <= c <= 'Z') ==> r == c
  {
    if 'A' <= c <= 'Z' then (c as int + 32) as char else c
  }

  function Lower(s: string): (r: string)
    ensures |r| == |s|
    ensures forall i :: 0 <= i < |s| ==> r[i] == LowerChar(s[i])
  {
    seq(|s|, i requires 0 <= i < |s| => LowerChar(s[i]))
  }

  /** Strict lexicographic order on code points: the order of UTF-8 byte strings, which is
      the order the object store lists keys in. */
  predicate LexLess(a: string, b: string)
    decreases |a|
  {
    if |b| == 0 then false
    else if |a| == 0 then true
    else if a[0] != b[0] then a[0] < b[0]
    else LexLess(a[1..], b[1..])
  }

  lemma {:induction false} LexIrreflexive(a: string)
    ensures !LexLess(a, a)
  {
    if |a| > 0 { LexIrreflexive(a[1..]); }
  }

  lemma {:induction false} LexTransitive(a: string, b: string, c: string)
    requires LexLess(a, b) && LexLess(b, c)
    ensures LexLess(a, c)
  {
    if |a| > 0 && a[0] == b[0] && b[0] == c[0] {
      LexTransitive(a[1..], b[1..], c[1..]);
    }
  }

  lemma {:induction false} LexTotal(a: string, b: string)
    ensures a == b || LexLess(a, b) || LexLess(b, a)
  {
    if |a| > 0 && |b| > 0 && a[0] == b[0] {
      LexTotal(a[1..], b[1..]);
      if a[1..] == b[1..] {
        assert a == [a[0]] + a[1..] && b == [b[0]] + b[1..];
      }
    }
  }

  lemma {:induction false} LexAsymmetric(a: string, b: string)
    requires LexLess(a, b)
    ensures !LexLess(b, a)
  {
    if LexLess(b, a) {
      LexTransitive(a, b, a);
      LexIrreflexive(a);
    }
  }

  /** m is the least element of s. */
  predicate IsLeast(m: string, s: set<string>) {
    m in s && forall x :: x in s ==> x == m || LexLess(m, x)
  }

  lemma {:induction false} LeastExists(s: set<string>)
    requires s != {}
    ensures exists m :: IsLeast(m, s)
    decreases |s|
  {
    var x :| x in s;
    if s == {x} {
      assert IsLeast(x, s);
    } else {
      LeastExists(s - {x});
      var m :| IsLeast(m, s - {x});
      LexTotal(m, x);
      if LexLess(m, x) {
        assert IsLeast(m, s);
      } else {
        forall y | y in s ensures y == x || LexLess(x, y) {
          if y != x && y != m { LexTransitive(x, m, y); }
        }
        assert IsLeast(x, s);
      }
    }
  }

  lemma LeastUnique(s: set<string>)
    ensures forall m, n :: IsLeast(m, s) && IsLeast(n, s) ==> m == n
  {
    forall m, n | IsLeast(m, s) && IsLeast(n, s) ensures m == n {
      if m != n { LexAsymmetric(m, n); }
    }
  }

  predicate StrictlySorted(r: seq<string>) {
    forall i, j :: 0 <= i < j < |r| ==> LexLess(r[i], r[j])
  }

  /** The elements of s in increasing lexicographic order. */
  function SortedList(s: set<string>): (r: seq<string>)
    ensures |r| == |s|
    ensures forall x :: x in r <==> x in s
    ensures StrictlySorted(r)
    decreases |s|
  {
    if s == {} then []
    else
      LeastExists(s);
      LeastUnique(s);
      var m :| IsLeast(m, s);
      var rest := SortedList(s - {m});
      assert forall x :: x in rest ==> LexLess(m, x);
      var r := [m] + rest;
      assert StrictlySorted(r) by {
        forall i, j | 0 <= i < j < |r|
          ensures LexLess(r[i], r[j])
        {
          assert r[j] == rest[j - 1];
          if i == 0 {
            assert r[j] in rest;
          } else {
            assert r[i] == rest[i - 1];
          }
        }
      }
      assert forall x :: x in r <==> x == m || x in rest;
      r
  }
}
