/**
  The string operations the configuration code borrows from Python:
  `str.strip`, `os.path.basename`, `os.path.join` (POSIX flavour), prefix and
  suffix tests, the digest's input concatenation and `str` ordering.
 */
module Text {

  /** Python's `str.isspace` for one character. */
  predicate IsSpace(c: char) {
    || c == ' ' || c == '\t' || c == '\n' || c == '\r'
    || c == '\U{000B}' || c == '\U{000C}'
    || ('\U{001C}' <= c <= '\U{001F}')
    || c == '\U{0085}' || c == '\U{00A0}' || c == '\U{1680}'
    || ('\U{2000}' <= c <= '\U{200A}')
    || c == '\U{2028}' || c == '\U{2029}' || c == '\U{202F}'
    || c == '\U{205F}' || c == '\U{3000}'
  }

  predicate AllSpace(s: string) {
    forall k :: 0 <= k < |s| ==> IsSpace(s[k])
  }

  /** Removes leading white space: the result is the suffix of `s` that starts
      at its first non-space character. */
  function TrimLeft(s: string): (r: string)
    ensures |r| <= |s| && r == s[|s| - |r|..]
    ensures AllSpace(s[..|s| - |r|])
    ensures r == [] || !IsSpace(r[0])
  {
    if |s| > 0 && IsSpace(s[0]) then
      var r := TrimLeft(s[1..]);
      assert s[..|s| - |r|] == [s[0]] + s[1..][..|s| - 1 - |r|];
      r
    else s
  }

  /** Removes trailing white space: the result is the prefix of `s` that ends
      at its last non-space character. */
  function TrimRight(s: string): (r: string)
    ensures |r| <= |s| && r == s[..|r|]
    ensures AllSpace(s[|r|..])
    ensures r == [] || !IsSpace(r[|r| - 1])
  {
    if |s| > 0 && IsSpace(s[|s| - 1]) then
      var r := TrimRight(s[..|s| - 1]);
      assert s[|r|..] == s[..|s| - 1][|r|..] + [s[|s| - 1]];
      r
    else s
  }

  /** Trimming the left leaves nothing exactly when all is white space. */
  lemma TrimLeftEmpty(s: string)
    ensures TrimLeft(s) == [] <==> AllSpace(s)
  {
    var l := TrimLeft(s);
    if l != [] {
      assert s[|s| - |l|] == l[0];
    } else {
      assert s[..|s|] == s;
    }
  }

  /** Trimming the right of a string that starts with a non-space character
      keeps that character. */
  lemma TrimRightKeepsFirst(l: string)
    requires l != [] && !IsSpace(l[0])
    ensures TrimRight(l) != [] && TrimRight(l)[0] == l[0]
  {
  }

  /** `r` is the infix `s[i..j]` of `s`, and everything of `s` outside it
      is white space. */
  predicate StripsTo(s: string, i: int, j: int, r: string) {
    0 <= i <= j <= |s| && r == s[i..j] && AllSpace(s[..i]) && AllSpace(s[j..])
  }

  /** `str.strip()`: the infix of `s` left once white space is cut from both
      ends (StripIsInfix). */
  function Strip(s: string): (r: string)
    ensures r == [] || (!IsSpace(r[0]) && !IsSpace(r[|r| - 1]))
    ensures r == [] <==> AllSpace(s)
    ensures s == [] || (!IsSpace(s[0]) && !IsSpace(s[|s| - 1])) ==> r == s
  {
    var l := TrimLeft(s);
    TrimLeftEmpty(s);
    if l == [] then []
    else
      TrimRightKeepsFirst(l);
      TrimRight(l)
  }

  /** What `str.strip()` returns is an infix of its argument with nothing but
      white space cut off either end. */
  lemma StripIsInfix(s: string)
    ensures exists i, j :: StripsTo(s, i, j, Strip(s))
  {
    var l := TrimLeft(s);
    var r := Strip(s);
    assert r == TrimRight(l);
    TrimBothIsInfix(s, l, r);
  }

  /** Cutting a white-space prefix off `s`, leaving `l`, and then a
      white-space suffix off `l`, leaving `r`, leaves an infix of `s`. */
  lemma TrimBothIsInfix(s: string, l: string, r: string)
    requires |l| <= |s| && l == s[|s| - |l|..] && AllSpace(s[..|s| - |l|])
    requires |r| <= |l| && r == l[..|r|] && AllSpace(l[|r|..])
    ensures StripsTo(s, |s| - |l|, |s| - |l| + |r|, r)
  {
    SuffixSlices(s, |s| - |l|, |r|);
  }

  /** Cutting `n` items off the suffix that starts at `i`. */
  lemma SuffixSlices<T>(s: seq<T>, i: int, n: int)
    requires 0 <= i && 0 <= n && i + n <= |s|
    ensures s[i..][..n] == s[i..i + n]
    ensures s[i..][n..] == s[i + n..]
  {
  }

  /** A string is already stripped when stripping leaves it unchanged. */
  predicate IsStripped(s: string) {
    s == [] || (!IsSpace(s[0]) && !IsSpace(s[|s| - 1]))
  }

  /** `s.strip() == ''`: every character is white space (see Strip). */
  predicate IsBlank(s: string) {
    AllSpace(s)
  }

  lemma BlankIsStrippedEmpty(s: string)
    ensures IsBlank(s) <==> Strip(s) == []
  {
  }

  lemma StripIdempotent(s: string)
    ensures IsStripped(Strip(s))
    ensures Strip(Strip(s)) == Strip(s)
  {
  }

  /** `[x.strip() for x in ss]` */
  function StripAll(ss: seq<string>): (r: seq<string>)
    ensures |r| == |ss|
  {
    if |ss| == 0 then [] else [Strip(ss[0])] + StripAll(ss[1..])
  }

  /** Entry `i` of the result is entry `i` of the input, stripped. */
  lemma {:induction false} StripAllAt(ss: seq<string>, i: nat)
    requires i < |ss|
    ensures StripAll(ss)[i] == Strip(ss[i])
    decreases i
  {
    if i > 0 {
      StripAllAt(ss[1..], i - 1);
      assert StripAll(ss)[i] == StripAll(ss[1..])[i - 1];
    }
  }

  /** Each entry of the result is the stripped entry of the input, and is
      itself stripped. */
  lemma StripAllEntries(ss: seq<string>)
    ensures forall i :: 0 <= i < |ss| ==> StripAll(ss)[i] == Strip(ss[i]) && IsStripped(StripAll(ss)[i])
  {
    forall i | 0 <= i < |ss| ensures StripAll(ss)[i] == Strip(ss[i]) {
      StripAllAt(ss, i);
    }
  }

  /** Stripping entries that are already stripped changes nothing. */
  lemma {:induction false} StripAllStripped(ss: seq<string>)
    requires forall i :: 0 <= i < |ss| ==> IsStripped(ss[i])
    ensures StripAll(ss) == ss
    decreases |ss|
  {
    if |ss| > 0 {
      StripAllStripped(ss[1..]);
      assert [ss[0]] + ss[1..] == ss;
    }
  }

  predicate StartsWith(s: string, prefix: string) {
    |prefix| <= |s| && s[..|prefix|] == prefix
  }

  predicate EndsWith(s: string, suffix: string) {
    |suffix| <= |s| && s[|s| - |suffix|..] == suffix
  }

  /** `os.path.basename`: everything after the last '/'. */
  function Basename(p: string): (r: string)
    ensures |r| <= |p| && r == p[|p| - |r|..]
    ensures '/' !in r
    ensures |r| < |p| ==> p[|p| - |r| - 1] == '/'
  {
    if |p| == 0 then []
    else if p[|p| - 1] == '/' then []
    else Basename(p[..|p| - 1]) + [p[|p| - 1]]
  }

  /** Appending a character other than '/' extends the base name by it. */
  lemma BasenameSnoc(p: string, c: char)
    requires c != '/'
    ensures Basename(p + [c]) == Basename(p) + [c]
  {
    assert (p + [c])[..|p|] == p;
  }

  /** The base name of a path ending in a slash-free component is that
      component. */
  lemma {:induction false} BasenameOfLastComponent(dir: string, leaf: string)
    requires '/' !in leaf
    requires dir == [] || dir[|dir| - 1] == '/'
    ensures Basename(dir + leaf) == leaf
    decreases |leaf|
  {
    if leaf == [] {
      assert dir + leaf == dir;
    } else {
      var init := leaf[..|leaf| - 1];
      var last := leaf[|leaf| - 1];
      assert leaf == init + [last];
      assert dir + leaf == (dir + init) + [last];
      BasenameOfLastComponent(dir, init);
      BasenameSnoc(dir + init, last);
    }
  }

  /** `a` ready to have a relative path appended: with a trailing '/'
      added unless it is empty or already has one. */
  function AsDirectory(a: string): (r: string)
    ensures r == [] || r[|r| - 1] == '/'
    ensures StartsWith(r, a) && |r| <= |a| + 1
  {
    if a == [] || EndsWith(a, "/") then a else a + "/"
  }

  /** `os.path.join(a, b)` on POSIX: an absolute `b` replaces `a`; otherwise
      the two are glued with one '/' unless `a` is empty or already ends in one. */
  function PathJoin(a: string, b: string): (r: string)
    ensures StartsWith(b, "/") ==> r == b
    ensures !StartsWith(b, "/") ==> r == AsDirectory(a) + b
    ensures !StartsWith(b, "/") ==> EndsWith(r, b) && StartsWith(r, a)
    ensures '/' !in b ==> Basename(r) == b
  {
    if StartsWith(b, "/") then b
    else
      var glue := AsDirectory(a);
      assert glue == [] || glue[|glue| - 1] == '/';
      assert '/' !in b ==> Basename(glue + b) == b by {
        if '/' !in b {
          BasenameOfLastComponent(glue, b);
        }
      }
      assert (glue + b)[..|a|] == a;
      glue + b
  }

  /** Joining a relative path below a directory `a` and then a
      sub-directory `mid` puts exactly one '/' between the parts, and the
      result still starts with `a`. */
  lemma JoinBelow(a: string, mid: string, b: string)
    requires mid != [] && !StartsWith(mid, "/") && !EndsWith(mid, "/")
    ensures StartsWith(PathJoin(a, mid), a)
    ensures !StartsWith(b, "/") ==> PathJoin(PathJoin(a, mid), b) == AsDirectory(a) + mid + "/" + b
    ensures !StartsWith(b, "/") ==> StartsWith(PathJoin(PathJoin(a, mid), b), a)
  {
    var dir := PathJoin(a, mid);
    assert dir[|dir| - 1] == mid[|mid| - 1] by {
      assert dir == AsDirectory(a) + mid;
    }
    assert AsDirectory(dir) == dir + "/" by {
      assert mid[|mid| - 1..] == mid[|mid| - |"/"|..];
    }
    if !StartsWith(b, "/") {
      StartsWithTransitive(PathJoin(dir, b), dir, a);
    }
  }

  lemma StartsWithTransitive(s: string, t: string, u: string)
    requires StartsWith(s, t) && StartsWith(t, u)
    ensures StartsWith(s, u)
  {
    assert s[..|u|] == s[..|t|][..|u|];
  }

  /** The strings of `ss` written one after the other, with no separator. */
  function Flatten(ss: seq<string>): (r: string)
  {
    if |ss| == 0 then [] else ss[0] + Flatten(ss[1..])
  }

  lemma {:induction false} FlattenAppend(a: seq<string>, b: seq<string>)
    ensures Flatten(a + b) == Flatten(a) + Flatten(b)
    decreases |a|
  {
    if |a| == 0 {
      assert a + b == b;
    } else {
      assert (a + b)[1..] == a[1..] + b;
      FlattenAppend(a[1..], b);
    }
  }

  /** Python's `<=` on `str`: lexicographic by code point, a proper prefix
      sorting first. */
  predicate LessEq(a: string, b: string) {
    if a == [] then true
    else if b == [] then false
    else if a[0] != b[0] then a[0] < b[0]
    else LessEq(a[1..], b[1..])
  }

  lemma {:induction false} LessEqReflexive(a: string)
    ensures LessEq(a, a)
    decreases |a|
  {
    if a != [] {
      LessEqReflexive(a[1..]);
    }
  }

  lemma {:induction false} LessEqTotal(a: string, b: string)
    ensures LessEq(a, b) || LessEq(b, a)
    decreases |a|
  {
    if a != [] && b != [] && a[0] == b[0] {
      LessEqTotal(a[1..], b[1..]);
    }
  }

  lemma {:induction false} LessEqTransitive(a: string, b: string, c: string)
    requires LessEq(a, b) && LessEq(b, c)
    ensures LessEq(a, c)
    decreases |a|
  {
    if a != [] && b != [] && c != [] && a[0] == b[0] && b[0] == c[0] {
      LessEqTransitive(a[1..], b[1..], c[1..]);
    }
  }

  lemma {:induction false} LessEqAntisymmetric(a: string, b: string)
    requires LessEq(a, b) && LessEq(b, a)
    ensures a == b
    decreases |a|
  {
    if a != [] && b != [] {
      LessEqAntisymmetric(a[1..], b[1..]);
      assert a == [a[0]] + a[1..] && b == [b[0]] + b[1..];
    }
  }

  /** A finite non-empty set of strings has a least element. */
  lemma {:induction false} LeastExists(names: set<string>)
    requires names != {}
    ensures exists x :: x in names && forall n :: n in names ==> LessEq(x, n)
    decreases |names|
  {
    var y :| y in names;
    LessEqReflexive(y);
    if names != {y} {
      var others := names - {y};
      LeastExists(others);
      var x :| x in others && forall n :: n in others ==> LessEq(x, n);
      LessEqTotal(x, y);
      if LessEq(x, y) {
        assert x in names;
        forall n | n in names ensures LessEq(x, n) {
          if n != y {
            assert n in others;
          }
        }
      } else {
        forall n | n in names ensures LessEq(y, n) {
          if n != y {
            assert n in others;
            LessEqTransitive(y, x, n);
          }
        }
      }
    }
  }

  /** `sorted(names)[0]` */
  function Least(names: set<string>): (r: string)
    requires names != {}
    ensures r in names
    ensures forall n :: n in names ==> LessEq(r, n)
  {
    LeastExists(names);
    assert forall a, b :: a in names && b in names && LessEq(a, b) && LessEq(b, a) ==> a == b by {
      forall a, b | a in names && b in names && LessEq(a, b) && LessEq(b, a) ensures a == b {
        LessEqAntisymmetric(a, b);
      }
    }
    var x :| x in names && forall n :: n in names ==> LessEq(x, n);
    x
  }

  /** Any element below all the others is the one `Least` picks. */
  lemma LeastUnique(names: set<string>, x: string)
    requires x in names && forall n :: n in names ==> LessEq(x, n)
    ensures Least(names) == x
  {
    LessEqAntisymmetric(x, Least(names));
  }
}
