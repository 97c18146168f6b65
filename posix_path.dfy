/** The parts of Python's `posixpath` (`os.path` on POSIX) that the
    normalization scripts use: `basename`, `dirname`, `splitext` and a
    two-argument `join`, all pure string functions over '/'-separated paths. */
module PosixPath {

  predicate AllSlashes(s: string) {
    forall i :: 0 <= i < |s| ==> s[i] == '/'
  }

  predicate AllDots(s: string) {
    forall i :: 0 <= i < |s| ==> s[i] == '.'
  }

  /** `s.rfind(c)`: the index of the last `c` in `s`, or -1. */
  function LastIndexOf(s: string, c: char): (r: int)
    ensures -1 <= r < |s|
    ensures r >= 0 ==> s[r] == c
    ensures forall k :: r < k < |s| ==> s[k] != c
  {
    if |s| == 0 then -1
    else if s[|s| - 1] == c then |s| - 1
    else LastIndexOf(s[..|s| - 1], c)
  }

  /** The three properties of `LastIndexOf` pin its value down. */
  lemma LastIndexOfIs(s: string, c: char, k: int)
    requires -1 <= k < |s|
    requires k >= 0 ==> s[k] == c
    requires forall j :: k < j < |s| ==> s[j] != c
    ensures LastIndexOf(s, c) == k
  {
  }

  lemma LastIndexOfAppend(a: string, b: string, c: char)
    ensures LastIndexOf(a + b, c) == if c in b then |a| + LastIndexOf(b, c) else LastIndexOf(a, c)
  {
    var s := a + b;
    if c in b {
      var k := LastIndexOf(b, c);
      assert k >= 0;
      LastIndexOfIs(s, c, |a| + k);
    } else {
      LastIndexOfIs(s, c, LastIndexOf(a, c));
    }
  }

  /** `os.path.basename(p)`: everything after the last '/'. */
  function Basename(p: string): (r: string)
    ensures '/' !in r
    ensures |r| <= |p| && r == p[|p| - |r|..]
    ensures |r| < |p| ==> p[|p| - |r| - 1] == '/'
  {
    p[LastIndexOf(p, '/') + 1..]
  }

  /** `s.rstrip('/')`. */
  function TrimTrailingSlashes(s: string): (r: string)
    ensures |r| <= |s| && r == s[..|r|]
    ensures AllSlashes(s[|r|..])
    ensures r == [] || r[|r| - 1] != '/'
  {
    if |s| > 0 && s[|s| - 1] == '/' then
      var r := TrimTrailingSlashes(s[..|s| - 1]);
      assert s[|r|..] == s[..|s| - 1][|r|..] + ['/'];
      r
    else s
  }

  /** A directory as `dirname` leaves it: empty, only slashes (the root), or
      not ending in '/'. */
  predicate CanonicalDir(d: string) {
    d == [] || AllSlashes(d) || d[|d| - 1] != '/'
  }

  /** `os.path.dirname(p)`: the text up to the last '/', with trailing slashes
      removed unless it consists of slashes only. */
  function Dirname(p: string): (r: string)
    ensures |r| <= |p| - |Basename(p)| && r == p[..|r|]
    ensures AllSlashes(p[|r|..|p| - |Basename(p)|])
    ensures r == [] <==> '/' !in p
    ensures CanonicalDir(r)
    ensures AllSlashes(p[..|p| - |Basename(p)|]) ==> r == p[..|p| - |Basename(p)|]
  {
    var head := p[..LastIndexOf(p, '/') + 1];
    if head != [] && !AllSlashes(head) then TrimTrailingSlashes(head) else head
  }

  /** `os.path.splitext(p)`: split at the last '.' of the last path component,
      except that dots leading that component never start an extension. */
  function SplitExt(p: string): (r: (string, string))
    ensures r.0 + r.1 == p
    ensures r.1 == [] || (r.1[0] == '.' && '.' !in r.1[1..] && '/' !in r.1)
  {
    var sep := LastIndexOf(p, '/');
    var dot := LastIndexOf(p, '.');
    if dot > sep && !AllDots(p[sep + 1..dot]) then
      assert p[..dot] + p[dot..] == p;
      ExtensionTail(p, sep, dot);
      (p[..dot], p[dot..])
    else (p, [])
  }

  /** After the last '.' of a path, past its last '/', there is neither. */
  lemma ExtensionTail(p: string, sep: int, dot: int)
    requires sep == LastIndexOf(p, '/') && dot == LastIndexOf(p, '.') && sep < dot
    ensures p[dot..][0] == '.' && '.' !in p[dot..][1..] && '/' !in p[dot..]
  {
    var ext := p[dot..];
    forall k | 0 <= k < |ext| ensures ext[k] != '/' && (k > 0 ==> ext[k] != '.') {
      assert ext[k] == p[dot + k];
    }
    assert forall k :: 0 <= k < |ext[1..]| ==> ext[1..][k] == ext[k + 1];
  }

  /** `os.path.splitext(p)[0]` */
  function Stem(p: string): string {
    SplitExt(p).0
  }

  /** `os.path.splitext(p)[1]` */
  function Ext(p: string): string {
    SplitExt(p).1
  }

  /** `os.path.join(a, b)` with two arguments. */
  function Join(a: string, b: string): string {
    if |b| > 0 && b[0] == '/' then b
    else if a == [] || a[|a| - 1] == '/' then a + b
    else a + "/" + b
  }

  /** The name joined onto a directory is the basename of the result. */
  lemma BasenameOfJoin(d: string, n: string)
    requires '/' !in n
    ensures Basename(Join(d, n)) == n
  {
    var j := Join(d, n);
    if d == [] || d[|d| - 1] == '/' {
      LastIndexOfAppend(d, n, '/');
      if d != [] {
        assert j[|d| - 1] == '/';
      }
    } else {
      assert j == (d + "/") + n;
      LastIndexOfAppend(d + "/", n, '/');
      LastIndexOfIs(d + "/", '/', |d|);
    }
  }

  /** A canonical directory is the `dirname` of any name joined onto it. */
  lemma DirnameOfJoin(d: string, n: string)
    requires CanonicalDir(d)
    requires '/' !in n && n != []
    ensures Dirname(Join(d, n)) == d
  {
    var j := Join(d, n);
    BasenameOfJoin(d, n);
    if d == [] {
      assert j == n;
    } else if d[|d| - 1] == '/' {
      assert j == d + n;
      assert AllSlashes(d);
      LastIndexOfAppend(d, n, '/');
      LastIndexOfIs(d, '/', |d| - 1);
      assert j[..|d|] == d;
    } else {
      assert j == (d + "/") + n;
      LastIndexOfAppend(d + "/", n, '/');
      LastIndexOfIs(d + "/", '/', |d|);
      var head := j[..|d| + 1];
      assert head == d + "/";
      assert !AllSlashes(head) by { assert head[|d| - 1] != '/'; }
      var r := TrimTrailingSlashes(head);
      assert r == TrimTrailingSlashes(d);
    }
  }

  /** The extension of a bare name `s.e`: the last dot splits when something
      other than dots stands before it. */
  lemma SplitExtOfName(s: string, e: string)
    requires '/' !in s && '/' !in e && '.' !in e
    requires !AllDots(s)
    ensures SplitExt(s + "." + e) == (s, "." + e)
  {
    var p := s + "." + e;
    LastIndexOfAppend(s + ".", e, '/');
    LastIndexOfAppend(s, ".", '/');
    LastIndexOfIs(s, '/', -1);
    LastIndexOfAppend(s + ".", e, '.');
    LastIndexOfIs(s + ".", '.', |s|);
    assert LastIndexOf(p, '/') == -1;
    assert LastIndexOf(p, '.') == |s|;
    assert p[0..|s|] == s;
    assert p[..|s|] == s && p[|s|..] == "." + e;
    assert !AllDots(p[LastIndexOf(p, '/') + 1..LastIndexOf(p, '.')]);
  }

  /** A bare name whose only dots lead it (`.bashrc`), or that has no dot at
      all, has no extension. */
  lemma SplitExtNoExtension(s: string)
    requires '/' !in s
    requires '.' !in s || AllDots(s[..LastIndexOf(s, '.')])
    ensures SplitExt(s) == (s, [])
  {
    LastIndexOfIs(s, '/', -1);
    if '.' in s {
      assert s[0..LastIndexOf(s, '.')] == s[..LastIndexOf(s, '.')];
    } else {
      LastIndexOfIs(s, '.', -1);
    }
  }

  /** `splitext` of a whole path splits exactly where `splitext` of its
      basename does: the directory part is never touched. */
  lemma StemOfPath(p: string)
    ensures Stem(p) == p[..|p| - |Basename(p)|] + Stem(Basename(p))
    ensures Ext(p) == Ext(Basename(p))
  {
    var b := Basename(p);
    var dir := p[..|p| - |b|];
    var sep := LastIndexOf(p, '/');
    assert |dir| == sep + 1;
    assert p == dir + b;
    LastIndexOfIs(b, '/', -1);
    LastIndexOfAppend(dir, b, '.');
    if '.' in b {
      StemOfPathDotInName(p, dir, b);
    } else {
      LastIndexOfIs(b, '.', -1);
      assert SplitExt(b) == (b, []);
      assert SplitExt(p) == (p, []);
    }
  }

  lemma StemOfPathDotInName(p: string, dir: string, b: string)
    requires p == dir + b && |dir| == LastIndexOf(p, '/') + 1 && LastIndexOf(b, '/') == -1
    requires '.' in b
    requires LastIndexOf(p, '.') == |dir| + LastIndexOf(b, '.')
    ensures SplitExt(p).0 == dir + SplitExt(b).0
    ensures SplitExt(p).1 == SplitExt(b).1
  {
    var bdot := LastIndexOf(b, '.');
    var dot := LastIndexOf(p, '.');
    assert p[|dir|..dot] == b[0..bdot];
    if !AllDots(b[0..bdot]) {
      assert p[..dot] == dir + b[..bdot];
      assert p[dot..] == b[bdot..];
    }
  }

  /** `splitext(filepath)[0]` plus an extension stays in the input's directory. */
  lemma BesideInput(filepath: string, ext: string)
    requires '/' !in ext
    ensures Dirname(Stem(filepath) + ext) == Dirname(filepath)
  {
    var b := Basename(filepath);
    var dir := filepath[..|filepath| - |b|];
    assert filepath == dir + b;
    StemOfPath(filepath);
    StemNoSlash(b);
    var name := Stem(b) + ext;
    ConcatAssoc(dir, Stem(b), ext);
    SameDirPart(dir, b, name);
  }

  lemma ConcatAssoc(a: string, b: string, c: string)
    ensures (a + b) + c == a + (b + c)
  {
  }

  lemma StemNoSlash(b: string)
    requires '/' !in b
    ensures '/' !in Stem(b)
  {
    assert Stem(b) + Ext(b) == b;
    assert forall i :: 0 <= i < |Stem(b)| ==> Stem(b)[i] == b[i];
  }

  /** Two names after the same directory part have the same `dirname`. */
  lemma SameDirPart(dir: string, n1: string, n2: string)
    requires '/' !in n1 && '/' !in n2
    ensures Dirname(dir + n1) == Dirname(dir + n2)
  {
    LastIndexOfAppend(dir, n1, '/');
    LastIndexOfAppend(dir, n2, '/');
    var k := LastIndexOf(dir, '/') + 1;
    assert (dir + n1)[..k] == dir[..k] == (dir + n2)[..k];
  }

  /** A directory part that is empty or ends in '/' leaves the basename alone. */
  lemma BasenameAfterSlash(a: string, b: string)
    requires a == [] || a[|a| - 1] == '/'
    ensures Basename(a + b) == Basename(b)
  {
    LastIndexOfAppend(a, b, '/');
    if '/' !in b {
      LastIndexOfIs(b, '/', -1);
      if a != [] {
        LastIndexOfIs(a, '/', |a| - 1);
      }
    }
  }

  /** A name after a directory part that is empty or ends in '/' is the
      basename, and `splitext` touches only that name. */
  lemma NameAfterDir(dir: string, name: string)
    requires dir == [] || dir[|dir| - 1] == '/'
    requires '/' !in name
    ensures Basename(dir + name) == name
    ensures Stem(dir + name) == dir + Stem(name)
    ensures Ext(dir + name) == Ext(name)
  {
    BasenameAfterSlash(dir, name);
    LastIndexOfIs(name, '/', -1);
    var p := dir + name;
    assert p[..|p| - |name|] == dir;
    StemOfPath(p);
  }

  /** When a single '/' separates the name from a directory, that directory
      is `dirname` and the separator follows it. */
  lemma DirnameSingleSlash(p: string)
    requires |p| - |Basename(p)| >= 2 && p[|p| - |Basename(p)| - 2] != '/'
    ensures Dirname(p) + "/" == p[..|p| - |Basename(p)|]
  {
    var head := p[..|p| - |Basename(p)|];
    var d := Dirname(p);
    assert head[|head| - 1] == '/';
    assert forall k :: |d| <= k < |head| ==> p[k] == '/' by {
      forall k | |d| <= k < |head| ensures p[k] == '/' {
        assert p[|d|..|head|][k - |d|] == p[k];
      }
    }
    assert p[|head| - 2] != '/';
    assert !CanonicalDir(head) by { assert head[|head| - 2] != '/'; }
    assert d == head[..|d|];
    assert |d| == |head| - 1;
  }

  /** Behind a directory part that is empty or ends in '/', a path whose last
      separator follows a name has `dirname` up to that separator. */
  lemma DirnameAfterPrefix(prefix: string, rel: string)
    requires prefix == [] || prefix[|prefix| - 1] == '/'
    requires LastIndexOf(rel, '/') >= 1 && rel[LastIndexOf(rel, '/') - 1] != '/'
    ensures Dirname(prefix + rel) == prefix + rel[..LastIndexOf(rel, '/')]
  {
    var p := prefix + rel;
    LastSlashAfterPrefix(prefix, rel);
    DirnameOfRelative(p);
    PrefixSlice(prefix, rel, LastIndexOf(rel, '/'));
  }

  lemma LastSlashAfterPrefix(prefix: string, rel: string)
    requires LastIndexOf(rel, '/') >= 1 && rel[LastIndexOf(rel, '/') - 1] != '/'
    ensures LastIndexOf(prefix + rel, '/') == |prefix| + LastIndexOf(rel, '/')
    ensures (prefix + rel)[LastIndexOf(prefix + rel, '/') - 1] != '/'
  {
    var l := LastIndexOf(rel, '/');
    assert rel[l] == '/';
    LastIndexOfAppend(prefix, rel, '/');
    assert (prefix + rel)[|prefix| + l - 1] == rel[l - 1];
  }

  /** Joining a relative path with a directory part onto a directory, the
      `dirname` is that directory part joined onto the same directory. */
  lemma DirnameOfJoinedPath(dir: string, rel: string)
    requires rel != [] && rel[0] != '/'
    requires LastIndexOf(rel, '/') >= 1 && rel[LastIndexOf(rel, '/') - 1] != '/'
    ensures Dirname(Join(dir, rel)) == Join(dir, Dirname(rel))
  {
    var sub := rel[..LastIndexOf(rel, '/')];
    var prefix := if dir == [] || dir[|dir| - 1] == '/' then dir else dir + "/";
    JoinOntoName(dir, rel);
    assert sub[0] == rel[0];
    JoinOntoName(dir, sub);
    DirnameAfterPrefix(prefix, rel);
    DirnameOfRelative(rel);
    calc {
      Dirname(Join(dir, rel));
      Dirname(prefix + rel);
      prefix + sub;
      Join(dir, sub);
      Join(dir, Dirname(rel));
    }
  }

  lemma DirnameOfRelative(rel: string)
    requires LastIndexOf(rel, '/') >= 1 && rel[LastIndexOf(rel, '/') - 1] != '/'
    ensures Dirname(rel) == rel[..LastIndexOf(rel, '/')]
  {
    var l := LastIndexOf(rel, '/');
    assert |Basename(rel)| == |rel| - l - 1;
    DirnameSingleSlash(rel);
    var d := Dirname(rel);
    assert d + "/" == rel[..l + 1];
    assert rel[..l + 1] == rel[..l] + "/";
    assert d == (d + "/")[..|d|];
  }

  /** `join` onto a relative name puts at most one '/' between the two. */
  lemma JoinOntoName(dir: string, name: string)
    requires name != [] && name[0] != '/'
    ensures Join(dir, name) == (if dir == [] || dir[|dir| - 1] == '/' then dir else dir + "/") + name
  {
  }

  lemma PrefixSlice(prefix: string, rel: string, n: nat)
    requires n <= |rel|
    ensures (prefix + rel)[..|prefix| + n] == prefix + rel[..n]
  {
  }

  lemma SlashAfter(d: string, prefix: string, rel: string, l: nat)
    requires l < |rel| && rel[l] == '/'
    requires d + "/" == prefix + rel[..l + 1]
    ensures d == prefix + rel[..l]
  {
    assert prefix + rel[..l + 1] == (prefix + rel[..l]) + "/";
    assert d == (d + "/")[..|d|];
  }

  /** A bare name followed by a one-dot extension splits at that extension. */
  lemma SplitExtOfSuffixed(s: string, suffix: string)
    requires '/' !in s && !AllDots(s)
    requires |suffix| >= 1 && suffix[0] == '.' && '.' !in suffix[1..] && '/' !in suffix
    ensures SplitExt(s + suffix) == (s, suffix)
  {
    assert "." + suffix[1..] == suffix;
    ConcatAssoc(s, ".", suffix[1..]);
    SplitExtOfName(s, suffix[1..]);
  }

  /** `splitext(p)[0] + suffix` is `join(dirname(p), stem + suffix)` when at
      most one '/' separates the name from its directory, or the directory is
      the root. */
  lemma StemPathIsJoin(p: string, suffix: string)
    requires '/' !in suffix
    requires var head := p[..|p| - |Basename(p)|];
      head == [] || AllSlashes(head) || (|head| >= 2 && head[|head| - 2] != '/')
    ensures Stem(p) + suffix == Join(Dirname(p), Stem(Basename(p)) + suffix)
  {
    var b := Basename(p);
    var head := p[..|p| - |b|];
    var name := Stem(b) + suffix;
    StemNoSlash(b);
    JoinOntoHead(p, name);
    StemOfPath(p);
    AppendToParts(Stem(p), head, Stem(b), suffix);
  }

  lemma AppendToParts(whole: string, head: string, tail: string, suffix: string)
    requires whole == head + tail
    ensures whole + suffix == head + (tail + suffix)
  {
  }

  /** Joining a bare name onto `dirname(p)` puts it right after `p`'s last
      '/' under the same conditions. */
  lemma JoinOntoHead(p: string, name: string)
    requires '/' !in name
    requires var head := p[..|p| - |Basename(p)|];
      head == [] || AllSlashes(head) || (|head| >= 2 && head[|head| - 2] != '/')
    ensures Join(Dirname(p), name) == p[..|p| - |Basename(p)|] + name
  {
    var head := p[..|p| - |Basename(p)|];
    if head == [] {
      assert Dirname(p) == [];
    } else if AllSlashes(head) {
      assert Dirname(p) == head;
    } else {
      DirnameSingleSlash(p);
      var d := Dirname(p);
      assert d != [] && d[|d| - 1] != '/' by {
        assert d[|d| - 1] == head[|head| - 2];
      }
      ConcatAssoc(d, "/", name);
    }
  }

  /** Replacing a path's extension by a one-dot suffix gives a path whose
      extension is that suffix and whose stem is the old stem. */
  lemma StemOfSuffixed(p: string, suffix: string)
    requires |suffix| >= 1 && suffix[0] == '.' && '.' !in suffix[1..] && '/' !in suffix
    requires !AllDots(Stem(Basename(p))) && '/' !in Stem(Basename(p))
    ensures Ext(Stem(p) + suffix) == suffix
    ensures Stem(Stem(p) + suffix) == Stem(p)
  {
    var b := Basename(p);
    var dir := p[..|p| - |b|];
    StemOfPath(p);
    ConcatAssoc(dir, Stem(b), suffix);
    NameAfterDir(dir, Stem(b) + suffix);
    SplitExtOfSuffixed(Stem(b), suffix);
  }
}
