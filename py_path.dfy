/**
 * `os.path` in its POSIX flavour (separator '/') and the two `pathlib`
 * properties the scripts read (`suffix`, `stem`), on strings.
 */
module PyPath {
  import opened PyStr

  type Path = string

  /** One directory yielded by `os.walk`: its path and the names of the files directly in it. */
  datatype WalkStep = WalkStep(dirpath: Path, filenames: seq<string>)

  /** `s.rfind(c)`: the index of the last `c` in `s`, or -1 when there is none. */
  function RFind(s: string, c: char): (r: int)
    ensures -1 <= r < |s|
    ensures r >= 0 ==> s[r] == c && c !in s[r + 1..]
    ensures r == -1 ==> c !in s
    decreases |s|
  {
    if s == [] then -1
    else if s[|s| - 1] == c then |s| - 1
    else
      var r := RFind(s[..|s| - 1], c);
      RFindStep(s, c, r);
      r
  }

  /** A search that found nothing in the last character gives the answer for the rest. */
  lemma RFindStep(s: string, c: char, r: int)
    requires s != [] && s[|s| - 1] != c && -1 <= r < |s| - 1
    requires r >= 0 ==> s[r] == c && c !in s[..|s| - 1][r + 1..]
    requires r == -1 ==> c !in s[..|s| - 1]
    ensures r >= 0 ==> c !in s[r + 1..]
    ensures r == -1 ==> c !in s
  {
    if r >= 0 {
      assert s[r + 1..] == s[..|s| - 1][r + 1..] + [s[|s| - 1]];
    } else {
      assert s == s[..|s| - 1] + [s[|s| - 1]];
    }
  }

  /** `os.path.basename(p)`: everything after the last '/'. */
  function BaseName(p: string): string {
    p[RFind(p, '/') + 1..]
  }

  /** Everything up to and including the last '/'. */
  function Head(p: string): string {
    p[..RFind(p, '/') + 1]
  }

  predicate AllChar(s: string, c: char) {
    forall i :: 0 <= i < |s| ==> s[i] == c
  }

  function RStripChar(s: string, c: char): string
    decreases |s|
  {
    if s != [] && s[|s| - 1] == c then RStripChar(s[..|s| - 1], c) else s
  }

  /** `os.path.dirname(p)`: the head, without its trailing slashes unless it is only slashes. */
  function DirName(p: string): string {
    var head := Head(p);
    if head != [] && !AllChar(head, '/') then RStripChar(head, '/') else head
  }

  /** `os.path.join(a, b)`: an absolute `b` replaces `a`; otherwise one '/' between them. */
  function Join(a: string, b: string): string {
    if StartsWith(b, "/") then b
    else if a == [] || EndsWith(a, "/") then a + b
    else a + "/" + b
  }

  /** The common case of `os.path.join`: a relative name onto a directory with no trailing '/'. */
  lemma JoinPlain(a: string, b: string)
    requires a != [] && a[|a| - 1] != '/'
    requires b != [] && b[0] != '/'
    ensures Join(a, b) == a + "/" + b
  {
    assert !StartsWith(b, "/") by { assert b[..1][0] != '/'; }
    assert !EndsWith(a, "/") by { assert a[|a| - 1..][0] != '/'; }
  }

  /**
   * Where `os.path.splitext(p)` cuts: the last '.' of the last path
   * component, unless only dots precede it in that component; -1 for no cut.
   */
  function ExtStart(p: string): (d: int)
    ensures -1 <= d < |p|
    ensures d >= 0 ==> p[d] == '.' && '.' !in p[d + 1..] && '/' !in p[d..]
  {
    var sepIndex := RFind(p, '/');
    var dotIndex := RFind(p, '.');
    if dotIndex > sepIndex && !AllChar(p[sepIndex + 1..dotIndex], '.') then
      TailAbsent(p, sepIndex, dotIndex, '/');
      dotIndex
    else -1
  }

  lemma TailAbsent(s: string, i: int, j: int, c: char)
    requires -1 <= i < j <= |s| && c !in s[i + 1..]
    ensures c !in s[j..]
  {
    assert s[j..] == s[i + 1..][j - i - 1..];
  }

  /** `os.path.splitext(p)[1]`: empty, or a '.' with no further '.' or '/' after it. */
  function Ext(p: string): (r: string)
    ensures EndsWith(p, r)
    ensures r == [] || (r[0] == '.' && '.' !in r[1..] && '/' !in r)
  {
    var d := ExtStart(p);
    if d >= 0 then
      assert p[d..][1..] == p[d + 1..];
      p[d..]
    else ""
  }

  /** `os.path.splitext(p)[0]`: `p` without its extension. */
  function StripExt(p: string): (r: string)
    ensures r + Ext(p) == p
  {
    var e := Ext(p);
    assert p == p[..|p| - |e|] + p[|p| - |e|..];
    p[..|p| - |e|]
  }

  /** `PurePath(name).suffix` for a one-component `name`. */
  function Suffix(name: string): string {
    var i := RFind(name, '.');
    if 0 < i < |name| - 1 then name[i..] else ""
  }

  /** `PurePath(name).stem` for a one-component `name`. */
  function Stem(name: string): string {
    var i := RFind(name, '.');
    if 0 < i < |name| - 1 then name[..i] else name
  }

  /** The base name of a path is its last component: no '/', and a suffix of the path. */
  lemma BaseNameProps(p: string)
    ensures '/' !in BaseName(p) && EndsWith(p, BaseName(p))
    ensures Head(p) + BaseName(p) == p
  {
  }

  /** Joining a plain file name onto a directory keeps that name as the base name. */
  lemma BaseNameOfJoin(dir: string, name: string)
    requires name != [] && '/' !in name
    ensures BaseName(Join(dir, name)) == name
  {
    var j := Join(dir, name);
    assert !StartsWith(name, "/") by { assert name[0] != '/'; }
    assert EndsWith(j, name);
    if |j| > |name| {
      assert j[|j| - |name| - 1] == '/';
    }
  }

  lemma {:induction false} RStripCharIdle(s: string, c: char)
    requires s == [] || s[|s| - 1] != c
    ensures RStripChar(s, c) == s
  {
  }

  /** Joining a plain file name onto a directory that does not end in '/' keeps that directory as the dirname. */
  lemma DirNameOfJoin(dir: string, name: string)
    requires name != [] && '/' !in name
    requires dir != [] && dir[|dir| - 1] != '/'
    ensures DirName(Join(dir, name)) == dir
  {
    assert !StartsWith(name, "/") by { assert name[0] != '/'; }
    var j := dir + "/" + name;
    assert Join(dir, name) == j;
    BaseNameOfJoin(dir, name);
    assert Head(j) == dir + "/";
    assert (dir + "/")[..|dir|] == dir;
    assert !AllChar(dir + "/", '/') by { assert (dir + "/")[|dir| - 1] != '/'; }
    RStripCharIdle(dir, '/');
  }

  /**
   * A name has a suffix exactly when its last '.' is neither its first nor
   * its last character; the suffix then runs from that '.' to the end and
   * the stem is everything before it. Otherwise the suffix is empty and the
   * stem is the whole name.
   */
  lemma SuffixProps(name: string)
    ensures Suffix(name) != [] <==> 0 < RFind(name, '.') < |name| - 1
    ensures Suffix(name) != [] ==> Suffix(name) == name[RFind(name, '.')..] && Stem(name) == name[..RFind(name, '.')]
    ensures Suffix(name) == [] ==> Stem(name) == name
    ensures EndsWith(name, Suffix(name))
    ensures Suffix(name) == [] || (|Suffix(name)| >= 2 && Suffix(name)[0] == '.' && '.' !in Suffix(name)[1..])
    ensures Stem(name) + Suffix(name) == name
  {
    var i := RFind(name, '.');
    if 0 < i < |name| - 1 {
      assert Suffix(name) == name[i..] && Stem(name) == name[..i];
      assert name[i..][1..] == name[i + 1..];
      assert name[..i] + name[i..] == name;
    } else {
      assert Suffix(name) == [] && Stem(name) == name;
    }
  }

  /**
   * `os.path.splitext(p)` cuts exactly when the last '.' of `p` comes after
   * its last '/' and some character other than '.' lies between the two;
   * the extension is then everything from that last '.' on, and otherwise
   * it is empty.
   */
  lemma ExtRule(p: string)
    ensures ExtStart(p) >= 0 <==>
              RFind(p, '/') < RFind(p, '.') && exists k :: RFind(p, '/') < k < RFind(p, '.') && p[k] != '.'
    ensures ExtStart(p) >= 0 ==> ExtStart(p) == RFind(p, '.') && Ext(p) == p[RFind(p, '.')..]
    ensures ExtStart(p) < 0 ==> Ext(p) == []
  {
    var sep, dot := RFind(p, '/'), RFind(p, '.');
    if sep < dot {
      var mid := p[sep + 1..dot];
      if !AllChar(mid, '.') {
        var i :| 0 <= i < |mid| && mid[i] != '.';
        assert p[sep + 1 + i] != '.';
      } else {
        forall k | sep < k < dot ensures p[k] == '.' {
          assert p[k] == mid[k - sep - 1];
        }
      }
    }
  }

  /** The last `c` of `a + b` lies in `b` when `b` has one, and in `a` otherwise. */
  lemma {:induction false} RFindAfter(a: string, b: string, c: char)
    ensures c in b ==> RFind(a + b, c) == |a| + RFind(b, c)
    ensures c !in b ==> RFind(a + b, c) == RFind(a, c)
    decreases |b|
  {
    if b == [] {
      assert a + b == a;
    } else {
      var s := a + b;
      var init := b[..|b| - 1];
      assert s[|s| - 1] == b[|b| - 1];
      assert s[..|s| - 1] == a + init;
      assert b == init + [b[|b| - 1]];
      RFindAfter(a, init, c);
    }
  }

  lemma SliceAfter(a: string, b: string, k: nat)
    requires k <= |b|
    ensures (a + b)[|a|..|a| + k] == b[..k]
  {
  }

  /** The last '/' of `dir/name` is the one just added. */
  lemma RFindSepJoin(dir: string, name: string)
    requires '/' !in name
    ensures RFind(dir + "/" + name, '/') == |dir|
  {
    RFindAfter(dir + "/", name, '/');
    assert RFind("/", '/') == 0;
    RFindAfter(dir, "/", '/');
  }

  /** `splitext` of `dir/name` cuts where `splitext` of `name` does, shifted past `dir/`. */
  lemma ExtStartOfPlainJoin(dir: string, name: string)
    requires '/' !in name
    ensures ExtStart(dir + "/" + name) == if ExtStart(name) >= 0 then |dir| + 1 + ExtStart(name) else -1
  {
    if '.' in name {
      ExtStartJoinDot(dir, name);
    } else {
      ExtStartJoinNoDot(dir, name);
    }
  }

  lemma ExtStartJoinDot(dir: string, name: string)
    requires '/' !in name && '.' in name
    ensures ExtStart(dir + "/" + name) == if ExtStart(name) >= 0 then |dir| + 1 + ExtStart(name) else -1
  {
    RFindSepJoin(dir, name);
    RFindDotJoin(dir, name);
    SliceAfter(dir + "/", name, RFind(name, '.'));
    ExtStartShift(dir + "/" + name, name, |dir| + 1);
  }

  /** The last '.' of `dir/name` is the last '.' of `name`, shifted past `dir/`. */
  lemma RFindDotJoin(dir: string, name: string)
    requires '.' in name
    ensures RFind(dir + "/" + name, '.') == |dir| + 1 + RFind(name, '.')
  {
    RFindAfter(dir + "/", name, '.');
  }

  /** The cut of `p` from the cut of its last component `name`, which starts at `k`. */
  lemma ExtStartShift(p: string, name: string, k: nat)
    requires '/' !in name && '.' in name && 0 < k <= |p|
    requires RFind(p, '/') == k - 1
    requires RFind(p, '.') == k + RFind(name, '.')
    requires p[k..k + RFind(name, '.')] == name[..RFind(name, '.')]
    ensures ExtStart(p) == if ExtStart(name) >= 0 then k + ExtStart(name) else -1
  {
    var dn := RFind(name, '.');
    var cut := !AllChar(name[..dn], '.');
    assert RFind(name, '/') == -1;
    assert name[RFind(name, '/') + 1..dn] == name[..dn];
    assert ExtStart(name) == if cut then dn else -1;
    assert p[RFind(p, '/') + 1..RFind(p, '.')] == name[..dn];
    assert ExtStart(p) == if cut then k + dn else -1;
  }

  lemma ExtStartJoinNoDot(dir: string, name: string)
    requires '/' !in name && '.' !in name
    ensures ExtStart(dir + "/" + name) == -1 && ExtStart(name) == -1
  {
    RFindSepJoin(dir, name);
    RFindAfter(dir + "/", name, '.');
  }

  /** The extension of `dir/name` is the extension of `name`: `splitext` looks at the last component only. */
  lemma ExtOfPlainJoin(dir: string, name: string)
    requires '/' !in name
    ensures Ext(dir + "/" + name) == Ext(name)
  {
    ExtStartOfPlainJoin(dir, name);
    var dn := ExtStart(name);
    if dn >= 0 {
      TailAfter(dir + "/", name, dn);
    }
  }

  lemma TailAfter(a: string, b: string, k: nat)
    requires k <= |b|
    ensures (a + b)[|a| + k..] == b[k..]
  {
  }

  /** Without its extension, `dir/name` is `dir/` followed by `name` without its extension. */
  lemma StripExtOfPlainJoin(dir: string, name: string)
    requires '/' !in name
    ensures StripExt(dir + "/" + name) == dir + "/" + StripExt(name)
  {
    ExtOfPlainJoin(dir, name);
    var h, r := dir + "/", StripExt(name);
    ConcatAssoc(h, r, Ext(name));
    CancelRight(StripExt(h + name), h + r, Ext(name));
  }

  lemma CancelRight(x: string, y: string, e: string)
    requires x + e == y + e
    ensures x == y
  {
    assert x == (x + e)[..|x|];
    assert y == (y + e)[..|y|];
  }
}
