/**
 * Renaming every file after the directory that holds it (bulk_rename.py):
 * the directory path is rewritten into a name (`new_root`), and the i-th
 * file of the directory becomes `new_root_<i+1><extension>` in the same
 * directory. `os.walk` is given as the sequence of directories it yields;
 * each `os.rename` is recorded as a move.
 */
module BulkRename {
  import opened PyStr
  import opened PyPath

  /** One `os.rename(source, target)`. */
  datatype Move = Move(source: Path, target: Path)

  /** The Windows desktop prefix that the rewrite removes, as it reads after the replacements. */
  const DesktopPrefix: string := "C, , Users, shawn, Desktop,"

  /** `new_root`: ':' and '\' become ", ", '_' becomes '-', then the desktop prefix is cut out. */
  function NewRoot(root: Path): string {
    var r := ReplaceAll(ReplaceAll(ReplaceAll(root, ":", ", "), "\\", ", "), "_", "-");
    ReplaceAll(r, DesktopPrefix, "")
  }

  /** `new_name` of the i-th file (counted from 0). */
  function NewName(newRoot: string, i: nat, file: string): string {
    newRoot + "_" + Decimal(i + 1) + Ext(file)
  }

  /** The renames of one directory, in `enumerate` order. */
  function FolderMoves(root: Path, files: seq<string>): (r: seq<Move>)
    ensures |r| == |files|
  {
    seq(|files|, i requires 0 <= i < |files| => Move(Join(root, files[i]), Join(root, NewName(NewRoot(root), i, files[i]))))
  }

  /** The renames of the whole walk, directory after directory. */
  function WalkMoves(walk: seq<WalkStep>): seq<Move>
    decreases |walk|
  {
    if walk == [] then []
    else WalkMoves(walk[..|walk| - 1]) + FolderMoves(walk[|walk| - 1].dirpath, walk[|walk| - 1].filenames)
  }

  /** The script: every directory of the walk, every file of it, one rename each. */
  method BulkRename(walk: seq<WalkStep>) returns (moves: seq<Move>)
    ensures moves == WalkMoves(walk)
  {
    moves := [];
    for w := 0 to |walk|
      invariant moves == WalkMoves(walk[..w])
    {
      assert walk[..w + 1][..w] == walk[..w];
      var root := walk[w].dirpath;
      var files := walk[w].filenames;
      var newRoot := ReplaceAll(ReplaceAll(ReplaceAll(root, ":", ", "), "\\", ", "), "_", "-");
      newRoot := ReplaceAll(newRoot, DesktopPrefix, "");
      assert newRoot == NewRoot(root);
      ghost var before := moves;
      ghost var planned := FolderMoves(root, files);
      for i := 0 to |files|
        invariant moves == before + planned[..i]
      {
        var oldPath := Join(root, files[i]);
        var newName := newRoot + "_" + Decimal(i + 1) + Ext(files[i]);
        var newPath := Join(root, newName);
        assert planned[i] == Move(oldPath, newPath);
        moves := moves + [Move(oldPath, newPath)];
        assert planned[..i + 1] == planned[..i] + [planned[i]];
      }
      assert planned[..|files|] == planned;
    }
    assert walk[..|walk|] == walk;
  }

  // ---------------------------------------------------------------------------
  // Properties
  // ---------------------------------------------------------------------------

  /** The rewritten root holds no ':', no '\' and no '_'. */
  lemma NewRootClean(root: Path)
    ensures ':' !in NewRoot(root) && '\\' !in NewRoot(root) && '_' !in NewRoot(root)
  {
    var a := ReplaceAll(root, ":", ", ");
    var b := ReplaceAll(a, "\\", ", ");
    var c := ReplaceAll(b, "_", "-");
    assert ':' !in ", " && '\\' !in ", " && '_' !in "-";
    ReplaceCharRemoves(root, ':', ", ");
    ReplaceAllChars(a, "\\", ", ");
    ReplaceCharRemoves(a, '\\', ", ");
    ReplaceAllChars(b, "_", "-");
    ReplaceCharRemoves(b, '_', "-");
    ReplaceAllChars(c, DesktopPrefix, "");
  }

  /** A root with none of ':', '\', '_' and no desktop prefix is kept as it is. */
  lemma NewRootIdle(root: Path)
    requires ':' !in root && '\\' !in root && '_' !in root
    requires !Contains(root, DesktopPrefix)
    ensures NewRoot(root) == root
  {
    ReplaceCharAbsent(root, ':', ", ");
    ReplaceCharAbsent(root, '\\', ", ");
    ReplaceCharAbsent(root, '_', "-");
    ReplaceAbsent(root, DesktopPrefix, "");
  }

  /**
   * The i-th file of a directory moves from `root/file` to
   * `root/new_root_<i+1><ext>`: same directory, same extension.
   */
  lemma FolderMoveShape(root: Path, files: seq<string>, i: nat)
    requires i < |files|
    requires root != [] && root[|root| - 1] != '/' && '/' !in root
    requires files[i] != [] && '/' !in files[i]
    ensures FolderMoves(root, files)[i].source == Join(root, files[i])
    ensures DirName(FolderMoves(root, files)[i].target) == root
    ensures BaseName(FolderMoves(root, files)[i].target) == NewName(NewRoot(root), i, files[i])
    ensures EndsWith(FolderMoves(root, files)[i].target, Ext(files[i]))
  {
    var name := NewName(NewRoot(root), i, files[i]);
    assert FolderMoves(root, files)[i].target == Join(root, name);
    NewNamePlain(root, i, files[i]);
    BaseNameOfJoin(root, name);
    DirNameOfJoin(root, name);
    JoinPlain(root, name);
    EndsAfter(root + "/", name, Ext(files[i]));
  }

  lemma EndsAfter(a: string, name: string, e: string)
    requires EndsWith(name, e)
    ensures EndsWith(a + name, e)
  {
    assert (a + name)[|a + name| - |e|..] == name[|name| - |e|..];
  }

  /** A new name has no '/' when the root has none, and it is never empty. */
  lemma NewNamePlain(root: Path, i: nat, file: string)
    requires '/' !in root && '/' !in file
    ensures NewName(NewRoot(root), i, file) != [] && '/' !in NewName(NewRoot(root), i, file)
    ensures EndsWith(NewName(NewRoot(root), i, file), Ext(file))
  {
    NewRootChars(root);
    PlainNewName(NewRoot(root), i, file);
  }

  /** A new name built on a '/'-free `new_root` has no '/' and ends with the file's extension. */
  lemma PlainNewName(nr: string, i: nat, file: string)
    requires '/' !in nr && '/' !in file
    ensures NewName(nr, i, file) != [] && '/' !in NewName(nr, i, file)
    ensures EndsWith(NewName(nr, i, file), Ext(file))
  {
    var d := Decimal(i + 1);
    var e := Ext(file);
    SuffixChars(file, e);
    var name := NewName(nr, i, file);
    forall k | 0 <= k < |name| ensures name[k] != '/' {
      if k < |nr| {
        assert name[k] == nr[k];
      } else if k == |nr| {
        assert name[k] == '_';
      } else if k <= |nr| + |d| {
        assert name[k] == d[k - |nr| - 1];
      } else {
        assert name[k] == e[k - |nr| - 1 - |d|];
      }
    }
    assert name == (nr + "_" + d) + e;
  }

  /** The rewrite brings no '/' in: every character comes from the root or from ", " and "-". */
  lemma NewRootChars(root: Path)
    ensures forall x :: x in NewRoot(root) ==> x in root || x == ',' || x == ' ' || x == '-'
  {
    var a := ReplaceAll(root, ":", ", ");
    var b := ReplaceAll(a, "\\", ", ");
    var c := ReplaceAll(b, "_", "-");
    ReplaceAllChars(root, ":", ", ");
    ReplaceAllChars(a, "\\", ", ");
    ReplaceAllChars(b, "_", "-");
    ReplaceAllChars(c, DesktopPrefix, "");
  }

  /** The number of leading decimal digits of `s`. */
  function DigitRun(s: string): nat
    decreases |s|
  {
    if s == [] || !IsDigit(s[0]) then 0 else 1 + DigitRun(s[1..])
  }

  /** Digits followed by nothing or by an extension: the run is exactly the digits. */
  lemma {:induction false} DigitRunOf(d: string, e: string)
    requires forall k :: 0 <= k < |d| ==> IsDigit(d[k])
    requires e == [] || e[0] == '.'
    ensures DigitRun(d + e) == |d|
    decreases |d|
  {
    if d == [] {
      assert d + e == e;
    } else {
      assert (d + e)[0] == d[0];
      assert (d + e)[1..] == d[1..] + e;
      DigitRunOf(d[1..], e);
    }
  }

  /** A run of digits followed by an extension determines the run. */
  lemma DigitsThenExt(d1: string, e1: string, d2: string, e2: string)
    requires forall k :: 0 <= k < |d1| ==> IsDigit(d1[k])
    requires forall k :: 0 <= k < |d2| ==> IsDigit(d2[k])
    requires e1 == [] || e1[0] == '.'
    requires e2 == [] || e2[0] == '.'
    requires d1 + e1 == d2 + e2
    ensures d1 == d2
  {
    DigitRunOf(d1, e1);
    DigitRunOf(d2, e2);
    assert d1 == (d1 + e1)[..|d1|];
    assert d2 == (d2 + e2)[..|d2|];
  }

  /** Two files of one directory never get the same new name. */
  lemma NewNamesDistinct(newRoot: string, i: nat, j: nat, f: string, g: string)
    requires i != j
    ensures NewName(newRoot, i, f) != NewName(newRoot, j, g)
  {
    var d1, e1 := Decimal(i + 1), Ext(f);
    var d2, e2 := Decimal(j + 1), Ext(g);
    assert d1 != d2 by {
      if d1 == d2 {
        DecimalInjective(i + 1, j + 1);
      }
    }
    NumberedApart(newRoot + "_", d1, e1, d2, e2);
  }

  /** Different digit runs after one prefix, each followed by an extension, give different names. */
  lemma NumberedApart(p: string, d1: string, e1: string, d2: string, e2: string)
    requires forall k :: 0 <= k < |d1| ==> IsDigit(d1[k])
    requires forall k :: 0 <= k < |d2| ==> IsDigit(d2[k])
    requires e1 == [] || e1[0] == '.'
    requires e2 == [] || e2[0] == '.'
    requires d1 != d2
    ensures p + d1 + e1 != p + d2 + e2
  {
    if p + d1 + e1 == p + d2 + e2 {
      assert d1 + e1 == (p + d1 + e1)[|p|..];
      assert d2 + e2 == (p + d2 + e2)[|p|..];
      DigitsThenExt(d1, e1, d2, e2);
    }
  }

  /** Within a directory the targets are pairwise distinct, so no rename lands on another's target. */
  lemma FolderTargetsDistinct(root: Path, files: seq<string>)
    ensures forall a, b :: 0 <= a < b < |files| ==> FolderMoves(root, files)[a].target != FolderMoves(root, files)[b].target
  {
    forall a, b | 0 <= a < b < |files|
      ensures FolderMoves(root, files)[a].target != FolderMoves(root, files)[b].target
    {
      NewNamesDistinct(NewRoot(root), a, b, files[a], files[b]);
      NewNameHead(NewRoot(root), a, files[a]);
      NewNameHead(NewRoot(root), b, files[b]);
      JoinInjective(root, NewName(NewRoot(root), a, files[a]), NewName(NewRoot(root), b, files[b]));
    }
  }

  /** Every new name of a directory begins with the first character of `new_root + "_"`. */
  lemma NewNameHead(newRoot: string, i: nat, f: string)
    ensures NewName(newRoot, i, f) != [] && NewName(newRoot, i, f)[0] == (newRoot + "_")[0]
  {
    HeadOf(newRoot + "_", Decimal(i + 1));
    HeadOf(newRoot + "_" + Decimal(i + 1), Ext(f));
  }

  lemma HeadOf(p: string, a: string)
    requires p != []
    ensures p + a != [] && (p + a)[0] == p[0]
  {
  }

  /** Joining onto one directory keeps apart two different names that begin alike. */
  lemma JoinInjective(dir: Path, x: string, y: string)
    requires x != y
    requires x != [] && y != [] && x[0] == y[0]
    ensures Join(dir, x) != Join(dir, y)
  {
    if StartsWith(x, "/") {
      assert StartsWith(y, "/");
      return;
    }
    assert !StartsWith(y, "/");
    var pre := if dir == [] || EndsWith(dir, "/") then dir else dir + "/";
    assert Join(dir, x) == pre + x && Join(dir, y) == pre + y;
    assert x == (pre + x)[|pre|..];
    assert y == (pre + y)[|pre|..];
  }

  // ---------------------------------------------------------------------------
  // POSIX roots
  // ---------------------------------------------------------------------------

  /**
   * As written, `new_root` keeps the '/' of a POSIX root, so `new_name` is
   * itself a path. Under an absolute root `os.path.join` then returns
   * `new_name` alone: the file leaves its directory for the parent, as a
   * sibling named after the directory (root "/a/b" sends its first file
   * "x.jpg" to "/a/b_1.jpg").
   */
  lemma AbsoluteRootTarget(root: Path, files: seq<string>, i: nat)
    requires i < |files|
    requires StartsWith(root, "/") && root[|root| - 1] != '/'
    requires ':' !in root && '\\' !in root && '_' !in root && !Contains(root, DesktopPrefix)
    ensures FolderMoves(root, files)[i].target == root + "_" + Decimal(i + 1) + Ext(files[i])
    ensures !StartsWith(FolderMoves(root, files)[i].target, root + "/")
  {
    var name := root + "_" + Decimal(i + 1) + Ext(files[i]);
    assert FolderMoves(root, files)[i].target == Join(root, name) by {
      NewRootIdle(root);
    }
    NameAfterRoot(root, Decimal(i + 1), Ext(files[i]));
    assert StartsWith(name, "/") by {
      assert name[..1] == root[..1];
    }
  }

  /** `root + "_" + digits + ext` starts like `root` and has '_' just after it. */
  lemma NameAfterRoot(root: Path, d: string, e: string)
    requires root != []
    ensures var name := root + "_" + d + e;
            name[..|root|] == root && name[|root|] == '_' && !StartsWith(name, root + "/")
  {
  }

  /**
   * Under a relative root with a '/' (any directory below the top one)
   * `new_name` is appended to the root as a path: the target lies in a
   * folder below `root` that the script never creates, so `os.rename`
   * fails unless it happens to exist.
   */
  lemma RelativeRootTarget(root: Path, files: seq<string>, i: nat)
    requires i < |files|
    requires root != [] && root[0] != '/' && root[|root| - 1] != '/' && '/' in root
    requires ':' !in root && '\\' !in root && '_' !in root && !Contains(root, DesktopPrefix)
    ensures FolderMoves(root, files)[i].target == root + "/" + (root + "_" + Decimal(i + 1) + Ext(files[i]))
  {
    var name := root + "_" + Decimal(i + 1) + Ext(files[i]);
    assert FolderMoves(root, files)[i].target == Join(root, name) by {
      NewRootIdle(root);
    }
    NameAfterRoot(root, Decimal(i + 1), Ext(files[i]));
    JoinRelative(root, name);
  }

  lemma JoinRelative(root: Path, name: string)
    requires root != [] && root[|root| - 1] != '/'
    requires name != [] && name[0] != '/'
    ensures Join(root, name) == root + "/" + name
  {
    assert !StartsWith(name, "/") by {
      assert name[..1] == [name[0]];
    }
    assert !EndsWith(root, "/") by {
      assert root[|root| - 1..] == [root[|root| - 1]];
    }
  }

  /**
   * `new_root` as evidently intended for POSIX paths: the separator '/' is
   * rewritten to ", " like the Windows separator '\\', so the new name is a
   * plain name.
   */
  function NewRootFixed(root: Path): (r: string)
    ensures '/' !in r
  {
    ReplaceCharRemoves(NewRoot(root), '/', ", ");
    ReplaceAll(NewRoot(root), "/", ", ")
  }

  /** The renames of one directory with the corrected `new_root`. */
  function FolderMovesFixed(root: Path, files: seq<string>): (r: seq<Move>)
    ensures |r| == |files|
  {
    seq(|files|, i requires 0 <= i < |files| => Move(Join(root, files[i]), Join(root, NewName(NewRootFixed(root), i, files[i]))))
  }

  /**
   * With the corrected `new_root`, every file stays in its own directory,
   * whatever the root, keeping its extension; and no two files of the
   * directory meet at one target.
   */
  lemma FolderMoveFixedShape(root: Path, files: seq<string>, i: nat)
    requires i < |files|
    requires root != [] && root[|root| - 1] != '/'
    requires files[i] != [] && '/' !in files[i]
    ensures FolderMovesFixed(root, files)[i].source == Join(root, files[i])
    ensures DirName(FolderMovesFixed(root, files)[i].target) == root
    ensures BaseName(FolderMovesFixed(root, files)[i].target) == NewName(NewRootFixed(root), i, files[i])
    ensures forall j :: 0 <= j < |files| && j != i ==> FolderMovesFixed(root, files)[j].target != FolderMovesFixed(root, files)[i].target
  {
    var nr := NewRootFixed(root);
    var name := NewName(nr, i, files[i]);
    PlainNewName(nr, i, files[i]);
    BaseNameOfJoin(root, name);
    DirNameOfJoin(root, name);
    forall j | 0 <= j < |files| && j != i
      ensures FolderMovesFixed(root, files)[j].target != FolderMovesFixed(root, files)[i].target
    {
      NewNamesDistinct(nr, j, i, files[j], files[i]);
      NewNameHead(nr, j, files[j]);
      NewNameHead(nr, i, files[i]);
      JoinInjective(root, NewName(nr, j, files[j]), name);
    }
  }
}
