/**
 * Replacing words in image file names (scripts/filename_replace.py): the
 * comma-separated find strings are tried one after the other on every image
 * file of one directory, and each one that occurs in the file's name renames
 * the file to its name with that string replaced. The directory listing
 * (`scandir`, each entry with the answer `is_file()` gives) is an input; the
 * file system is the set of paths that exist, and `os.rename` of a missing
 * source raises FileNotFoundError, which ends the run.
 */
module FilenameReplace {
  import opened Wrappers
  import opened PyStr
  import opened PyPath

  /** The extensions accepted, compared as written (case-sensitive). */
  const ImageExts: seq<string> := [".jpg", ".png", ".jpeg", ".gif", ".bmp", ".webp"]

  /** One directory entry: its name and whether it is a regular file. */
  datatype Entry = Entry(name: string, isFile: bool)

  /** The paths that exist, and the error that ended the run, if one did. */
  datatype Outcome = Outcome(disk: set<Path>, error: Option<PyError>)

  /** The entries the loop renames: regular files with an image extension. */
  predicate Wanted(e: Entry) {
    e.isFile && Ext(e.name) in ImageExts
  }

  /** `os.rename(source, target)` on the set of existing paths. */
  function Rename(disk: set<Path>, source: Path, target: Path): (r: Result<set<Path>>)
    ensures r.Err? <==> source !in disk
    ensures r.Err? ==> r.error == FileNotFound
    ensures r.Ok? ==> target in r.value && (source == target || source !in r.value)
    ensures r.Ok? ==> forall p :: p != source && p != target ==> (p in r.value <==> p in disk)
  {
    if source !in disk then Err(FileNotFound) else Ok(disk - {source} + {target})
  }

  /** One find string tried on one file: the rename always starts from the file's listed name. */
  function FindStep(dir: Path, name: string, replace: string, s: string, o: Outcome): Outcome {
    if o.error.Some? || !Contains(name, s) then o
    else
      match Rename(o.disk, Join(dir, name), Join(dir, ReplaceAll(name, s, replace)))
      case Ok(d) => Outcome(d, None)
      case Err(e) => Outcome(o.disk, Some(e))
  }

  /** The inner loop: every find string in order, on one file. */
  function RunFinds(dir: Path, name: string, replace: string, finds: seq<string>, o: Outcome): Outcome
    decreases |finds|
  {
    if finds == [] then o
    else FindStep(dir, name, replace, finds[|finds| - 1], RunFinds(dir, name, replace, finds[..|finds| - 1], o))
  }

  /** One directory entry of the outer loop. */
  function EntryStep(dir: Path, finds: seq<string>, replace: string, e: Entry, o: Outcome): Outcome {
    if o.error.Some? || !Wanted(e) then o else RunFinds(dir, e.name, replace, finds, o)
  }

  /** The outer loop: every entry in listing order. */
  function RunEntries(dir: Path, finds: seq<string>, replace: string, entries: seq<Entry>, o: Outcome): Outcome
    decreases |entries|
  {
    if entries == [] then o
    else EntryStep(dir, finds, replace, entries[|entries| - 1], RunEntries(dir, finds, replace, entries[..|entries| - 1], o))
  }

  /** `rename_files`: `find` split at ',', from the given file system. */
  function RenameFilesSpec(imgDir: Path, find: string, replace: string, entries: seq<Entry>, disk: set<Path>): Outcome {
    RunEntries(imgDir, Split(find, ','), replace, entries, Outcome(disk, None))
  }

  /** The find strings of one file, stopping at the first rename that fails. */
  method RenameFile(dir: Path, name: string, replace: string, finds: seq<string>, disk0: set<Path>)
    returns (disk: set<Path>, error: Option<PyError>)
    ensures Outcome(disk, error) == RunFinds(dir, name, replace, finds, Outcome(disk0, None))
  {
    disk, error := disk0, None;
    ghost var start := Outcome(disk0, None);
    for j := 0 to |finds|
      invariant Outcome(disk, None) == RunFinds(dir, name, replace, finds[..j], start)
    {
      FindsStep(dir, name, replace, finds, j, start);
      var s := finds[j];
      if Contains(name, s) {
        var newFilename := ReplaceAll(name, s, replace);
        var r := Rename(disk, Join(dir, name), Join(dir, newFilename));
        if r.Err? {
          error := Some(r.error);
          FindsSticky(dir, name, replace, finds, j + 1, start);
          assert finds[..|finds|] == finds;
          return;
        }
        disk := r.value;
      }
    }
    assert finds[..|finds|] == finds;
  }

  /** The script: the listing in order; the first failing rename is raised again and ends the run. */
  method RenameFiles(imgDir: Path, find: string, replace: string, entries: seq<Entry>, disk0: set<Path>)
    returns (disk: set<Path>, error: Option<PyError>)
    ensures Outcome(disk, error) == RenameFilesSpec(imgDir, find, replace, entries, disk0)
  {
    var findList := Split(find, ',');
    disk, error := disk0, None;
    ghost var start := Outcome(disk0, None);
    for k := 0 to |entries|
      invariant error.None?
      invariant Outcome(disk, None) == RunEntries(imgDir, findList, replace, entries[..k], start)
    {
      assert entries[..k + 1][..k] == entries[..k];
      var file := entries[k];
      if file.isFile && Ext(file.name) in ImageExts {
        disk, error := RenameFile(imgDir, file.name, replace, findList, disk);
        if error.Some? {
          EntriesSticky(imgDir, findList, replace, entries, k + 1, start);
          assert entries[..|entries|] == entries;
          return;
        }
      }
    }
    assert entries[..|entries|] == entries;
  }

  // ---------------------------------------------------------------------------
  // The folds: one step at a time, and nothing after an error
  // ---------------------------------------------------------------------------

  lemma FindsStep(dir: Path, name: string, replace: string, finds: seq<string>, j: nat, o: Outcome)
    requires j < |finds|
    ensures RunFinds(dir, name, replace, finds[..j + 1], o) ==
            FindStep(dir, name, replace, finds[j], RunFinds(dir, name, replace, finds[..j], o))
  {
    assert finds[..j + 1][..j] == finds[..j];
  }

  /** Once a rename has failed, no later find string changes anything. */
  lemma {:induction false} FindsSticky(dir: Path, name: string, replace: string, finds: seq<string>, j: nat, o: Outcome)
    requires j <= |finds|
    requires RunFinds(dir, name, replace, finds[..j], o).error.Some?
    ensures RunFinds(dir, name, replace, finds, o) == RunFinds(dir, name, replace, finds[..j], o)
    decreases |finds|
  {
    if j < |finds| {
      var init := finds[..|finds| - 1];
      assert init[..j] == finds[..j];
      FindsSticky(dir, name, replace, init, j, o);
    } else {
      assert finds[..j] == finds;
    }
  }

  /** Once a rename has failed, no later entry changes anything. */
  lemma {:induction false} EntriesSticky(dir: Path, finds: seq<string>, replace: string, entries: seq<Entry>, k: nat, o: Outcome)
    requires k <= |entries|
    requires RunEntries(dir, finds, replace, entries[..k], o).error.Some?
    ensures RunEntries(dir, finds, replace, entries, o) == RunEntries(dir, finds, replace, entries[..k], o)
    decreases |entries|
  {
    if k < |entries| {
      var init := entries[..|entries| - 1];
      assert init[..k] == entries[..k];
      EntriesSticky(dir, finds, replace, init, k, o);
    } else {
      assert entries[..k] == entries;
    }
  }

  // ---------------------------------------------------------------------------
  // What a run does to the file system
  // ---------------------------------------------------------------------------

  /** A file whose name holds none of the find strings is left alone. */
  lemma {:induction false} NoMatchNoChange(dir: Path, name: string, replace: string, finds: seq<string>, o: Outcome)
    requires forall k :: 0 <= k < |finds| ==> !Contains(name, finds[k])
    ensures RunFinds(dir, name, replace, finds, o) == o
    decreases |finds|
  {
    if finds != [] {
      NoMatchNoChange(dir, name, replace, finds[..|finds| - 1], o);
    }
  }

  /**
   * A file whose name holds exactly one of the find strings is renamed once,
   * to its name with that string replaced, and nothing else changes.
   */
  lemma {:induction false} OneMatchRenames(dir: Path, name: string, replace: string, finds: seq<string>, j: nat, o: Outcome)
    requires o.error.None? && Join(dir, name) in o.disk
    requires j < |finds| && Contains(name, finds[j])
    requires forall k :: 0 <= k < |finds| && k != j ==> !Contains(name, finds[k])
    ensures RunFinds(dir, name, replace, finds, o) ==
            Outcome(o.disk - {Join(dir, name)} + {Join(dir, ReplaceAll(name, finds[j], replace))}, None)
    decreases |finds|
  {
    var init := finds[..|finds| - 1];
    if j == |finds| - 1 {
      NoMatchNoChange(dir, name, replace, init, o);
    } else {
      OneMatchRenames(dir, name, replace, init, j, o);
    }
  }

  /** A path that a file's renames remove is the file's own path. */
  lemma {:induction false} FindsRemoved(dir: Path, name: string, replace: string, finds: seq<string>, o: Outcome, p: Path)
    requires p in o.disk && p !in RunFinds(dir, name, replace, finds, o).disk
    ensures p == Join(dir, name)
    decreases |finds|
  {
    var init := finds[..|finds| - 1];
    if p in RunFinds(dir, name, replace, init, o).disk {
      assert p !in FindStep(dir, name, replace, finds[|finds| - 1], RunFinds(dir, name, replace, init, o)).disk;
    } else {
      FindsRemoved(dir, name, replace, init, o, p);
    }
  }

  /** A path that a file's renames add is the file's name with one of the find strings replaced. */
  lemma {:induction false} FindsAdded(dir: Path, name: string, replace: string, finds: seq<string>, o: Outcome, p: Path)
    returns (j: nat)
    requires p !in o.disk && p in RunFinds(dir, name, replace, finds, o).disk
    ensures j < |finds| && p == Join(dir, ReplaceAll(name, finds[j], replace))
    decreases |finds|
  {
    var init := finds[..|finds| - 1];
    if p !in RunFinds(dir, name, replace, init, o).disk {
      j := |finds| - 1;
    } else {
      j := FindsAdded(dir, name, replace, init, o, p);
      assert init[j] == finds[j];
    }
  }

  /** A path that a run removes is the path of a listed image file. */
  lemma {:induction false} EntriesRemoved(dir: Path, finds: seq<string>, replace: string, entries: seq<Entry>, o: Outcome, p: Path)
    returns (i: nat)
    requires p in o.disk && p !in RunEntries(dir, finds, replace, entries, o).disk
    ensures i < |entries| && Wanted(entries[i]) && p == Join(dir, entries[i].name)
    decreases |entries|
  {
    var init := entries[..|entries| - 1];
    var before := RunEntries(dir, finds, replace, init, o);
    if p in before.disk {
      i := |entries| - 1;
      FindsRemoved(dir, entries[i].name, replace, finds, before, p);
    } else {
      i := EntriesRemoved(dir, finds, replace, init, o, p);
      assert init[i] == entries[i];
    }
  }

  /** A path that a run adds is a listed image's name with one find string replaced. */
  lemma {:induction false} EntriesAdded(dir: Path, finds: seq<string>, replace: string, entries: seq<Entry>, o: Outcome, p: Path)
    returns (i: nat, j: nat)
    requires p !in o.disk && p in RunEntries(dir, finds, replace, entries, o).disk
    ensures i < |entries| && Wanted(entries[i]) && j < |finds|
    ensures p == Join(dir, ReplaceAll(entries[i].name, finds[j], replace))
    decreases |entries|
  {
    var init := entries[..|entries| - 1];
    var before := RunEntries(dir, finds, replace, init, o);
    if p !in before.disk {
      i := |entries| - 1;
      j := FindsAdded(dir, entries[i].name, replace, finds, before, p);
    } else {
      i, j := EntriesAdded(dir, finds, replace, init, o, p);
      assert init[i] == entries[i];
    }
  }

  /** Every path that a run of the script removes is the path of a listed image file. */
  lemma OnlyListedImagesGo(imgDir: Path, finds: seq<string>, replace: string, entries: seq<Entry>, disk: set<Path>)
    ensures forall p :: p in disk && p !in RunEntries(imgDir, finds, replace, entries, Outcome(disk, None)).disk ==>
              exists i :: 0 <= i < |entries| && Wanted(entries[i]) && p == Join(imgDir, entries[i].name)
  {
    forall p | p in disk && p !in RunEntries(imgDir, finds, replace, entries, Outcome(disk, None)).disk
      ensures exists i :: 0 <= i < |entries| && Wanted(entries[i]) && p == Join(imgDir, entries[i].name)
    {
      var i := EntriesRemoved(imgDir, finds, replace, entries, Outcome(disk, None), p);
    }
  }

  /** Every path that a run of the script adds is a listed image's name with one find string replaced. */
  lemma OnlyReplacedNamesCome(imgDir: Path, finds: seq<string>, replace: string, entries: seq<Entry>, disk: set<Path>)
    ensures forall p :: p !in disk && p in RunEntries(imgDir, finds, replace, entries, Outcome(disk, None)).disk ==>
              exists i, j :: 0 <= i < |entries| && Wanted(entries[i]) && 0 <= j < |finds| &&
                p == Join(imgDir, ReplaceAll(entries[i].name, finds[j], replace))
  {
    forall p | p !in disk && p in RunEntries(imgDir, finds, replace, entries, Outcome(disk, None)).disk
      ensures exists i, j :: 0 <= i < |entries| && Wanted(entries[i]) && 0 <= j < |finds| &&
                p == Join(imgDir, ReplaceAll(entries[i].name, finds[j], replace))
    {
      var i, j := EntriesAdded(imgDir, finds, replace, entries, Outcome(disk, None), p);
    }
  }

  // ---------------------------------------------------------------------------
  // A name holding two find strings
  // ---------------------------------------------------------------------------

  /** Two different names without a leading '/' stay different once joined onto a directory. */
  lemma JoinDistinct(dir: Path, x: string, y: string)
    requires dir != [] && dir[|dir| - 1] != '/'
    requires x == [] || x[0] != '/'
    requires y == [] || y[0] != '/'
    requires x != y
    ensures Join(dir, x) != Join(dir, y)
  {
    var h := dir + "/";
    assert !StartsWith(x, "/") && !StartsWith(y, "/");
    assert !EndsWith(dir, "/") by { assert dir[|dir| - 1..][0] != '/'; }
    assert Join(dir, x) == h + x && Join(dir, y) == h + y;
    assert (h + x)[|h|..] == x && (h + y)[|h|..] == y;
  }

  /** Replacing inside a name with no '/' by a text with no '/' gives a name with no '/'. */
  lemma ReplacePlain(name: string, s: string, replace: string)
    requires '/' !in name && '/' !in replace
    ensures var n := ReplaceAll(name, s, replace); n == [] || n[0] != '/'
  {
    ReplaceAllChars(name, s, replace);
  }

  /**
   * As written: when a file's name holds the first find string and the
   * second, the first rename moves the file away and the second tries to
   * rename it again from the name it no longer has, which raises
   * FileNotFoundError and ends the whole run.
   */
  lemma SecondMatchFails(dir: Path, name: string, s1: string, s2: string, replace: string, disk: set<Path>)
    requires dir != [] && dir[|dir| - 1] != '/'
    requires '/' !in name && '/' !in replace
    requires Contains(name, s1) && Contains(name, s2)
    requires ReplaceAll(name, s1, replace) != name
    requires Join(dir, name) in disk
    ensures RunFinds(dir, name, replace, [s1, s2], Outcome(disk, None)) ==
            Outcome(disk - {Join(dir, name)} + {Join(dir, ReplaceAll(name, s1, replace))}, Some(FileNotFound))
  {
    var src, dst := Join(dir, name), Join(dir, ReplaceAll(name, s1, replace));
    ReplacePlain(name, s1, replace);
    assert name == [] || name[0] != '/';
    JoinDistinct(dir, name, ReplaceAll(name, s1, replace));
    assert [s1, s2][..1] == [s1] && [s1][..0] == [];
    assert RunFinds(dir, name, replace, [s1], Outcome(disk, None)) == Outcome(disk - {src} + {dst}, None);
  }

  /** The corrected inner loop's state: the file system, the file's current name, the error. */
  datatype Progress = Progress(disk: set<Path>, name: string, error: Option<PyError>)

  /** Corrected: each find string is tried on, and renames from, the name the file has by then. */
  function FixedStep(dir: Path, replace: string, s: string, p: Progress): Progress {
    if p.error.Some? || !Contains(p.name, s) then p
    else
      var newName := ReplaceAll(p.name, s, replace);
      match Rename(p.disk, Join(dir, p.name), Join(dir, newName))
      case Ok(d) => Progress(d, newName, None)
      case Err(e) => p.(error := Some(e))
  }

  function RunFixed(dir: Path, replace: string, finds: seq<string>, p: Progress): Progress
    decreases |finds|
  {
    if finds == [] then p
    else FixedStep(dir, replace, finds[|finds| - 1], RunFixed(dir, replace, finds[..|finds| - 1], p))
  }

  /** The name every matching find string, replaced in turn, leads to. */
  function Replaced(name: string, finds: seq<string>, replace: string): string
    decreases |finds|
  {
    if finds == [] then name
    else
      var before := Replaced(name, finds[..|finds| - 1], replace);
      var s := finds[|finds| - 1];
      if Contains(before, s) then ReplaceAll(before, s, replace) else before
  }

  /**
   * Corrected: starting from a file that exists, no rename ever misses its
   * source, and the file ends up under the name with every matching find
   * string replaced in turn.
   */
  lemma {:induction false} FixedNeverMissing(dir: Path, replace: string, finds: seq<string>, p: Progress)
    requires p.error.None? && Join(dir, p.name) in p.disk
    ensures RunFixed(dir, replace, finds, p).error.None?
    ensures RunFixed(dir, replace, finds, p).name == Replaced(p.name, finds, replace)
    ensures Join(dir, Replaced(p.name, finds, replace)) in RunFixed(dir, replace, finds, p).disk
    decreases |finds|
  {
    if finds != [] {
      FixedNeverMissing(dir, replace, finds[..|finds| - 1], p);
    }
  }
}
