/**
 * Caption-to-file-name renaming (text_to_filename.py): in every directory
 * of a walk, image files and `.txt` files are grouped by their name without
 * extension; every group of exactly two files is taken as an image with its
 * caption, and the image is renamed to the cleaned caption followed by
 * `_<counter>` and the image's own suffix. The counter is shared by the
 * whole walk.
 *
 * `os.walk` is given as the sequence of directories it yields, and the
 * contents of the caption files as a function from path to text.
 * `rename_images` raises `IndexError` on a two-file group that has no image
 * or no `.txt` file; the renames performed before that stay done.
 */
module TextToFilename {
  import opened Wrappers
  import opened PyStr
  import opened PyPath

  /** `l.endswith(e)` for some `e` of `exts`. */
  predicate EndsWithAny(l: string, exts: seq<string>)
    decreases |exts|
  {
    exts != [] && (EndsWith(l, exts[0]) || EndsWithAny(l, exts[1..]))
  }

  const ImageExts: seq<string> := [".png", ".jpg", ".jpeg", ".gif", ".webp", ".bmp"]

  /** The extension test for images: the lower-cased name ends in one of six extensions. */
  predicate IsImageFile(f: string) {
    EndsWithAny(Lower(f), ImageExts)
  }

  /** The extension test for captions. */
  predicate IsTextFile(f: string) {
    EndsWithAny(Lower(f), [".txt"])
  }

  /** The list comprehension `[f for f in files if <image test>]`. */
  function Images(files: seq<string>): seq<string>
    decreases |files|
  {
    if files == [] then []
    else
      var last := files[|files| - 1];
      Images(files[..|files| - 1]) + (if IsImageFile(last) then [last] else [])
  }

  /** The list comprehension `[f for f in files if <.txt test>]`. */
  function Texts(files: seq<string>): seq<string>
    decreases |files|
  {
    if files == [] then []
    else
      var last := files[|files| - 1];
      Texts(files[..|files| - 1]) + (if IsTextFile(last) then [last] else [])
  }

  /** The files the grouping loop sees: the images first, then the captions. */
  function Candidates(files: seq<string>): seq<string> {
    Images(files) + Texts(files)
  }

  /**
   * The names of `fs` whose key under `keyOf` is `key`, in order. The
   * grouping is stated for any key function and proved once; the script
   * groups by the name without extension (`Members`).
   */
  function GroupOf(keyOf: string -> string, fs: seq<string>, key: string): seq<string>
    decreases |fs|
  {
    if fs == [] then []
    else
      var last := fs[|fs| - 1];
      GroupOf(keyOf, fs[..|fs| - 1], key) + (if keyOf(last) == key then [last] else [])
  }

  /** The keys of `fs` under `keyOf` in insertion order, each at its first occurrence. */
  function KeyOrder(keyOf: string -> string, fs: seq<string>): seq<string>
    decreases |fs|
  {
    if fs == [] then []
    else
      var init := KeyOrder(keyOf, fs[..|fs| - 1]);
      var key := keyOf(fs[|fs| - 1]);
      if key in init then init else init + [key]
  }

  /** The names of `fs` whose name without extension is `key`, in order. */
  function Members(fs: seq<string>, key: string): seq<string> {
    GroupOf(StripExt, fs, key)
  }

  /** The keys of `base_names` in insertion order: each name without extension, at its first occurrence. */
  function BaseOrder(fs: seq<string>): seq<string> {
    KeyOrder(StripExt, fs)
  }

  // ---------------------------------------------------------------------------
  // Grouping by name without extension
  // ---------------------------------------------------------------------------

  lemma {:induction false} GroupIff(keyOf: string -> string, fs: seq<string>, key: string, f: string)
    ensures f in GroupOf(keyOf, fs, key) <==> f in fs && keyOf(f) == key
    decreases |fs|
  {
    if fs != [] {
      var init := fs[..|fs| - 1];
      var last := fs[|fs| - 1];
      var tail := if keyOf(last) == key then [last] else [];
      assert GroupOf(keyOf, fs, key) == GroupOf(keyOf, init, key) + tail;
      GroupIff(keyOf, init, key, f);
      assert fs == init + [last];
      assert f in fs <==> f in init || f == last;
      assert f in GroupOf(keyOf, fs, key) <==> f in GroupOf(keyOf, init, key) || f in tail;
    }
  }

  lemma {:induction false} GroupShorter(keyOf: string -> string, fs: seq<string>, key: string)
    ensures |GroupOf(keyOf, fs, key)| <= |fs|
    decreases |fs|
  {
    if fs != [] {
      GroupShorter(keyOf, fs[..|fs| - 1], key);
    }
  }

  /** A group holds exactly the listed files that carry its key, and only those. */
  lemma MembersProps(fs: seq<string>, key: string)
    ensures forall f :: f in Members(fs, key) <==> f in fs && StripExt(f) == key
    ensures |Members(fs, key)| <= |fs|
  {
    forall f ensures f in Members(fs, key) <==> f in fs && StripExt(f) == key {
      GroupIff(StripExt, fs, key, f);
    }
    GroupShorter(StripExt, fs, key);
  }

  lemma {:induction false} KeyOrderProps(keyOf: string -> string, fs: seq<string>)
    ensures forall k :: k in KeyOrder(keyOf, fs) <==> exists f :: f in fs && keyOf(f) == k
    ensures forall i, j :: 0 <= i < j < |KeyOrder(keyOf, fs)| ==> KeyOrder(keyOf, fs)[i] != KeyOrder(keyOf, fs)[j]
    decreases |fs|
  {
    if fs != [] {
      var init := fs[..|fs| - 1];
      var last := fs[|fs| - 1];
      KeyOrderProps(keyOf, init);
      assert fs == init + [last];
      forall k | k in KeyOrder(keyOf, fs) ensures exists f :: f in fs && keyOf(f) == k {
        if k in KeyOrder(keyOf, init) {
          var f :| f in init && keyOf(f) == k;
          assert f in fs;
        } else {
          assert keyOf(last) == k;
        }
      }
    }
  }

  /** The key order lists each name without extension once, and exactly the keys that occur. */
  lemma BaseOrderProps(fs: seq<string>)
    ensures forall k :: k in BaseOrder(fs) <==> exists f :: f in fs && StripExt(f) == k
    ensures forall i, j :: 0 <= i < j < |BaseOrder(fs)| ==> BaseOrder(fs)[i] != BaseOrder(fs)[j]
  {
    KeyOrderProps(StripExt, fs);
    forall k | k in BaseOrder(fs) ensures exists f :: f in fs && StripExt(f) == k {
      var f :| f in fs && (StripExt)(f) == k;
    }
  }

  /** A key has an empty group exactly when it is not (yet) a key. */
  lemma GroupEmpty(keyOf: string -> string, fs: seq<string>, key: string)
    ensures GroupOf(keyOf, fs, key) == [] <==> key !in KeyOrder(keyOf, fs)
  {
    KeyOrderProps(keyOf, fs);
    if key in KeyOrder(keyOf, fs) {
      var f :| f in fs && keyOf(f) == key;
      GroupIff(keyOf, fs, key, f);
    } else if GroupOf(keyOf, fs, key) != [] {
      var f := GroupOf(keyOf, fs, key)[0];
      GroupIff(keyOf, fs, key, f);
    }
  }

  lemma GroupSnoc(keyOf: string -> string, fs: seq<string>, i: nat, k: string)
    requires i < |fs|
    ensures GroupOf(keyOf, fs[..i + 1], k) == GroupOf(keyOf, fs[..i], k) + (if keyOf(fs[i]) == k then [fs[i]] else [])
  {
    assert fs[..i + 1][..i] == fs[..i];
  }

  /** The loop that fills `base_names`: one list per name without extension, keys in insertion order. */
  method GroupByBase(fs: seq<string>) returns (keys: seq<string>, groups: map<string, seq<string>>)
    ensures keys == BaseOrder(fs)
    ensures forall k :: k in groups <==> k in keys
    ensures forall k :: k in groups ==> groups[k] == Members(fs, k)
  {
    keys := [];
    groups := map[];
    for i := 0 to |fs|
      invariant keys == BaseOrder(fs[..i])
      invariant forall k :: k in groups <==> k in keys
      invariant forall k :: k in groups ==> groups[k] == Members(fs[..i], k)
    {
      var f := fs[i];
      var key := StripExt(f);
      assert fs[..i + 1][..i] == fs[..i];
      if key !in groups {
        GroupEmpty(StripExt, fs[..i], key);
        groups := groups[key := []];
        keys := keys + [key];
      }
      groups := groups[key := groups[key] + [f]];
      forall k | k in groups ensures groups[k] == Members(fs[..i + 1], k) {
        GroupSnoc(StripExt, fs, i, k);
      }
    }
    assert fs[..|fs|] == fs;
  }

  // ---------------------------------------------------------------------------
  // One group
  // ---------------------------------------------------------------------------

  /** The characters removed from a caption before it becomes a file name. */
  const Illegal: string := "<>:\"/\\|?*"

  /** The new name stem: the stripped caption with every illegal character removed. */
  function CleanName(text: string): string {
    RemoveEach(Strip(text), Illegal)
  }

  /** `f"{name}_{counter}{Path(image_file).suffix}"`. */
  function NewName(caption: string, number: nat, image: string): string {
    caption + "_" + Decimal(number) + Suffix(image)
  }

  /** What the loop body does with one group. */
  datatype GroupAction = Skip | RenameImage(image: string, text: string) | Fail

  /**
   * A group of two takes its first image and its first `.txt` file; with
   * either missing, the `[0]` raises.
   */
  function Action(names: seq<string>): GroupAction {
    if |names| != 2 then Skip
    else
      var images := Images(names);
      if images == [] then Fail
      else
        var texts := Texts(names);
        if texts == [] then Fail
        else RenameImage(images[0], texts[0])
  }

  /** Membership in the filtered lists. */
  lemma {:induction false} FilterMembers(files: seq<string>)
    ensures forall f :: f in Images(files) <==> f in files && IsImageFile(f)
    ensures forall f :: f in Texts(files) <==> f in files && IsTextFile(f)
    decreases |files|
  {
    if files != [] {
      var init := files[..|files| - 1];
      FilterMembers(init);
      assert files == init + [files[|files| - 1]];
    }
  }

  /**
   * Only groups of exactly two are acted on; a rename takes an image and a
   * caption of the group; the group fails exactly when it lacks one of them.
   */
  lemma ActionProps(names: seq<string>)
    ensures Action(names).Skip? <==> |names| != 2
    ensures Action(names).Fail? <==>
              |names| == 2 && ((forall f :: f in names ==> !IsImageFile(f)) || (forall f :: f in names ==> !IsTextFile(f)))
    ensures Action(names).RenameImage? ==>
              Action(names).image in names && IsImageFile(Action(names).image) &&
              Action(names).text in names && IsTextFile(Action(names).text)
  {
    FilterMembers(names);
    if |names| == 2 {
      if Images(names) != [] { assert Images(names)[0] in Images(names); }
      if Texts(names) != [] { assert Texts(names)[0] in Texts(names); }
    }
  }

  /** Two images sharing a name without extension (`a.png`, `a.jpg`) and no caption: the group fails. */
  lemma TwoImagesFail(x: string, y: string)
    requires IsImageFile(x) && IsImageFile(y)
    requires !IsTextFile(x) && !IsTextFile(y)
    ensures Action([x, y]) == Fail
  {
    assert [x, y][..1] == [x] && [x][..0] == [];
    assert Texts([x]) == [];
    assert Texts([x, y]) == [];
  }

  // ---------------------------------------------------------------------------
  // The walk
  // ---------------------------------------------------------------------------

  /**
   * One performed `os.rename`: the image in `dir`, the text read from its
   * caption file and the counter value it got.
   */
  datatype Rename = Rename(dir: Path, image: string, text: string, number: nat)

  /** `new_image_name`: the text read, stripped and cleaned. */
  function Caption(r: Rename): string {
    CleanName(r.text)
  }

  function Source(r: Rename): Path {
    Join(r.dir, r.image)
  }

  function Target(r: Rename): Path {
    Join(r.dir, NewName(Caption(r), r.number, r.image))
  }

  /** The renames done so far, the counter, and the error that ended the run, if any. */
  datatype Outcome = Outcome(renames: seq<Rename>, counter: nat, error: Option<PyError>)

  /** Before the walk: nothing renamed, `counter = 1`. */
  const Start := Outcome([], 1, None)

  /** The action taken for one group of directory `root`; after an error nothing more happens. */
  function GroupStep(root: Path, a: GroupAction, contents: Path -> string, o: Outcome): Outcome {
    if o.error.Some? then o
    else
      match a
      case Skip => o
      case Fail => o.(error := Some(IndexError))
      case RenameImage(image, text) =>
        Outcome(o.renames + [Rename(root, image, contents(Join(root, text)), o.counter)], o.counter + 1, None)
  }

  /** The groups of one directory, in key order. */
  function RunKeys(root: Path, cands: seq<string>, keys: seq<string>, contents: Path -> string, o: Outcome): Outcome
    decreases |keys|
  {
    if keys == [] then o
    else
      var k := keys[|keys| - 1];
      GroupStep(root, Action(Members(cands, k)), contents, RunKeys(root, cands, keys[..|keys| - 1], contents, o))
  }

  /** One directory of the walk. */
  function RunFolder(step: WalkStep, contents: Path -> string, o: Outcome): Outcome {
    var cands := Candidates(step.filenames);
    RunKeys(step.dirpath, cands, BaseOrder(cands), contents, o)
  }

  /** `rename_images`: the directories in walk order, from `Start`. */
  function RunWalk(walk: seq<WalkStep>, contents: Path -> string): Outcome
    decreases |walk|
  {
    if walk == [] then Start
    else RunFolder(walk[|walk| - 1], contents, RunWalk(walk[..|walk| - 1], contents))
  }

  /** The fold over the first `j + 1` keys is one more group step after the first `j`. */
  lemma KeysStep(root: Path, cands: seq<string>, keys: seq<string>, j: nat, contents: Path -> string, o: Outcome)
    requires j < |keys|
    ensures RunKeys(root, cands, keys[..j + 1], contents, o) ==
            GroupStep(root, Action(Members(cands, keys[j])), contents, RunKeys(root, cands, keys[..j], contents, o))
  {
    assert keys[..j + 1][..j] == keys[..j];
  }

  /** Once an error is raised, no later group changes anything. */
  lemma {:induction false} KeysSticky(root: Path, cands: seq<string>, keys: seq<string>, j: nat, contents: Path -> string, o: Outcome)
    requires j <= |keys|
    requires RunKeys(root, cands, keys[..j], contents, o).error.Some?
    ensures RunKeys(root, cands, keys, contents, o) == RunKeys(root, cands, keys[..j], contents, o)
    decreases |keys|
  {
    if j < |keys| {
      var init := keys[..|keys| - 1];
      assert init[..j] == keys[..j];
      KeysSticky(root, cands, init, j, contents, o);
    } else {
      assert keys[..j] == keys;
    }
  }

  lemma {:induction false} KeysFrom(root: Path, cands: seq<string>, keys: seq<string>, contents: Path -> string, o: Outcome)
    requires o.error.Some?
    ensures RunKeys(root, cands, keys, contents, o) == o
    decreases |keys|
  {
    if keys != [] {
      KeysFrom(root, cands, keys[..|keys| - 1], contents, o);
    }
  }

  lemma {:induction false} WalkSticky(walk: seq<WalkStep>, j: nat, contents: Path -> string)
    requires j <= |walk|
    requires RunWalk(walk[..j], contents).error.Some?
    ensures RunWalk(walk, contents) == RunWalk(walk[..j], contents)
    decreases |walk|
  {
    if j < |walk| {
      var init := walk[..|walk| - 1];
      assert init[..j] == walk[..j];
      WalkSticky(init, j, contents);
      var step := walk[|walk| - 1];
      KeysFrom(step.dirpath, Candidates(step.filenames), BaseOrder(Candidates(step.filenames)), contents, RunWalk(init, contents));
    } else {
      assert walk[..j] == walk;
    }
  }

  /** The loop body for one group of directory `root`; `failed` when the group of two lacks an image or a caption. */
  method RenameGroup(root: Path, fileNames: seq<string>, contents: Path -> string, renames0: seq<Rename>, counter0: nat)
    returns (renames: seq<Rename>, counter: nat, failed: bool)
    ensures Outcome(renames, counter, if failed then Some(IndexError) else None) ==
            GroupStep(root, Action(fileNames), contents, Outcome(renames0, counter0, None))
  {
    renames, counter, failed := renames0, counter0, false;
    if |fileNames| == 2 {
      var images := Images(fileNames);
      if images == [] {
        assert Action(fileNames) == Fail;
        failed := true;
        return;
      }
      var texts := Texts(fileNames);
      if texts == [] {
        assert Action(fileNames) == Fail;
        failed := true;
        return;
      }
      var imageFile := images[0];
      var textFile := texts[0];
      assert Action(fileNames) == RenameImage(imageFile, textFile);
      var captionText := contents(Join(root, textFile));
      renames := renames + [Rename(root, imageFile, captionText, counter)];
      counter := counter + 1;
    } else {
      assert Action(fileNames) == Skip;
    }
  }

  /**
   * One directory of the script: group the candidates, then handle the
   * groups in insertion order, carrying the counter; `failed` when a group
   * raised, which ends the group loop.
   */
  method RenameFolder(root: Path, files: seq<string>, contents: Path -> string, renames0: seq<Rename>, counter0: nat)
    returns (renames: seq<Rename>, counter: nat, failed: bool)
    ensures Outcome(renames, counter, if failed then Some(IndexError) else None) ==
            RunFolder(WalkStep(root, files), contents, Outcome(renames0, counter0, None))
  {
    renames, counter := renames0, counter0;
    var imageFiles := Images(files);
    var textFiles := Texts(files);
    var keys, baseNames := GroupByBase(imageFiles + textFiles);
    ghost var cands := Candidates(files);
    ghost var before := Outcome(renames0, counter0, None);
    for j := 0 to |keys|
      invariant Outcome(renames, counter, None) == RunKeys(root, cands, keys[..j], contents, before)
    {
      var fileNames := baseNames[keys[j]];
      renames, counter, failed := RenameGroup(root, fileNames, contents, renames, counter);
      ghost var next := Outcome(renames, counter, if failed then Some(IndexError) else None);
      assert next == RunKeys(root, cands, keys[..j + 1], contents, before) by {
        assert fileNames == Members(cands, keys[j]);
        KeysStep(root, cands, keys, j, contents, before);
      }
      if failed {
        assert next == RunKeys(root, cands, keys, contents, before) by {
          KeysSticky(root, cands, keys, j + 1, contents, before);
        }
        return;
      }
    }
    assert keys[..|keys|] == keys;
    failed := false;
  }

  /**
   * The script: the directories in walk order with one counter for the
   * whole walk, starting at 1; the first failing group ends the run.
   */
  method RenameImages(walk: seq<WalkStep>, contents: Path -> string) returns (o: Outcome)
    ensures o == RunWalk(walk, contents)
  {
    var counter: nat := 1;
    var renames: seq<Rename> := [];
    for w := 0 to |walk|
      invariant Outcome(renames, counter, None) == RunWalk(walk[..w], contents)
    {
      assert walk[..w + 1][..w] == walk[..w];
      var failed;
      renames, counter, failed := RenameFolder(walk[w].dirpath, walk[w].filenames, contents, renames, counter);
      if failed {
        o := Outcome(renames, counter, Some(IndexError));
        WalkSticky(walk, w + 1, contents);
        return;
      }
    }
    assert walk[..|walk|] == walk;
    o := Outcome(renames, counter, None);
  }

  // ---------------------------------------------------------------------------
  // Properties
  // ---------------------------------------------------------------------------

  /** The counter has handed out 1, 2, ... in rename order, and holds the next number. */
  ghost predicate Numbered(o: Outcome) {
    o.counter == |o.renames| + 1 &&
    forall k :: 0 <= k < |o.renames| ==> o.renames[k].number == k + 1
  }

  lemma {:induction false} KeysNumbered(root: Path, cands: seq<string>, keys: seq<string>, contents: Path -> string, o: Outcome)
    requires Numbered(o)
    ensures Numbered(RunKeys(root, cands, keys, contents, o))
    ensures o.renames <= RunKeys(root, cands, keys, contents, o).renames
    decreases |keys|
  {
    if keys != [] {
      KeysNumbered(root, cands, keys[..|keys| - 1], contents, o);
      GroupStepNumbered(root, Action(Members(cands, keys[|keys| - 1])), contents, RunKeys(root, cands, keys[..|keys| - 1], contents, o));
    }
  }

  /** One group step keeps the numbering and only appends renames. */
  lemma GroupStepNumbered(root: Path, a: GroupAction, contents: Path -> string, o: Outcome)
    requires Numbered(o)
    ensures Numbered(GroupStep(root, a, contents, o))
    ensures o.renames <= GroupStep(root, a, contents, o).renames
  {
    var next := GroupStep(root, a, contents, o);
    if o.error.None? && a.RenameImage? {
      assert next.renames == o.renames + [next.renames[|o.renames|]];
    } else {
      assert next.renames == o.renames && next.counter == o.counter;
    }
  }


  /**
   * The counter starts at 1, grows by one per renamed image and is never
   * reset between directories: the k-th rename of the whole walk gets k + 1.
   */
  lemma {:induction false} NumberingContinuous(walk: seq<WalkStep>, contents: Path -> string)
    ensures RunWalk(walk, contents).counter == |RunWalk(walk, contents).renames| + 1
    ensures forall k :: 0 <= k < |RunWalk(walk, contents).renames| ==> RunWalk(walk, contents).renames[k].number == k + 1
    decreases |walk|
  {
    if walk != [] {
      var init := walk[..|walk| - 1];
      NumberingContinuous(init, contents);
      var step := walk[|walk| - 1];
      var cands := Candidates(step.filenames);
      KeysNumbered(step.dirpath, cands, BaseOrder(cands), contents, RunWalk(init, contents));
    }
  }

  /** Every rename moves an image file of its directory to a name built from a cleaned caption of that directory. */
  ghost predicate WellFormed(r: Rename, walk: seq<WalkStep>, contents: Path -> string) {
    exists w :: 0 <= w < |walk| && WellFormedIn(r, walk[w], contents)
  }

  /** The rename is well formed for the one directory `step`. */
  ghost predicate WellFormedIn(r: Rename, step: WalkStep, contents: Path -> string) {
    r.dir == step.dirpath && r.image in step.filenames && IsImageFile(r.image) &&
    exists text :: text in step.filenames && IsTextFile(text) && StripExt(text) == StripExt(r.image) &&
      r.text == contents(Join(r.dir, text))
  }

  /** A group that is renamed holds an image and a caption of the directory, both with the group's key. */
  lemma RenamedGroup(files: seq<string>, key: string)
    requires Action(Members(Candidates(files), key)).RenameImage?
    ensures var a := Action(Members(Candidates(files), key));
      a.image in files && IsImageFile(a.image) && a.text in files && IsTextFile(a.text) &&
      StripExt(a.image) == key && StripExt(a.text) == key
  {
    var names := Members(Candidates(files), key);
    ActionProps(names);
    MembersProps(Candidates(files), key);
    FilterMembers(files);
  }

  /** The rename a group of directory `walk[w]` produces is well formed. */
  lemma NewRenameWellFormed(walk: seq<WalkStep>, w: nat, key: string, contents: Path -> string, counter: nat)
    requires w < |walk|
    requires Action(Members(Candidates(walk[w].filenames), key)).RenameImage?
    ensures var a := Action(Members(Candidates(walk[w].filenames), key));
      WellFormed(Rename(walk[w].dirpath, a.image, contents(Join(walk[w].dirpath, a.text)), counter), walk, contents)
  {
    var step := walk[w];
    var a := Action(Members(Candidates(step.filenames), key));
    RenamedGroup(step.filenames, key);
    var r := Rename(step.dirpath, a.image, contents(Join(step.dirpath, a.text)), counter);
    assert a.text in step.filenames;
    assert WellFormedIn(r, walk[w], contents);
  }

  /** The renames of one group step: those before it, and possibly one new one, well formed. */
  lemma GroupStepWellFormed(walk: seq<WalkStep>, w: nat, key: string, contents: Path -> string, prev: Outcome)
    requires w < |walk|
    requires forall r :: r in prev.renames ==> WellFormed(r, walk, contents)
    ensures var next := GroupStep(walk[w].dirpath, Action(Members(Candidates(walk[w].filenames), key)), contents, prev);
      forall r :: r in next.renames ==> WellFormed(r, walk, contents)
  {
    var step := walk[w];
    var a := Action(Members(Candidates(step.filenames), key));
    var next := GroupStep(step.dirpath, a, contents, prev);
    if prev.error.None? && a.RenameImage? {
      NewRenameWellFormed(walk, w, key, contents, prev.counter);
      var r := Rename(step.dirpath, a.image, contents(Join(step.dirpath, a.text)), prev.counter);
      assert next.renames == prev.renames + [r];
    } else {
      assert next.renames == prev.renames;
    }
  }

  lemma {:induction false} KeysWellFormed(step: WalkStep, keys: seq<string>, contents: Path -> string, o: Outcome,
                                          walk: seq<WalkStep>, w: nat)
    requires w < |walk| && walk[w] == step
    requires forall r :: r in o.renames ==> WellFormed(r, walk, contents)
    ensures forall r :: r in RunKeys(step.dirpath, Candidates(step.filenames), keys, contents, o).renames ==> WellFormed(r, walk, contents)
    decreases |keys|
  {
    if keys != [] {
      var cands := Candidates(step.filenames);
      var prev := RunKeys(step.dirpath, cands, keys[..|keys| - 1], contents, o);
      KeysWellFormed(step, keys[..|keys| - 1], contents, o, walk, w);
      GroupStepWellFormed(walk, w, keys[|keys| - 1], contents, prev);
    }
  }

  /** A rename well formed for the first directories of a walk is well formed for the whole walk. */
  lemma WellFormedInLonger(r: Rename, init: seq<WalkStep>, walk: seq<WalkStep>, contents: Path -> string)
    requires init <= walk && WellFormed(r, init, contents)
    ensures WellFormed(r, walk, contents)
  {
    var w :| 0 <= w < |init| && WellFormedIn(r, init[w], contents);
    assert walk[w] == init[w];
  }

  /** Each performed rename takes an image file and names it after the caption file that shares its name without extension. */
  lemma {:induction false} RenamesWellFormed(walk: seq<WalkStep>, contents: Path -> string)
    ensures forall r :: r in RunWalk(walk, contents).renames ==> WellFormed(r, walk, contents)
    decreases |walk|
  {
    if walk != [] {
      var init := walk[..|walk| - 1];
      RenamesWellFormed(init, contents);
      forall r | r in RunWalk(init, contents).renames ensures WellFormed(r, walk, contents) {
        WellFormedInLonger(r, init, walk, contents);
      }
      KeysWellFormed(walk[|walk| - 1], BaseOrder(Candidates(walk[|walk| - 1].filenames)), contents,
                     RunWalk(init, contents), walk, |walk| - 1);
    }
  }

  /**
   * A cleaned caption is the stripped text with exactly the characters of
   * `< > : " / \ | ? *` filtered out, the others kept in order: it holds
   * none of them and every other character of the stripped text.
   */
  lemma CleanNameProps(text: string)
    ensures CleanName(text) == Without(Strip(text), Illegal)
    ensures forall x :: x in CleanName(text) <==> x in Strip(text) && x !in Illegal
    ensures |CleanName(text)| <= |Strip(text)|
  {
    RemoveEachProps(Strip(text), Illegal);
    RemoveEachShorter(Strip(text), Illegal);
  }

  lemma {:induction false} RemoveEachShorter(s: string, cs: string)
    ensures |RemoveEach(s, cs)| <= |s|
    decreases |cs|
  {
    if cs != [] {
      RemoveShorter(s, cs[0]);
      RemoveEachShorter(ReplaceAll(s, [cs[0]], ""), cs[1..]);
    }
  }

  lemma RemoveShorter(s: string, c: char)
    ensures |ReplaceAll(s, [c], "")| <= |s|
  {
    ReplaceShorter(s, [c]);
  }

  lemma {:induction false} ReplaceShorter(s: string, pat: string)
    requires pat != []
    ensures |ReplaceAll(s, pat, "")| <= |s|
    decreases |s|
  {
    if StartsWith(s, pat) {
      ReplaceShorter(s[|pat|..], pat);
    } else if s != [] {
      ReplaceShorter(s[1..], pat);
    }
  }

  lemma EndsWithTrans(a: string, b: string, c: string)
    requires EndsWith(b, c)
    ensures EndsWith(a + b, c)
  {
    assert (a + b)[|a + b| - |c|..] == b[|b| - |c|..];
  }

  /** A new name built from a cleaned caption is a plain file name that keeps the image's suffix. */
  lemma NewNamePlain(caption: string, number: nat, image: string)
    requires '/' !in image
    requires forall x :: x in caption ==> x !in Illegal
    ensures '/' !in NewName(caption, number, image)
    ensures EndsWith(NewName(caption, number, image), Suffix(image))
  {
    var name := NewName(caption, number, image);
    var d := Decimal(number);
    var suffix := Suffix(image);
    SuffixProps(image);
    SuffixChars(image, suffix);
    assert '/' in Illegal by { assert Illegal[4] == '/'; }
    forall i | 0 <= i < |name| ensures name[i] != '/' {
      if i < |caption| {
        assert name[i] == caption[i];
      } else if i == |caption| {
        assert name[i] == '_';
      } else if i <= |caption| + |d| {
        assert name[i] == d[i - |caption| - 1];
      } else {
        assert name[i] == suffix[i - |caption| - 1 - |d|];
      }
    }
    assert name == (caption + "_" + d) + suffix;
  }

  /**
   * A renamed image stays in its directory: the new name is the base name
   * of the target, and the target's dirname is the source's.
   */
  lemma RenameStaysInFolder(r: Rename)
    requires r.image != [] && '/' !in r.image
    requires r.dir != [] && r.dir[|r.dir| - 1] != '/'
    ensures BaseName(Target(r)) == NewName(Caption(r), r.number, r.image)
    ensures DirName(Target(r)) == DirName(Source(r)) == r.dir
    ensures EndsWith(Target(r), Suffix(r.image))
  {
    var caption := Caption(r);
    var name := NewName(caption, r.number, r.image);
    CleanNameProps(r.text);
    NewNamePlain(caption, r.number, r.image);
    assert name != [] by { assert name[|caption|] == '_'; }
    assert BaseName(Target(r)) == name by { BaseNameOfJoin(r.dir, name); }
    assert DirName(Target(r)) == r.dir by { DirNameOfJoin(r.dir, name); }
    assert DirName(Source(r)) == r.dir by { DirNameOfJoin(r.dir, r.image); }
    assert EndsWith(Target(r), Suffix(r.image)) by {
      JoinPlain(r.dir, name);
      EndsWithTrans(r.dir + "/", name, Suffix(r.image));
    }
  }
}
