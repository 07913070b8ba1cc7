/**
 * Writing a caption file beside every image (scripts/createtxtfromfilename.py):
 * each regular file found by the recursive glob under a folder whose
 * extension is one of five image extensions gets a `.txt` file next to it,
 * holding the file name up to its first '_'. The glob result, each entry
 * with the answer `os.path.isfile` gives for it, is an input; each
 * `open(target, "w").write(caption)` is recorded as a write.
 */
module CreateTxtFromFilename {
  import opened PyStr
  import opened PyPath

  /** The extensions accepted, compared as written (case-sensitive). */
  const ImageExts: seq<string> := [".jpg", ".png", ".jpeg", ".webp", ".bmp"]

  /** One path yielded by the recursive `glob.iglob` under the folder, and whether it is a regular file. */
  datatype Entry = Entry(path: Path, isFile: bool)

  /** One caption file written: its path and its whole text. */
  datatype Write = Write(target: Path, text: string)

  /** The entries the loop does not `continue` past. */
  predicate Wanted(e: Entry) {
    e.isFile && Ext(e.path) in ImageExts
  }

  /** `base_name`: the file name without its extension. */
  function BaseStem(f: Path): string {
    StripExt(BaseName(f))
  }

  /** `caption`: the base name with one more extension taken off, up to its first '_'. */
  function CaptionFor(f: Path): string {
    FirstPart(StripExt(BaseStem(f)), '_')
  }

  /** `target`: the directory of the image, a '/', the base name and ".txt". */
  function TargetFor(f: Path): Path {
    DirName(f) + "/" + BaseStem(f) + ".txt"
  }

  function WriteFor(f: Path): Write {
    Write(TargetFor(f), CaptionFor(f))
  }

  /** The writes for the entries, in glob order. */
  function Writes(entries: seq<Entry>): seq<Write>
    decreases |entries|
  {
    if entries == [] then []
    else
      var e := entries[|entries| - 1];
      Writes(entries[..|entries| - 1]) + (if Wanted(e) then [WriteFor(e.path)] else [])
  }

  /** `create_txt_from_filename`: one pass over the glob result. */
  method CreateTxtFromFilename(entries: seq<Entry>) returns (writes: seq<Write>)
    ensures writes == Writes(entries)
  {
    writes := [];
    for idx := 0 to |entries|
      invariant writes == Writes(entries[..idx])
    {
      assert entries[..idx + 1][..idx] == entries[..idx];
      var f := entries[idx].path;
      if !entries[idx].isFile || Ext(f) !in ImageExts {
        continue;
      }
      var pathWithoutFilename := DirName(f);
      var baseName := StripExt(BaseName(f));
      var caption := FirstPart(StripExt(baseName), '_');
      var target := pathWithoutFilename + "/" + baseName + ".txt";
      writes := writes + [Write(target, caption)];
    }
    assert entries[..|entries|] == entries;
  }

  // ---------------------------------------------------------------------------
  // Properties
  // ---------------------------------------------------------------------------

  lemma WritesStep(entries: seq<Entry>)
    requires entries != []
    ensures Wanted(entries[|entries| - 1]) ==> Writes(entries) == Writes(entries[..|entries| - 1]) + [WriteFor(entries[|entries| - 1].path)]
    ensures !Wanted(entries[|entries| - 1]) ==> Writes(entries) == Writes(entries[..|entries| - 1])
  {
  }

  /** Every wanted entry gets its write. */
  lemma WritesComplete(entries: seq<Entry>)
    ensures forall i :: 0 <= i < |entries| && Wanted(entries[i]) ==> WriteFor(entries[i].path) in Writes(entries)
  {
    forall i | 0 <= i < |entries| && Wanted(entries[i])
      ensures WriteFor(entries[i].path) in Writes(entries)
    {
      WriteOfWanted(entries, i);
    }
  }

  lemma {:induction false} WriteOfWanted(entries: seq<Entry>, i: nat)
    requires i < |entries| && Wanted(entries[i])
    ensures WriteFor(entries[i].path) in Writes(entries)
    decreases |entries|
  {
    var init := entries[..|entries| - 1];
    var w := WriteFor(entries[i].path);
    WritesStep(entries);
    if i < |init| {
      assert entries[i] == init[i];
      WriteOfWanted(init, i);
    } else {
      assert i == |entries| - 1;
      assert Writes(entries)[|Writes(init)|] == w;
    }
  }

  /** Every write is the write of some wanted entry. */
  lemma WritesSound(entries: seq<Entry>)
    ensures forall w :: w in Writes(entries) ==> exists i :: 0 <= i < |entries| && Wanted(entries[i]) && w == WriteFor(entries[i].path)
  {
    forall w | w in Writes(entries)
      ensures exists i :: 0 <= i < |entries| && Wanted(entries[i]) && w == WriteFor(entries[i].path)
    {
      var k :| 0 <= k < |Writes(entries)| && Writes(entries)[k] == w;
      var i := WriteSource(entries, k);
    }
  }

  /** The entry that the k-th write is for. */
  lemma {:induction false} WriteSource(entries: seq<Entry>, k: nat) returns (i: nat)
    requires k < |Writes(entries)|
    ensures i < |entries| && Wanted(entries[i]) && Writes(entries)[k] == WriteFor(entries[i].path)
    decreases |entries|
  {
    var init := entries[..|entries| - 1];
    WritesStep(entries);
    if k < |Writes(init)| {
      i := WriteSource(init, k);
      assert entries[i] == init[i];
    } else {
      i := |entries| - 1;
    }
  }

  /** Directories, other files and images with other extensions (say ".JPG" or ".gif") are never written for. */
  lemma {:induction false} SkippedAddNothing(entries: seq<Entry>)
    requires forall i :: 0 <= i < |entries| ==> !Wanted(entries[i])
    ensures Writes(entries) == []
    decreases |entries|
  {
    if entries != [] {
      SkippedAddNothing(entries[..|entries| - 1]);
    }
  }

  /** Taking an extension off leaves a prefix. */
  lemma StripExtPrefix(p: string)
    ensures StartsWith(p, StripExt(p))
  {
    assert p == StripExt(p) + Ext(p);
  }

  /**
   * The caption is a prefix of the base name with no '_' in it; when the
   * base name, less one more extension, has no '_', it is all of it.
   */
  lemma CaptionProps(f: Path)
    ensures '_' !in CaptionFor(f) && StartsWith(BaseStem(f), CaptionFor(f))
    ensures '_' !in StripExt(BaseStem(f)) ==> CaptionFor(f) == StripExt(BaseStem(f))
  {
    var s := BaseStem(f);
    var t := StripExt(s);
    var c := CaptionFor(f);
    FirstPartProps(t, '_');
    StripExtPrefix(s);
    assert s[..|c|] == t[..|c|];
  }

  /** The caption is a prefix of the file name and holds no '/'. */
  lemma CaptionInName(f: Path)
    ensures StartsWith(BaseName(f), CaptionFor(f)) && '/' !in CaptionFor(f)
  {
    var b := BaseName(f);
    var s := BaseStem(f);
    var c := CaptionFor(f);
    CaptionProps(f);
    StripExtPrefix(b);
    assert b[..|c|] == s[..|c|];
    BaseNameProps(f);
    PrefixChars(b, c);
  }

  /** The caption file name of a plain name is plain too: no '/', never empty. */
  lemma TxtNamePlain(name: string)
    requires '/' !in name
    ensures StripExt(name) + ".txt" != [] && '/' !in StripExt(name) + ".txt"
  {
    var t := StripExt(name) + ".txt";
    assert StartsWith(name, StripExt(name)) by { assert name == StripExt(name) + Ext(name); }
    PrefixChars(name, StripExt(name));
    assert t[|t| - 4..] == ".txt";
  }

  /** `target` for `dir/name`, once `dirname` and `basename` have given `dir` and `name` back. */
  lemma TargetOfPlain(dir: Path, name: string)
    requires dir != [] && dir[|dir| - 1] != '/'
    requires name != [] && '/' !in name
    ensures TargetFor(dir + "/" + name) == dir + "/" + (StripExt(name) + ".txt")
  {
    var p := dir + "/" + name;
    assert BaseName(p) == name && DirName(p) == dir by {
      JoinPlain(dir, name);
      BaseNameOfJoin(dir, name);
      DirNameOfJoin(dir, name);
    }
    ConcatAssoc(dir + "/", StripExt(name), ".txt");
  }

  /**
   * For an image `dir/name`, the caption file is the image path with its
   * extension replaced by ".txt".
   */
  lemma TargetIsSidecar(dir: Path, name: string)
    requires dir != [] && dir[|dir| - 1] != '/'
    requires name != [] && '/' !in name
    ensures TargetFor(dir + "/" + name) == StripExt(dir + "/" + name) + ".txt"
  {
    var h, r := dir + "/", StripExt(name);
    TargetOfPlain(dir, name);
    StripExtOfPlainJoin(dir, name);
    ConcatAssoc(h, r, ".txt");
  }

  /** The caption file of `dir/name` lies in `dir` and is named `name` less its extension, plus ".txt". */
  lemma TargetBesideImage(dir: Path, name: string)
    requires dir != [] && dir[|dir| - 1] != '/'
    requires name != [] && '/' !in name
    ensures DirName(TargetFor(dir + "/" + name)) == dir
    ensures BaseName(TargetFor(dir + "/" + name)) == StripExt(name) + ".txt"
  {
    var t := StripExt(name) + ".txt";
    TargetOfPlain(dir, name);
    TxtNamePlain(name);
    JoinPlain(dir, t);
    BaseNameOfJoin(dir, t);
    DirNameOfJoin(dir, t);
  }
}
