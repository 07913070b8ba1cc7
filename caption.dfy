/**
 * The captioning script (caption.py) around the captioning model: the
 * extension filter, the optional replacement of the caption's first noun by
 * the folder name, and the sidecar file each caption is written to.
 *
 * The model itself is a function from image path to generated text, and
 * nltk's tokeniser and part-of-speech tagger a function from text to
 * (word, tag) pairs. The file system is the set of paths that exist.
 */
module Caption {
  import opened Wrappers
  import opened PyStr
  import opened PyPath

  /** One `(word, pos)` pair of `pos_tag`. */
  datatype Token = Token(word: string, tag: string)

  /** The tags `replace_first_noun_with_folder_name` treats as nouns: those starting with "N". */
  predicate IsNoun(tag: string) {
    StartsWith(tag, "N")
  }

  /** The words of a tagged sentence, in order. */
  function Words(tokens: seq<Token>): (r: seq<string>)
    ensures |r| == |tokens| && forall i :: 0 <= i < |r| ==> r[i] == tokens[i].word
  {
    seq(|tokens|, i requires 0 <= i < |tokens| => tokens[i].word)
  }

  /** The position of the first noun, if any. */
  function FirstNoun(tokens: seq<Token>): (r: Option<nat>)
    ensures r.Some? ==> r.value < |tokens| && IsNoun(tokens[r.value].tag) &&
                        forall j :: 0 <= j < r.value ==> !IsNoun(tokens[j].tag)
    ensures r.None? ==> forall j :: 0 <= j < |tokens| ==> !IsNoun(tokens[j].tag)
    decreases |tokens|
  {
    if tokens == [] then None
    else if IsNoun(tokens[0].tag) then Some(0)
    else
      match FirstNoun(tokens[1..])
      case None => None
      case Some(k) => Some(k + 1)
  }

  /** The tagged sentence with its first noun's word replaced by `folder`. */
  function ReplaceFirst(tokens: seq<Token>, folder: string): seq<Token>
    decreases |tokens|
  {
    if tokens == [] then []
    else if IsNoun(tokens[0].tag) then [Token(folder, tokens[0].tag)] + tokens[1..]
    else [tokens[0]] + ReplaceFirst(tokens[1..], folder)
  }

  /**
   * Exactly the first noun gets the folder name (its tag stays); every other
   * token, and the length, are unchanged; without a noun nothing changes.
   */
  lemma {:induction false} ReplaceFirstProps(tokens: seq<Token>, folder: string)
    ensures |ReplaceFirst(tokens, folder)| == |tokens|
    ensures FirstNoun(tokens).None? ==> ReplaceFirst(tokens, folder) == tokens
    ensures FirstNoun(tokens).Some? ==>
              ReplaceFirst(tokens, folder) == tokens[FirstNoun(tokens).value := Token(folder, tokens[FirstNoun(tokens).value].tag)]
    decreases |tokens|
  {
    if tokens != [] && !IsNoun(tokens[0].tag) {
      ReplaceFirstProps(tokens[1..], folder);
      assert tokens == [tokens[0]] + tokens[1..];
    }
  }

  /**
   * `replace_first_noun_with_folder_name`: overwrite the first noun of the
   * tagged caption, stop, and join the words with single spaces.
   */
  method ReplaceFirstNounWithFolderName(taggedCaption: seq<Token>, folderName: string) returns (caption: string)
    ensures caption == JoinWith(" ", Words(ReplaceFirst(taggedCaption, folderName)))
  {
    var tagged := taggedCaption;
    ReplaceFirstProps(taggedCaption, folderName);
    for idx := 0 to |tagged|
      invariant tagged == taggedCaption
      invariant forall j :: 0 <= j < idx ==> !IsNoun(tagged[j].tag)
    {
      if StartsWith(tagged[idx].tag, "N") {
        assert FirstNoun(taggedCaption) == Some(idx) by { FirstNounAt(taggedCaption, idx); }
        tagged := tagged[idx := Token(folderName, tagged[idx].tag)];
        break;
      }
    }
    caption := JoinWith(" ", Words(tagged));
  }

  /** The first position whose tag is a noun is where `FirstNoun` points. */
  lemma FirstNounAt(tokens: seq<Token>, k: nat)
    requires k < |tokens| && IsNoun(tokens[k].tag)
    requires forall j :: 0 <= j < k ==> !IsNoun(tokens[j].tag)
    ensures FirstNoun(tokens) == Some(k)
  {
  }

  /** Without a noun, the result is the words joined by single spaces. */
  lemma NoNounJustJoins(tokens: seq<Token>, folder: string)
    requires forall j :: 0 <= j < |tokens| ==> !IsNoun(tokens[j].tag)
    ensures JoinWith(" ", Words(ReplaceFirst(tokens, folder))) == JoinWith(" ", Words(tokens))
  {
    ReplaceFirstProps(tokens, folder);
  }

  // ---------------------------------------------------------------------------
  // The captioning loop
  // ---------------------------------------------------------------------------

  const SupportedExt: seq<string> := [".jpg", ".png", ".jpeg", ".bmp", ".jfif", ".webp"]

  /** A file is captioned when its lower-cased extension is one of `SUPPORTED_EXT`. */
  predicate Supported(file: string) {
    Lower(Ext(file)) in SupportedExt
  }

  /** What the captioning model and nltk do, as given functions. */
  datatype Tools = Tools(generate: Path -> string, tag: string -> seq<Token>)

  /** The caption of one image: the stripped generated text, with its first noun replaced when asked. */
  function CaptionOf(tools: Tools, root: Path, file: string, replaceSubject: bool): string {
    var generatedText := Strip(tools.generate(Join(root, file)));
    if replaceSubject then JoinWith(" ", Words(ReplaceFirst(tools.tag(generatedText), BaseName(root))))
    else generatedText
  }

  /** The file `name + ".txt"` next to the image, where `name` is its path without extension. */
  function SidecarOf(root: Path, file: string): Path {
    StripExt(Join(root, file)) + ".txt"
  }

  /** One `open(..., "w").write(...)`. */
  datatype Write = Write(path: Path, text: string)

  /** The paths that exist, and the writes done so far. */
  datatype Disk = Disk(existing: set<Path>, writes: seq<Write>)

  /** One file of the walk: written when supported and when the path without extension does not exist. */
  function FileStep(tools: Tools, root: Path, file: string, replaceSubject: bool, d: Disk): Disk {
    if !Supported(file) then d
    else
      var name := StripExt(Join(root, file));
      if name in d.existing then d
      else
        var path := name + ".txt";
        Disk(d.existing + {path}, d.writes + [Write(path, CaptionOf(tools, root, file, replaceSubject))])
  }

  function RunFiles(tools: Tools, root: Path, files: seq<string>, replaceSubject: bool, d: Disk): Disk
    decreases |files|
  {
    if files == [] then d
    else FileStep(tools, root, files[|files| - 1], replaceSubject, RunFiles(tools, root, files[..|files| - 1], replaceSubject, d))
  }

  /** `main`'s loop over the walk. */
  function RunWalk(tools: Tools, walk: seq<WalkStep>, replaceSubject: bool, d: Disk): Disk
    decreases |walk|
  {
    if walk == [] then d
    else
      var step := walk[|walk| - 1];
      RunFiles(tools, step.dirpath, step.filenames, replaceSubject, RunWalk(tools, walk[..|walk| - 1], replaceSubject, d))
  }

  method CaptionFolder(tools: Tools, root: Path, files: seq<string>, replaceSubject: bool, d0: Disk) returns (d: Disk)
    ensures d == RunFiles(tools, root, files, replaceSubject, d0)
  {
    d := d0;
    for k := 0 to |files|
      invariant d == RunFiles(tools, root, files[..k], replaceSubject, d0)
    {
      assert files[..k + 1][..k] == files[..k];
      var file := files[k];
      var ext := Ext(file);
      if Lower(ext) in SupportedExt {
        var fullFilePath := Join(root, file);
        var generatedText := Strip(tools.generate(fullFilePath));
        var folderName := BaseName(root);
        var modifiedCaption;
        if replaceSubject {
          modifiedCaption := ReplaceFirstNounWithFolderName(tools.tag(generatedText), folderName);
        } else {
          modifiedCaption := generatedText;
        }
        var name := StripExt(fullFilePath);
        if name !in d.existing {
          d := Disk(d.existing + {name + ".txt"}, d.writes + [Write(name + ".txt", modifiedCaption)]);
        }
      }
    }
    assert files[..|files|] == files;
  }

  /** The script's walk: every file of every directory, in walk order. */
  method CaptionWalk(tools: Tools, walk: seq<WalkStep>, replaceSubject: bool, d0: Disk) returns (d: Disk)
    ensures d == RunWalk(tools, walk, replaceSubject, d0)
  {
    d := d0;
    for w := 0 to |walk|
      invariant d == RunWalk(tools, walk[..w], replaceSubject, d0)
    {
      assert walk[..w + 1][..w] == walk[..w];
      d := CaptionFolder(tools, walk[w].dirpath, walk[w].filenames, replaceSubject, d);
    }
    assert walk[..|walk|] == walk;
  }

  // ---------------------------------------------------------------------------
  // Properties
  // ---------------------------------------------------------------------------

  /**
   * Without `replace_subject` the caption is the stripped generated text.
   * With it, the caption is the tagged words joined by single spaces, where
   * the first noun's word, if there is a noun, is the folder's base name.
   */
  lemma CaptionChoice(tools: Tools, root: Path, file: string)
    ensures CaptionOf(tools, root, file, false) == Strip(tools.generate(Join(root, file)))
    ensures var tokens := tools.tag(Strip(tools.generate(Join(root, file))));
            (forall j :: 0 <= j < |tokens| ==> !IsNoun(tokens[j].tag)) ==>
              CaptionOf(tools, root, file, true) == JoinWith(" ", Words(tokens))
    ensures var tokens := tools.tag(Strip(tools.generate(Join(root, file))));
            FirstNoun(tokens).Some? ==>
              var k := FirstNoun(tokens).value;
              CaptionOf(tools, root, file, true) == JoinWith(" ", Words(tokens[k := Token(BaseName(root), tokens[k].tag)]))
  {
    var tokens := tools.tag(Strip(tools.generate(Join(root, file))));
    ReplaceFirstProps(tokens, BaseName(root));
  }

  /** Every write goes to the sidecar of a supported file of the walk and holds that file's caption. */
  ghost predicate FromWalk(w: Write, tools: Tools, walk: seq<WalkStep>, replaceSubject: bool) {
    exists i, file :: 0 <= i < |walk| && file in walk[i].filenames && Supported(file) &&
      w == Write(SidecarOf(walk[i].dirpath, file), CaptionOf(tools, walk[i].dirpath, file, replaceSubject))
  }

  lemma {:induction false} FilesFromWalk(tools: Tools, walk: seq<WalkStep>, i: nat, files: seq<string>, replaceSubject: bool, d: Disk)
    requires i < |walk| && files <= walk[i].filenames
    requires forall w :: w in d.writes ==> FromWalk(w, tools, walk, replaceSubject)
    ensures forall w :: w in RunFiles(tools, walk[i].dirpath, files, replaceSubject, d).writes ==> FromWalk(w, tools, walk, replaceSubject)
    decreases |files|
  {
    if files != [] {
      var init := files[..|files| - 1];
      FilesFromWalk(tools, walk, i, init, replaceSubject, d);
      var file := files[|files| - 1];
      assert file in walk[i].filenames by { assert walk[i].filenames[|files| - 1] == file; }
      var prev := RunFiles(tools, walk[i].dirpath, init, replaceSubject, d);
      var next := FileStep(tools, walk[i].dirpath, file, replaceSubject, prev);
      assert RunFiles(tools, walk[i].dirpath, files, replaceSubject, d) == next;
      if Supported(file) && StripExt(Join(walk[i].dirpath, file)) !in prev.existing {
        var nw := Write(SidecarOf(walk[i].dirpath, file), CaptionOf(tools, walk[i].dirpath, file, replaceSubject));
        assert FromWalk(nw, tools, walk, replaceSubject);
        assert next.writes == prev.writes + [nw];
        forall w | w in next.writes ensures FromWalk(w, tools, walk, replaceSubject) {
          if w != nw {
            assert w in prev.writes;
          }
        }
      } else {
        assert next == prev;
      }
    }
  }

  /** Only files with a supported extension are captioned, each into its own sidecar. */
  lemma {:induction false} WritesFromWalk(tools: Tools, walk: seq<WalkStep>, replaceSubject: bool, existing: set<Path>)
    ensures forall w :: w in RunWalk(tools, walk, replaceSubject, Disk(existing, [])).writes ==> FromWalk(w, tools, walk, replaceSubject)
    decreases |walk|
  {
    if walk != [] {
      var init := walk[..|walk| - 1];
      WritesFromWalk(tools, init, replaceSubject, existing);
      var prev := RunWalk(tools, init, replaceSubject, Disk(existing, []));
      forall w | w in prev.writes ensures FromWalk(w, tools, walk, replaceSubject) {
        var i, file :| 0 <= i < |init| && file in init[i].filenames && Supported(file) &&
          w == Write(SidecarOf(init[i].dirpath, file), CaptionOf(tools, init[i].dirpath, file, replaceSubject));
        assert walk[i] == init[i];
      }
      FilesFromWalk(tools, walk, |walk| - 1, walk[|walk| - 1].filenames, replaceSubject, prev);
    }
  }

  /** Each step of a folder only appends writes. */
  lemma {:induction false} RunFilesPrefix(tools: Tools, root: Path, files: seq<string>, j: nat, replaceSubject: bool, d: Disk)
    requires j <= |files|
    ensures RunFiles(tools, root, files[..j], replaceSubject, d).writes <= RunFiles(tools, root, files, replaceSubject, d).writes
    decreases |files|
  {
    if j < |files| {
      var init := files[..|files| - 1];
      assert init[..j] == files[..j];
      RunFilesPrefix(tools, root, init, j, replaceSubject, d);
    } else {
      assert files[..j] == files;
    }
  }

  /** Each folder of the walk only appends writes. */
  lemma {:induction false} RunWalkPrefix(tools: Tools, walk: seq<WalkStep>, j: nat, replaceSubject: bool, d: Disk)
    requires j <= |walk|
    ensures RunWalk(tools, walk[..j], replaceSubject, d).writes <= RunWalk(tools, walk, replaceSubject, d).writes
    decreases |walk|
  {
    if j < |walk| {
      var init := walk[..|walk| - 1];
      assert init[..j] == walk[..j];
      RunWalkPrefix(tools, init, j, replaceSubject, d);
      var prev := RunWalk(tools, init, replaceSubject, d);
      var step := walk[|walk| - 1];
      RunFilesPrefix(tools, step.dirpath, step.filenames, 0, replaceSubject, prev);
      assert step.filenames[..0] == [];
    } else {
      assert walk[..j] == walk;
    }
  }

  /**
   * Conversely, every supported file whose path without extension does not
   * exist when the walk reaches it gets its caption written to its sidecar.
   */
  lemma CaptionedWhenAbsent(tools: Tools, walk: seq<WalkStep>, replaceSubject: bool, d0: Disk, i: nat, k: nat)
    requires i < |walk| && k < |walk[i].filenames|
    ensures var dir, file := walk[i].dirpath, walk[i].filenames[k];
            var before := RunFiles(tools, dir, walk[i].filenames[..k], replaceSubject, RunWalk(tools, walk[..i], replaceSubject, d0));
            Supported(file) && StripExt(Join(dir, file)) !in before.existing ==>
              Write(SidecarOf(dir, file), CaptionOf(tools, dir, file, replaceSubject)) in RunWalk(tools, walk, replaceSubject, d0).writes
  {
    var dir, files := walk[i].dirpath, walk[i].filenames;
    var file := files[k];
    var start := RunWalk(tools, walk[..i], replaceSubject, d0);
    var before := RunFiles(tools, dir, files[..k], replaceSubject, start);
    assert files[..k + 1][..k] == files[..k];
    var after := RunFiles(tools, dir, files[..k + 1], replaceSubject, start);
    assert after == FileStep(tools, dir, file, replaceSubject, before);
    RunFilesPrefix(tools, dir, files, k + 1, replaceSubject, start);
    assert walk[..i + 1][..i] == walk[..i];
    assert RunWalk(tools, walk[..i + 1], replaceSubject, d0) == RunFiles(tools, dir, files, replaceSubject, start);
    RunWalkPrefix(tools, walk, i + 1, replaceSubject, d0);
    if Supported(file) && StripExt(Join(dir, file)) !in before.existing {
      var w := Write(SidecarOf(dir, file), CaptionOf(tools, dir, file, replaceSubject));
      assert after.writes[|after.writes| - 1] == w;
    }
  }

  /**
   * The guard looks at the path without extension, not at the sidecar: an
   * image whose caption file already exists has it overwritten.
   */
  lemma OverwritesExistingCaption(tools: Tools, root: Path, file: string, replaceSubject: bool, d: Disk)
    requires Supported(file)
    requires SidecarOf(root, file) in d.existing && StripExt(Join(root, file)) !in d.existing
    ensures FileStep(tools, root, file, replaceSubject, d).writes ==
            d.writes + [Write(SidecarOf(root, file), CaptionOf(tools, root, file, replaceSubject))]
  {
  }

  /** The evidently intended guard: skip the image when its sidecar exists. */
  function FileStepGuarded(tools: Tools, root: Path, file: string, replaceSubject: bool, d: Disk): Disk {
    if !Supported(file) then d
    else WriteNew(d, SidecarOf(root, file), CaptionOf(tools, root, file, replaceSubject))
  }

  /** Writes `text` to `path` unless `path` exists. */
  function WriteNew(d: Disk, path: Path, text: string): Disk {
    if path in d.existing then d
    else Disk(d.existing + {path}, d.writes + [Write(path, text)])
  }

  function RunFilesGuarded(tools: Tools, root: Path, files: seq<string>, replaceSubject: bool, d: Disk): Disk
    decreases |files|
  {
    if files == [] then d
    else FileStepGuarded(tools, root, files[|files| - 1], replaceSubject, RunFilesGuarded(tools, root, files[..|files| - 1], replaceSubject, d))
  }

  /** Every written path exists, and no path was written twice. */
  ghost predicate Tidy(d: Disk) {
    (forall w :: w in d.writes ==> w.path in d.existing) &&
    (forall a, b :: 0 <= a < b < |d.writes| ==> d.writes[a].path != d.writes[b].path)
  }

  lemma WriteNewTidy(d: Disk, path: Path, text: string)
    requires Tidy(d)
    ensures var r := WriteNew(d, path, text);
            Tidy(r) && d.existing <= r.existing && d.writes <= r.writes &&
            forall k :: |d.writes| <= k < |r.writes| ==> r.writes[k].path !in d.existing
  {
    if path !in d.existing {
      forall a | 0 <= a < |d.writes| ensures d.writes[a].path != path {
        assert d.writes[a] in d.writes;
      }
    }
  }

  /** With that guard no existing file is written to, and no path is written twice. */
  lemma {:induction false} GuardedNeverOverwrites(tools: Tools, root: Path, files: seq<string>, replaceSubject: bool, d: Disk)
    requires Tidy(d)
    ensures var r := RunFilesGuarded(tools, root, files, replaceSubject, d);
            Tidy(r) && d.existing <= r.existing && d.writes <= r.writes &&
            forall k :: |d.writes| <= k < |r.writes| ==> r.writes[k].path !in d.existing
    decreases |files|
  {
    if files != [] {
      var init := files[..|files| - 1];
      GuardedNeverOverwrites(tools, root, init, replaceSubject, d);
      var prev := RunFilesGuarded(tools, root, init, replaceSubject, d);
      var file := files[|files| - 1];
      if Supported(file) {
        WriteNewTidy(prev, SidecarOf(root, file), CaptionOf(tools, root, file, replaceSubject));
      }
      var r := RunFilesGuarded(tools, root, files, replaceSubject, d);
      forall k | |d.writes| <= k < |r.writes| ensures r.writes[k].path !in d.existing {
        if k < |prev.writes| {
          assert r.writes[k] == prev.writes[k];
        }
      }
    }
  }
}
