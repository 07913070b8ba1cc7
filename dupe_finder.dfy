/**
 * The duplicate-image finder (dupe_finder.py): image discovery over a
 * directory walk, the fingerprint index with its first-seen-wins collision
 * policy, the periodic checkpoint of the index, and the quarantine moves.
 *
 * `hash_image` is a parameter: any deterministic function from a path to its
 * (plain, left-right flipped) fingerprint strings. `os.walk` is given as the
 * sequence of directories it yields.
 */
module DupeFinder {
  import opened Wrappers
  import opened PyStr
  import opened PyPath

  /** `str(average_hash(...))` or `str(phash(...))`: a hex string. */
  type Fingerprint = string

  /** What `hash_image` returns: the fingerprint of the image and of its mirror. */
  type Hasher = Path -> (Fingerprint, Fingerprint)

  /** One entry of `duplicates`: `(file1, image_hashes[...])`. */
  datatype Duplicate = Duplicate(duplicate: Path, original: Path)

  /**
   * The state of the hashing loop: the dict `image_hashes`, whose insertion
   * order is kept in `order`, and the list `duplicates`.
   */
  datatype Index = Index(hashes: map<Fingerprint, Path>, order: seq<Fingerprint>, duplicates: seq<Duplicate>)

  /** One `os.rename(source, target)`. */
  datatype Move = Move(source: Path, target: Path)

  // ---------------------------------------------------------------------------
  // Image discovery

  /** `filename.lower().endswith(('.png', '.jpg', '.jpeg', '.gif', '.webp'))`. */
  predicate IsImageName(name: string) {
    var l := Lower(name);
    EndsWith(l, ".png") || EndsWith(l, ".jpg") || EndsWith(l, ".jpeg") || EndsWith(l, ".gif") || EndsWith(l, ".webp")
  }

  /** The image paths found in one directory, in listing order. */
  function ImagesInDir(dirpath: Path, names: seq<string>): seq<Path>
    decreases |names|
  {
    if names == [] then []
    else
      var last := names[|names| - 1];
      ImagesInDir(dirpath, names[..|names| - 1]) + (if IsImageName(last) then [Join(dirpath, last)] else [])
  }

  /** `image_files` after the discovery loop: the image paths of the whole walk, in walk order. */
  function ImagesIn(walk: seq<WalkStep>): seq<Path>
    decreases |walk|
  {
    if walk == [] then []
    else
      var last := walk[|walk| - 1];
      ImagesIn(walk[..|walk| - 1]) + ImagesInDir(last.dirpath, last.filenames)
  }

  /** A directory contributes exactly the joined paths of its image-named files, and no more paths than files. */
  lemma {:induction false} ImagesInDirMembers(dirpath: Path, names: seq<string>)
    ensures |ImagesInDir(dirpath, names)| <= |names|
    ensures forall k :: 0 <= k < |names| && IsImageName(names[k]) ==> Join(dirpath, names[k]) in ImagesInDir(dirpath, names)
    ensures forall p :: p in ImagesInDir(dirpath, names) ==>
              exists k :: 0 <= k < |names| && IsImageName(names[k]) && p == Join(dirpath, names[k])
    decreases |names|
  {
    if names != [] {
      var init := names[..|names| - 1];
      ImagesInDirMembers(dirpath, init);
      forall k | 0 <= k < |init| ensures names[k] == init[k] { }
      var r := ImagesInDir(dirpath, names);
      forall p | p in r
        ensures exists k :: 0 <= k < |names| && IsImageName(names[k]) && p == Join(dirpath, names[k])
      {
        if p in ImagesInDir(dirpath, init) {
          var k :| 0 <= k < |init| && IsImageName(init[k]) && p == Join(dirpath, init[k]);
          assert names[k] == init[k];
        } else {
          assert IsImageName(names[|names| - 1]) && p == Join(dirpath, names[|names| - 1]);
        }
      }
    }
  }

  /** `find_duplicates`, lines 24-29: the discovery loop appending to `image_files`. */
  method CollectImages(walk: seq<WalkStep>) returns (imageFiles: seq<Path>)
    ensures imageFiles == ImagesIn(walk)
  {
    imageFiles := [];
    for w := 0 to |walk|
      invariant imageFiles == ImagesIn(walk[..w])
    {
      var step := walk[w];
      ghost var before := imageFiles;
      for f := 0 to |step.filenames|
        invariant imageFiles == before + ImagesInDir(step.dirpath, step.filenames[..f])
      {
        var filename := step.filenames[f];
        if IsImageName(filename) {
          imageFiles := imageFiles + [Join(step.dirpath, filename)];
        }
        assert step.filenames[..f + 1][..f] == step.filenames[..f];
      }
      assert step.filenames[..|step.filenames|] == step.filenames;
      assert walk[..w + 1][..w] == walk[..w];
    }
    assert walk[..|walk|] == walk;
  }

  // ---------------------------------------------------------------------------
  // The fingerprint index

  /** Whether either fingerprint of the pair is already a key of the index. */
  predicate Collides(ix: Index, fp: (Fingerprint, Fingerprint)) {
    fp.0 in ix.hashes || fp.1 in ix.hashes
  }

  /**
   * One iteration of the hashing loop (lines 44-51) for `file` with
   * fingerprints `fp`: a collision on the plain fingerprint, else on the
   * flipped one, appends one record; otherwise both keys map to `file`.
   */
  function Observe(ix: Index, file: Path, fp: (Fingerprint, Fingerprint)): Index
  {
    var (plain, flipped) := fp;
    if plain in ix.hashes then
      ix.(duplicates := ix.duplicates + [Duplicate(file, ix.hashes[plain])])
    else if flipped in ix.hashes then
      ix.(duplicates := ix.duplicates + [Duplicate(file, ix.hashes[flipped])])
    else
      Index(ix.hashes[plain := file][flipped := file],
            ix.order + [plain] + (if flipped == plain then [] else [flipped]),
            ix.duplicates)
  }

  /**
   * What one iteration does to the index: first seen wins (no key is
   * dropped or rebound), at most one record is added and only on a
   * collision, the plain match takes precedence over the flipped one, a
   * file that collides with nothing becomes the original for both of its
   * fingerprints, and new keys join the dict's insertion order once each.
   */
  lemma ObserveProps(ix: Index, file: Path, fp: (Fingerprint, Fingerprint))
    ensures var r := Observe(ix, file, fp);
            && (forall k :: k in ix.hashes ==> k in r.hashes && r.hashes[k] == ix.hashes[k])
            && r.hashes.Keys == ix.hashes.Keys + (if Collides(ix, fp) then {} else {fp.0, fp.1})
            && |r.duplicates| == |ix.duplicates| + (if Collides(ix, fp) then 1 else 0)
            && r.duplicates[..|ix.duplicates|] == ix.duplicates
            && (fp.0 in ix.hashes ==> r.duplicates[|ix.duplicates|] == Duplicate(file, ix.hashes[fp.0]))
            && (fp.0 !in ix.hashes && fp.1 in ix.hashes ==> r.duplicates[|ix.duplicates|] == Duplicate(file, ix.hashes[fp.1]))
            && (!Collides(ix, fp) ==> r.hashes[fp.0] == file && r.hashes[fp.1] == file)
            && r.order == ix.order + (if Collides(ix, fp) then [] else if fp.0 == fp.1 then [fp.0] else [fp.0, fp.1])
  {
  }

  predicate Distinct<T(==)>(s: seq<T>) {
    forall i, j :: 0 <= i < j < |s| ==> s[i] != s[j]
  }

  /** The state after the hashing loop has processed `files` in order. */
  function Scan(files: seq<Path>, hash: Hasher): (r: Index)
    ensures forall k :: k in r.hashes <==> k in r.order
    ensures Distinct(r.order)
    decreases |files|
  {
    if files == [] then Index(map[], [], [])
    else
      var last := files[|files| - 1];
      var prev := Scan(files[..|files| - 1], hash);
      var r := Observe(prev, last, hash(last));
      ObserveProps(prev, last, hash(last));
      assert forall k :: k in r.order <==> k in prev.order || (k in r.hashes && k !in prev.hashes);
      r
  }

  lemma ScanStep(files: seq<Path>, i: nat, hash: Hasher)
    requires i < |files|
    ensures Scan(files[..i + 1], hash) == Observe(Scan(files[..i], hash), files[i], hash(files[i]))
  {
    assert files[..i + 1][..i] == files[..i];
  }

  /** Every index value is a scanned file, and every record names a scanned file and an index value. */
  ghost predicate Coherent(ix: Index, files: seq<Path>) {
    && (forall k :: k in ix.hashes ==> ix.hashes[k] in files)
    && (forall d :: d in ix.duplicates ==> d.duplicate in files && d.original in ix.hashes.Values)
  }

  lemma {:induction false} ScanCoherent(files: seq<Path>, hash: Hasher)
    ensures Coherent(Scan(files, hash), files)
    decreases |files|
  {
    if files != [] {
      var init := files[..|files| - 1];
      var f := files[|files| - 1];
      ScanCoherent(init, hash);
      var prev := Scan(init, hash);
      var r := Scan(files, hash);
      ObserveProps(prev, f, hash(f));
      assert forall p :: p in init ==> p in files;
      forall d | d in r.duplicates ensures d.duplicate in files && d.original in r.hashes.Values {
        if d in prev.duplicates {
          var k :| k in prev.hashes && prev.hashes[k] == d.original;
          assert r.hashes[k] == d.original;
        } else {
          assert d == r.duplicates[|prev.duplicates|];
          var k := if hash(f).0 in prev.hashes then hash(f).0 else hash(f).1;
          assert r.hashes[k] == d.original;
        }
      }
    }
  }

  /**
   * First seen wins over the whole scan: a key bound after the first `k`
   * files keeps its path to the end, and the records found so far stay the
   * first records.
   */
  lemma {:induction false} ScanKeepsEarlier(files: seq<Path>, k: nat, hash: Hasher)
    requires k <= |files|
    ensures forall key :: key in Scan(files[..k], hash).hashes ==>
              key in Scan(files, hash).hashes && Scan(files, hash).hashes[key] == Scan(files[..k], hash).hashes[key]
    ensures |Scan(files[..k], hash).duplicates| <= |Scan(files, hash).duplicates|
    ensures Scan(files, hash).duplicates[..|Scan(files[..k], hash).duplicates|] == Scan(files[..k], hash).duplicates
    decreases |files| - k
  {
    if k == |files| {
      assert files[..k] == files;
    } else {
      ScanKeepsEarlier(files, k + 1, hash);
      ScanStep(files, k, hash);
      ObserveProps(Scan(files[..k], hash), files[k], hash(files[k]));
    }
  }

  /**
   * The record a file adds names an EARLIER file that the index had
   * registered (lines 45-48): the original is never the file itself.
   */
  lemma DuplicateOriginalIsEarlier(files: seq<Path>, i: nat, hash: Hasher)
    requires i < |files|
    requires |Scan(files[..i + 1], hash).duplicates| > |Scan(files[..i], hash).duplicates|
    ensures var d := Scan(files[..i + 1], hash).duplicates[|Scan(files[..i], hash).duplicates|];
            d.duplicate == files[i] && d.original in files[..i] && d.original in Scan(files[..i], hash).hashes.Values
  {
    ScanStep(files, i, hash);
    ScanCoherent(files[..i], hash);
    var prev := Scan(files[..i], hash);
    var fp := hash(files[i]);
    ObserveProps(prev, files[i], fp);
    var k := if fp.0 in prev.hashes then fp.0 else fp.1;
    assert prev.hashes[k] in prev.hashes.Values;
  }

  lemma ValuesAfterRegister(m: map<Fingerprint, Path>, a: Fingerprint, b: Fingerprint, f: Path)
    requires a !in m && b !in m
    ensures m[a := f][b := f].Values == m.Values + {f}
  {
    var m' := m[a := f][b := f];
    forall v | v in m'.Values ensures v in m.Values + {f} {
      var k :| k in m' && m'[k] == v;
      if k != a && k != b {
        assert m[k] == v;
      }
    }
    forall v | v in m.Values + {f} ensures v in m'.Values {
      if v == f {
        assert m'[b] == f;
      } else {
        var k :| k in m && m[k] == v;
        assert m'[k] == v;
      }
    }
  }

  /** One step of the partition argument: the new file becomes either one more original or one more duplicate. */
  lemma PartitionStep(prev: Index, init: seq<Path>, f: Path, fp: (Fingerprint, Fingerprint))
    requires Coherent(prev, init) && f !in init
    requires |prev.hashes.Values| + |prev.duplicates| == |init|
    requires forall d :: d in prev.duplicates ==> d.duplicate !in prev.hashes.Values
    ensures var r := Observe(prev, f, fp);
            && |r.hashes.Values| + |r.duplicates| == |init| + 1
            && forall d :: d in r.duplicates ==> d.duplicate !in r.hashes.Values
  {
    var r := Observe(prev, f, fp);
    ObserveProps(prev, f, fp);
    forall k | k in prev.hashes ensures prev.hashes[k] != f {
      assert prev.hashes[k] in init;
    }
    assert f !in prev.hashes.Values;
    if Collides(prev, fp) {
      assert r.hashes == prev.hashes;
      assert r.duplicates == prev.duplicates + [r.duplicates[|prev.duplicates|]];
    } else {
      ValuesAfterRegister(prev.hashes, fp.0, fp.1, f);
      assert r.hashes == prev.hashes[fp.0 := f][fp.1 := f];
    }
  }

  /**
   * With the distinct paths `os.walk` yields, every file ends up exactly once
   * as either an original (an index value) or a duplicate:
   * #originals + #duplicates = #files.
   */
  lemma {:induction false} ScanPartition(files: seq<Path>, hash: Hasher)
    requires Distinct(files)
    ensures |Scan(files, hash).hashes.Values| + |Scan(files, hash).duplicates| == |files|
    ensures forall d :: d in Scan(files, hash).duplicates ==> d.duplicate !in Scan(files, hash).hashes.Values
    decreases |files|
  {
    if files != [] {
      var init := files[..|files| - 1];
      var f := files[|files| - 1];
      assert Distinct(init);
      ScanPartition(init, hash);
      ScanCoherent(init, hash);
      assert f !in init;
      PartitionStep(Scan(init, hash), init, f, hash(f));
    }
  }

  /** With distinct paths, no file that is an original is ever recorded as a duplicate. */
  lemma OriginalNeverDuplicate(files: seq<Path>, hash: Hasher)
    requires Distinct(files)
    ensures forall d, e :: d in Scan(files, hash).duplicates && e in Scan(files, hash).duplicates ==> d.original != e.duplicate
  {
    ScanPartition(files, hash);
    ScanCoherent(files, hash);
    var ix := Scan(files, hash);
    forall d, e | d in ix.duplicates && e in ix.duplicates ensures d.original != e.duplicate {
      assert d.original in ix.hashes.Values;
      assert e.duplicate !in ix.hashes.Values;
    }
  }

  /** Three images with equal fingerprints, scanned as A, B, C, give (B, A) and (C, A), never (C, B). */
  lemma FirstSeenWinsExample(a: Path, b: Path, c: Path, hash: Hasher)
    requires hash(a) == hash(b) == hash(c)
    ensures Scan([a, b, c], hash).duplicates == [Duplicate(b, a), Duplicate(c, a)]
  {
    assert [a, b, c][..2] == [a, b];
    assert [a, b][..1] == [a];
    assert [a][..0] == [];
    var s1 := Scan([a], hash);
    assert Scan([], hash) == Index(map[], [], []);
    assert s1 == Observe(Index(map[], [], []), a, hash(a));
    assert s1.hashes[hash(a).0] == a;
    var s2 := Scan([a, b], hash);
    assert s2 == Observe(s1, b, hash(b));
    assert s2.duplicates == [Duplicate(b, a)] && s2.hashes == s1.hashes;
  }

  // ---------------------------------------------------------------------------
  // Checkpoints

  /** `save_interval`: a tenth of the number of images, but at least 1. */
  function SaveInterval(n: nat): (r: nat)
    ensures r >= 1
    ensures n >= 10 ==> r == n / 10
    ensures n < 10 ==> r == 1
  {
    if n / 10 == 0 then 1 else n / 10
  }

  /** The loop indices `i < n` at which `i % interval == 0` writes a checkpoint, in order. */
  function SaveSteps(n: nat, interval: nat): seq<nat>
    requires interval >= 1
    decreases n
  {
    if n == 0 then [] else SaveSteps(n - 1, interval) + (if (n - 1) % interval == 0 then [n - 1] else [])
  }

  lemma {:induction false} SaveStepsMembers(n: nat, interval: nat)
    requires interval >= 1
    ensures forall i: nat :: i in SaveSteps(n, interval) <==> i < n && i % interval == 0
    ensures n > 0 ==> |SaveSteps(n, interval)| > 0 && SaveSteps(n, interval)[0] == 0
    decreases n
  {
    if n > 0 {
      SaveStepsMembers(n - 1, interval);
      var prev := SaveSteps(n - 1, interval);
      var last: nat := n - 1;
      var tail: seq<nat> := if last % interval == 0 then [last] else [];
      assert SaveSteps(n, interval) == prev + tail;
      forall i: nat ensures i in prev + tail <==> i < n && i % interval == 0 {
        assert i in prev + tail <==> i in prev || i in tail;
      }
      if n == 1 {
        assert tail == [0];
      }
    }
  }

  /** The index of the last checkpoint written by a loop of `n >= 1` iterations. */
  function LastSave(n: nat, interval: nat): (r: nat)
    requires n >= 1 && interval >= 1
    ensures r < n && r % interval == 0
    decreases n
  {
    if (n - 1) % interval == 0 then n - 1 else LastSave(n - 1, interval)
  }

  /** No checkpoint is written after `LastSave`. */
  lemma {:induction false} LastSaveIsLast(n: nat, interval: nat, i: nat)
    requires n >= 1 && interval >= 1
    requires LastSave(n, interval) < i < n
    ensures i % interval != 0
    decreases n
  {
    if (n - 1) % interval != 0 && i < n - 1 {
      LastSaveIsLast(n - 1, interval, i);
    }
  }

  /** One line of `image_hashes.txt`: `f"{hash_str},{file_path}\n"`. */
  function CheckpointLine(fp: Fingerprint, path: Path): string {
    fp + "," + path + "\n"
  }

  /** The lines of one checkpoint write: one per key of `hashes`, in the dict's insertion order. */
  function CheckpointLines(hashes: map<Fingerprint, Path>, order: seq<Fingerprint>): (lines: seq<string>)
    requires forall k :: k in order ==> k in hashes
    ensures |lines| == |order|
  {
    seq(|order|, i requires 0 <= i < |order| => CheckpointLine(order[i], hashes[order[i]]))
  }

  /** Reads one checkpoint line back: the text before the first ',' and the rest without its newline. */
  function ParseCheckpointLine(line: string): Option<(Fingerprint, Path)> {
    if !EndsWith(line, "\n") || ',' !in line[..|line| - 1] then None
    else
      var body := line[..|line| - 1];
      var fp := FirstPart(body, ',');
      FirstPartProps(body, ',');
      Some((fp, body[|fp| + 1..]))
  }

  /** A checkpoint line parses back to its entry, because hex fingerprints hold no ','. */
  lemma CheckpointLineRoundTrip(fp: Fingerprint, path: Path)
    requires ',' !in fp
    ensures ParseCheckpointLine(CheckpointLine(fp, path)) == Some((fp, path))
  {
    var line := CheckpointLine(fp, path);
    var body := fp + [','] + path;
    assert line[..|line| - 1] == body;
    assert body[|fp|] == ',';
    SplitAtFirstSep(fp, path, ',');
    assert FirstPart(body, ',') == fp;
    assert body[|fp| + 1..] == path;
  }

  lemma {:induction false} DistinctCard(order: seq<Fingerprint>, keys: set<Fingerprint>)
    requires Distinct(order)
    requires forall k :: k in keys <==> k in order
    ensures |keys| == |order|
    decreases |order|
  {
    if order != [] {
      var last := order[|order| - 1];
      var init := order[..|order| - 1];
      assert forall k :: k in keys - {last} <==> k in init;
      DistinctCard(init, keys - {last});
    }
  }

  /**
   * A checkpoint of the scan so far holds one line per index entry, and
   * every entry's line is among them.
   */
  lemma CheckpointCoversIndex(files: seq<Path>, hash: Hasher)
    ensures var ix := Scan(files, hash);
            |CheckpointLines(ix.hashes, ix.order)| == |ix.hashes|
            && forall k :: k in ix.hashes ==> CheckpointLine(k, ix.hashes[k]) in CheckpointLines(ix.hashes, ix.order)
  {
    var ix := Scan(files, hash);
    DistinctCard(ix.order, ix.hashes.Keys);
    var lines := CheckpointLines(ix.hashes, ix.order);
    forall k | k in ix.hashes ensures CheckpointLine(k, ix.hashes[k]) in lines {
      var i :| 0 <= i < |ix.order| && ix.order[i] == k;
      assert lines[i] == CheckpointLine(k, ix.hashes[k]);
    }
  }

  /**
   * Lines 44-51 on the loop's variables: `image_hashes[k] = file1` appends
   * `k` to the dict's order only when `k` is new.
   */
  method ObserveFile(hashes: map<Fingerprint, Path>, order: seq<Fingerprint>, duplicates: seq<Duplicate>,
                     file1: Path, fp: (Fingerprint, Fingerprint))
    returns (hashes': map<Fingerprint, Path>, order': seq<Fingerprint>, duplicates': seq<Duplicate>)
    ensures Index(hashes', order', duplicates') == Observe(Index(hashes, order, duplicates), file1, fp)
  {
    var (originalHash, flippedHash) := fp;
    hashes', order', duplicates' := hashes, order, duplicates;
    if originalHash in hashes {
      duplicates' := duplicates + [Duplicate(file1, hashes[originalHash])];
    } else if flippedHash in hashes {
      duplicates' := duplicates + [Duplicate(file1, hashes[flippedHash])];
    } else {
      hashes' := hashes'[originalHash := file1];
      order' := order' + [originalHash];
      if flippedHash !in hashes' {
        order' := order' + [flippedHash];
      }
      hashes' := hashes'[flippedHash := file1];
    }
  }

  /** Lines 55-57: one `f.write` per dict item, in insertion order. */
  method WriteCheckpoint(hashes: map<Fingerprint, Path>, order: seq<Fingerprint>) returns (lines: seq<string>)
    requires forall k :: k in order ==> k in hashes
    ensures lines == CheckpointLines(hashes, order)
  {
    lines := [];
    for k := 0 to |order|
      invariant lines == CheckpointLines(hashes, order[..k])
    {
      lines := lines + [CheckpointLine(order[k], hashes[order[k]])];
    }
    assert order[..|order|] == order;
  }

  /**
   * What `image_hashes.txt` holds after the first `i` iterations over
   * `files`: nothing before the first write, else the index as it stood at
   * the last iteration whose number was a multiple of `interval`.
   */
  function Checkpointed(files: seq<Path>, i: nat, interval: nat, hash: Hasher): Option<seq<string>>
    requires i <= |files| && interval >= 1
  {
    if i == 0 then None
    else
      var ix := Scan(files[..LastSave(i, interval) + 1], hash);
      Some(CheckpointLines(ix.hashes, ix.order))
  }

  /**
   * Iteration `i` rewrites the file with the index as it now stands exactly
   * when `i % interval == 0`; otherwise the previous contents stay.
   */
  lemma CheckpointedStep(files: seq<Path>, i: nat, interval: nat, hash: Hasher, ix: Index, before: Option<seq<string>>)
    requires i < |files| && interval >= 1
    requires ix == Scan(files[..i + 1], hash)
    requires before == Checkpointed(files, i, interval, hash)
    ensures Checkpointed(files, i + 1, interval, hash)
            == if i % interval == 0 then Some(CheckpointLines(ix.hashes, ix.order)) else before
  {
    if i % interval == 0 {
      SaveStepWrites(files, i, interval, hash);
    } else {
      SaveStepKeeps(files, i, interval, hash);
    }
  }

  lemma SaveStepWrites(files: seq<Path>, i: nat, interval: nat, hash: Hasher)
    requires i < |files| && interval >= 1 && i % interval == 0
    ensures var ix := Scan(files[..i + 1], hash);
            Checkpointed(files, i + 1, interval, hash) == Some(CheckpointLines(ix.hashes, ix.order))
  {
    assert LastSave(i + 1, interval) == i;
  }

  lemma SaveStepKeeps(files: seq<Path>, i: nat, interval: nat, hash: Hasher)
    requires i < |files| && interval >= 1 && i % interval != 0
    ensures Checkpointed(files, i + 1, interval, hash) == Checkpointed(files, i, interval, hash)
  {
    assert LastSave(i + 1, interval) == LastSave(i, interval);
  }

  /**
   * `find_duplicates`, lines 31-59: the hashing loop. Returns the final
   * index and records, the loop indices at which `image_hashes.txt` was
   * (over)written, and the lines it holds at the end (`None`: never written).
   */
  method HashImages(imageFiles: seq<Path>, hash: Hasher)
    returns (index: Index, savedAt: seq<nat>, hashFile: Option<seq<string>>)
    ensures index == Scan(imageFiles, hash)
    ensures savedAt == SaveSteps(|imageFiles|, SaveInterval(|imageFiles|))
    ensures hashFile == Checkpointed(imageFiles, |imageFiles|, SaveInterval(|imageFiles|), hash)
  {
    var n := |imageFiles|;
    var saveInterval := n / 10;
    if saveInterval == 0 {
      saveInterval := 1;
    }
    assert saveInterval == SaveInterval(n);
    var hashes: map<Fingerprint, Path> := map[];
    var order: seq<Fingerprint> := [];
    var duplicates: seq<Duplicate> := [];
    savedAt, hashFile := [], None;
    for i := 0 to n
      invariant Index(hashes, order, duplicates) == Scan(imageFiles[..i], hash)
      invariant savedAt == SaveSteps(i, saveInterval)
      invariant hashFile == Checkpointed(imageFiles, i, saveInterval, hash)
    {
      var file1 := imageFiles[i];
      ghost var before := hashFile;
      hashes, order, duplicates := ObserveFile(hashes, order, duplicates, file1, hash(file1));
      ghost var ix := Index(hashes, order, duplicates);
      assert ix == Scan(imageFiles[..i + 1], hash) by {
        ScanStep(imageFiles, i, hash);
      }
      assert SaveSteps(i + 1, saveInterval) == savedAt + (if i % saveInterval == 0 then [i] else []);
      if i % saveInterval == 0 {
        var lines := WriteCheckpoint(hashes, order);
        hashFile := Some(lines);
        savedAt := savedAt + [i];
      }
      assert hashFile == Checkpointed(imageFiles, i + 1, saveInterval, hash) by {
        CheckpointedStep(imageFiles, i, saveInterval, hash, ix, before);
      }
    }
    assert imageFiles[..n] == imageFiles;
    index := Index(hashes, order, duplicates);
  }

  // ---------------------------------------------------------------------------
  // Quarantine

  /** `os.path.join(input_dir, "duplicates")`. */
  function QuarantineDir(inputDir: Path): Path {
    Join(inputDir, "duplicates")
  }

  /** `os.path.join(dupe_dir, Path(dupe).name)`: the quarantine target of a duplicate. */
  function QuarantinePath(inputDir: Path, dupe: Path): Path {
    Join(QuarantineDir(inputDir), BaseName(dupe))
  }

  /** A moved duplicate keeps its file name and lands directly in `<input_dir>/duplicates`. */
  lemma QuarantineKeepsName(inputDir: Path, dupe: Path)
    requires BaseName(dupe) != []
    ensures BaseName(QuarantinePath(inputDir, dupe)) == BaseName(dupe)
    ensures DirName(QuarantinePath(inputDir, dupe)) == QuarantineDir(inputDir)
  {
    BaseNameProps(dupe);
    BaseNameOfJoin(QuarantineDir(inputDir), BaseName(dupe));
    var q := QuarantineDir(inputDir);
    assert !StartsWith("duplicates", "/") by { assert "duplicates"[..1][0] == 'd'; }
    assert q[|q| - 1] == 's';
    DirNameOfJoin(q, BaseName(dupe));
  }

  /**
   * No disambiguation: two different duplicates with the same file name in
   * different folders get the same target, so the later move replaces the
   * earlier one.
   */
  lemma QuarantineNameClash(inputDir: Path, p: Path, q: Path)
    requires BaseName(p) == BaseName(q)
    ensures QuarantinePath(inputDir, p) == QuarantinePath(inputDir, q)
  {
  }

  /**
   * `move_duplicates` (lines 70-80): creates the quarantine directory when
   * it is missing, renames each duplicate into it in record order, and
   * reports `len(duplicates)` as the number moved.
   */
  method MoveDuplicates(duplicates: seq<Duplicate>, inputDir: Path, dirExists: bool)
    returns (makeDir: bool, moves: seq<Move>, moved: nat)
    ensures makeDir == !dirExists
    ensures |moves| == |duplicates| && moved == |duplicates|
    ensures forall k :: 0 <= k < |moves| ==>
              moves[k] == Move(duplicates[k].duplicate, QuarantinePath(inputDir, duplicates[k].duplicate))
  {
    var dupeDir := Join(inputDir, "duplicates");
    makeDir := !dirExists;
    moves := [];
    for k := 0 to |duplicates|
      invariant |moves| == k
      invariant forall j :: 0 <= j < k ==>
                  moves[j] == Move(duplicates[j].duplicate, QuarantinePath(inputDir, duplicates[j].duplicate))
    {
      var dupe := duplicates[k].duplicate;
      var newFilePath := Join(dupeDir, BaseName(dupe));
      moves := moves + [Move(dupe, newFilePath)];
    }
    moved := |duplicates|;
  }

  /**
   * `find_duplicates` end to end: discover, hash and index, checkpoint,
   * then quarantine every duplicate.
   */
  method FindDuplicates(walk: seq<WalkStep>, inputDir: Path, hash: Hasher, dupeDirExists: bool)
    returns (index: Index, hashFile: Option<seq<string>>, moves: seq<Move>, moved: nat)
    ensures index == Scan(ImagesIn(walk), hash)
    ensures |moves| == |index.duplicates| == moved
    ensures forall k :: 0 <= k < |moves| ==>
              moves[k] == Move(index.duplicates[k].duplicate, QuarantinePath(inputDir, index.duplicates[k].duplicate))
    ensures ImagesIn(walk) == [] <==> hashFile == None
  {
    var imageFiles := CollectImages(walk);
    var savedAt;
    index, savedAt, hashFile := HashImages(imageFiles, hash);
    var makeDir;
    makeDir, moves, moved := MoveDuplicates(index.duplicates, inputDir, dupeDirExists);
  }

  /** Two identical images followed by a unique one: only the second is recorded, against the first. */
  lemma ScanExample(a: Path, b: Path, c: Path, hash: Hasher)
    requires hash(a) == hash(b)
    requires !Collides(Scan([a], hash), hash(c))
    ensures Scan([a, b, c], hash).duplicates == [Duplicate(b, a)]
  {
    assert [a, b, c][..2] == [a, b];
    assert [a, b][..1] == [a];
    assert [a][..0] == [];
  }

  /** A folder with three images and one other file yields the three images, joined onto the folder, in listing order. */
  lemma DiscoveryExample(d: Path, a: string, b: string, c: string, t: string)
    requires IsImageName(a) && IsImageName(b) && IsImageName(c) && !IsImageName(t)
    ensures ImagesIn([WalkStep(d, [a, b, c, t])]) == [Join(d, a), Join(d, b), Join(d, c)]
  {
    var names := [a, b, c, t];
    assert names[..3] == [a, b, c];
    assert names[..3][..2] == [a, b];
    assert names[..3][..2][..1] == [a];
    assert names[..3][..2][..1][..0] == [];
    assert ImagesInDir(d, [a]) == [Join(d, a)];
    assert ImagesInDir(d, [a, b]) == [Join(d, a), Join(d, b)];
    assert ImagesInDir(d, [a, b, c]) == [Join(d, a), Join(d, b), Join(d, c)];
    assert ImagesInDir(d, names) == [Join(d, a), Join(d, b), Join(d, c)];
    assert [WalkStep(d, names)][..0] == [];
  }

  /**
   * The end-to-end scenario: in folder `d`, an image `a`, a pixel-identical
   * `b`, a unique `c` and a non-image `t` give the single record (b, a),
   * and only `b` is quarantined, into `d`'s `duplicates` folder.
   */
  lemma EndToEndExample(d: Path, a: string, b: string, c: string, t: string, hash: Hasher)
    requires IsImageName(a) && IsImageName(b) && IsImageName(c) && !IsImageName(t)
    requires b != [] && '/' !in b
    requires hash(Join(d, a)) == hash(Join(d, b))
    requires !Collides(Scan([Join(d, a)], hash), hash(Join(d, c)))
    ensures var ix := Scan(ImagesIn([WalkStep(d, [a, b, c, t])]), hash);
            ix.duplicates == [Duplicate(Join(d, b), Join(d, a))]
            && QuarantinePath(d, ix.duplicates[0].duplicate) == Join(QuarantineDir(d), b)
  {
    DiscoveryExample(d, a, b, c, t);
    ScanExample(Join(d, a), Join(d, b), Join(d, c), hash);
    BaseNameOfJoin(d, b);
  }
}
