/**
 * The state of the manual captioning window (scripts/image_caption_gui.py):
 * the opened folder, the sorted list of its `.jpg`/`.png` images, the index
 * of the shown image and the text of the caption field, with the caption
 * sidecar files it reads and writes.
 *
 * The file system is a map from path to contents plus a set of directories;
 * the folder dialog's answer and the `os.listdir` listing are parameters.
 * Tk widgets and image decoding are not modelled: `load_image` records the
 * path and name it would show, and raises only when that file is missing.
 */
module ImageCaptionGui {
  import opened Wrappers
  import opened PyStr
  import opened PyPath

  // ---------------------------------------------------------------------------
  // Python list indexing and sorting
  // ---------------------------------------------------------------------------

  /** `xs[i]`: negative indices count from the end; outside `[-len, len)` it raises `IndexError`. */
  function PyIndex<T>(xs: seq<T>, i: int): (r: Result<T>)
    ensures r.Ok? <==> -|xs| <= i < |xs|
    ensures r.Ok? ==> r.value == xs[if i < 0 then i + |xs| else i]
  {
    if 0 <= i < |xs| then Ok(xs[i])
    else if -|xs| <= i < 0 then Ok(xs[i + |xs|])
    else Err(IndexError)
  }

  /** The order of `str` (and of one-component paths): lexicographic by code point. */
  predicate Below(a: string, b: string)
    decreases |a|
  {
    a == [] || (b != [] && (a[0] < b[0] || (a[0] == b[0] && Below(a[1..], b[1..]))))
  }

  lemma {:induction false} BelowTotal(a: string, b: string)
    ensures Below(a, b) || Below(b, a)
    decreases |a|
  {
    if a != [] && b != [] && a[0] == b[0] {
      BelowTotal(a[1..], b[1..]);
    }
  }

  lemma {:induction false} BelowTrans(a: string, b: string, c: string)
    requires Below(a, b) && Below(b, c)
    ensures Below(a, c)
    decreases |a|
  {
    if a != [] && b[0] == a[0] && c[0] == b[0] {
      BelowTrans(a[1..], b[1..], c[1..]);
    }
  }

  predicate Sorted(s: seq<string>) {
    forall i, j :: 0 <= i < j < |s| ==> Below(s[i], s[j])
  }

  /** `x` put before the first element it is below. */
  function Insert(x: string, s: seq<string>): seq<string>
    decreases |s|
  {
    if s == [] then [x]
    else if Below(x, s[0]) then [x] + s
    else [s[0]] + Insert(x, s[1..])
  }

  /** `list.sort()` on names. */
  function Sort(s: seq<string>): seq<string>
    decreases |s|
  {
    if s == [] then [] else Insert(s[|s| - 1], Sort(s[..|s| - 1]))
  }

  lemma InsertProps(x: string, s: seq<string>)
    requires Sorted(s)
    ensures Sorted(Insert(x, s))
    ensures multiset(Insert(x, s)) == multiset(s) + multiset{x}
  {
    InsertSorted(x, s);
    InsertMultiset(x, s);
  }

  lemma {:induction false} InsertMultiset(x: string, s: seq<string>)
    ensures multiset(Insert(x, s)) == multiset(s) + multiset{x}
    decreases |s|
  {
    if s != [] && !Below(x, s[0]) {
      InsertMultiset(x, s[1..]);
      assert s == [s[0]] + s[1..];
    }
  }

  /** Each element of an insertion is `x` or comes from `s`. */
  lemma {:induction false} InsertFrom(x: string, s: seq<string>, k: nat)
    requires k < |Insert(x, s)|
    ensures Insert(x, s)[k] == x || Insert(x, s)[k] in s
    decreases |s|
  {
    if s != [] && !Below(x, s[0]) && k > 0 {
      InsertFrom(x, s[1..], k - 1);
    }
  }

  lemma {:induction false} InsertSorted(x: string, s: seq<string>)
    requires Sorted(s)
    ensures Sorted(Insert(x, s))
    decreases |s|
  {
    if s != [] {
      if Below(x, s[0]) {
        forall j | 0 < j < |s| ensures Below(x, s[j]) { BelowTrans(x, s[0], s[j]); }
        var r := [x] + s;
        forall i, j | 0 <= i < j < |r| ensures Below(r[i], r[j]) {
          if i > 0 { assert r[i] == s[i - 1] && r[j] == s[j - 1]; }
        }
      } else {
        BelowTotal(x, s[0]);
        InsertSorted(x, s[1..]);
        var t := Insert(x, s[1..]);
        var r := [s[0]] + t;
        forall k | 0 <= k < |t| ensures Below(s[0], t[k]) {
          InsertFrom(x, s[1..], k);
          if t[k] != x {
            var m :| 0 <= m < |s[1..]| && s[1..][m] == t[k];
            assert s[m + 1] == t[k];
          }
        }
        forall i, j | 0 <= i < j < |r| ensures Below(r[i], r[j]) {
          if i == 0 { assert r[j] == t[j - 1]; } else { assert r[i] == t[i - 1] && r[j] == t[j - 1]; }
        }
      }
    }
  }

  /** The sorted list is ordered and holds the same names, each as often. */
  lemma {:induction false} SortProps(s: seq<string>)
    ensures Sorted(Sort(s))
    ensures multiset(Sort(s)) == multiset(s)
    decreases |s|
  {
    if s != [] {
      SortProps(s[..|s| - 1]);
      InsertProps(s[|s| - 1], Sort(s[..|s| - 1]));
      assert s == s[..|s| - 1] + [s[|s| - 1]];
    }
  }

  // ---------------------------------------------------------------------------
  // The state and its transitions
  // ---------------------------------------------------------------------------

  /** The fields of one `ImageView`, and the files it can see. */
  datatype View = View(
    folder: Path,
    imageList: seq<string>,
    imageIndex: int,
    imagePath: Path,
    filename: string,
    caption: string,
    disk: map<Path, string>,
    dirs: set<Path>)

  /** A step that may raise: the state it leaves and the exception, if any. */
  datatype Outcome = Outcome(view: View, error: Option<PyError>)

  /** The state before any folder is opened: the class attributes' defaults. */
  function Initial(disk: map<Path, string>, dirs: set<Path>): View {
    View("", [], 0, "", "", "", disk, dirs)
  }

  /** `open_folder` keeps the listed names whose suffix is exactly `.jpg` or `.png`. */
  predicate IsListedImage(name: string) {
    Suffix(name) == ".jpg" || Suffix(name) == ".png"
  }

  function ListedImages(listing: seq<string>): seq<string>
    decreases |listing|
  {
    if listing == [] then []
    else
      var last := listing[|listing| - 1];
      ListedImages(listing[..|listing| - 1]) + (if IsListedImage(last) then [last] else [])
  }

  /** The caption sidecar of image `name`: `folder / (stem + '.txt')`. */
  function LabelFile(folder: Path, name: string): Path {
    Join(folder, Stem(name) + ".txt")
  }

  /** The caption text as written: carriage returns and line feeds removed, then stripped. */
  function Normalize(text: string): string {
    Strip(RemoveEach(text, "\r\n"))
  }

  /** `write_label_txt`: the normalised caption overwrites the sidecar, unless it is empty. */
  function WriteLabelSpec(v: View): Outcome {
    match PyIndex(v.imageList, v.imageIndex)
    case Err(e) => Outcome(v, Some(e))
    case Ok(name) =>
      var text := Normalize(v.caption);
      if text != "" then Outcome(v.(disk := v.disk[LabelFile(v.folder, name) := text]), None)
      else Outcome(v, None)
  }

  /** `load_label_txt`: the field is cleared, then filled from the sidecar when it exists. */
  function LoadLabelSpec(v: View): Outcome {
    var cleared := v.(caption := "");
    match PyIndex(v.imageList, v.imageIndex)
    case Err(e) => Outcome(cleared, Some(e))
    case Ok(name) =>
      var sidecar := LabelFile(v.folder, name);
      if sidecar in v.disk then Outcome(cleared.(caption := v.disk[sidecar]), None)
      else Outcome(cleared, None)
  }

  /**
   * `load_image`: the shown path and name are set first; opening a file
   * that is not there then raises FileNotFoundError.
   */
  function LoadImageSpec(v: View): Outcome {
    match PyIndex(v.imageList, v.imageIndex)
    case Err(e) => Outcome(v, Some(e))
    case Ok(name) =>
      var shown := v.(imagePath := Join(v.folder, name), filename := name);
      if shown.imagePath in v.disk then Outcome(shown, None) else Outcome(shown, Some(FileNotFound))
  }

  /** Runs `LoadLabelSpec` then `LoadImageSpec` after an index change, unless an earlier step raised. */
  function Reload(v: View): Outcome {
    var l := LoadLabelSpec(v);
    if l.error.Some? then l else LoadImageSpec(l.view)
  }

  /** `open_folder`: the new folder, its images sorted, then the image and sidecar at the unchanged index. */
  function OpenFolderSpec(v: View, chosen: Path, listing: seq<string>): Outcome {
    var u := v.(folder := chosen, imageList := Sort(ListedImages(listing)));
    var i := LoadImageSpec(u);
    if i.error.Some? then i else LoadLabelSpec(i.view)
  }

  /** `go_to_image(index)`: save the caption, then jump to `index` without a bounds check. */
  function GoToSpec(v: View, index: int): Outcome {
    var w := WriteLabelSpec(v);
    if w.error.Some? then w else Reload(w.view.(imageIndex := index))
  }

  /** The index after `next_image`'s increment and wrap. */
  function NextIndex(i: int, len: nat): int {
    if i + 1 >= len then 0 else i + 1
  }

  /** The index after `prev_image`'s decrement and wrap. */
  function PrevIndex(i: int, len: nat): int {
    if i - 1 < 0 then len - 1 else i - 1
  }

  /** `next_image`: save the caption, advance with wrap-around, reload. */
  function NextSpec(v: View): Outcome {
    var w := WriteLabelSpec(v);
    if w.error.Some? then w
    else Reload(w.view.(imageIndex := NextIndex(v.imageIndex, |v.imageList|)))
  }

  /** `prev_image`: save the caption, step back with wrap-around, reload. */
  function PrevSpec(v: View): Outcome {
    var w := WriteLabelSpec(v);
    if w.error.Some? then w
    else Reload(w.view.(imageIndex := PrevIndex(v.imageIndex, |v.imageList|)))
  }

  /** `os.rename(source, target)` on the file map; a missing source raises. */
  function Rename(disk: map<Path, string>, source: Path, target: Path): Result<map<Path, string>> {
    if source !in disk then Err(FileNotFound)
    else Ok((disk - {source})[target := disk[source]])
  }

  /** The folder that deleted images go to. */
  function DeletedFolder(folder: Path): Path {
    Join(folder, "_deleted")
  }

  /**
   * `delete_image`: nothing on an empty list; otherwise move on with
   * `next_image`, then move the image (and its sidecar, when there is one)
   * into `_deleted`. The list itself keeps the entry. When `next_image`
   * raises, for instance because the image it moves to was deleted before,
   * nothing is moved.
   */
  function DeleteSpec(v: View): Outcome {
    if |v.imageList| == 0 then Outcome(v, None)
    else
      match PyIndex(v.imageList, v.imageIndex)
      case Err(e) => Outcome(v, Some(e))
      case Ok(cur) =>
        var n := NextSpec(v);
        if n.error.Some? then n else MoveToDeletedSpec(n.view, v.folder, cur)
  }

  /** The second half of `delete_image`: image `cur` of `folder`, and its sidecar if present, go into `_deleted`. */
  function MoveToDeletedSpec(v: View, folder: Path, cur: string): Outcome {
    var deleted := DeletedFolder(folder);
    var u := v.(dirs := v.dirs + {deleted});
    match Rename(u.disk, Join(folder, cur), Join(deleted, cur))
    case Err(e) => Outcome(u, Some(e))
    case Ok(disk1) =>
      var txt := Stem(cur) + ".txt";
      var sidecar := Join(folder, txt);
      if sidecar in disk1 then Outcome(u.(disk := Rename(disk1, sidecar, Join(deleted, txt)).value), None)
      else Outcome(u.(disk := disk1), None)
  }

  // ---------------------------------------------------------------------------
  // The window object
  // ---------------------------------------------------------------------------

  class ImageView {
    var folder: Path
    var imageList: seq<string>
    var imageIndex: int
    var imagePath: Path
    var filename: string
    var caption: string
    var disk: map<Path, string>
    var dirs: set<Path>

    function State(): View
      reads this
    {
      View(folder, imageList, imageIndex, imagePath, filename, caption, disk, dirs)
    }

    constructor(disk0: map<Path, string>, dirs0: set<Path>)
      ensures State() == Initial(disk0, dirs0)
    {
      folder, imageList, imageIndex := "", [], 0;
      imagePath, filename, caption := "", "", "";
      disk, dirs := disk0, dirs0;
    }

    method WriteLabelTxt() returns (err: Option<PyError>)
      modifies this
      ensures Outcome(State(), err) == WriteLabelSpec(old(State()))
    {
      var r := PyIndex(imageList, imageIndex);
      if r.Err? {
        return Some(r.error);
      }
      var labelTxtFile := LabelFile(folder, r.value);
      var currentLabelText := Normalize(caption);
      if currentLabelText != "" {
        disk := disk[labelTxtFile := currentLabelText];
      }
      return None;
    }

    method LoadLabelTxt() returns (err: Option<PyError>)
      modifies this
      ensures Outcome(State(), err) == LoadLabelSpec(old(State()))
    {
      caption := "";
      var r := PyIndex(imageList, imageIndex);
      if r.Err? {
        return Some(r.error);
      }
      var labelTxtFile := LabelFile(folder, r.value);
      if labelTxtFile in disk {
        caption := disk[labelTxtFile];
      }
      return None;
    }

    method LoadImage() returns (err: Option<PyError>)
      modifies this
      ensures Outcome(State(), err) == LoadImageSpec(old(State()))
    {
      var r := PyIndex(imageList, imageIndex);
      if r.Err? {
        return Some(r.error);
      }
      imagePath := Join(folder, r.value);
      filename := r.value;
      if imagePath !in disk {
        return Some(FileNotFound);
      }
      return None;
    }

    method OpenFolder(chosen: Path, listing: seq<string>) returns (err: Option<PyError>)
      modifies this
      ensures Outcome(State(), err) == OpenFolderSpec(old(State()), chosen, listing)
    {
      folder := chosen;
      imageList := [];
      for k := 0 to |listing|
        invariant State() == old(State()).(folder := chosen, imageList := ListedImages(listing[..k]))
      {
        var f := listing[k];
        assert listing[..k + 1][..k] == listing[..k];
        if Suffix(f) == ".jpg" || Suffix(f) == ".png" {
          imageList := imageList + [f];
        }
      }
      assert listing[..|listing|] == listing;
      imageList := Sort(imageList);
      err := LoadImage();
      if err.Some? {
        return;
      }
      err := LoadLabelTxt();
    }

    method GoToImage(index: int) returns (err: Option<PyError>)
      modifies this
      ensures Outcome(State(), err) == GoToSpec(old(State()), index)
    {
      ghost var v := State();
      err := WriteLabelTxt();
      if err.Some? {
        return;
      }
      imageIndex := index;
      ghost var u := State();
      assert u == WriteLabelSpec(v).view.(imageIndex := index);
      err := LoadLabelTxt();
      if err.Some? {
        return;
      }
      assert State() == LoadLabelSpec(u).view;
      err := LoadImage();
    }

    method NextImage() returns (err: Option<PyError>)
      modifies this
      ensures Outcome(State(), err) == NextSpec(old(State()))
    {
      ghost var v := State();
      err := WriteLabelTxt();
      if err.Some? {
        return;
      }
      imageIndex := imageIndex + 1;
      if imageIndex >= |imageList| {
        imageIndex := 0;
      }
      ghost var u := State();
      assert u == WriteLabelSpec(v).view.(imageIndex := NextIndex(v.imageIndex, |v.imageList|));
      err := LoadLabelTxt();
      if err.Some? {
        return;
      }
      assert State() == LoadLabelSpec(u).view;
      err := LoadImage();
    }

    method PrevImage() returns (err: Option<PyError>)
      modifies this
      ensures Outcome(State(), err) == PrevSpec(old(State()))
    {
      ghost var v := State();
      err := WriteLabelTxt();
      if err.Some? {
        return;
      }
      imageIndex := imageIndex - 1;
      if imageIndex < 0 {
        imageIndex := |imageList| - 1;
      }
      ghost var u := State();
      assert u == WriteLabelSpec(v).view.(imageIndex := PrevIndex(v.imageIndex, |v.imageList|));
      err := LoadLabelTxt();
      if err.Some? {
        return;
      }
      assert State() == LoadLabelSpec(u).view;
      err := LoadImage();
    }

    method DeleteImage() returns (err: Option<PyError>)
      modifies this
      ensures Outcome(State(), err) == DeleteSpec(old(State()))
    {
      if |imageList| == 0 {
        return None;
      }
      var r := PyIndex(imageList, imageIndex);
      if r.Err? {
        return Some(r.error);
      }
      var curImageName := r.value;
      var curFolder := folder;
      var curImagePath := Join(curFolder, curImageName);
      err := NextImage();
      if err.Some? {
        return;
      }
      err := MoveToDeleted(curImagePath, curImageName, curFolder);
    }

    /** The part of `delete_image` after `next_image`: the moves into `_deleted` of the folder the image came from. */
    method MoveToDeleted(curImagePath: Path, curImageName: string, curFolder: Path) returns (err: Option<PyError>)
      requires curImagePath == Join(curFolder, curImageName)
      modifies this
      ensures Outcome(State(), err) == MoveToDeletedSpec(old(State()), curFolder, curImageName)
    {
      var deletedFolder := DeletedFolder(curFolder);
      dirs := dirs + {deletedFolder};
      var moved := Rename(disk, curImagePath, Join(deletedFolder, curImageName));
      if moved.Err? {
        return Some(moved.error);
      }
      disk := moved.value;
      var txtFileName := Stem(curImageName) + ".txt";
      var labelTxtFile := Join(curFolder, txtFileName);
      if labelTxtFile in disk {
        var movedLabel := Rename(disk, labelTxtFile, Join(deletedFolder, txtFileName));
        disk := movedLabel.value;
      }
      return None;
    }
  }

  // ---------------------------------------------------------------------------
  // Properties
  // ---------------------------------------------------------------------------

  /** An index Python accepts for the list: in `[-len, len)`. */
  predicate IndexAccepted(v: View) {
    -|v.imageList| <= v.imageIndex < |v.imageList|
  }

  /** Saving the caption changes only the shown image's sidecar, and only when the text is not blank. */
  lemma WriteLabelProps(v: View)
    requires IndexAccepted(v)
    ensures WriteLabelSpec(v).error.None?
    ensures WriteLabelSpec(v).view.(disk := v.disk) == v
    ensures var name := v.imageList[if v.imageIndex < 0 then v.imageIndex + |v.imageList| else v.imageIndex];
            var text := Normalize(v.caption);
            (text == "" ==> WriteLabelSpec(v).view.disk == v.disk) &&
            (text != "" ==> WriteLabelSpec(v).view.disk == v.disk[LabelFile(v.folder, name) := text])
  {
  }

  /**
   * The text written is the typed text with its CR and LF characters
   * filtered out and then cut to the slice between its leading and trailing
   * white space: it holds no line break, starts and ends with no white
   * space, and keeps everything in between in order.
   */
  lemma NormalizeProps(text: string)
    ensures '\r' !in Normalize(text) && '\n' !in Normalize(text)
    ensures Normalize(text) == [] || (!IsSpace(Normalize(text)[0]) && !IsSpace(Normalize(text)[|Normalize(text)| - 1]))
    ensures var t := Without(text, "\r\n"); var i := |t| - |LStrip(t)|; var j := i + |Normalize(text)|;
            && 0 <= i <= j <= |t| && Normalize(text) == t[i..j]
            && (forall k :: 0 <= k < i ==> IsSpace(t[k]))
            && (forall k :: j <= k < |t| ==> IsSpace(t[k]))
  {
    NormalizeEnds(text);
    NormalizeSlice(text);
  }

  lemma NormalizeEnds(text: string)
    ensures '\r' !in Normalize(text) && '\n' !in Normalize(text)
    ensures Normalize(text) == [] || (!IsSpace(Normalize(text)[0]) && !IsSpace(Normalize(text)[|Normalize(text)| - 1]))
  {
    var removed := RemoveEach(text, "\r\n");
    assert '\r' !in removed && '\n' !in removed by {
      RemoveEachProps(text, "\r\n");
      assert '\r' in "\r\n" && '\n' in "\r\n";
    }
    assert Normalize(text) == Strip(removed);
    StripProps(removed);
  }

  lemma NormalizeSlice(text: string)
    ensures var t := Without(text, "\r\n"); var i := |t| - |LStrip(t)|; var j := i + |Normalize(text)|;
            && 0 <= i <= j <= |t| && Normalize(text) == t[i..j]
            && (forall k :: 0 <= k < i ==> IsSpace(t[k]))
            && (forall k :: j <= k < |t| ==> IsSpace(t[k]))
  {
    var t := Without(text, "\r\n");
    assert Normalize(text) == Strip(t) by {
      RemoveEachProps(text, "\r\n");
    }
    StrippedSlice(t, Normalize(text));
  }

  /** `StripProps`' slice, for a name of the stripped text. */
  lemma StrippedSlice(t: string, n: string)
    requires n == Strip(t)
    ensures var i := |t| - |LStrip(t)|; var j := i + |n|;
            && 0 <= i <= j <= |t| && n == t[i..j]
            && (forall k :: 0 <= k < i ==> IsSpace(t[k]))
            && (forall k :: j <= k < |t| ==> IsSpace(t[k]))
  {
    StripProps(t);
  }

  /**
   * From an accepted index, reloading names the image at that index and
   * changes neither folder, list, index nor files; it succeeds exactly when
   * that image's file exists, and raises FileNotFoundError otherwise.
   */
  lemma ReloadValid(v: View)
    requires IndexAccepted(v)
    ensures Reload(v).view.folder == v.folder && Reload(v).view.imageList == v.imageList
    ensures Reload(v).view.imageIndex == v.imageIndex
    ensures Reload(v).view.filename == v.imageList[if v.imageIndex < 0 then v.imageIndex + |v.imageList| else v.imageIndex]
    ensures Reload(v).view.disk == v.disk
    ensures Reload(v).error.None? <==> Join(v.folder, Reload(v).view.filename) in v.disk
    ensures Reload(v).error.Some? ==> Reload(v).error == Some(FileNotFound)
  {
  }

  /**
   * `next_image` on a non-empty list with an index in `[0, len)`: the next
   * index, wrapping from the last to 0. Only a missing image file at the new
   * index makes it raise, and then with FileNotFoundError.
   */
  lemma NextWraps(v: View)
    requires 0 <= v.imageIndex < |v.imageList|
    ensures NextSpec(v).view.imageIndex == if v.imageIndex == |v.imageList| - 1 then 0 else v.imageIndex + 1
    ensures 0 <= NextSpec(v).view.imageIndex < |v.imageList|
    ensures NextSpec(v).view.folder == v.folder && NextSpec(v).view.imageList == v.imageList
    ensures NextSpec(v).error.None? <==> Join(v.folder, v.imageList[NextSpec(v).view.imageIndex]) in NextSpec(v).view.disk
    ensures NextSpec(v).error.Some? ==> NextSpec(v).error == Some(FileNotFound)
  {
    WriteLabelProps(v);
    var u := WriteLabelSpec(v).view.(imageIndex := NextIndex(v.imageIndex, |v.imageList|));
    ReloadValid(u);
  }

  /**
   * `prev_image` on a non-empty list with an index in `[0, len)`: the
   * previous index, wrapping from 0 to the last. Only a missing image file
   * at the new index makes it raise, and then with FileNotFoundError.
   */
  lemma PrevWraps(v: View)
    requires 0 <= v.imageIndex < |v.imageList|
    ensures PrevSpec(v).view.imageIndex == if v.imageIndex == 0 then |v.imageList| - 1 else v.imageIndex - 1
    ensures 0 <= PrevSpec(v).view.imageIndex < |v.imageList|
    ensures PrevSpec(v).view.folder == v.folder && PrevSpec(v).view.imageList == v.imageList
    ensures PrevSpec(v).error.None? <==> Join(v.folder, v.imageList[PrevSpec(v).view.imageIndex]) in PrevSpec(v).view.disk
    ensures PrevSpec(v).error.Some? ==> PrevSpec(v).error == Some(FileNotFound)
  {
    WriteLabelProps(v);
    var u := WriteLabelSpec(v).view.(imageIndex := PrevIndex(v.imageIndex, |v.imageList|));
    ReloadValid(u);
  }

  /**
   * `next_image` followed by `prev_image` comes back to the same index, even
   * when `next_image` raised on a missing file; the second step succeeds
   * exactly when the original image's file is there.
   */
  lemma NextThenPrev(v: View)
    requires 0 <= v.imageIndex < |v.imageList|
    ensures PrevSpec(NextSpec(v).view).view.imageIndex == v.imageIndex
    ensures PrevSpec(NextSpec(v).view).error.None? <==>
            Join(v.folder, v.imageList[v.imageIndex]) in PrevSpec(NextSpec(v).view).view.disk
  {
    NextWraps(v);
    var n := NextSpec(v).view;
    PrevWraps(n);
    assert n.folder == v.folder && n.imageList == v.imageList;
  }

  /**
   * `go_to_image` stores any index. It raises IndexError (after storing it)
   * when Python rejects the index; otherwise it succeeds exactly when the
   * image file at that index exists.
   */
  lemma GoToUnchecked(v: View, index: int)
    requires IndexAccepted(v)
    ensures GoToSpec(v, index).view.imageIndex == index
    ensures !(-|v.imageList| <= index < |v.imageList|) ==> GoToSpec(v, index).error == Some(IndexError)
    ensures -|v.imageList| <= index < |v.imageList| ==>
            (GoToSpec(v, index).error.None? <==>
             Join(v.folder, v.imageList[if index < 0 then index + |v.imageList| else index]) in GoToSpec(v, index).view.disk)
  {
    WriteLabelProps(v);
    var u := WriteLabelSpec(v).view.(imageIndex := index);
    assert GoToSpec(v, index) == Reload(u);
    if -|v.imageList| <= index < |v.imageList| {
      ReloadValid(u);
    } else {
      assert Reload(u) == Outcome(u.(caption := ""), Some(IndexError));
    }
  }

  /** With an index Python rejects, `next_image` and `prev_image` raise before changing anything. */
  lemma StuckOutsideRange(v: View)
    requires !IndexAccepted(v)
    ensures NextSpec(v) == Outcome(v, Some(IndexError))
    ensures PrevSpec(v) == Outcome(v, Some(IndexError))
  {
  }

  /**
   * Shift+Page Down near the end of the list: `go_to_image(image_index + 10)`
   * stores an index past the end, and from then on `next_image` and
   * `prev_image` raise every time.
   */
  lemma JumpPastEndSticks(v: View)
    requires 0 <= v.imageIndex < |v.imageList| <= v.imageIndex + 10
    ensures GoToSpec(v, v.imageIndex + 10).error == Some(IndexError)
    ensures var after := GoToSpec(v, v.imageIndex + 10).view;
            NextSpec(after) == Outcome(after, Some(IndexError)) &&
            PrevSpec(after) == Outcome(after, Some(IndexError))
  {
    GoToUnchecked(v, v.imageIndex + 10);
    StuckOutsideRange(GoToSpec(v, v.imageIndex + 10).view);
  }

  /** The index a jump evidently means: the requested one, kept inside `[0, len)`. */
  function Clamp(index: int, len: nat): int {
    if index >= len then len - 1 else if index < 0 then 0 else index
  }

  /** A jump that clamps its target never leaves the view stuck. */
  function GoToClamped(v: View, index: int): Outcome {
    GoToSpec(v, Clamp(index, |v.imageList|))
  }

  lemma GoToClampedStaysValid(v: View, index: int)
    requires 0 <= v.imageIndex < |v.imageList|
    ensures 0 <= GoToClamped(v, index).view.imageIndex < |v.imageList|
    ensures GoToClamped(v, index).error != Some(IndexError)
    ensures GoToClamped(v, index).error.None? <==>
            Join(v.folder, v.imageList[Clamp(index, |v.imageList|)]) in GoToClamped(v, index).view.disk
    ensures NextSpec(GoToClamped(v, index).view).error != Some(IndexError)
  {
    GoToUnchecked(v, Clamp(index, |v.imageList|));
    WriteLabelProps(v);
    var u := WriteLabelSpec(v).view.(imageIndex := Clamp(index, |v.imageList|));
    ReloadValid(u);
    NextWraps(GoToClamped(v, index).view);
  }

  /** Which names `open_folder` keeps: exactly the `.jpg`/`.png` ones, case-sensitively. */
  lemma {:induction false} ListedImagesMembers(listing: seq<string>)
    ensures forall f :: f in ListedImages(listing) <==> f in listing && IsListedImage(f)
    decreases |listing|
  {
    if listing != [] {
      ListedImagesMembers(listing[..|listing| - 1]);
      assert listing == listing[..|listing| - 1] + [listing[|listing| - 1]];
    }
  }

  /** After `open_folder`, the list is the sorted listing of `.jpg`/`.png` names, each as often as listed. */
  lemma OpenFolderList(v: View, chosen: Path, listing: seq<string>)
    ensures OpenFolderSpec(v, chosen, listing).view.folder == chosen
    ensures Sorted(OpenFolderSpec(v, chosen, listing).view.imageList)
    ensures multiset(OpenFolderSpec(v, chosen, listing).view.imageList) == multiset(ListedImages(listing))
    ensures forall f :: f in OpenFolderSpec(v, chosen, listing).view.imageList <==> f in listing && IsListedImage(f)
    ensures OpenFolderSpec(v, chosen, listing).view.imageIndex == v.imageIndex
  {
    OpenFolderFields(v, chosen, listing);
    SortedListing(listing);
  }

  /** `open_folder` sets the folder and the list and leaves the index alone, whether or not a load raises. */
  lemma OpenFolderFields(v: View, chosen: Path, listing: seq<string>)
    ensures OpenFolderSpec(v, chosen, listing).view.folder == chosen
    ensures OpenFolderSpec(v, chosen, listing).view.imageList == Sort(ListedImages(listing))
    ensures OpenFolderSpec(v, chosen, listing).view.imageIndex == v.imageIndex
  {
  }

  /** The sorted `.jpg`/`.png` names of a listing: ordered, and each listed image as often as listed. */
  lemma SortedListing(listing: seq<string>)
    ensures Sorted(Sort(ListedImages(listing)))
    ensures multiset(Sort(ListedImages(listing))) == multiset(ListedImages(listing))
    ensures forall f :: f in Sort(ListedImages(listing)) <==> f in listing && IsListedImage(f)
  {
    SortProps(ListedImages(listing));
    ListedImagesMembers(listing);
    var s := Sort(ListedImages(listing));
    forall f ensures f in s <==> f in ListedImages(listing) {
      assert f in s <==> f in multiset(s);
    }
  }

  /**
   * `open_folder` keeps the old index: after viewing image `k` of a folder,
   * opening a folder with at most `k` images raises `IndexError`.
   */
  lemma OpenSmallerFolderFails(v: View, chosen: Path, listing: seq<string>)
    requires 0 <= |ListedImages(listing)| <= v.imageIndex
    ensures OpenFolderSpec(v, chosen, listing).error == Some(IndexError)
  {
    SortProps(ListedImages(listing));
    assert |multiset(Sort(ListedImages(listing)))| == |multiset(ListedImages(listing))|;
  }

  /** Opening a folder evidently starts at its first image. */
  function OpenFolderFromStart(v: View, chosen: Path, listing: seq<string>): Outcome {
    OpenFolderSpec(v.(imageIndex := 0), chosen, listing)
  }

  lemma OpenFolderFromStartShowsFirst(v: View, chosen: Path, listing: seq<string>)
    requires ListedImages(listing) != []
    ensures OpenFolderFromStart(v, chosen, listing).view.imageIndex == 0
    ensures OpenFolderFromStart(v, chosen, listing).view.filename == Sort(ListedImages(listing))[0]
    ensures OpenFolderFromStart(v, chosen, listing).error != Some(IndexError)
    ensures OpenFolderFromStart(v, chosen, listing).error.None? <==> Join(chosen, Sort(ListedImages(listing))[0]) in v.disk
  {
    SortProps(ListedImages(listing));
    assert |multiset(Sort(ListedImages(listing)))| == |multiset(ListedImages(listing))|;
  }

  /** `delete_image` on an empty list changes nothing. */
  lemma DeleteEmpty(v: View)
    requires v.imageList == []
    ensures DeleteSpec(v) == Outcome(v, None)
  {
  }

  /** A name without '/' keeps no '/' when its extension is swapped for `.txt`. */
  lemma SidecarNamePlain(name: string)
    requires '/' !in name
    ensures Stem(name) + ".txt" != [] && '/' !in Stem(name) + ".txt"
  {
    SuffixProps(name);
    assert StartsWith(name, Stem(name));
    PrefixChars(name, Stem(name));
    var t := Stem(name) + ".txt";
    forall i | 0 <= i < |t| ensures t[i] != '/' {
      if i < |Stem(name)| { assert t[i] in Stem(name); }
    }
  }

  /** Inside `_deleted` is never a plain name of the folder itself. */
  lemma DeletedApart(folder: Path, a: string, b: string)
    requires folder != [] && folder[|folder| - 1] != '/'
    requires a != [] && '/' !in a && b != [] && '/' !in b
    ensures Join(DeletedFolder(folder), a) != Join(folder, b)
  {
    JoinPlain(folder, "_deleted");
    var d := folder + "/" + "_deleted";
    assert d[|d| - 1] == 'd';
    JoinPlain(d, a);
    JoinPlain(folder, b);
    assert (d + "/" + a)[|folder| + 9] == '/';
  }

  /** Two different plain names joined onto one directory are two different paths. */
  lemma PlainJoinDistinct(dir: Path, a: string, b: string)
    requires dir != [] && dir[|dir| - 1] != '/'
    requires a != [] && '/' !in a && b != [] && '/' !in b && a != b
    ensures Join(dir, a) != Join(dir, b)
  {
    JoinPlain(dir, a);
    JoinPlain(dir, b);
    if |a| == |b| {
      assert (dir + "/" + a)[|dir| + 1..] == a && (dir + "/" + b)[|dir| + 1..] == b;
    }
  }

  /** The four paths a move into `_deleted` touches: which of them can coincide. */
  lemma MovePathsApart(folder: Path, cur: string)
    requires folder != [] && folder[|folder| - 1] != '/'
    requires cur != [] && '/' !in cur
    ensures var txt, deleted := Stem(cur) + ".txt", DeletedFolder(folder);
            && Join(deleted, cur) != Join(folder, cur) && Join(deleted, cur) != Join(folder, txt)
            && Join(deleted, txt) != Join(folder, cur) && Join(deleted, txt) != Join(folder, txt)
            && (Join(folder, txt) == Join(folder, cur) <==> txt == cur)
            && (Join(deleted, txt) == Join(deleted, cur) <==> txt == cur)
  {
    var txt, deleted := Stem(cur) + ".txt", DeletedFolder(folder);
    SidecarNamePlain(cur);
    DeletedApart(folder, cur, cur);
    DeletedApart(folder, cur, txt);
    DeletedApart(folder, txt, cur);
    DeletedApart(folder, txt, txt);
    if txt != cur {
      PlainJoinDistinct(folder, txt, cur);
      JoinPlain(folder, "_deleted");
      assert deleted == folder + "/" + "_deleted";
      assert deleted[|deleted| - 1] == 'd';
      PlainJoinDistinct(deleted, txt, cur);
    }
  }

  /**
   * Moving image `cur` of `folder` into `_deleted`: `_deleted` exists
   * afterwards. A missing image raises FileNotFoundError and changes no
   * file. Otherwise the image leaves the folder and reappears in
   * `_deleted` with the same contents, and a sidecar `stem + '.txt'`
   * present in the folder does the same. No other path changes.
   */
  lemma MoveToDeletedProps(w: View, folder: Path, cur: string)
    requires folder != [] && folder[|folder| - 1] != '/'
    requires cur != [] && '/' !in cur
    ensures var r := MoveToDeletedSpec(w, folder, cur);
            r.view.(disk := w.disk, dirs := w.dirs) == w && r.view.dirs == w.dirs + {DeletedFolder(folder)}
    ensures var r := MoveToDeletedSpec(w, folder, cur);
            (r.error.Some? <==> Join(folder, cur) !in w.disk) &&
            (r.error.Some? ==> r.error == Some(FileNotFound) && r.view.disk == w.disk)
    ensures var r, image, moved := MoveToDeletedSpec(w, folder, cur), Join(folder, cur), Join(DeletedFolder(folder), cur);
            r.error.None? ==> image !in r.view.disk && moved in r.view.disk && r.view.disk[moved] == w.disk[image]
    ensures var r, txt := MoveToDeletedSpec(w, folder, cur), Stem(cur) + ".txt";
            var sidecar, moved := Join(folder, txt), Join(DeletedFolder(folder), txt);
            r.error.None? && sidecar in w.disk ==>
              sidecar !in r.view.disk && moved in r.view.disk && r.view.disk[moved] == w.disk[sidecar]
    ensures var r, txt, deleted := MoveToDeletedSpec(w, folder, cur), Stem(cur) + ".txt", DeletedFolder(folder);
            forall p :: p != Join(folder, cur) && p != Join(folder, txt) && p != Join(deleted, cur) && p != Join(deleted, txt) ==>
              (p in r.view.disk <==> p in w.disk) && (p in w.disk ==> r.view.disk[p] == w.disk[p])
  {
    var deleted, txt := DeletedFolder(folder), Stem(cur) + ".txt";
    var image, sidecar := Join(folder, cur), Join(folder, txt);
    MovePathsApart(folder, cur);
    if image in w.disk {
      var disk1 := Rename(w.disk, image, Join(deleted, cur)).value;
      RenameProps(w.disk, image, Join(deleted, cur));
      if sidecar in disk1 {
        RenameProps(disk1, sidecar, Join(deleted, txt));
      }
    }
  }

  /** `os.rename` of an existing file: the contents move to the target and no other path changes. */
  lemma RenameProps(disk: map<Path, string>, source: Path, target: Path)
    requires source in disk
    ensures var r := Rename(disk, source, target);
            && r.Ok? && target in r.value && r.value[target] == disk[source]
            && (source != target ==> source !in r.value)
            && forall p :: p != source && p != target ==> (p in r.value <==> p in disk) && (p in disk ==> r.value[p] == disk[p])
  {
  }

  /**
   * `delete_image` never removes the entry from the list; when the image
   * it moves on to and the current one are both there, it has moved on
   * like `next_image` and the image file has
   * moved from the folder into `_deleted` with its contents. Its sidecar,
   * when present after `next_image` saved the caption, moved there too, so
   * a caption that was not blank is kept in `_deleted`.
   */
  lemma DeleteMovesImage(v: View)
    requires 0 <= v.imageIndex < |v.imageList|
    requires v.folder != [] && v.folder[|v.folder| - 1] != '/'
    requires v.imageList[v.imageIndex] != [] && '/' !in v.imageList[v.imageIndex]
    requires Join(v.folder, v.imageList[v.imageIndex]) in NextSpec(v).view.disk
    requires Join(v.folder, v.imageList[NextIndex(v.imageIndex, |v.imageList|)]) in NextSpec(v).view.disk
    ensures DeleteSpec(v).error.None?
    ensures DeleteSpec(v).view.imageList == v.imageList
    ensures DeleteSpec(v).view.imageIndex == NextSpec(v).view.imageIndex
    ensures DeletedFolder(v.folder) in DeleteSpec(v).view.dirs
    ensures Join(v.folder, v.imageList[v.imageIndex]) !in DeleteSpec(v).view.disk
    ensures Join(DeletedFolder(v.folder), v.imageList[v.imageIndex]) in DeleteSpec(v).view.disk
    ensures DeleteSpec(v).view.disk[Join(DeletedFolder(v.folder), v.imageList[v.imageIndex])] ==
            NextSpec(v).view.disk[Join(v.folder, v.imageList[v.imageIndex])]
    ensures var cur := v.imageList[v.imageIndex]; var sidecar := LabelFile(v.folder, cur);
            var moved := Join(DeletedFolder(v.folder), Stem(cur) + ".txt");
            sidecar in NextSpec(v).view.disk ==>
              sidecar !in DeleteSpec(v).view.disk && moved in DeleteSpec(v).view.disk &&
              DeleteSpec(v).view.disk[moved] == NextSpec(v).view.disk[sidecar]
    ensures var cur := v.imageList[v.imageIndex]; var moved := Join(DeletedFolder(v.folder), Stem(cur) + ".txt");
            Normalize(v.caption) != "" ==> moved in DeleteSpec(v).view.disk && DeleteSpec(v).view.disk[moved] == Normalize(v.caption)
  {
    NextWraps(v);
    var cur := v.imageList[v.imageIndex];
    var n := NextSpec(v);
    assert n.view.imageIndex == NextIndex(v.imageIndex, |v.imageList|);
    assert n.error.None?;
    assert DeleteSpec(v) == MoveToDeletedSpec(n.view, v.folder, cur);
    MoveToDeletedProps(n.view, v.folder, cur);
    if Normalize(v.caption) != "" {
      WriteLabelProps(v);
      var u := WriteLabelSpec(v).view.(imageIndex := NextIndex(v.imageIndex, |v.imageList|));
      ReloadValid(u);
      assert n.view.disk[LabelFile(v.folder, cur)] == Normalize(v.caption);
    }
  }

  /**
   * When the image `next_image` moves on to is missing (the list keeps the
   * entries deleted before), `load_image` raises FileNotFoundError and
   * `delete_image` stops before its moves: only the caption was saved, and
   * the current image stays in the folder.
   */
  lemma DeleteStopsWhenNextMissing(v: View)
    requires 0 <= v.imageIndex < |v.imageList|
    requires Join(v.folder, v.imageList[NextIndex(v.imageIndex, |v.imageList|)]) !in NextSpec(v).view.disk
    ensures DeleteSpec(v) == NextSpec(v)
    ensures DeleteSpec(v).error == Some(FileNotFound)
    ensures DeleteSpec(v).view.dirs == v.dirs
    ensures DeleteSpec(v).view.disk == WriteLabelSpec(v).view.disk
    ensures Join(v.folder, v.imageList[v.imageIndex]) in v.disk ==> Join(v.folder, v.imageList[v.imageIndex]) in DeleteSpec(v).view.disk
  {
    NextWraps(v);
    WriteLabelProps(v);
    var u := WriteLabelSpec(v).view.(imageIndex := NextIndex(v.imageIndex, |v.imageList|));
    ReloadValid(u);
  }
}
