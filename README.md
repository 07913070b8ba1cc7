# EveryDream data-preparation tools, modelled in Dafny

This project models the deterministic core of the data-preparation scripts of
EveryDream. EveryDream is a toolkit for fine-tuning image-generation models on
captioned image folders. Every script walks a folder of images and either
renames files, writes caption sidecar files (`name.txt` beside `name.jpg`) or
moves files aside. One Dafny module models one script:

| module | script | what it does |
|---|---|---|
| `DupeFinder` | `dupe_finder.py` | Collects the images of a walk and fingerprints each one, plain and mirrored, into an index where the first file seen wins. It records later files that collide as duplicates, checkpoints the index as text lines every tenth of the run, and moves the duplicates into `duplicates/`. |
| `DownloadLaion` | `scripts/download_laion.py` | Turns a caption into a safe file name (`cleanup_text`), guesses an extension from an image URL (`get_file_extension`) and builds the download target. |
| `TextToFilename` | `text_to_filename.py` | Groups images and `.txt` files by base name. It renames the image of each two-file group after its caption, numbered by a counter shared across the walk. |
| `ImageCaptionGui` | `scripts/image_caption_gui.py` | The `ImageView` class: opening a folder, the sorted image list with a wrapping index, reading and writing the caption sidecar, jumping, and moving an image to `_deleted`. |
| `Caption` | `caption.py` | Replaces the first noun of a generated caption by the folder name. It also filters files by extension and writes the sidecar, guarded by an existence test. |
| `BulkRename` | `bulk_rename.py` | Rewrites each directory path into a name and renames the i-th file of the directory `name_<i+1><ext>`. |
| `CreateTxtFromFilename` | `scripts/createtxtfromfilename.py` | Writes, beside every image, a `.txt` file holding the file name up to its first `_`. |
| `FilenameReplace` | `scripts/filename_replace.py` | Renames image files by replacing each of several comma-separated find strings. |

Three shared modules hold the Python library behaviour the scripts rely on:

- `PyStr` models `str.replace`, `split`, `join`, `strip` and `str(int)`.
- `PyPath` models POSIX `os.path.join`, `basename`, `dirname` and `splitext`, and `pathlib`'s `suffix` and `stem`.
- `Wrappers` holds `Option`, `Result` and the two Python exceptions the scripts let escape, `IndexError` and `FileNotFoundError`.

The file system, directory walks and listings, the captioning model, the
part-of-speech tagger and the image hash are inputs: sequences, sets, maps and
function-valued parameters. Each script's effects (renames, writes, moves) are
the model's outputs.

The code is modelled in the form it has:

- Loops that build lists and dictionaries are methods with loop invariants. Each is proved equal to a recursive specification function, and the properties are proved as lemmas about that function.
- `ImageView` is a class whose fields the methods update. Each method is proved against a transition function on a `View` value.
- String and path computations are functions.

## Model

| member | source | states |
|---|---|---|
| DupeFinder.ImagesInDirMembers | dupe_finder.py:26-29 | A directory contributes at most one path per name. Every name whose lower-cased form ends in .png/.jpg/.jpeg/.gif/.webp contributes its joined path, and every contributed path comes from such a name. |
| DupeFinder.CollectImages | dupe_finder.py:24-29 | The loop's `image_files` is exactly `ImagesIn(walk)`: the image names of each directory joined onto it, directory by directory in walk order. |
| DupeFinder.ObserveProps | dupe_finder.py:44-51 | One file never overwrites an existing key. If neither fingerprint is present, both keys are registered to the file. Otherwise exactly one record is appended, naming the owner of the plain fingerprint when it is present and of the flipped one otherwise. Insertion order is extended accordingly. |
| DupeFinder.Scan | dupe_finder.py:31-51 | The keys of `image_hashes` are exactly the entries of its insertion order, which has no repeats. |
| DupeFinder.ScanStep | dupe_finder.py:43-51 | The index after i+1 files is one loop step applied to the index after i files. |
| DupeFinder.ScanCoherent | dupe_finder.py:45-51 | Every value of the index is a scanned file. Every record names a scanned file as duplicate and a registered value as original. |
| DupeFinder.ScanKeepsEarlier | dupe_finder.py:45-51 | First seen wins: an entry present after a prefix of the files stays, with the same path, to the end. Records are only ever appended. |
| DupeFinder.DuplicateOriginalIsEarlier | dupe_finder.py:45-48 | A record added for file i names file i as duplicate and, as original, a file before it that was registered in the index. |
| DupeFinder.ValuesAfterRegister | dupe_finder.py:49-51 | Registering both fresh fingerprints adds exactly the file to the index's values. |
| DupeFinder.PartitionStep | dupe_finder.py:43-51 | One step keeps "registered files + duplicates = files seen" and keeps duplicates out of the registered files. |
| DupeFinder.ScanPartition | dupe_finder.py:43-51 | For distinct files, the number of registered files plus the number of duplicates is the number of files, and no duplicate is registered. |
| DupeFinder.OriginalNeverDuplicate | dupe_finder.py:45-51 | For distinct files, no record's original is any record's duplicate. |
| DupeFinder.FirstSeenWinsExample | dupe_finder.py:45-51 | Three files A, B, C with equal fingerprints yield the records (B, A) and (C, A). |
| DupeFinder.SaveInterval | dupe_finder.py:37-39 | `save_interval` is at least 1: len/10 for ten or more files, 1 below ten. |
| DupeFinder.SaveStepsMembers | dupe_finder.py:43-54 | A checkpoint is written at step i exactly when i < len and i is a multiple of the interval, so step 0 always writes one. |
| DupeFinder.LastSave | dupe_finder.py:54 | The last checkpoint step is before the end and is a multiple of the interval. |
| DupeFinder.LastSaveIsLast | dupe_finder.py:54 | No step after the last checkpoint step is a multiple of the interval. |
| DupeFinder.CheckpointLines | dupe_finder.py:55-57 | The checkpoint has one line per key of the index. |
| DupeFinder.CheckpointLineRoundTrip | dupe_finder.py:57 | A line `hash,path\n` whose hash has no comma parses back to the same (hash, path). |
| DupeFinder.CheckpointCoversIndex | dupe_finder.py:55-57 | The final checkpoint has exactly one line per key, and holds the `hash,path` line of every entry. |
| DupeFinder.ObserveFile | dupe_finder.py:44-51 | The loop body updates dict, order and list exactly as one step of the specification. |
| DupeFinder.WriteCheckpoint | dupe_finder.py:55-57 | The lines written are the entries in insertion order. |
| DupeFinder.CheckpointedStep | dupe_finder.py:54-57 | After step i the file holds the current index when i is a multiple of the interval, and what it held before otherwise. |
| DupeFinder.SaveStepWrites | dupe_finder.py:54-57 | At a multiple of the interval the file is overwritten with the index after that file. |
| DupeFinder.SaveStepKeeps | dupe_finder.py:54-57 | At other steps the file is unchanged. |
| DupeFinder.HashImages | dupe_finder.py:31-59 | The hashing loop produces the specified index, writes checkpoints at exactly the specified steps, and leaves the specified file contents. |
| DupeFinder.QuarantineKeepsName | dupe_finder.py:71-77 | A duplicate moves to `input_dir/duplicates/<basename>`: its base name is kept and its directory is the quarantine folder. |
| DupeFinder.QuarantineNameClash | dupe_finder.py:75-78 | Two duplicates with the same base name get the same target; no suffix disambiguates them. |
| DupeFinder.MoveDuplicates | dupe_finder.py:70-80 | The folder is created only when missing. There is one move per record, in order, from the duplicate to its quarantine path, and the reported count is the number of records. |
| DupeFinder.FindDuplicates | dupe_finder.py:23-68 | The whole run: the index is the scan of the discovered images, every record is moved, and a checkpoint exists iff at least one image was found. |
| DupeFinder.ScanExample | dupe_finder.py:45-51 | A, B with equal fingerprints and an unrelated C yield only (B, A). |
| DupeFinder.DiscoveryExample | dupe_finder.py:25-29 | Three image names and one other name in a directory yield the three joined paths in order. |
| DupeFinder.EndToEndExample | dupe_finder.py:23-78 | From walk to quarantine path on a concrete directory: one duplicate found and moved under its own name. |
| DownloadLaion.StripNonAscii | scripts/download_laion.py:115 | The result is all ASCII, draws only on the input's characters, and leaves ASCII input unchanged. |
| DownloadLaion.StripNonAsciiAppend | scripts/download_laion.py:115 | Removing non-ASCII characters distributes over concatenation. |
| DownloadLaion.LastClose | scripts/download_laion.py:116-117 | A greedy `.*</div>` match ends at an occurrence of the closing tag with no newline before it. |
| DownloadLaion.LastCloseGreedy | scripts/download_laion.py:116-117 | The match is greedy: any later closing tag lies past a newline. |
| DownloadLaion.RegexRemove | scripts/download_laion.py:116-117 | Removing `<div.*</div>` or `<span.*</span>` never lengthens the text or adds characters, and changes nothing when there is no `<`. |
| DownloadLaion.Truncate | scripts/download_laion.py:131-133 | The result is a prefix of the text: the whole text when it has at most 240 characters, and exactly its first 240 characters otherwise. |
| DownloadLaion.SegmentChars | scripts/download_laion.py:115-118 | After the markup removal and the cut at the last '/', what is left is ASCII, has no '/' and draws only on the input's characters. |
| DownloadLaion.SegmentFixes | scripts/download_laion.py:115-118 | ASCII text with no '<' and no '/' passes through those steps unchanged. |
| DownloadLaion.AmpStage | scripts/download_laion.py:121 | The first stage is a character-by-character substitution: each '/' is dropped, each '&' becomes "and", and every other character is kept in order. No '&' remains, and any new character is one of "and". |
| DownloadLaion.UnderscoreStage | scripts/download_laion.py:128-129 | The last two stages turn each '_' into a space and then filter out tab, LF and CR, keeping every other character in order. No '_' and no tab, LF or CR remains. |
| DownloadLaion.ScrubChars | scripts/download_laion.py:120-129 | The whole replacement chain is a per-character map: '&' becomes "and", '_' a space, each banned character is dropped, and every other character is kept in order. So no banned character remains, every other character of the segment survives, and only the letters of "and" and the space are introduced. |
| DownloadLaion.StagesEach | scripts/download_laion.py:120-129 | Applied in source order, the one-character replacements act on each character separately: the chain equals the per-character map. |
| DownloadLaion.ScrubEachKeeps | scripts/download_laion.py:120-129 | A character that is not banned survives the chain. |
| DownloadLaion.ScrubFixes | scripts/download_laion.py:120-129 | Text with no banned character passes the replacement chain unchanged. |
| DownloadLaion.CleanupProps | scripts/download_laion.py:113-135 | `cleanup_text` returns clean text: ASCII, at most 240 characters, none banned, and a prefix of the untruncated result. |
| DownloadLaion.CleanupFixes | scripts/download_laion.py:113-135 | Clean text is returned unchanged. |
| DownloadLaion.CleanupFixedPoints | scripts/download_laion.py:113-135 | A text is unchanged by `cleanup_text` iff it is clean. |
| DownloadLaion.CleanupIdempotent | scripts/download_laion.py:113-135 | Applying `cleanup_text` to its own output changes nothing. |
| DownloadLaion.CleanupKeepsLastSegment | scripts/download_laion.py:118 | Only the text after the last '/' survives: cleaning `p/s` equals cleaning `s`, for markup-free `p` and `s`. |
| DownloadLaion.SegmentKeepsLast | scripts/download_laion.py:115-118 | The same, for the steps up to the cut at '/'. |
| DownloadLaion.FileExtensionProps | scripts/download_laion.py:141-156 | The tail is read from the URL up to its first '?'. It is the text after the last '.' of that part, preceded there by that '.', or all of it when there is no '.'. A script or "jpeg" tail becomes "jpg", and any other tail is returned as it is. So the result is never "jpeg" and holds no '?' or '.'. |
| DownloadLaion.UrlPathProps | scripts/download_laion.py:144-146 | The part before the first '?' is a '?'-free prefix of the URL. The URL has a '?' right after it when it has one, and is that part itself otherwise. |
| DownloadLaion.ExtensionlessUrl | scripts/download_laion.py:151 | For a URL with no '.' after its host, the "extension" is everything after the host's last dot. |
| DownloadLaion.FileExtensionFixed | scripts/download_laion.py:141-156 | The corrected extension never holds '/' and is never "jpeg", and it agrees with the original whenever the tail is a plain name. |
| DownloadLaion.Target | scripts/download_laion.py:205-210 | An empty `outpath` raises IndexError. Otherwise the target is `outpath`, then a '/' unless `outpath` already ends with one, then the name: it starts with `outpath`, ends with '/' and the name, and its length is exactly the sum of those parts. |
| DownloadLaion.TargetBaseName | scripts/download_laion.py:205-210 | A name without '/' is the base name of the target, so the path lies directly in `outpath`. |
| DownloadLaion.OutFileNameFixedStaysInDir | scripts/download_laion.py:204-210 | With the corrected extension, the path probed for an earlier download is always named cleaned text + "." + extension, directly inside `outpath`. |
| DownloadLaion.SlashNameNotBase | scripts/download_laion.py:210 | A name with '/' is not the base name of the target. |
| DownloadLaion.OutFileNameEscapesDir | scripts/download_laion.py:204-210 | As written, an extensionless URL whose tail holds '/' gives a probed path whose base name is not the intended file name: the path points into a sub-folder of `outpath`. |
| DownloadLaion.TargetInjective | scripts/download_laion.py:205-210 | Different names give different paths in the same output folder. |
| DownloadLaion.ProbeMissesSavedFile | scripts/download_laion.py:158-218 | As written, for an extensionless URL whose tail holds '/', the path probed at line 164 is never the path `save_img` writes, whatever the image's format. The "already exists" skip never fires for such an image. |
| DownloadLaion.FixedProbeFindsSavedJpeg | scripts/download_laion.py:158-218 | With the corrected extension, such a URL whose image is a JPEG is probed at exactly the path `save_img` writes. |
| TextToFilename.FilterMembers | text_to_filename.py:12-13 | `image_files` holds exactly the files whose lower-cased name ends in an image extension, and `text_files` those ending in .txt. |
| TextToFilename.GroupIff | text_to_filename.py:17-21 | A file is in the group of a key iff it is one of the files and its key is that key. |
| TextToFilename.GroupShorter | text_to_filename.py:17-21 | A group is no longer than the file list. |
| TextToFilename.MembersProps | text_to_filename.py:17-21 | `base_names[k]` holds exactly the files whose `splitext` base is k, and is no longer than the file list. |
| TextToFilename.KeyOrderProps | text_to_filename.py:17-21 | The dict's keys, in insertion order, are exactly the keys of the files, without repeats. |
| TextToFilename.BaseOrderProps | text_to_filename.py:16-21 | The base names in dict order are exactly the `splitext` bases of the files, without repeats. |
| TextToFilename.GroupEmpty | text_to_filename.py:19-21 | A key has a non-empty group iff it is a dict key. |
| TextToFilename.GroupSnoc | text_to_filename.py:18-21 | Adding a file appends it to its own key's group and leaves the other groups unchanged. |
| TextToFilename.GroupByBase | text_to_filename.py:16-21 | The loop builds keys in insertion order. The dict has exactly those keys, and each maps to its members in file order. |
| TextToFilename.ActionProps | text_to_filename.py:25-27 | A group is skipped iff it does not have two files. It fails iff it has two files with no image or no .txt among them. Otherwise it renames an image of the group using a .txt of the group. |
| TextToFilename.TwoImagesFail | text_to_filename.py:27 | A group of two images (e.g. a.png, a.jpg) raises IndexError at the `[0]`. |
| TextToFilename.KeysStep | text_to_filename.py:24-40 | The outcome after j+1 groups is one group step applied to the outcome after j groups. |
| TextToFilename.KeysSticky | text_to_filename.py:24-27 | Once a group has raised, the later groups of the folder change nothing. |
| TextToFilename.KeysFrom | text_to_filename.py:24-27 | Groups processed after an exception change nothing. |
| TextToFilename.WalkSticky | text_to_filename.py:10-27 | Once a folder has raised, the later folders change nothing. |
| TextToFilename.RenameGroup | text_to_filename.py:25-40 | One group's code performs exactly the specified step: skip, raise, or one rename with the caption read from the .txt file and the counter increased by one. |
| TextToFilename.RenameFolder | text_to_filename.py:12-40 | One folder's loops perform exactly the specified run over its groups, in dict order, stopping at the first exception. |
| TextToFilename.RenameImages | text_to_filename.py:6-40 | The whole walk performs exactly the specified renames, with one counter for the whole walk. |
| TextToFilename.KeysNumbered | text_to_filename.py:37-40 | Over a folder's groups the renames are numbered consecutively from 1, the counter is one past the last number, and earlier renames stay. |
| TextToFilename.GroupStepNumbered | text_to_filename.py:37-40 | One group keeps the numbering consecutive and keeps earlier renames. |
| TextToFilename.NumberingContinuous | text_to_filename.py:8-40 | Over the whole walk the k-th rename gets number k+1: the counter starts at 1, rises by one per rename, and is never reset between folders. |
| TextToFilename.RenamedGroup | text_to_filename.py:25-27 | A renamed group's image and text files are both in the folder, with the group's base name, and are respectively an image and a .txt file. |
| TextToFilename.NewRenameWellFormed | text_to_filename.py:25-38 | A new rename records an image of its folder and the contents of the matching .txt file of that folder. |
| TextToFilename.GroupStepWellFormed | text_to_filename.py:25-40 | A group step keeps every rename well-formed. |
| TextToFilename.KeysWellFormed | text_to_filename.py:24-40 | A folder's run keeps every rename well-formed. |
| TextToFilename.WellFormedInLonger | text_to_filename.py:10 | A rename well-formed for part of the walk stays well-formed for the whole walk. |
| TextToFilename.RenamesWellFormed | text_to_filename.py:10-40 | Every rename of the run is of an image that has a same-base .txt file in its own folder, and records that file's contents. |
| TextToFilename.CleanNameProps | text_to_filename.py:30-35 | The new name is the stripped caption with < > : " / \ \| ? * filtered out. A character is in it iff it is in the stripped caption and is not one of those, and the kept characters stay in order. |
| TextToFilename.NewNamePlain | text_to_filename.py:37 | The new name `caption_<n><suffix>` has no '/' and ends with the image's suffix. |
| TextToFilename.RenameStaysInFolder | text_to_filename.py:37-38 | The image is renamed within its own folder to `cleaned_<n><suffix>`, keeping its suffix. |
| ImageCaptionGui.PyIndex | scripts/image_caption_gui.py:63 | `image_list[i]` succeeds iff -len <= i < len, counting from the end for negative i, and raises IndexError otherwise. |
| ImageCaptionGui.BelowTotal | scripts/image_caption_gui.py:58 | The string order used by `sort` is total. |
| ImageCaptionGui.BelowTrans | scripts/image_caption_gui.py:58 | The string order used by `sort` is transitive. |
| ImageCaptionGui.InsertProps | scripts/image_caption_gui.py:58 | Inserting into a sorted list keeps it sorted and adds exactly that element. |
| ImageCaptionGui.InsertMultiset | scripts/image_caption_gui.py:58 | Insertion adds exactly one element. |
| ImageCaptionGui.InsertFrom | scripts/image_caption_gui.py:58 | Every element after insertion is the inserted one or was already there. |
| ImageCaptionGui.InsertSorted | scripts/image_caption_gui.py:58 | Insertion into a sorted list keeps it sorted. |
| ImageCaptionGui.SortProps | scripts/image_caption_gui.py:58 | `sort` yields a sorted permutation of the list. |
| ImageCaptionGui.ImageView.constructor | scripts/image_caption_gui.py:19-25 | A new view has no folder, an empty image list, index 0 and an empty caption. |
| ImageCaptionGui.ImageView.WriteLabelTxt | scripts/image_caption_gui.py:72-80 | Exactly the write step: IndexError on a bad index; otherwise the normalised caption is written to `folder/(stem + '.txt')` only when non-empty. |
| ImageCaptionGui.ImageView.LoadLabelTxt | scripts/image_caption_gui.py:82-88 | Exactly the load step: the field is cleared, then filled from the sidecar if it exists; IndexError on a bad index. |
| ImageCaptionGui.ImageView.LoadImage | scripts/image_caption_gui.py:62-65 | Exactly the image step: IndexError on a bad index; otherwise the path and name of the current image are recorded, then FileNotFoundError is raised when that file does not exist. |
| ImageCaptionGui.ImageView.OpenFolder | scripts/image_caption_gui.py:49-60 | Exactly the open step: the folder is set, the list is rebuilt from the listing and sorted, then the image and its label are loaded with the index unchanged. |
| ImageCaptionGui.ImageView.GoToImage | scripts/image_caption_gui.py:90-94 | Exactly: write the label, assign the index unchecked, load the label and the image. |
| ImageCaptionGui.ImageView.NextImage | scripts/image_caption_gui.py:96-102 | Exactly: write the label, index+1 wrapping to 0 at the end, reload. |
| ImageCaptionGui.ImageView.PrevImage | scripts/image_caption_gui.py:104-110 | Exactly: write the label, index-1 wrapping to len-1 below 0, reload. |
| ImageCaptionGui.ImageView.DeleteImage | scripts/image_caption_gui.py:113-127 | Exactly the delete step: nothing on an empty list; otherwise note the current image and advance with `next_image`. When that raises (for example FileNotFoundError on a missing next image), stop there; otherwise move the image and its sidecar. |
| ImageCaptionGui.ImageView.MoveToDeleted | scripts/image_caption_gui.py:119-127 | Exactly: `_deleted` is created if missing, the image is renamed into it, and the sidecar too when it exists. |
| ImageCaptionGui.WriteLabelProps | scripts/image_caption_gui.py:72-80 | On a valid index, writing the label changes only the file system. It writes the normalised caption to the current image's sidecar iff that is non-empty. |
| ImageCaptionGui.NormalizeProps | scripts/image_caption_gui.py:76 | The written text is the caption with CR and LF filtered out, then stripped. It is a contiguous slice of the filtered text whose cut-off ends are whitespace only. It has no CR or LF and no leading or trailing whitespace. |
| ImageCaptionGui.ReloadValid | scripts/image_caption_gui.py:93-94 | On an accepted index, reloading names the indexed image and changes neither folder, list, index nor files. It succeeds iff that image's file exists, and raises FileNotFoundError otherwise. |
| ImageCaptionGui.NextWraps | scripts/image_caption_gui.py:96-102 | On an index in [0, len), `next_image` moves to index+1, or to 0 from the last image, staying in [0, len). It succeeds iff the image file at the new index exists, and raises FileNotFoundError otherwise. |
| ImageCaptionGui.PrevWraps | scripts/image_caption_gui.py:104-110 | On an index in [0, len), `prev_image` moves to index-1, or to len-1 from the first, staying in [0, len). It succeeds iff the image file at the new index exists, and raises FileNotFoundError otherwise. |
| ImageCaptionGui.NextThenPrev | scripts/image_caption_gui.py:96-110 | `next_image` followed by `prev_image` returns to the original index, even when `next_image` raised on a missing file. The second step succeeds iff the original image's file exists. |
| ImageCaptionGui.GoToUnchecked | scripts/image_caption_gui.py:90-94 | `go_to_image` always assigns the index. Outside [-len, len) it raises IndexError; inside, it succeeds iff the image file at the new index exists. |
| ImageCaptionGui.StuckOutsideRange | scripts/image_caption_gui.py:96-110 | With the index out of range, `next_image` and `prev_image` raise IndexError in `write_label_txt` and change nothing. |
| ImageCaptionGui.JumpPastEndSticks | scripts/image_caption_gui.py:142 | Shift+Next within ten images of the end raises IndexError and leaves an index from which next and prev only raise. |
| ImageCaptionGui.GoToClampedStaysValid | scripts/image_caption_gui.py:141-144 | A jump clamped to the list keeps the index in [0, len) and never raises IndexError, nor does the next `next_image`. It succeeds iff the target image file exists. |
| ImageCaptionGui.ListedImagesMembers | scripts/image_caption_gui.py:54-57 | The listed images are exactly the entries whose suffix is '.jpg' or '.png', compared case-sensitively. |
| ImageCaptionGui.OpenFolderList | scripts/image_caption_gui.py:50-59 | After `open_folder`, the folder is the chosen one. The list is a sorted permutation of exactly the listed .jpg/.png entries, and the index is kept. |
| ImageCaptionGui.OpenFolderFields | scripts/image_caption_gui.py:50-59 | `open_folder` sets the folder, replaces the list by the sorted listing and keeps the index. |
| ImageCaptionGui.SortedListing | scripts/image_caption_gui.py:53-58 | The new list is sorted, a permutation of the filtered listing, and holds exactly the .jpg/.png entries. |
| ImageCaptionGui.OpenSmallerFolderFails | scripts/image_caption_gui.py:49-59 | Opening a folder with no more images than the current index raises IndexError. |
| ImageCaptionGui.OpenFolderFromStartShowsFirst | scripts/image_caption_gui.py:49-60 | With the index reset first, opening a folder that has images shows the first image and never raises IndexError. It succeeds iff that image's file exists. |
| ImageCaptionGui.DeleteEmpty | scripts/image_caption_gui.py:114-115 | `delete_image` on an empty list changes nothing. |
| ImageCaptionGui.SidecarNamePlain | scripts/image_caption_gui.py:124 | The sidecar name `stem + '.txt'` of a plain name is a plain non-empty name. |
| ImageCaptionGui.DeletedApart | scripts/image_caption_gui.py:119-122 | A path inside `_deleted` is never a path directly in the folder. |
| ImageCaptionGui.RenameProps | scripts/image_caption_gui.py:122 | `os.rename` of an existing file moves its contents to the target, removes the source unless it is the target, and changes no other path. |
| ImageCaptionGui.MoveToDeletedProps | scripts/image_caption_gui.py:119-127 | `_deleted` exists afterwards. A missing image raises FileNotFoundError and changes no file. Otherwise the image leaves the folder and appears in `_deleted` with the same contents, a sidecar `stem + '.txt'` present in the folder does the same, and no other path changes. |
| ImageCaptionGui.DeleteMovesImage | scripts/image_caption_gui.py:113-127 | After `delete_image`, the image is gone from the folder and is in `_deleted` with its contents, and `_deleted` exists. The sidecar as `next_image` left it moves there too, so a non-blank caption is kept in `_deleted`. The list keeps the deleted entry and the index is the one `next_image` chose. Stated when both the current image and the one `next_image` moves to exist. |
| ImageCaptionGui.DeleteStopsWhenNextMissing | scripts/image_caption_gui.py:113-122 | When the image `next_image` moves to is missing, `delete_image` ends with `next_image`'s FileNotFoundError. Only the caption was saved, `_deleted` is not created, and the current image stays in the folder. |
| Caption.Words | caption.py:92 | The words are the tokens' words, one per token, in order. |
| Caption.FirstNoun | caption.py:88-89 | The first noun is the first token whose tag starts with "N", or there is none. |
| Caption.ReplaceFirstProps | caption.py:88-91 | Only the first noun-tagged token has its word replaced by the folder name, keeping its tag. Every other token and the count are unchanged, and with no noun nothing changes. |
| Caption.ReplaceFirstNounWithFolderName | caption.py:86-92 | The loop with `break` returns the words of the replaced tokens joined by single spaces. |
| Caption.FirstNounAt | caption.py:88-91 | A noun with none before it is the one replaced. |
| Caption.NoNounJustJoins | caption.py:92 | Without a noun the result is the words joined by single spaces. |
| Caption.CaptionFolder | caption.py:116-142 | One folder's loop performs exactly the specified writes. |
| Caption.CaptionWalk | caption.py:115-142 | The walk performs exactly the specified writes. |
| Caption.CaptionChoice | caption.py:128-133 | Without `replace_subject` the caption is the stripped generated text. With it, the caption is the tagged words joined by single spaces, where the first noun's word, when there is a noun, is the folder's base name. |
| Caption.FilesFromWalk | caption.py:115-142 | Within one folder, every write is for a supported file of the walk, to its sidecar, with its caption. |
| Caption.WritesFromWalk | caption.py:115-142 | Every write of the run is the sidecar `splitext(path)[0] + ".txt"` of a file whose lower-cased extension is supported, holding that file's caption. |
| Caption.CaptionedWhenAbsent | caption.py:115-142 | Conversely, every file with a supported extension whose path without extension does not exist when the walk reaches it gets its caption written to its sidecar. |
| Caption.RunFilesPrefix | caption.py:118-142 | A folder's writes after some of its files are a prefix of its writes after all of them. |
| Caption.RunWalkPrefix | caption.py:115-142 | The walk's writes after some folders are a prefix of its writes after all of them. |
| Caption.OverwritesExistingCaption | caption.py:139-142 | As written, an existing `name.txt` is overwritten when no file `name` exists. |
| Caption.WriteNewTidy | caption.py:139-142 | A write guarded on the sidecar itself never touches an existing path. |
| Caption.GuardedNeverOverwrites | caption.py:139-142 | With the guard on the sidecar, a folder's run never writes to a path that existed before, and never writes one path twice. |
| BulkRename.FolderMoves | bulk_rename.py:29-35 | One rename per file of the directory. |
| BulkRename.BulkRename | bulk_rename.py:22-35 | The nested loops perform exactly the specified renames, directory by directory. |
| BulkRename.NewRootClean | bulk_rename.py:24-26 | `new_root` has no ':', '\\' or '_'. |
| BulkRename.NewRootIdle | bulk_rename.py:24-26 | A root without those characters and without the desktop prefix is its own `new_root`. |
| BulkRename.NewRootChars | bulk_rename.py:24-26 | `new_root` only adds ',', ' ' and '-' to the root's characters. |
| BulkRename.FolderMoveShape | bulk_rename.py:29-32 | For a root without '/', the i-th file moves from `root/file`, inside `root`, to `new_root_<i+1><ext>`, keeping its extension. |
| BulkRename.NewNamePlain | bulk_rename.py:31 | For a '/'-free root and file, the new name is plain and ends with the file's extension. |
| BulkRename.PlainNewName | bulk_rename.py:31 | A new name built on a '/'-free `new_root` is plain, non-empty and ends with the file's extension. |
| BulkRename.DigitRunOf | bulk_rename.py:31 | The digits of `str(i+1)` end where the extension begins. |
| BulkRename.DigitsThenExt | bulk_rename.py:31 | Digits followed by an extension split apart in one way only. |
| BulkRename.NewNamesDistinct | bulk_rename.py:31 | Different positions give different new names, whatever the files' extensions. |
| BulkRename.FolderTargetsDistinct | bulk_rename.py:29-32 | No two files of a directory are renamed to the same target. |
| BulkRename.JoinInjective | bulk_rename.py:32 | Joining different names that start alike onto one directory gives different paths. |
| BulkRename.AbsoluteRootTarget | bulk_rename.py:22-32 | As written, under an absolute root the target is `root_<i+1><ext>` itself: the file leaves its directory for the parent. |
| BulkRename.RelativeRootTarget | bulk_rename.py:22-32 | As written, under a relative root containing '/', the target is `root/root_<i+1><ext>`, in a folder below `root` that the script never creates. |
| BulkRename.NewRootFixed | bulk_rename.py:24-26 | The corrected `new_root` has no '/'. |
| BulkRename.FolderMoveFixedShape | bulk_rename.py:29-32 | With the corrected `new_root`, for any root, the i-th file moves from `root/file` to a path directly in `root` named `new_root_<i+1><ext>`, and no other file of the directory gets the same target. |
| CreateTxtFromFilename.CreateTxtFromFilename | scripts/createtxtfromfilename.py:11-22 | The loop writes exactly the specified captions, in glob order. |
| CreateTxtFromFilename.WritesStep | scripts/createtxtfromfilename.py:13-22 | A wanted entry adds its write; any other entry adds nothing. |
| CreateTxtFromFilename.WritesComplete | scripts/createtxtfromfilename.py:11-22 | Every regular file with an accepted extension gets its write. |
| CreateTxtFromFilename.WriteOfWanted | scripts/createtxtfromfilename.py:13-22 | A given wanted entry's write is among the writes. |
| CreateTxtFromFilename.WritesSound | scripts/createtxtfromfilename.py:11-22 | Every write comes from a wanted entry. |
| CreateTxtFromFilename.WriteSource | scripts/createtxtfromfilename.py:11-22 | The k-th write comes from a wanted entry, which the lemma returns. |
| CreateTxtFromFilename.SkippedAddNothing | scripts/createtxtfromfilename.py:13-14 | Directories and files with other extensions produce no write. |
| CreateTxtFromFilename.StripExtPrefix | scripts/createtxtfromfilename.py:17 | A path without its extension is a prefix of it. |
| CreateTxtFromFilename.CaptionProps | scripts/createtxtfromfilename.py:17-18 | The caption has no '_'. It is a prefix of the base name, and is all of `splitext(base_name)[0]` when that has no '_'. |
| CreateTxtFromFilename.CaptionInName | scripts/createtxtfromfilename.py:17-18 | The caption is a prefix of the file name and holds no '/'. |
| CreateTxtFromFilename.TxtNamePlain | scripts/createtxtfromfilename.py:19 | `base_name + ".txt"` is a plain non-empty name. |
| CreateTxtFromFilename.TargetOfPlain | scripts/createtxtfromfilename.py:16-19 | For `dir/name`, the target is `dir/` followed by the name without extension + ".txt". |
| CreateTxtFromFilename.TargetIsSidecar | scripts/createtxtfromfilename.py:16-19 | The target is the image path with its extension replaced by ".txt". |
| CreateTxtFromFilename.TargetBesideImage | scripts/createtxtfromfilename.py:16-19 | The target lies in the image's directory, named after the image less its extension. |
| FilenameReplace.Rename | scripts/filename_replace.py:54 | `os.rename` fails with FileNotFoundError iff the source is missing. Otherwise the target exists afterwards, the source does not unless it is the target, and no other path changes. |
| FilenameReplace.RenameFile | scripts/filename_replace.py:51-54 | The inner loop over the find strings performs exactly the specified renames for one file. |
| FilenameReplace.RenameFiles | scripts/filename_replace.py:42-58 | The whole run, with the find strings split on ',', performs exactly the specified renames and stops at the first exception. |
| FilenameReplace.FindsStep | scripts/filename_replace.py:51-54 | The outcome after j+1 find strings is one step applied after j. |
| FilenameReplace.FindsSticky | scripts/filename_replace.py:55-58 | After an exception, the remaining find strings change nothing. |
| FilenameReplace.EntriesSticky | scripts/filename_replace.py:55-58 | After an exception, the remaining files change nothing: the exception is re-raised. |
| FilenameReplace.NoMatchNoChange | scripts/filename_replace.py:51-52 | A file whose name contains no find string is left alone. |
| FilenameReplace.OneMatchRenames | scripts/filename_replace.py:51-54 | A file containing exactly one find string is renamed, within the directory, to its name with that string replaced. |
| FilenameReplace.FindsRemoved | scripts/filename_replace.py:51-54 | The only path one file's loop can remove is that file. |
| FilenameReplace.FindsAdded | scripts/filename_replace.py:53-54 | Any path one file's loop creates is the file's original name with one find string replaced. |
| FilenameReplace.EntriesRemoved | scripts/filename_replace.py:47-54 | Any path the run removes is a regular image file of the listing. |
| FilenameReplace.EntriesAdded | scripts/filename_replace.py:47-54 | Any path the run creates is a listed image's original name with one find string replaced. |
| FilenameReplace.OnlyListedImagesGo | scripts/filename_replace.py:47-54 | Only regular files with an accepted extension disappear. |
| FilenameReplace.OnlyReplacedNamesCome | scripts/filename_replace.py:47-54 | Only replaced names of listed images appear. |
| FilenameReplace.ReplacePlain | scripts/filename_replace.py:53 | A replaced name has no leading '/', so it stays inside `img_dir`. |
| FilenameReplace.JoinDistinct | scripts/filename_replace.py:54 | Different relative names give different paths in `img_dir`. |
| FilenameReplace.SecondMatchFails | scripts/filename_replace.py:51-54 | As written, a file containing two find strings is renamed by the first; the second then renames the old path, which is gone, and FileNotFoundError ends the run. |
| FilenameReplace.FixedNeverMissing | scripts/filename_replace.py:51-54 | When each rename starts from the current name, every find string applies in turn without error, and the file ends up with all replacements made. |
| PyStr.ContainsChar | scripts/filename_replace.py:52 | Containing a one-character string is containing that character. |
| PyStr.ReplaceAllChars | bulk_rename.py:24 | `replace` introduces no characters other than the replacement's. |
| PyStr.ReplaceCharRemoves | bulk_rename.py:24 | Replacing a character by text without it leaves none of it. |
| PyStr.ReplaceAbsent | scripts/filename_replace.py:53 | Replacing a string that does not occur changes nothing. |
| PyStr.RemoveEachProps | text_to_filename.py:33-35 | Deleting each character of a list, one `replace` at a time, equals filtering them out: a character is in the result iff it is in the text and not in the list, and the kept characters stay in order. |
| PyStr.ReplaceCharIsSubst | scripts/download_laion.py:121 | `replace` of a one-character string substitutes each occurrence of that character and keeps every other character in order. |
| PyStr.WithoutWithout | scripts/download_laion.py:123-129 | Filtering out one set of characters and then another equals filtering out both at once. |
| PyStr.RemoveEachAbsent | scripts/download_laion.py:123 | Deleting characters that do not occur changes nothing. |
| PyStr.Split | scripts/filename_replace.py:44 | `split` yields at least one piece, and exactly one iff the separator does not occur. |
| PyStr.SplitPiecesFree | scripts/filename_replace.py:44 | No piece holds the separator. |
| PyStr.JoinSplit | scripts/filename_replace.py:44 | Joining the pieces with the separator gives back the string. |
| PyStr.SplitJoin | scripts/filename_replace.py:44 | Splitting separator-free pieces joined by the separator gives back the pieces. |
| PyStr.FirstPartProps | scripts/createtxtfromfilename.py:18 | `split(c)[0]` is a prefix without `c`, followed in the string by `c` when there is one, and is the whole string otherwise. |
| PyStr.LastPartProps | scripts/download_laion.py:151 | `split(c)[-1]` is a suffix without `c`, preceded by `c` when there is one, and is the whole string otherwise. |
| PyStr.LastPartAfterSep | scripts/download_laion.py:118 | `split(c)[-1]` of `p + c + s` is that of `s`. |
| PyStr.StripProps | text_to_filename.py:30 | `strip` returns a contiguous slice of the text. Every character cut off before or after it is whitespace, and the slice has no whitespace at either end. |
| PyStr.Decimal | bulk_rename.py:31 | `str(n)` is a non-empty digit string with no leading zero unless n is 0. |
| PyStr.DecimalRoundTrip | bulk_rename.py:31 | Reading `str(n)` back gives n. |
| PyStr.DecimalInjective | bulk_rename.py:31 | Different numbers have different decimal strings. |
| PyPath.RFind | scripts/download_laion.py:151 | The index found holds the character with none after it, and -1 means there is none. |
| PyPath.JoinPlain | dupe_finder.py:28 | `os.path.join` of a directory not ending in '/' and a relative name puts exactly one '/' between them. |
| PyPath.ExtRule | bulk_rename.py:31 | `splitext` cuts iff the last '.' comes after the last '/' with some character other than '.' between them. The extension is then everything from that '.' on, and empty otherwise. |
| PyPath.StripExt | caption.py:139 | `splitext(p)[0] + splitext(p)[1] == p`. |
| PyPath.BaseNameProps | dupe_finder.py:77 | The base name is a '/'-free suffix, and head + base name is the path. |
| PyPath.BaseNameOfJoin | dupe_finder.py:77 | The base name of a plain name joined onto a directory is that name. |
| PyPath.DirNameOfJoin | scripts/createtxtfromfilename.py:16 | The dirname of a plain name joined onto a directory is that directory. |
| PyPath.SuffixProps | text_to_filename.py:37 | `Path.suffix` is non-empty iff the last '.' is neither the first nor the last character. It then runs from that '.' to the end and the stem is what precedes it; otherwise the stem is the whole name. Stem + suffix is the name. |
| PyPath.ExtStartOfPlainJoin | caption.py:118-139 | `splitext` of `dir/name` cuts where `splitext` of `name` does. |
| PyPath.ExtOfPlainJoin | caption.py:118-139 | The extension of `dir/name` is the extension of `name`. |
| PyPath.StripExtOfPlainJoin | caption.py:139 | `splitext(dir/name)[0]` is `dir/` + `splitext(name)[0]`. |

## Left out

- Foreign libraries are left out: PIL image decoding and resizing, `imagehash` (hash_image is a function parameter), torch and the captioning models (a function from path to text), nltk tokenising and tagging (a function from text to tagged tokens), Tk widgets and image display, pandas parquet reading, and aiohttp/aiofiles downloads.
- Concurrency is left out: the `asyncio` event loop and its Windows policy, and the global `downloaded_count` updated from concurrent downloads.
- Printing, tqdm progress bars, colorama, argparse and timing are left out; they do not affect what the scripts compute.
- File-system reads are inputs: `os.walk`, `os.listdir`, `scandir`, `glob`, `isfile`, `exists` and file contents. Effects are outputs: recorded renames, writes and moves, or a set or map of paths that exist. Directory order is whatever the input sequence says.
- Renames are modelled only as far as the source relies on them. `BulkRename`, `TextToFilename` and `DupeFinder` record them without checking the target. A rename onto an existing path replaces it, as `os.rename` does on POSIX. Rename failures other than a missing source are not modelled.
- Paths are POSIX (separator '/'). `bulk_rename.py` was written for Windows paths, whose '\\' and ':' it rewrites.
- `pathlib` normalisation (collapsing `//` and `.`) is not modelled; `Path` objects are their strings.
- `str.lower` is modelled on ASCII letters only. Every extension compared is ASCII.
- Python `sort` on `Path` objects is modelled as code-point order on the names, which is what it is for single-component relative paths.
- The `<div.*</div>` and `<span.*</span>` removals are modelled by their greedy left-to-right semantics on each line. Regex back-tracking beyond that is not modelled.
- `int(len(image_files) * 0.1)` is modelled as `len / 10`. The double nearest 0.1 exceeds 0.1 by less than 10^-17, so for every length below 2^52 the rounded product stays below the next integer and truncates to that quotient. Nearer 2^53 it can round up (9007199254738999 gives one more); the model does not follow that rounding.
- dupe_finder.py's `quick` flag is accepted and unused, and `accurate` only selects the hash function, which is a parameter.
- DupeFinder.MoveDuplicates: the quarantine folder lies inside the scanned root, so a later run walks it again. Name clashes between duplicates move one file onto another (QuarantineNameClash). Both are as written.
- DupeFinder.ScanPartition: proved for distinct paths only. `os.walk` never yields one path twice.
- ImageCaptionGui.ImageView.OpenFolder: `if self.folder is None` can never hold, because `Path(...)` is never None; the dialog's answer is a parameter. The class-level `image_list` shared between instances is not modelled: there is one view.
- ImageCaptionGui.ImageView.LoadImage: of the ways `Image.open` can fail, only a missing file (FileNotFoundError) is modelled. A file that is not an image, a directory and thumbnailing are not modelled, because the file map holds no image data.
- ImageCaptionGui.ImageView.DeleteImage: its tail, from line 119, is the method MoveToDeleted, called with the path and name noted before `next_image`.
- TextToFilename.RenameGroup: a rename records the caption text read, and its cleaned name is computed by `Caption` and `Target`. Whether the target already exists is not checked, as in the source.
- BulkRename.FolderMoveShape: proved for a root without '/', the only case where the source keeps the file in its directory. For a POSIX root with '/', `new_root` keeps that '/'. Under an absolute root the target leaves the directory (AbsoluteRootTarget); under a relative one it lies in a folder below `root` that is never created (RelativeRootTarget). Both are listed under "## Findings".
- CreateTxtFromFilename.CreateTxtFromFilename: two images with the same name less extension (`a.jpg`, `a.png`) write the same target; the later write wins, as in the source.
- FilenameReplace.RenameFiles: `scandir` is taken as a fixed listing, so files created by renames during the loop are not listed again. The event-loop policy and the printing in the exception handler are not modelled.
- download_laion.py outside the naming code is not part of this model: the HTTP request and the existence probe of `call_http` (the path it probes is modelled), the bytes `save_img` writes and its exception handler (the name it writes to is modelled, with the image format a parameter), the download queue and parquet queries.

## Findings

| source | as written | input that shows it | evidently intended | confidence | as-written member | corrected member |
|---|---|---|---|---|---|---|
| scripts/download_laion.py:151 | The extension is `split(".")[-1]` of the whole URL, so an extensionless URL yields the tail of its host and path. `out_file_name` is only the path probed at line 164 to skip images downloaded before; `save_img` names the file after the image's own format. | `http://example.com/photo` gives the extension `com/photo`, so line 164 probes `outpath/<text>.com/photo`, while a JPEG is saved as `outpath/<text>.jpg`. The probe never matches, and every run downloads the image again. | Fall back to the initial `"jpg"` when the tail is not a plain name. | medium (not executed) | DownloadLaion.ProbeMissesSavedFile | DownloadLaion.FixedProbeFindsSavedJpeg |
| scripts/image_caption_gui.py:90-94, 142 | `go_to_image` assigns any index. Shift+Next near the end raises IndexError in `load_label_txt` and leaves the index out of range, so every later next/prev raises too. | 5 images, index 2, Shift+Next: index 12 | Clamp the jump to the list (or wrap). | high (not executed) | ImageCaptionGui.JumpPastEndSticks | ImageCaptionGui.GoToClampedStaysValid |
| scripts/image_caption_gui.py:49-59 | `open_folder` keeps `image_index`, so opening a folder with fewer images than the current index raises IndexError in `load_image`. | index 7 in a 10-image folder, then open a 3-image folder | Reset the index to 0 on open. | high (not executed) | ImageCaptionGui.OpenSmallerFolderFails | ImageCaptionGui.OpenFolderFromStartShowsFirst |
| caption.py:139-142 | The guard tests whether the path without extension exists, not the caption file, so existing captions are overwritten. | `a.jpg` with an existing `a.txt` and no file `a`: `a.txt` is overwritten | Skip the image when `name + ".txt"` exists. | medium (not executed) | Caption.OverwritesExistingCaption | Caption.GuardedNeverOverwrites |
| scripts/filename_replace.py:51-54 | Each find string renames `file`, the original entry, so after a first match the second rename's source is gone. | `a man and a woman.jpg` with find `a man,a woman`: the first rename succeeds, the second raises FileNotFoundError | Apply the replacements in turn to the current name. | high (not executed) | FilenameReplace.SecondMatchFails | FilenameReplace.FixedNeverMissing |
| bulk_rename.py:24-32 | `new_root` rewrites ':', '\\' and '_' but keeps the POSIX separator '/', so `new_name` is a path. `os.path.join` discards `root` when `new_name` is absolute. | `--img_dir /a/b` with file `x.jpg`: it is renamed to `/a/b_1.jpg`, out of its folder. Under `a/b` the target is `a/b/a/b_1.jpg`, in a folder that does not exist. | Rewrite '/' to ", " like '\\', so the new name is a plain name in `root`. | high (not executed) | BulkRename.AbsoluteRootTarget | BulkRename.FolderMoveFixedShape |
