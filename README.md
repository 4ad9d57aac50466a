# Duplicate media finder — a Dafny model

This project models the decision logic of three variants of one Windows
duplicate-image and duplicate-video finder:

- **MediaMatch.py** fingerprints each file with deep features. It compares
  the features against the files kept so far, in insertion order. The first
  stored file whose similarity exceeds 0.9 makes the new file its duplicate.
  The user may back the duplicate up, then deletes or skips it through a
  popup. At the end the user may purge the backup directory.
- **androidmobile.py** fingerprints each file with a perceptual hash. The
  `hashes` dictionary maps each hash to the first path seen with it. A
  repeated hash opens the deletion popup. The abort flag is read before
  each file, and read again after each file that has a hash; a file without
  a hash skips the second read (`continue`).
- **Deepcleaner.py** is a console variant of the same hash dictionary with
  no exclusions and no abort. It asks `(y/n)` on standard input, behind a
  `yes` consent prompt.

The modules follow the programs' structure:

- **`Paths`**: the case-insensitive suffix dispatch, `os.path.join` and
  `os.path.basename`.
- **`Discovery`**: the walk filter shared by all three programs.
- **`Features`**: `get_file_features` and the frame sampling of
  `extract_video_features`.
- **`Hashing`**: `get_file_hash` and `compare_files`.
- **`ExactIndex`**: the hash dictionary as a fold over the files.
- **`Disk`**: the file system as a set of paths, plus a log of effects.
- **`Session`**: the shared flags `abort_scan` and `popup_active` with their
  transitions. The class `ScanSession` holds them in fields.
- **`MediaMatch`**, **`AndroidMobile`**, **`DeepCleaner`**: the three scan
  loops.

Each scan loop is written twice:

- as a `method` with `while` loops, as the source has it. The MediaMatch and
  androidmobile loops run over the session object, whose flags they share
  with the GUI; the Deepcleaner loop, which has no shared flags, runs over a
  disk value;
- as a front-recursive specification function `ScanFrom`.

Each method is proved equal to its specification function, and the
properties are proved about the functions as lemmas.

Inputs from outside the program are functions:

- of a counter: the k-th answer to a question (backup, the deletion popup,
  a console line), and whether Abort had been pressed before the j-th read
  of the flag;
- of the path (and frame position): the results of the feature extractor,
  the hash library and the video decoder.

The abort flag is sticky: nothing resets it.

Behaviour of the code worth knowing:

- **Backup purge.** The purge stops at the first failing removal: one `try`
  block surrounds the whole loop (MediaMatch.py:61-70). The purge question
  is asked whether or not the scan was aborted (MediaMatch.py:188-189).
- **Video sampling.** The source's comment says "Sample 5 frames at regular
  intervals" (MediaMatch.py:92), but the step is `total // 5` and the range
  runs to the end, so a video of at least five frames gives 5 to 9 sampled
  positions; a nine-frame video is sampled at all nine frames. A count of 0
  to 4 makes `range` raise and gives None. A negative count (which
  `int(video.get(...))` may return) gives a negative step: the positions
  start at 0 and descend, so `-1` gives position 0 alone.
- **Video features.** A video none of whose sampled frames decode gives the
  empty feature list, not None. As written, the same list results even when
  every frame decodes (see Findings).
- **Final report.** The reports carry only the number of kept files
  (`len(features_dict)` or `len(hashes)`).

## Model

| member | source | states |
|---|---|---|
| Paths.KindOf | MediaMatch.py:120-126 | the dispatch gives Image exactly for a lowercased image suffix, Video exactly for a video suffix, Unsupported exactly when neither matches |
| Paths.ExtensionsDisjoint | MediaMatch.py:121-124 | no name ends in both an image and a video suffix, so testing images first never hides a video |
| Paths.KindIgnoresCase | MediaMatch.py:121-123 | the dispatch of a path and of its lowercased form agree |
| Paths.Join | MediaMatch.py:145 | the joined path ends with the file name |
| Paths.JoinedMediaIsDispatched | MediaMatch.py:144-147 | a file name that passes the discovery test, joined to any root, is dispatched to a fingerprint |
| Paths.Basename | MediaMatch.py:53 | the base name is a suffix of the path with no separator in it, and a separator precedes it when it is shorter than the path |
| Discovery.IsExcluded | MediaMatch.py:142 | a root is skipped when one of the excluded names occurs in it as a substring |
| Discovery.Discovered | MediaMatch.py:141-147 | the walk's media paths in walk order, each root's files joined to the root, excluded roots contributing nothing |
| Discovery.RootMediaPaths | MediaMatch.py:143-147 | the inner loop over one root's files computes that root's contribution to `Discovered` |
| Discovery.Discover | MediaMatch.py:141-147 | the nested loops build exactly the list `Discovered(walk, excluded)`; androidmobile.py:68-74 runs the same loops with the same exclusion list, Deepcleaner.py:57-62 without one |
| Discovery.DiscoveredMembership | MediaMatch.py:141-147 | a path is discovered if and only if some file of a root that contains no excluded substring has a media name and joins to that path |
| Discovery.DiscoveredAppend | MediaMatch.py:141-147 | walk order is kept: a later part of the walk contributes after an earlier part |
| Discovery.DiscoveredAreDispatched | MediaMatch.py:146 | every discovered path is dispatched to an image or video fingerprint |
| Discovery.UnfilteredKeepsEveryMediaFile | Deepcleaner.py:57-62 | without exclusions every media-named file of the walk is discovered |
| Features.FileFeatures | MediaMatch.py:120-126 | None without a media suffix; image features exactly for an image suffix whose image decodes; video features exactly for a video suffix whose frame count is not 0 to 4 |
| Features.GetFileFeatures | MediaMatch.py:120-126 | the dispatch as the scan calls it computes `FileFeatures` |
| Features.SamplePositions | MediaMatch.py:92-96 | the positions `range(0, total, total // 5)`, or None when the step is 0 and `range` raises; properties in `SamplingFailsIffFewFrames`, `SampledPositionsShape` and `NegativeCountSamplesDownward` |
| Features.CollectFrames | MediaMatch.py:96-106 | the features of the readable frames at the given positions, in order; properties in `CollectFramesBound`, `UnreadableFramesGiveEmptyList` and `AllSampledFramesKept` |
| Features.VideoFeatureList | MediaMatch.py:89-111 | the value `extract_video_features` returns: None when sampling raises, otherwise `CollectFrames` over the sampled positions |
| Features.ExtractVideoFeatures | MediaMatch.py:89-111 | the sampling loop returns None when `range` raises, otherwise the features of the readable frames at the sampled positions, in order |
| Features.SamplingFailsIffFewFrames | MediaMatch.py:94-111 | sampling fails (step `total // 5` is 0) exactly for 0 to 4 frames |
| Features.SampledPositionsShape | MediaMatch.py:92-96 | for at least five frames the positions are `j * (total // 5)`, all in `[0, total)`, and there are 5 to 9 of them |
| Features.AscendingSteps | MediaMatch.py:96 | a positive-step range is `start + j * step`, all below `stop`, and the next value would not be |
| Features.NegativeCountSamplesDownward | MediaMatch.py:94-96 | a negative frame count gives a descending range that starts at 0; a count of -1 gives position 0 alone |
| Features.NineFramesGiveNineSamples | MediaMatch.py:92-96 | a nine-frame video is sampled at positions 0 to 8 |
| Features.CollectFramesBound | MediaMatch.py:96-106 | at most one feature vector per sampled position |
| Features.UnreadableFramesGiveEmptyList | MediaMatch.py:98-108 | when no sampled frame can be read the result is the empty list, not None |
| Features.AllSampledFramesKept | MediaMatch.py:96-106 | when every sampled frame reads and has features, the list holds one vector per position, in order |
| Features.AsWrittenExtractor | MediaMatch.py:104 | as written, the frame's features come from `extract_image_features` applied to an image instead of a path; image features, frame count and decoder are unchanged |
| Features.NoFrameFeaturesAsWritten | MediaMatch.py:73-106 | as written, no sampled frame contributes a vector |
| Features.VideoFeaturesEmptyAsWritten | MediaMatch.py:89-111 | as written, every video gives None (0 to 4 frames) or the empty list |
| Hashing.VideoHash | androidmobile.py:32-46 | no readable first frame gives None |
| Hashing.FileHash | androidmobile.py:49-55 | the image hash for an image suffix, the video hash for a video suffix, None otherwise; Deepcleaner.py:42-48 is the same dispatch |
| Hashing.DiffCount | Deepcleaner.py:39 | `hash1 - hash2` of two perceptual hashes: the number of bit positions where they differ; properties in `DiffCountProperties` |
| Hashing.DiffCountProperties | Deepcleaner.py:39 | the bit distance is at most the hash length, zero exactly for equal hashes, and symmetric |
| Hashing.CompareFiles | Deepcleaner.py:34-39 | False exactly when either hash is missing; otherwise a distance of at most 64 bits that is 0 exactly for equal hashes |
| ExactIndex.Record | androidmobile.py:82-99 | a file without a hash or with a known hash leaves the dictionary as it is; a new hash is added with the file's path |
| ExactIndex.IndexFrom | androidmobile.py:78-99 | the `hashes` dictionary after the files in order, each recorded by `Record`; properties in `FirstSeen`, `ValuesNeverOverwritten` and `UniqueCountBound` |
| ExactIndex.IndexFromAppend | androidmobile.py:78-99 | building the dictionary from a list in two parts is building it from the whole list |
| ExactIndex.ValuesNeverOverwritten | androidmobile.py:98-99 | every entry present at the start is present and unchanged at the end |
| ExactIndex.FirstSeen | androidmobile.py:98-99 | a hash is a key if and only if some file has it, and it maps to the first file with that hash |
| ExactIndex.UniqueCountBound | androidmobile.py:107 | the dictionary never has more keys than there are files |
| ExactIndex.LaterSameHashIsDuplicate | Deepcleaner.py:73-84 | when two files share a hash, the hash is already a key when the later file is reached |
| Disk.Remove | MediaMatch.py:217-222 | removal deletes exactly the given path unless it is missing or locked; either way the outcome is logged and nothing else changes |
| Disk.Copy | MediaMatch.py:51-57 | a successful copy adds exactly the target; a failed one (missing source, or the source is the target) leaves the files as they were and only logs the failure |
| Session.ShowPopup | MediaMatch.py:199-206 | a popup is open afterwards, and a prompt is logged only if none was open |
| Session.ClosePopup | MediaMatch.py:248-250 | the popup is closed and nothing else changes |
| Session.Delete | MediaMatch.py:217-226 | the removal is attempted and the popup is closed, whether or not the removal fails |
| Session.Skip | MediaMatch.py:228-231 | the popup is closed and the disk is unchanged |
| Session.Resolve | MediaMatch.py:174-180 | after the user's answer the popup is closed and the file is removed only when Delete was chosen |
| Session.Poll | MediaMatch.py:153 | the flag is set after a read exactly when it was set before or Abort was pressed; once set it stays set |
| Session.ScanSession.constructor | androidmobile.py:16-18 | both flags start false |
| Session.ScanSession.ShowDeletionPopup | MediaMatch.py:199-206 | the object's state moves as `ShowPopup` says |
| Session.ScanSession.SetPopupInactive | androidmobile.py:154-156 | the state moves as `ClosePopup` says |
| Session.ScanSession.DeleteAction | androidmobile.py:140-148 | the state moves as `Delete` says |
| Session.ScanSession.SkipAction | androidmobile.py:150-152 | the state moves as `Skip` says |
| Session.ScanSession.AbortScanProcess | androidmobile.py:166-169 | the abort flag is set and nothing else changes |
| Session.ScanSession.PollAbort | androidmobile.py:79-80 | the state moves as `Poll` says, and the flag value read is returned |
| MediaMatch.BackupPathShape | MediaMatch.py:53 | the backup path is the backup directory, a backslash, and the base name |
| MediaMatch.BackupPathsCollide | MediaMatch.py:53-54 | two files share a backup path exactly when their base names agree |
| MediaMatch.BackupPath | MediaMatch.py:53 | `os.path.join(BACKUP_DIR, os.path.basename(file_path))`; its shape is stated by `BackupPathShape` |
| MediaMatch.MediaBackupInBackupDir | MediaMatch.py:53 | the backup of every dispatched file lies directly inside the backup directory |
| MediaMatch.FirstMatch | MediaMatch.py:160-182 | the answer is the first stored file, in insertion order, whose similarity exceeds 0.9; None means no stored file is similar |
| MediaMatch.FindDuplicate | MediaMatch.py:161-182 | the inner loop with its `break` finds `FirstMatch` |
| MediaMatch.CompareAsWritten | MediaMatch.py:115-116 | as written, the comparison raises exactly when either operand is a video's feature list |
| MediaMatch.FirstMatchAsWritten | MediaMatch.py:160-163 | the inner loop as written: the first stored file whose score exceeds 0.9, unless a comparison raises first; characterised by `VideoComparisonRaises` and `AsWrittenAgreesOnImages` |
| MediaMatch.VideoComparisonRaises | MediaMatch.py:115-163 | as written, the inner loop raises exactly when it reaches a comparison with a video: the new file is a video and something is stored, or a stored video precedes every match |
| MediaMatch.AsWrittenAgreesOnImages | MediaMatch.py:115-163 | among images, the loop as written finds what `FirstMatch` finds when `sim` is the cosine score |
| MediaMatch.FirstStoredWins | MediaMatch.py:161-163 | of two similar stored files, the one stored first wins even when the later one is more similar |
| MediaMatch.Insert | MediaMatch.py:184-185 | storing keeps every existing key in place, grows the dictionary by one exactly for a new key, holds the new entry, and keeps keys distinct |
| MediaMatch.BackupFile | MediaMatch.py:47-57 | the session's disk moves as `Copy` into the backup path says |
| MediaMatch.DeleteBackups | MediaMatch.py:61-70 | only files directly in the backup directory are removed, and all of them are removed when none is locked |
| MediaMatch.ProcessFiles | MediaMatch.py:130-195 | the method ends in the state of `ScanFrom` over the discovered files, purged if asked, and reports "Scan aborted." exactly when the final flag read finds it set, otherwise the number of stored files |
| MediaMatch.Handle | MediaMatch.py:156-185 | one file: skipped without features; with a first match, the optional backup, the popup and its answer, not stored; otherwise stored; properties in `FeaturelessFileIgnored`, `UnmatchedFileStored`, `DuplicateNotStored` and `HandleGrowth` |
| MediaMatch.ScanFrom | MediaMatch.py:152-185 | the loop: a flag read before each file, `break` once it is set, otherwise `Handle`; properties in `ScanAppend`, `AbortBreaksAtOnce`, `ScanGrowth` and the lemmas after them |
| MediaMatch.FeaturelessFileIgnored | MediaMatch.py:156-158 | a file without features changes nothing |
| MediaMatch.UnmatchedFileStored | MediaMatch.py:184-185 | a file that matches nothing is stored and nothing else changes |
| MediaMatch.DuplicateNotStored | MediaMatch.py:160-185 | a duplicate is never stored, whatever the answers; it is recorded with the next answers; the log gains the backup copy (if asked), one prompt, then the removal (if chosen), in that order |
| MediaMatch.BackupSurvivesDeletion | MediaMatch.py:167-174 | with backup and Delete both chosen the copy exists and survives, and the original is gone unless locked |
| MediaMatch.StepRemovesOnlyConfirmed | MediaMatch.py:217-222 | one file's handling removes only that file, and only as a duplicate answered with Delete |
| MediaMatch.HandleGrowth | MediaMatch.py:156-185 | one file adds at most one stored entry or one duplicate; a duplicate matches a file already stored |
| MediaMatch.ScanAppend | MediaMatch.py:152-185 | scanning a list in two parts is scanning it whole |
| MediaMatch.AbortedScanIgnoresRest | MediaMatch.py:152-154 | once the loop broke on abort, later files change nothing |
| MediaMatch.AbortBreaksAtOnce | MediaMatch.py:153-154 | a flag found set at the top of an iteration stops the loop with nothing else changed |
| MediaMatch.AbortReads | MediaMatch.py:152-154 | the flag is read once per file; a loop that ran to the end never found it set; a set flag is never cleared |
| MediaMatch.ScanGrowth | MediaMatch.py:152-185 | stored files keep their places; stored entries plus duplicates grow by at most the number of files; the k-th duplicate carries the k-th answers; keys stay distinct |
| MediaMatch.RepresentativesKept | MediaMatch.py:174-185 | every duplicate's original is still stored when the loop ends |
| MediaMatch.RemovedOnlyIfConfirmed | MediaMatch.py:152-185 | a file that disappears during the loop was a duplicate answered with Delete |
| MediaMatch.DisciplinedBlock | MediaMatch.py:166-180 | one duplicate's events keep the log ordered: copy, then prompt, then removal, with one more prompt |
| MediaMatch.OnePromptPerDuplicate | MediaMatch.py:166-182 | the popup is closed after every file, each duplicate logs exactly one prompt, and every copy and removal sits next to its file's prompt |
| AndroidMobile.Result | androidmobile.py:106-107 | the count is reported exactly when the last flag read finds it clear, and it is the number of distinct hashes stored |
| AndroidMobile.ProcessFiles | androidmobile.py:58-107 | the method ends in the state of `ScanFrom` over the discovered files, followed by one more flag read, and reports `Result` |
| AndroidMobile.HandleFile | androidmobile.py:86-99 | a file whose hash is known opens the popup for the stored path and records the answer, leaving the dictionary alone; a new hash is stored with its path; the popup is closed afterwards |
| AndroidMobile.ScanAppend | androidmobile.py:78-104 | scanning a list in two parts is scanning it whole |
| AndroidMobile.AbortedScanIgnoresRest | androidmobile.py:79-80 | once the loop broke, later files change nothing |
| AndroidMobile.Handle | androidmobile.py:86-99 | one hashed file: a known hash opens the popup for the stored path and applies the answer, a new hash is stored; properties in `KnownHashIsDuplicate` and `NewHashStored` |
| AndroidMobile.ScanFrom | androidmobile.py:78-104 | the loop: a flag read before each file, `continue` for a hashless file, otherwise `Handle` and a second read, with `break` at either read once the flag is set; properties in `ScanAppend`, `HashlessFileSkipped`, `ScanBuildsIndex` and the lemmas after them |
| AndroidMobile.HashlessFileSkipped | androidmobile.py:82-84 | a file without a hash is skipped by `continue`, without the second flag read |
| AndroidMobile.KnownHashIsDuplicate | androidmobile.py:86-97 | a known hash leaves the dictionary unchanged, records a duplicate of `hashes[h]`, logs one prompt, closes the popup, and removes the file only on Delete |
| AndroidMobile.NewHashStored | androidmobile.py:98-99 | a new hash is stored with the file's path and nothing else changes |
| AndroidMobile.ScanBuildsIndex | androidmobile.py:78-104 | the final dictionary is the one built from a prefix of the files, and from all of them when the loop did not break |
| AndroidMobile.CompletedScanIndexesAll | androidmobile.py:78-107 | a loop that did not break leaves exactly `Index(paths)` |
| AndroidMobile.DuplicatesOfFirstSeen | androidmobile.py:86-99 | every duplicate duplicates the path stored under its own hash |
| AndroidMobile.PopupsResolved | androidmobile.py:110-156 | every popup is closed before the next file, and a file disappears only as a duplicate answered with Delete |
| AndroidMobile.ScanAsWritten | androidmobile.py:110-117 | the loop as written: the first duplicate crashes with `NameError` when the popup flag is clear and hangs when it is already set; characterised by `PopupCrashesScan` and `StuckPopupHangsScan` |
| AndroidMobile.ResultAsWritten | androidmobile.py:106-117 | as written, nothing is reported after the popup raised or while the scan hangs |
| AndroidMobile.PopupCrashesScan | androidmobile.py:110-117 | as written, a scan without duplicates runs as intended, and one with a duplicate ends there with the popup flag stuck and nothing removed |
| AndroidMobile.StuckPopupHangsScan | androidmobile.py:86-113 | as written, a later scan with the flag still set runs as intended until its first duplicate and then waits for ever on `scan_event`, with nothing removed |
| AndroidMobile.DuplicatesGrow | androidmobile.py:86-97 | the recorded duplicates only grow |
| DeepCleaner.Confirms | Deepcleaner.py:77 | `delete.lower() == 'y'`; characterised by `ConfirmsExactly` |
| DeepCleaner.Handle | Deepcleaner.py:69-84 | one file: skipped without a hash; a known hash is prompted and removed on a `y` answer; a new hash is stored; properties in `KnownHashIsDuplicate` and `NewHashStored` |
| DeepCleaner.ScanFrom | Deepcleaner.py:68-84 | the loop, `Handle` on each file in turn; properties in `ScanIndexesAll`, `RemovedOnlyOnYes` and `OnlyAnswersReadMatter` |
| DeepCleaner.ConfirmsExactly | Deepcleaner.py:77 | the deletion answer confirms exactly for `y` and `Y` |
| DeepCleaner.ProcessFiles | Deepcleaner.py:51-86 | the loop reports the size of the dictionary of `ScanFrom` and leaves its disk |
| DeepCleaner.ScanIndexesAll | Deepcleaner.py:66-84 | the dictionary the loop leaves is `IndexFrom` over all files |
| DeepCleaner.ReportedCountIsDistinctHashes | Deepcleaner.py:86 | the reported count is the number of distinct hashes among the files; each maps to the first file with it |
| DeepCleaner.KnownHashIsDuplicate | Deepcleaner.py:73-82 | a known hash leaves the dictionary unchanged, logs the prompt, and removes the file only on a `y`, logging a failed removal |
| DeepCleaner.NewHashStored | Deepcleaner.py:83-84 | a new hash is stored with the file's path, with no prompt and no disk change |
| DeepCleaner.RemovedOnlyOnYes | Deepcleaner.py:76-82 | a file that disappears was a duplicate whose prompt was answered `y` |
| DeepCleaner.DuplicatesOfFirstSeen | Deepcleaner.py:73-84 | every duplicate duplicates the path stored first under its hash |
| DeepCleaner.OnlyAnswersReadMatter | Deepcleaner.py:76 | the loop depends only on the answers it reads, one per duplicate, in order |
| DeepCleaner.ConsentToScan | Deepcleaner.py:91-93 | `permission.lower() == 'yes'`; characterised by `ConsentExactly` |
| DeepCleaner.ConsentExactly | Deepcleaner.py:91-93 | the scan is allowed exactly for `yes` in any letter case |
| DeepCleaner.Run | Deepcleaner.py:89-104 | the outcome is "Operation canceled." exactly when the first answer is not `yes` |
| DeepCleaner.Launch | Deepcleaner.py:89-104 | `main` computes `Run` |
| DeepCleaner.SecondAnswerIgnored | Deepcleaner.py:95-99 | the answer to the permission question never changes the outcome |

## Findings

| source | as written | input that shows it | evidently intended | confidence | as-written member | corrected member |
|---|---|---|---|---|---|---|
| androidmobile.py:117 | `show_deletion_popup` sets `popup_active` and calls `window.after`, but `window` is only declared `global` in `build` and never assigned, so the call raises `NameError` and the scan thread dies | a walk with two files of equal hash | the popup is shown on the GUI thread and answered with Delete or Skip, as in MediaMatch.py. Fixing `window` alone is not enough: `skip_button.bind(on_press=skip_action)` (line 130) calls `skip_action` with the button, but `skip_action` (line 150) takes no argument, so a Skip raises `TypeError` in the handler, leaves `popup_active` set and the scan waiting; and the Popup is never dismissed | high; not executed | AndroidMobile.PopupCrashesScan | AndroidMobile.PopupsResolved |
| MediaMatch.py:104 | `extract_video_features` passes the grey-scale frame, a PIL image, to `extract_image_features`, whose `Image.open` (line 76) expects a path or file; it raises, and the handler (lines 83-85) returns None, so no frame ever contributes | any video of five or more frames whose frames decode | each frame's VGG16 features, so that a video's value is its list of per-frame vectors | high; not executed | Features.VideoFeaturesEmptyAsWritten | Features.AllSampledFramesKept |
| MediaMatch.py:116 | `compare_features` wraps each value in a list; a video's value is already a list of vectors (or the empty list), so `cosine_similarity` receives a 3-D or zero-width input and raises `ValueError`; `process_files` (lines 160-163) has no handler, so the scan thread ends at the first comparison involving a video, with no purge question and no report | a walk with an image followed by a video | a similarity score between any two stored values, videos included | high; not executed | MediaMatch.VideoComparisonRaises | MediaMatch.FirstMatch |

The rest of the model uses the intended popup (`AndroidMobile.ScanFrom`), an extractor whose `frameFeatures` stands for the intended per-frame features, and a similarity `sim` that stands for the intended comparison of any two feature values (`MediaMatch.FirstMatch`).

## Left out

- GUI widgets, progress messages, the status bar, tooltips and the text of `print`, `logging` and prompts: presentation only. Prompts are kept as `Prompted` log events and their answers as inputs.
- Threading: `threading.Thread`, `scan_event` and the unused `ThreadPoolExecutor`. The scan thread's popup wait is modelled as taking the next answer; the GUI's Abort presses enter as the abort input, read at each flag read.
- VGG16 features, `cosine_similarity`, `imagehash.phash` and `cv2`: foreign code and floating point. They enter as functions of their inputs (`Extractor`, `Hasher`, the similarity `sim`). As written, every comparison involving a video raises `ValueError` and ends the scan thread (see Findings); the scan model does not follow that crash: `MediaMatch.ScanFrom` uses `sim` as the intended comparison, and only the inner search is modelled as written (`MediaMatch.FirstMatchAsWritten`).
- File-system I/O: `os.walk` is a list of (root, files) pairs; `os.remove` and `shutil.copy` act on a set of paths. A removal fails only for a missing or a locked path; a copy fails only for a missing source or `SameFileError`. File contents, overwrites and other OS failures are not modelled.
- `os.makedirs(BACKUP_DIR)` and `os.path.isfile` in the purge: the model has only files, no directories.
- `os.path.join` and `os.path.basename` are modelled for the paths these programs build: a root from the walk and a plain file name. Drive-relative forms such as `C:name` are not modelled.
- `str.lower()` is modelled for ASCII letters only.
- An end of input on standard input in Deepcleaner.py (`EOFError`) is not modelled; every line read has an answer.
- MediaMatch.ProcessFiles and AndroidMobile.ProcessFiles require that no popup is open at the start. With one open, the source would wait forever on `scan_event`, which a terminating model cannot express. The programs start with the flag false (`Session.ScanSession.constructor`).
- MediaMatch.DeleteBackups: the order in which `os.listdir` lists the backup directory is left open, so only what holds for every order is stated.
