# Patch labeler: a verified model

The patch labeler has two halves.

- The **sampler** (`gen_patch_coordinates.py`) picks random crops from whole-slide images. For every slide and every ordinal below `N_PATCHES_PER_WSI` it draws top-left corners until the crop is dark and textured enough. It then records `{Filename}~{ordinal}~{x}.{y}` with an empty label in an insertion-ordered dict, which is written out as a `PID,LABEL` table. Only the first `N_WSI` of the sorted slide paths are sampled.
- The **labeler** (`main.py`) loads that table and shows one patch at a time. The operator types a label and moves with the arrow keys. Each move commits the typed label first, then shows the next patch: the labeler decodes its identifier and renders the crop from `<slides dir>/<name up to its first '_'>/<name>.svs`. Saving commits and writes the table back.

The Dafny modules follow that structure:

| file | module | what it holds |
|---|---|---|
| `results.dfy` | `Results` | `Result` and `Option` |
| `text.dfy` | `Text` | Python's `str.strip()` (whitespace as `str.isspace` defines it) and `str.split(c)` |
| `py_int.dfy` | `PyInt` | `str(int)` and `int(str)` on ASCII digits |
| `patch_id.dfy` | `PatchId` | the identifier encoding, its decoding, and the slide path derivation |
| `label_table.dfy` | `LabelTable` | the insertion-ordered dict as a sequence of entries with distinct keys, `dict(rows)`, `get_session_indexes` |
| `slide_batch.dfy` | `SlideBatch` | `sorted(paths)[0:N_WSI]` |
| `sampler.dfy` | `Sampler` | `coord_patches_list_gen`: a specification function `Sample`, the imperative triple loop proved equal to it, and the properties of its result |
| `session.dfy` | `Session` | the labeler's session as a class, with its handlers |

The random source and the image statistics are an oracle: a finite sequence of draws. Each draw holds the raw integers behind the two `randint` calls and the mean and standard deviation of the crop. `randint(lo, hi)` with raw integer `r` gives `lo + r % (hi - lo)`, and every value of the half-open range is reachable (`Sampler.RandIntCoversRange`). Running out of draws ends the run with `DrawsExhausted`, which stands for the sampler's retry loop still running.

`np.random.randint`'s high bound is exclusive, so no corner is ever drawn at `width - offset - patch` itself. The model and its lemmas use the half-open range `[offset, width - offset - patch)`. For a 2000x2000 slide with 768x768 patches and offset 50, the corners lie in `[50, 1181]` (`Sampler.BorderExample`). A slide too small for the geometry makes `randint` raise on its empty range; the model returns `EmptyRange` (`Sampler.TooSmallExample`, `Sampler.DegenerateSlideFails`).

## Model

| member | source | states |
|---|---|---|
| Text.Strip | main.py:105-107 | `str.strip()`: the result is no longer than the input and neither of its ends is whitespace |
| Text.StripLeftSplits | main.py:105 | what stripping a class of characters off the left end keeps is a suffix of the input, and everything it removes is of that class |
| Text.StripRightSplits | main.py:105 | what stripping a class of characters off the right end keeps is a prefix of the input, and everything it removes is of that class |
| Text.StripWith | main.py:105 | stripping a class of characters off both ends: the result is no longer than the input and neither of its ends is of the class |
| Text.StripWithBlank | main.py:105 | stripping a class gives nothing exactly when every character is of that class |
| Text.StripWithInside | main.py:119 | every character kept by a strip occurs in the input |
| Text.StripBlank | main.py:105 | the stripped text is empty exactly when the input is all whitespace |
| Text.StripIdempotent | main.py:153 | stripping a stripped text changes nothing |
| Text.Split | main.py:118-119 | `str.split(c)`: at least one piece, no piece contains `c`, joining the pieces with `c` gives the input back, and an input without `c` is one piece |
| Text.SplitHead | main.py:120 | the first piece is the longest prefix without `c`, followed by `c` or by the end of the text |
| PyInt.IntToString | gen_patch_coordinates.py:42 | `str(x)`: decimal digits with a leading `-` exactly when `x` is negative |
| PyInt.ParseInt | main.py:119 | `int(s)` for the coordinate texts: surrounding tabs, newlines, spaces and non-ASCII whitespace ignored (but not the separators U+001C..U+001F), an optional sign, then digits with single underscores between digits, and no more than 4300 digits (the default `sys.int_max_str_digits`); characterised by `ParseIntToString`, `ParseIntDigitLimit`, `ParseIntNeedsDigit`, `ParseIntBlank`, `ParseIntSkipsSpace` and `ParseIntKeepsSeparator` |
| PyInt.ParseIntSkipsSpace | main.py:119 | `int("\t-7\n")` is -7 |
| PyInt.ParseIntKeepsSeparator | main.py:119 | `int("\x1c5")` raises, although `"\x1c5".strip()` is `"5"` |
| PyInt.ParseIntBlank | main.py:119 | a blank text is rejected by `int()` |
| PyInt.NatToStringValue | gen_patch_coordinates.py:42 | the digits of `str(n)` read back as `n` |
| PyInt.ParseIntToString | main.py:119 | `int(str(x)) == x` for every integer of at most 4300 digits |
| PyInt.ParseIntDigitLimit | main.py:119 | `int(s)` raises for every text with more than 4300 digits, such as `'1' * 4301` |
| PyInt.IntToStringInjective | gen_patch_coordinates.py:42 | different integers print differently |
| PyInt.ParseIntNeedsDigit | main.py:119 | a text without a digit is rejected by `int()` |
| PatchId.Encode | gen_patch_coordinates.py:42 | the identifier splits on `~` into the name's own pieces followed by the ordinal and the `x.y` text |
| PatchId.ParseAll | main.py:119 | `map(int, parts)` succeeds exactly when every part converts, and then yields their values in order; otherwise it reports the first part that fails to convert |
| PatchId.Decode | main.py:118-119 | `slide_name, patch_idx, coords = pid.split('~')` then `map(int, coords.split('.'))` into the crop's two coordinates, each step's failure an error; characterised by `DecodeEncode`, `DecodeSound` and `DecodeRejectsTilde` |
| PatchId.DecodeEncode | main.py:118-119 | decoding an identifier of a name without `~` gives back the name, the ordinal's text and both coordinates, for coordinates of at most 4300 digits (all that `str()` prints) |
| PatchId.DecodeRejectsTilde | main.py:118 | the identifier of a name containing `~` has four or more fields and fails to unpack |
| PatchId.DecodeSound | main.py:118-119 | whatever decodes is three `~`-free fields joined by `~`, whose last splits on `.` into two texts that convert to the decoded coordinates |
| PatchId.EncodeInjective | gen_patch_coordinates.py:42 | distinct (name, ordinal, x, y) give distinct identifiers, whatever the names contain |
| PatchId.SlideGroup | main.py:120 | the group directory is the name up to its first `_` |
| PatchId.PathJoin | main.py:120 | POSIX `os.path.join(a, b)`; characterised by `PathJoinParts` |
| PatchId.PathJoinParts | main.py:120 | an absolute part replaces the directory; otherwise the result is the directory, at most one added `/`, then the part, with a `/` always between a non-empty directory and the part and none doubled |
| PatchId.SlidePath | main.py:120 | `os.path.join(slides_dir, name.split('_')[0], f'{name}.svs')`; characterised by `SlidePathFile` and `SlidePathLayout` |
| PatchId.SlidePathFile | main.py:120 | for every directory and name the path ends with `<name>.svs` |
| PatchId.SlidePathLayout | main.py:120 | for a non-empty directory not ending in `/` and a name without `/` not starting with `_`, the path is `dir/group/name.svs` |
| PatchId.Locate | main.py:116-122 | the slide file and the crop corner rendered for an identifier, or the decoding error that raises; characterised by `LocateEncoded` |
| PatchId.LocateEncoded | main.py:116-122 | the labeler renders, for a recorded identifier (coordinates of at most 4300 digits), the crop at the recorded corner of the slide file named after the recorded slide |
| LabelTable.IndexOf | main.py:107 | the first position holding the key, or -1 exactly when the key is absent |
| LabelTable.Keys | main.py:39 | `list(d.keys())`: one key per entry, in table order |
| LabelTable.Get | main.py:61 | `d.get(k)`: `None` exactly when the key is absent, otherwise the label stored under it |
| LabelTable.GetAt | main.py:153 | in a table with distinct keys, looking up the key at position `i` gives the label at position `i` |
| LabelTable.Insert | main.py:107 | `d[k] = v`: an existing key keeps its place and takes `v`, a new key is appended, other entries are unchanged, and keys stay distinct |
| LabelTable.InsertAt | main.py:107 | writing to the key at position `i` of a table with distinct keys changes entry `i` alone |
| LabelTable.FromRows | main.py:28 | loading rows gives a table with distinct keys and no more entries than rows; characterised by `FromRowsHasKey`, `FromRowsLastLabel`, `FromRowsFirstOrder` and `FromDistinctRows` |
| LabelTable.FromRowsHasKey | main.py:28 | a key is in the loaded table exactly when some row carries it: no row's key is lost and none is made up |
| LabelTable.FromRowsLastLabel | main.py:28 | each key holds the label of the last row that carries it |
| LabelTable.FromRowsFirstOrder | main.py:28 | the keys of the loaded table come in the order of their first rows |
| LabelTable.FromDistinctRows | main.py:113 | rows whose keys are distinct load back unchanged, so a saved table reloads as it was |
| LabelTable.CountDone | main.py:21 | the labelled count is at most the table size |
| LabelTable.CountDoneFull | main.py:21 | the labelled count equals the table size exactly when every label is non-empty |
| LabelTable.CountDoneZero | main.py:21 | the labelled count is 0 exactly when every label is empty |
| LabelTable.SessionIndexes | main.py:20-21 | `get_session_indexes` gives (labelled, total) with total the table size and labelled at most total |
| LabelTable.CountDoneMonotone | main.py:94-98 | when labelled entries stay labelled, the labelled count does not drop |
| LabelTable.FromUniformRows | gen_patch_coordinates.py:42 | when every row has the same label, every loaded entry has that label and a key taken from some row |
| SlideBatch.SortPaths | gen_patch_coordinates.py:45 | `sorted(paths)` is a permutation of the paths, in code-point order |
| SlideBatch.Head | gen_patch_coordinates.py:47 | `s[0:stop]` is a prefix of `s` whose length follows Python's clamping for both signs of `stop` |
| SlideBatch.Batch | gen_patch_coordinates.py:45-47 | `sorted(glob(...))[0:N_WSI]`; characterised by `BatchIsSortedPrefix` |
| SlideBatch.BatchIsSortedPrefix | gen_patch_coordinates.py:45-47 | the batch holds `min(N_WSI, matched)` matched paths, is sorted, and no matched path left out comes before a kept one |
| Sampler.RandInt | gen_patch_coordinates.py:33-34 | every draw lies in `[lo, hi)` |
| Sampler.RandIntCoversRange | gen_patch_coordinates.py:33-34 | every value of `[lo, hi)` is drawn by some raw integer |
| Sampler.CanDraw | gen_patch_coordinates.py:33-34 | both `randint` ranges are non-empty; characterised by `DegenerateSlideFails` and `TooSmallExample` |
| Sampler.Accepts | gen_patch_coordinates.py:40 | `patch.avg() <= mean and patch.deviate() >= std`; characterised by `SampleSound` and `BorderExample` |
| Sampler.Sample | gen_patch_coordinates.py:26-43 | the run of the loops, slide by slide and ordinal by ordinal, as the accepted patches in order or the error that ends it; characterised by `CoordPatchesListGen`, `SampleSound`, `SampleFollowsSchedule`, `SampleDrawBound` and `DegenerateSlideFails` |
| Sampler.SampleDrawBound | gen_patch_coordinates.py:31-41 | every accepted patch uses up a draw of its own, so a run records at most as many patches as draws |
| Sampler.CoordPatchesListGen | gen_patch_coordinates.py:17-43 | the nested loops with the retry loop return exactly the table of the specification function `Sample`, or its error |
| Sampler.SampleSound | gen_patch_coordinates.py:30-41 | every recorded patch passed `mean <= PATCH_MEAN` and `std >= PATCH_STD`, has its corner in `[offset, dim - offset - patch)` on both axes, and comes from an input slide |
| Sampler.DegenerateSlideFails | gen_patch_coordinates.py:33-34 | once patches are asked of a slide too small for the geometry, the run fails, whatever the draws |
| Sampler.BorderExample | gen_patch_coordinates.py:32-41 | with 768x768 patches and offset 50 on a 2000x2000 slide, every corner is in `[50, 1181]` and a crop of mean 210 is never recorded under threshold 200 |
| Sampler.TooSmallExample | gen_patch_coordinates.py:33 | a 500x500 slide with 768x768 patches and offset 0 fails with an empty range |
| Sampler.SampleFollowsSchedule | gen_patch_coordinates.py:26-29 | a successful run records one patch per (slide, ordinal) the loops visit, in visiting order |
| Sampler.ScheduleOfSlide | gen_patch_coordinates.py:29 | a slide contributes ordinals `i..n-1` in increasing order, followed by the remaining slides |
| Sampler.ScheduleClosedForm | gen_patch_coordinates.py:26-29 | the loops visit `|slides| * n` positions, position `k` being slide `k / n` with ordinal `k % n` |
| Sampler.ScheduleEmpty | gen_patch_coordinates.py:29 | a non-positive per-slide count visits nothing |
| Sampler.ScheduleOrdinals | gen_patch_coordinates.py:29 | every visited ordinal is below the per-slide count |
| Sampler.SampledTable | gen_patch_coordinates.py:42 | the key of every recorded patch is in the table; every table entry has an empty label and the key of a recorded patch, which passed the test, comes from an input slide, and has an ordinal below the count |
| Sampler.TableOfKeys | gen_patch_coordinates.py:42 | for any list of patches, the table has an entry for each patch and no more entries than patches |
| Sampler.TableOfEntries | gen_patch_coordinates.py:42 | for any list of patches, every table entry has an empty label and the key of one of the patches |
| Sampler.RowCount | gen_patch_coordinates.py:25-43 | with pairwise distinct slide names no key collides: the table is the rows in order and has `|slides| * n` entries (none for `n <= 0`) |
| Session.CommitLabel | main.py:104-108 | a blank field leaves the table as it was; otherwise the stripped text becomes the current entry's label and nothing else changes; keys and their order never change |
| Session.CommitStep | main.py:105-108 | a commit keeps the keys, their order and their distinctness; a non-blank field is the dict write of its stripped text at the current key, anything else leaves the table as it was; the labelled count never drops and the total stays |
| Session.CommitKeepsLabels | main.py:105-109 | a commit never empties a labelled entry, so the labelled count never drops |
| Session.CommitShownLabel | main.py:153 | committing the stripped label shown after a move changes nothing when the stored label is already stripped |
| Session.NextIndex | main.py:148-166 | right moves up exactly when not at the last entry, left moves down exactly when not at the first, and the position stays in range |
| Session.AnnotationSession.constructor | main.py:27-40 | the session starts at entry 0 with the navigation list equal to the table's keys in order and the counters current |
| Session.AnnotationSession.Edit | main.py:56-62 | typing into the editable field replaces its text and leaves the table, the position and the crop as they were |
| Session.AnnotationSession.UpdateProgressIdx | main.py:94-98 | the counters become `get_session_indexes` of the table |
| Session.AnnotationSession.UpdateCurrentPage | main.py:100-109 | the table becomes the commit of the field at the current entry; the session invariant holds and the labelled count does not drop |
| Session.AnnotationSession.OnKeyboard | main.py:139-169 | an arrow key commits the field, then moves as `NextIndex` says; after a move the field shows the stored label stripped; a non-blank field is stored at the old position; other keys change nothing |
| Session.AnnotationSession.Step | main.py:148-166 | the position moves as `NextIndex` says; after a move the patch at the new position is shown, and without a move the field and the crop are unchanged |
| Session.AnnotationSession.Show | main.py:153-155 | the field shows the stored label stripped, and the crop shown is that of the new identifier, or the previous one when the identifier does not decode |
| Session.AnnotationSession.UpdateCsvWithValues | main.py:111-114 | saving commits first and hands over every entry in table order; loading those rows back gives the same table |
| Session.OnSetupStart | main.py:26-40 | setup leaves no session exactly when the table is empty or its first identifier does not decode; otherwise the session starts at entry 0 showing the first crop |

## Left out

- Opening slides, band extraction, cropping and the crop statistics (`pyvips`). A slide is its metadata file name and its level-0 size. The statistics are oracle values. The crop's own bounds check is not modelled.
- The mapping from the batch of sorted paths to opened slides. `SlideBatch` models the selection of paths and `Sampler` takes the opened slides.
- `np.random.randint`'s distribution. Only its range is modelled.
- Console output: the `verbose` print of each crop's statistics and the counts printed before and after sampling. They change no state.
- PatchId.PathJoin: follows POSIX `os.path.join`. On Windows, `ntpath` also treats `\` and drive letters as separators and roots; that is not modelled.
- Sampler.CoordPatchesListGen: does not claim termination of the retry loop, because the code has no cap. A run that finds no accepted draw among those supplied ends with `DrawsExhausted`.
- Reading and writing CSV files (`pandas`) and reading `.env` configuration (`dotenv`). The table is an in-memory sequence of rows. pandas' quoting and its type inference for the label column are not modelled; labels are always text.
- PyInt.ParseInt: accepts ASCII digits only. Python's `int()` also accepts other Unicode decimal digits. The digit limit is the default 4300 of Python 3.11 and later; a changed `sys.int_max_str_digits`, and older Pythons without the limit, are not modelled.
- PyInt.IntToString: prints integers of any length. Python's `str()` raises above 4300 digits, so the sampler would stop on such an ordinal or coordinate; `DecodeEncode` and `LocateEncoded` require coordinates within that limit.
- All GUI wiring: file pickers, looking controls up by tag, focus, dialogs, window events and page updates. The guard that the labeling controls exist is the session object itself.
- The conditions that start setup (a non-empty slide match and an existing result file) and running setup again on a second pick.
- Temporary PNG files: their creation, their deletion on every move, and the `os.path.exists` checks.
- The progress bar ratio `done / total`, which is floating-point division.
- Session.AnnotationSession.Show: when the new identifier does not decode, the labeler raises after it has moved the index and filled the field; the model keeps the previous crop and the session goes on.
- Session.OnSetupStart: when setup raises, the labeler has already stored the index, table and counters in the page session but builds no controls. The model returns no session at all.
