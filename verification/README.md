# File Organizer — verified model

A Dafny model of `FileOrganizer`, the one class of the File Organizer script.
Given a directory, it creates one folder per file category and moves every
top-level regular file into the folder its extension selects. If a name is
already taken, the file is renamed `stem_1.ext`, `stem_2.ext`, … The class
counts the files moved into each category and the moves that failed.

The model is split by concern:

- `text.dfy` (`Text`) holds the `str` behaviour the class relies on: lower-casing, decimal
  rendering of the rename counter, and the code-point string order `sorted` uses.
- `names.dfy` (`PathNames`) holds `Path.stem`, `Path.suffix` and the hidden-name test.
- `categories.dfy` (`Categories`) holds the ordered category table and `get_file_category`.
- `collision.dfy` (`Collision`) holds the duplicate-name probe of `move_file`, both as
  a function and as the `while` loop as written.
- `accounting.dfy` (`Accounting`) holds the `moved_files` counts, their order-free
  total, and `show_summary` as data.
- `organizer.dfy` (`FileOrganizer`) holds the constructor, `create_folders`, the
  eligibility filter, `move_file` and `organize_files`.
- `wrappers.dfy` (`Wrappers`) holds `Option` and `Result`.

The target directory is abstract: `Fs(files, folders)` holds the names of its
regular files and maps each sub-folder to the set of entry names inside it.
A name is either a file or a folder, never both (`FileOrganizer.Wf`); every
real directory has this property, and the run requires it of its input.
The organizer's state is an immutable record: the directory, `movedFiles` and
`errorCount`. Each operation returns the next state. Outside influences become
parameters:

- `Path.exists` on the target is the `folderExists` flag.
- The order `iterdir` yields entries in is the `listing` sequence.
- Whether the filesystem refuses a move (`PermissionError` or any other
  exception from `shutil.move`) is the `refused` set of names.

Three behaviours of the code are easy to overlook:

- The constructor only checks that the path exists; it does not check that it
  is a directory.
- When no file is eligible, `organize_files` returns before `show_summary`, so
  no summary is produced at all. The model returns `None` in that case.
- The script filter compares the suffix with `.py` case-sensitively, but
  classification lower-cases first. So `tool.PY` is moved into `Code`, while
  `tool.py` is never touched (`FileOrganizer.ScriptFilterCaseSensitive`).

The run loop is modelled twice. `FileOrganizer.Run` is the reference: a fold
that classifies and moves each name of a list in order. `FileOrganizer.MoveAll`
is the `for` loop as written, and it is proved equal to the fold. The lemmas
about the fold state where each file lands, which count rises, and how many
errors there are. They count moves per category with `MovedInto`: the listed
files that are top-level files, are not refused, and whose category folder
exists. Exact counts assume that no name is listed twice, which holds for any
directory listing.

## Model

| member | source | states |
|---|---|---|
| `FileOrganizer.Init` | File_Organizer.py:22-41 | construction fails with folder-not-found exactly when the path does not exist; otherwise the organizer starts on that directory with no moves and no errors |
| `Categories.FileTypesDisjoint` | File_Organizer.py:29-37 | no extension is listed under two categories, and `Miscellaneous` is the last row with an empty list and is the only row of that name |
| `Categories.FirstMatch` | File_Organizer.py:55-57 | the dict scan finds a row exactly when some list contains the extension, and the row it finds is the first such row in table order |
| `Categories.FirstMatchUnique` | File_Organizer.py:55-57 | in a table whose lists are disjoint, the first match is the one row whose list contains the extension |
| `Categories.Classify` | File_Organizer.py:52-60 | every extension, the empty one included, maps to a category of the table; the result is `Miscellaneous` exactly when no list holds the lower-cased extension, and any other result is a category whose list holds it |
| `Categories.ClassifyUnique` | File_Organizer.py:30-57 | when a category's list holds the lower-cased extension, that category is the answer, and it is not `Miscellaneous` |
| `Categories.ClassifyCaseInsensitive` | File_Organizer.py:52 | classifying an extension and classifying its lower-case form give the same category |
| `Categories.ClassifyImageAnyCase` | File_Organizer.py:30 | `.JPG` and `.jpg` both go to `Images` |
| `Categories.ClassifyEmptySuffix` | File_Organizer.py:59-60 | a file without a suffix goes to `Miscellaneous` |
| `Categories.ClassifyUnknownSuffix` | File_Organizer.py:59-60 | an unlisted extension (`.xyz`) goes to `Miscellaneous` |
| `Categories.ClassifyUpperCaseScript` | File_Organizer.py:35 | `.PY` is classified as `Code` |
| `Text.LowerChar` | File_Organizer.py:52 | each of `A`-`Z` becomes the lower-case letter at the same place in the alphabet, the Kelvin sign becomes `k`, every other character is kept, and the result is never an upper-case ASCII letter |
| `Text.Lower` | File_Organizer.py:52 | lower-casing keeps the length; at every position an upper-case ASCII letter becomes its own lower-case letter, a Kelvin sign becomes `k`, and any other character is kept; no upper-case ASCII letter and no Kelvin sign remains |
| `Text.LowerIdempotent` | File_Organizer.py:52 | lower-casing an already lower-cased string changes nothing |
| `PathNames.LastDot` | File_Organizer.py:92-93 | the index found is a dot, or -1 when there is no dot, and no dot comes after it |
| `PathNames.Suffix` | File_Organizer.py:93 | the suffix is empty, or starts with its only dot and has at least one more character; it is empty exactly when the name has no suffix |
| `PathNames.Stem` | File_Organizer.py:92 | with a suffix the stem is a non-empty proper prefix of the name; without one it is the whole name |
| `PathNames.StemSuffixSplit` | File_Organizer.py:92-93 | stem followed by suffix gives back the file name |
| `Text.Decimal` | File_Organizer.py:98 | the counter is written as at least one decimal digit, with no leading zero |
| `Text.DecimalRoundTrip` | File_Organizer.py:98 | reading the written digits back gives the counter |
| `Text.DecimalInjective` | File_Organizer.py:98 | two counters are written alike only when they are equal |
| `Collision.CandidateInjective` | File_Organizer.py:98 | different counters produce different rename candidates |
| `Collision.ProbeBound` | File_Organizer.py:97-100 | if the first n candidates are all taken, the folder holds at least n entries, so the probe stops within the folder's size plus one |
| `Collision.ProbeFrom` | File_Organizer.py:94-100 | probing upward from a counter below which all candidates are taken returns the least counter whose candidate is free |
| `Collision.DestinationName` | File_Organizer.py:87-100 | the destination name is never already in the folder; it is the file's own name when that is free, otherwise `stem_k.ext` with k the least counter from 1 whose candidate is free |
| `Collision.ResolveDestination` | File_Organizer.py:91-100 | the `while destination_path.exists()` loop terminates on any finite folder and returns that same destination name |
| `Collision.ReportExample` | File_Organizer.py:91-100 | a second `report.pdf` becomes `report_1.pdf`, and a third becomes `report_2.pdf` |
| `FileOrganizer.EnsureFolders` | File_Organizer.py:67-72 | afterwards every listed name exists; files and existing folders are untouched; every new folder is one of the names, was not a file, and is empty |
| `FileOrganizer.EnsureFoldersNoop` | File_Organizer.py:71-72 | when every name already exists, nothing is created |
| `FileOrganizer.CreateFolders` | File_Organizer.py:63-72 | every category exists afterwards, as a folder unless a file already has its name; existing folders and files and the accounting are unchanged; new folders are empty categories |
| `FileOrganizer.CreateFoldersIdempotent` | File_Organizer.py:67-72 | a second `create_folders` changes nothing |
| `FileOrganizer.VisibleFiles` | File_Organizer.py:134-135 | the first filter keeps exactly the listed names that are regular files and not hidden, in listing order, and repeats no name the listing does not repeat |
| `FileOrganizer.WithoutScripts` | File_Organizer.py:138 | the second filter keeps exactly the names whose suffix is not exactly `.py`, in their order, without adding repeats |
| `FileOrganizer.EligibleFiles` | File_Organizer.py:134-138 | a listed name is processed exactly when it is a regular file, not hidden, and its suffix is not `.py`; the files come in listing order, each once when the listing has no repeats |
| `FileOrganizer.FoldersNeverEligible` | File_Organizer.py:134-135 | a sub-folder, a category folder included, is never processed |
| `FileOrganizer.ScriptFilterCaseSensitive` | File_Organizer.py:138 | `tool.py` is skipped, while `tool.PY` is processed and goes to `Code` |
| `Accounting.Increment` | File_Organizer.py:108-110 | the category's count goes up by one, starting from 0 when absent; other counts are unchanged; the total goes up by one |
| `Accounting.TotalUpdate` | File_Organizer.py:108-110 | changing one count changes the total by exactly that difference |
| `FileOrganizer.RelocateKeepsEntries` | File_Organizer.py:105 | moving a file into a folder under a name the folder lacks loses and duplicates no entry |
| `FileOrganizer.MoveFile` | File_Organizer.py:78-122 | a move succeeds exactly when the file is present, the category is a folder and the filesystem does not refuse. On success the file leaves the top level, the folder gains exactly one new entry (its own name if free, else the least free rename), the category count rises by one and the error count is kept. On failure only the error count rises. Either way moves plus errors rise by one and no entry is lost |
| `FileOrganizer.TallyStep` | File_Organizer.py:148-154 | without repeated names, one more file raises its own category's count by one when it moves (it is a top-level file, not refused, and its category folder exists) and raises the error count by one otherwise; nothing else changes |
| `FileOrganizer.CountsStep` | File_Organizer.py:148-154 | one more processed file adds exactly one to moves plus errors, and no count goes down; without repeated names, the per-category counts and the error count stay exact |
| `FileOrganizer.FilesStep` | File_Organizer.py:148-154 | after one more file, refused and unprocessed files are still in place, and processed unrefused files whose category folder exists have left |
| `FileOrganizer.MovedLands` | File_Organizer.py:87-110 | a successful move adds exactly one entry to the category folder, an entry the folder did not hold before, naming the file by its own name or a `stem_k.ext` rename; the set of folders and every other folder are unchanged |
| `FileOrganizer.PlacementStep` | File_Organizer.py:148-154 | after one more file, folders have only gained entries, and the file, when it moves, is among the entries the run added to its own category folder, under its own name or a `stem_k.ext` rename |
| `FileOrganizer.FilledStep` | File_Organizer.py:148-154 | without repeated names, one more file adds one entry to its own category folder when it moves, and leaves every folder's size alone otherwise |
| `FileOrganizer.RunStep` | File_Organizer.py:148-154 | the run invariant survives one more classify-and-move. It covers the exact per-category and error counts, which files are still at the top level, the entries the run added to each category folder (one per moved file, and each moved file among them), and the folder shape |
| `FileOrganizer.RunHolds` | File_Organizer.py:145-154 | the fold that classifies and moves a list of names in order keeps the run invariant from the freshly created folders on |
| `FileOrganizer.RunConclusion` | File_Organizer.py:142-156 | after all eligible files, moves plus errors rose by their number. Without repeats, each category's count and each category folder's size rose by the number of files moved into it, and the errors by the number that did not move. Refused and ineligible files stayed. Each unrefused file whose category folder exists left the top level and is among the entries the run added to that folder. Counts only grew, folders only gained entries, and no entry was lost |
| `FileOrganizer.MoveAll` | File_Organizer.py:148-154 | the `for` loop computes exactly the fold over the eligible files, each processed once in list order, and so meets the run invariant |
| `FileOrganizer.PartialFailure` | File_Organizer.py:104-154 | when the first of two eligible files is refused and the second is not, the first stays at the top level and the error count is 1. The second is the single move, counted under its category: it leaves the top level, its category folder gains exactly one new entry holding it under its own name or a rename, and no other folder changes |
| `FileOrganizer.OrganizeFiles` | File_Organizer.py:125-158 | the result is the fold over the eligible files in listing order. With no eligible file the run only creates folders and reports nothing. Otherwise moves plus errors rise by the number of eligible files. Without repeats in the listing, each category's count and each category folder's size rise by the number of files moved into it, and the errors by the number that did not move. Refused and ineligible files stay. Every other eligible file whose category folder exists is among the entries the run added to that folder. No entry is lost. The summary lists every category with a count once, in sorted order, with its count, and its total is the sum of all counts |
| `Accounting.TotalRemove` | File_Organizer.py:167-173 | the total of the counts can be taken key by key in any order |
| `Accounting.SumOverTotal` | File_Organizer.py:167-176 | adding the counts along any list that names every category once gives the total |
| `Accounting.Least` | File_Organizer.py:170 | returns a key that comes first in Python's string order |
| `Accounting.SortedKeys` | File_Organizer.py:170 | `sorted(keys)` lists every key once, strictly increasing in Python's string order |
| `Accounting.ShowSummary` | File_Organizer.py:167-176 | one row per key of `moved_files`, strictly sorted by name and carrying that key's count; the total is the sum of all counts; the error count is reported unchanged |

## Left out

- All console output, including the progress lines, the warnings about renames and errors, and the summary text. The summary is modelled as data: rows, a total and an error count.
- `main()`: the interactive prompt, the `"."` default, and how construction errors and interrupts are shown. These are user interface and process plumbing.
- Filesystem semantics are abstract. `iterdir` order is the `listing` input. A refused move is decided by the `refused` input, and the refused file is assumed to stay in place; a partial copy by `shutil.move` is not modelled. Symbolic links and special files are not modelled: every top-level entry is either a regular file or a folder.
- A target path that exists but is not a directory passes the constructor, as in the code. The exception `create_folders` would then raise is not modelled, because the abstract filesystem always describes a directory. Failures of `mkdir` itself are left out for the same reason.
- Concurrent changes to the directory during a run are left out; the code has no concurrency.
- `Text.Lower` changes only `A`-`Z` and KELVIN SIGN (U+212A, lower-case `k`). Among the characters Python's `str.lower` changes, these are the only ones whose lower-case form is plain ASCII. Every other change produces non-ASCII text, which no extension in the all-ASCII table can match, so classification comes out the same. The lower-cased text itself differs from Python's for those other characters.
- `PathNames.Suffix` and `PathNames.Stem` follow pathlib's rule up to Python 3.13: the suffix starts at the last dot when that dot is neither the first nor the last character. A trailing single dot is not treated as a suffix.
- RunConclusion: a moved file is known to be among the entries the run added to its category folder, under its own name or some `stem_k.ext` rename. Which rename it gets is stated for a single move by `FileOrganizer.MoveFile`. It is not carried through the whole run, because earlier files of the run can take numbers in the same folder.
- RunConclusion: the exact per-category and error counts are stated for listings without repeated names. A directory listing never repeats a name, so nothing real is lost.
- The seven-file sample directory (one file per category plus `random.xyz`) is not written out as its own lemma. It is an instance of `FileOrganizer.OrganizeFiles` and `FileOrganizer.RunConclusion`, and proving it would mean evaluating the classifier on seven concrete names.
- `test_folder/test_files.py` creates empty sample files. It is pure I/O with no logic to model.
