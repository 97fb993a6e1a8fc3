/** The `FileOrganizer` class: construction, `create_folders`, the
    eligibility filter of `organize_files`, `move_file` and the run loop,
    over an abstract view of the target directory. */
module FileOrganizer {
  import opened Wrappers
  import opened PathNames
  import opened Categories
  import opened Collision
  import opened Accounting
  import opened Text

  /** The target directory: the names of its regular files, and its
      sub-folders with the names of the entries each one holds. */
  datatype Fs = Fs(files: set<string>, folders: map<string, set<string>>)

  /** `(folder / name).exists()` for a direct child of the target. */
  predicate Exists(fs: Fs, name: string)
  {
    name in fs.files || name in fs.folders
  }

  /** A name is either a file or a folder, never both. */
  predicate Wf(fs: Fs)
  {
    fs.files !! fs.folders.Keys
  }

  /** How many entries each sub-folder holds. */
  ghost function FolderSizes(fs: Fs): map<string, nat>
  {
    map k | k in fs.folders :: |fs.folders[k]|
  }

  /** Every entry of the directory tree the organizer can see: top-level
      files plus the contents of the sub-folders. */
  ghost function EntryCount(fs: Fs): nat
  {
    |fs.files| + Total(FolderSizes(fs))
  }

  /** The organizer's state: the directory it works on and its run accounting
      (`moved_files` and `error_count`). */
  datatype Organizer = Organizer(fs: Fs, movedFiles: map<string, nat>, errorCount: nat)

  /** The construction error: the given path does not exist. */
  datatype InitError = FolderNotFound(path: string)

  /** `FileOrganizer(folder_path)`: fails when nothing exists at the path;
      otherwise starts with no moves and no errors. `folderExists` is what
      `Path.exists` answers. */
  function Init(path: string, folderExists: bool, fs: Fs): (r: Result<Organizer, InitError>)
    ensures r.Failure? <==> !folderExists
    ensures r.Failure? ==> r.error == FolderNotFound(path)
    ensures r.Success? ==> r.value.fs == fs && r.value.movedFiles == map[] && r.value.errorCount == 0
  {
    if !folderExists then Failure(FolderNotFound(path))
    else Success(Organizer(fs, map[], 0))
  }

  /** Create, in order, each folder of `names` that does not exist yet. */
  function EnsureFolders(fs: Fs, names: seq<string>): (r: Fs)
    ensures r.files == fs.files
    ensures forall k :: k in fs.folders ==> k in r.folders && r.folders[k] == fs.folders[k]
    ensures forall k :: k in r.folders && k !in fs.folders ==> k in names && k !in fs.files && r.folders[k] == {}
    ensures forall n :: n in names ==> Exists(r, n)
    ensures Wf(fs) ==> Wf(r)
    decreases |names|
  {
    if |names| == 0 then fs
    else
      var next := if Exists(fs, names[0]) then fs else fs.(folders := fs.folders[names[0] := {}]);
      var r := EnsureFolders(next, names[1..]);
      assert forall n :: n in names ==> n == names[0] || n in names[1..];
      r
  }

  /** Nothing is created when every name already exists. */
  lemma {:induction false} EnsureFoldersNoop(fs: Fs, names: seq<string>)
    requires forall n :: n in names ==> Exists(fs, n)
    ensures EnsureFolders(fs, names) == fs
    decreases |names|
  {
    if |names| > 0 {
      assert names[0] in names;
      assert forall n :: n in names[1..] ==> n in names;
      EnsureFoldersNoop(fs, names[1..]);
    }
  }

  /** `create_folders`: one folder per category, created only when nothing of
      that name exists; the accounting is not touched. */
  function CreateFolders(o: Organizer): (r: Organizer)
    ensures r.movedFiles == o.movedFiles && r.errorCount == o.errorCount
    ensures r.fs.files == o.fs.files
    ensures forall c :: IsCategory(c) ==> Exists(r.fs, c)
    ensures forall c :: IsCategory(c) && c !in o.fs.files ==> c in r.fs.folders
    ensures forall k :: k in o.fs.folders ==> k in r.fs.folders && r.fs.folders[k] == o.fs.folders[k]
    ensures forall k :: k in r.fs.folders && k !in o.fs.folders ==> IsCategory(k) && r.fs.folders[k] == {}
    ensures Wf(o.fs) ==> Wf(r.fs)
  {
    o.(fs := EnsureFolders(o.fs, CategoryNames()))
  }

  /** Creating the folders a second time changes nothing. */
  lemma CreateFoldersIdempotent(o: Organizer)
    ensures CreateFolders(CreateFolders(o)) == CreateFolders(o)
  {
    EnsureFoldersNoop(CreateFolders(o).fs, CategoryNames());
  }

  /** A file `organize_files` processes: a regular file, not hidden, whose
      suffix is not exactly `.py` (compared case-sensitively). */
  predicate Eligible(files: set<string>, name: string)
  {
    name in files && !IsHidden(name) && Suffix(name) != ".py"
  }

  /** `a` occurs before `b` in `s`. */
  ghost predicate Precedes(s: seq<string>, a: string, b: string)
  {
    exists p, q :: 0 <= p < q < |s| && s[p] == a && s[q] == b
  }

  /** `r` lists its names in the order `s` does. */
  ghost predicate InOrderOf(r: seq<string>, s: seq<string>)
  {
    forall i, j :: 0 <= i < j < |r| ==> Precedes(s, r[i], r[j])
  }

  /** Keeping or dropping the head of `s` in front of an ordered selection
      of its tail gives an ordered selection of `s`. */
  lemma SelectionInOrder(s: seq<string>, keep: bool, rest: seq<string>)
    requires |s| > 0
    requires forall y :: y in rest ==> y in s[1..]
    requires InOrderOf(rest, s[1..])
    ensures InOrderOf((if keep then [s[0]] else []) + rest, s)
  {
    var r := (if keep then [s[0]] else []) + rest;
    forall i, j | 0 <= i < j < |r|
      ensures Precedes(s, r[i], r[j])
    {
      if keep && i == 0 {
        assert r[j] == rest[j - 1] && rest[j - 1] in rest;
        var q :| 0 <= q < |s[1..]| && s[1..][q] == r[j];
        assert s[0] == r[i] && s[q + 1] == r[j];
      } else {
        var d := if keep then 1 else 0;
        assert r[i] == rest[i - d] && r[j] == rest[j - d];
        var p, q :| 0 <= p < q < |s[1..]| && s[1..][p] == r[i] && s[1..][q] == r[j];
        assert s[p + 1] == r[i] && s[q + 1] == r[j];
      }
    }
  }

  /** An ordered selection of a list without repeats has no repeats. */
  lemma InOrderDistinct(r: seq<string>, s: seq<string>)
    requires Distinct(s) && InOrderOf(r, s)
    ensures Distinct(r)
  {
    forall i, j | 0 <= i < j < |r|
      ensures r[i] != r[j]
    {
      assert Precedes(s, r[i], r[j]);
      var p, q :| 0 <= p < q < |s| && s[p] == r[i] && s[q] == r[j];
    }
  }

  /** The first filter: regular files that are not hidden, in listing order. */
  function VisibleFiles(files: set<string>, listing: seq<string>): (r: seq<string>)
    ensures |r| <= |listing|
    ensures forall x :: x in r <==> x in listing && x in files && !IsHidden(x)
    ensures InOrderOf(r, listing)
    ensures Distinct(listing) ==> Distinct(r)
  {
    if |listing| == 0 then []
    else
      var x := listing[0];
      var keep := x in files && !IsHidden(x);
      var rest := VisibleFiles(files, listing[1..]);
      assert forall y :: y in listing <==> y == x || y in listing[1..];
      SelectionInOrder(listing, keep, rest);
      var r := (if keep then [x] else []) + rest;
      if Distinct(listing) then InOrderDistinct(r, listing); r else r
  }

  /** The second filter: drop names whose suffix is exactly `.py`, keeping
      the order. */
  function WithoutScripts(names: seq<string>): (r: seq<string>)
    ensures |r| <= |names|
    ensures forall x :: x in r <==> x in names && Suffix(x) != ".py"
    ensures InOrderOf(r, names)
    ensures Distinct(names) ==> Distinct(r)
  {
    if |names| == 0 then []
    else
      var x := names[0];
      var keep := Suffix(x) != ".py";
      var rest := WithoutScripts(names[1..]);
      assert forall y :: y in names <==> y == x || y in names[1..];
      SelectionInOrder(names, keep, rest);
      var r := (if keep then [x] else []) + rest;
      if Distinct(names) then InOrderDistinct(r, names); r else r
  }

  /** An ordered selection of an ordered selection is ordered. */
  lemma InOrderTransitive(r: seq<string>, m: seq<string>, s: seq<string>)
    requires InOrderOf(r, m) && InOrderOf(m, s)
    ensures InOrderOf(r, s)
  {
    forall i, j | 0 <= i < j < |r|
      ensures Precedes(s, r[i], r[j])
    {
      assert Precedes(m, r[i], r[j]);
      var p, q :| 0 <= p < q < |m| && m[p] == r[i] && m[q] == r[j];
      assert Precedes(s, m[p], m[q]);
    }
  }

  /** The files `organize_files` will move, in listing order. */
  function EligibleFiles(files: set<string>, listing: seq<string>): (r: seq<string>)
    ensures |r| <= |listing|
    ensures forall x :: x in r <==> x in listing && Eligible(files, x)
    ensures InOrderOf(r, listing)
    ensures Distinct(listing) ==> Distinct(r)
  {
    var visible := VisibleFiles(files, listing);
    var r := WithoutScripts(visible);
    InOrderTransitive(r, visible, listing);
    r
  }

  /** Folders, the category folders among them, are never eligible. */
  lemma FoldersNeverEligible(fs: Fs, listing: seq<string>, name: string)
    requires Wf(fs) && name in fs.folders
    ensures name !in EligibleFiles(fs.files, listing)
  {
  }

  /** The script filter is case-sensitive while classification is not: a
      `.py` file stays where it is, but a `.PY` file is organized into Code. */
  lemma ScriptFilterCaseSensitive()
    ensures !Eligible({"tool.py"}, "tool.py")
    ensures Eligible({"tool.PY"}, "tool.PY") && Classify(Suffix("tool.PY")) == "Code"
  {
    var lower, upper := "tool.py", "tool.PY";
    assert lower[4] == '.' && lower[5] == 'p' && lower[6] == 'y';
    assert upper[4] == '.' && upper[5] == 'P' && upper[6] == 'Y';
    assert LastDot(lower) == 4 && LastDot(upper) == 4;
    assert Suffix(lower) == ".py";
    assert Suffix(upper) == ".PY";
    ClassifyUpperCaseScript();
  }

  /** Moving `name` from the top level into folder `category` under the new
      name `dest` keeps the number of entries. */
  lemma RelocateKeepsEntries(fs: Fs, name: string, category: string, dest: string)
    requires name in fs.files && category in fs.folders && dest !in fs.folders[category]
    ensures EntryCount(Fs(fs.files - {name}, fs.folders[category := fs.folders[category] + {dest}]))
         == EntryCount(fs)
  {
    var after := Fs(fs.files - {name}, fs.folders[category := fs.folders[category] + {dest}]);
    var sizes := FolderSizes(fs);
    assert FolderSizes(after) == sizes[category := sizes[category] + 1];
    TotalUpdate(sizes, category, sizes[category] + 1);
  }

  /** The outcome of one `move_file` call: the new state and its return value. */
  datatype Step = Step(next: Organizer, ok: bool)

  /** `move_file(name, category)`. The move succeeds when the file is still
      there, the category folder exists as a folder, and the filesystem does
      not refuse (`refused` stands for a permission or other OS error). On
      success the file lands in the folder under its own name or its least
      free `stem_k.ext` rename, and `moved_files[category]` goes up by one; on
      failure the file stays and only `error_count` goes up. */
  function MoveFile(o: Organizer, name: string, category: string, refused: bool): (r: Step)
    ensures r.ok <==> !refused && name in o.fs.files && category in o.fs.folders
    ensures !r.ok ==> r.next == o.(errorCount := o.errorCount + 1)
    ensures r.ok ==> r.next.errorCount == o.errorCount
    ensures r.ok ==> r.next.movedFiles.Keys == o.movedFiles.Keys + {category}
    ensures r.ok ==> r.next.movedFiles[category] == (if category in o.movedFiles then o.movedFiles[category] else 0) + 1
    ensures r.ok ==> forall k :: k in o.movedFiles && k != category ==> r.next.movedFiles[k] == o.movedFiles[k]
    ensures Total(r.next.movedFiles) + r.next.errorCount == Total(o.movedFiles) + o.errorCount + 1
    ensures r.ok ==> r.next.fs.files == o.fs.files - {name}
    ensures r.ok ==> r.next.fs.folders.Keys == o.fs.folders.Keys
    ensures r.ok ==> forall k :: k in o.fs.folders && k != category ==> r.next.fs.folders[k] == o.fs.folders[k]
    ensures r.ok ==> o.fs.folders[category] < r.next.fs.folders[category]
    ensures r.ok ==> |r.next.fs.folders[category]| == |o.fs.folders[category]| + 1
    ensures r.ok && name !in o.fs.folders[category] ==> name in r.next.fs.folders[category]
    ensures r.ok && name in o.fs.folders[category] ==>
      exists k :: IsLeastFree(o.fs.folders[category], Stem(name), Suffix(name), k)
               && Candidate(Stem(name), Suffix(name), k) in r.next.fs.folders[category]
    ensures EntryCount(r.next.fs) == EntryCount(o.fs)
    ensures Wf(o.fs) ==> Wf(r.next.fs)
  {
    if !refused && name in o.fs.files && category in o.fs.folders then
      var dest := DestinationName(o.fs.folders[category], name);
      RelocateKeepsEntries(o.fs, name, category, dest);
      var fs := Fs(o.fs.files - {name}, o.fs.folders[category := o.fs.folders[category] + {dest}]);
      Step(Organizer(fs, Increment(o.movedFiles, category), o.errorCount), true)
    else
      Step(o.(errorCount := o.errorCount + 1), false)
  }

  /** Whether processing `x` moves it, given the top-level `files` and the
      `folders` at the start of the loop: it is a file, the filesystem does
      not refuse it, and its category folder exists. */
  ghost predicate Moves(files: set<string>, folders: set<string>, refused: set<string>, x: string)
  {
    x in files && x !in refused && Classify(Suffix(x)) in folders
  }

  /** How many names of `done` are moved into category `c`. */
  ghost function MovedInto(files: set<string>, folders: set<string>, refused: set<string>, done: seq<string>, c: string): nat
  {
    if |done| == 0 then 0
    else
      var x := done[|done| - 1];
      MovedInto(files, folders, refused, done[..|done| - 1], c)
        + (if Moves(files, folders, refused, x) && Classify(Suffix(x)) == c then 1 else 0)
  }

  /** How many names of `done` fail to move. */
  ghost function Failures(files: set<string>, folders: set<string>, refused: set<string>, done: seq<string>): nat
  {
    if |done| == 0 then 0
    else
      Failures(files, folders, refused, done[..|done| - 1])
        + (if Moves(files, folders, refused, done[|done| - 1]) then 0 else 1)
  }

  /** The file `name` sits in `entries`, under its own name or under a
      `stem_k.ext` rename. */
  ghost predicate Landed(entries: set<string>, name: string)
  {
    name in entries || exists k :: 1 <= k && Candidate(Stem(name), Suffix(name), k) in entries
  }

  /** The accounting after processing the files `done` from state `o`, with
      the category folders `folders`: every processed file added exactly one
      to the moves or the errors, and nothing was taken away. When no name
      repeats, each category gained one per file moved into it and the
      errors rose by one per file that did not move. */
  ghost predicate CountsInvariant(o: Organizer, folders: set<string>, done: seq<string>, refused: set<string>, r: Organizer)
  {
    && Total(r.movedFiles) + r.errorCount == Total(o.movedFiles) + o.errorCount + |done|
    && r.errorCount >= o.errorCount
    && (forall k :: k in r.movedFiles ==> k in o.movedFiles || IsCategory(k))
    && (forall k :: k in o.movedFiles ==> k in r.movedFiles && r.movedFiles[k] >= o.movedFiles[k])
    && Tallied(o, folders, done, refused, r)
  }

  /** Without repeated names in `done`, each category gained one per file
      moved into it, and the errors rose by one per file that did not move. */
  ghost predicate Tallied(o: Organizer, folders: set<string>, done: seq<string>, refused: set<string>, r: Organizer)
  {
    Distinct(done) ==>
      && (forall c :: Count(r.movedFiles, c) == Count(o.movedFiles, c) + MovedInto(o.fs.files, folders, refused, done, c))
      && r.errorCount == o.errorCount + Failures(o.fs.files, folders, refused, done)
  }

  /** Where the files are after processing `done` from state `o`, with the
      category folders `folders`: a file leaves the top level only by being
      processed and not refused, and a processed, unrefused file whose
      category folder exists has left. */
  ghost predicate FilesInvariant(o: Organizer, folders: set<string>, done: seq<string>, refused: set<string>, r: Organizer)
  {
    && r.fs.files <= o.fs.files
    && (forall x :: x in o.fs.files && (x in refused || x !in done) ==> x in r.fs.files)
    && (forall x :: x in done && x !in refused && Classify(Suffix(x)) in folders ==> x !in r.fs.files)
  }

  /** Where the moved files went: folders only gain entries, and every file
      of `done` that moves is among the entries the run added to its own
      category folder. */
  ghost predicate PlacementInvariant(o: Organizer, start: Organizer, done: seq<string>, refused: set<string>, r: Organizer)
  {
    && r.fs.folders.Keys == start.fs.folders.Keys
    && (forall k :: k in start.fs.folders ==> start.fs.folders[k] <= r.fs.folders[k])
    && (forall x :: x in done && Moves(o.fs.files, start.fs.folders.Keys, refused, x) ==>
          var c := Classify(Suffix(x));
          Landed(r.fs.folders[c] - start.fs.folders[c], x))
  }

  /** Without repeated names in `done`, each folder gained exactly one entry
      per file moved into it. */
  ghost predicate Filled(o: Organizer, start: Organizer, done: seq<string>, refused: set<string>, r: Organizer)
  {
    Distinct(done) ==>
      forall c :: c in start.fs.folders ==>
        c in r.fs.folders
        && |r.fs.folders[c]| == |start.fs.folders[c]| + MovedInto(o.fs.files, start.fs.folders.Keys, refused, done, c)
  }

  /** The shape of the tree since the folders were created: the same
      folders, the same number of entries, still well formed. */
  ghost predicate ShapeInvariant(start: Organizer, r: Organizer)
  {
    && r.fs.folders.Keys == start.fs.folders.Keys
    && EntryCount(r.fs) == EntryCount(start.fs)
    && Wf(r.fs)
  }

  /** The state of the run loop after processing `done`. */
  ghost predicate RunInvariant(o: Organizer, start: Organizer, done: seq<string>, refused: set<string>, r: Organizer)
  {
    && CountsInvariant(o, start.fs.folders.Keys, done, refused, r)
    && FilesInvariant(o, start.fs.folders.Keys, done, refused, r)
    && PlacementInvariant(o, start, done, refused, r)
    && Filled(o, start, done, refused, r)
    && ShapeInvariant(start, r)
  }

  /** One pass of the run loop: classify the file by its suffix and move it. */
  function NextMove(r: Organizer, name: string, refused: set<string>): Step
  {
    MoveFile(r, name, Classify(Suffix(name)), name in refused)
  }

  /** The run loop as a fold: each name of `names`, in order, classified and
      moved, starting from `start`. */
  function Run(start: Organizer, names: seq<string>, refused: set<string>): Organizer
    decreases |names|
  {
    if |names| == 0 then start
    else NextMove(Run(start, names[..|names| - 1], refused), names[|names| - 1], refused).next
  }

  /** The fold over one more name is one more move. */
  lemma RunSnoc(start: Organizer, names: seq<string>, i: nat, refused: set<string>)
    requires i < |names|
    ensures Run(start, names[..i + 1], refused) == NextMove(Run(start, names[..i], refused), names[i], refused).next
  {
    assert names[..i + 1][..i] == names[..i];
  }

  /** Facts about `done + [name]` in terms of `done`. */
  lemma SnocFacts(done: seq<string>, name: string)
    ensures (done + [name])[..|done|] == done
    ensures (done + [name])[|done|] == name
    ensures forall x :: x in done + [name] <==> x in done || x == name
    ensures Distinct(done + [name]) ==> Distinct(done) && name !in done
  {
    var s := done + [name];
    if Distinct(s) {
      forall i | 0 <= i < |done|
        ensures done[i] != name
      {
        assert s[i] == done[i] && s[|done|] == name;
      }
    }
  }

  /** A file not processed before moves exactly when `Moves` says so. */
  lemma StepOk(o: Organizer, folders: set<string>, done: seq<string>, refused: set<string>, r: Organizer, name: string)
    requires r.fs.folders.Keys == folders
    requires FilesInvariant(o, folders, done, refused, r)
    requires name !in done
    ensures NextMove(r, name, refused).ok <==> Moves(o.fs.files, folders, refused, name)
  {
    assert name in r.fs.files <==> name in o.fs.files;
  }

  /** Without repeated names, the one more file raises its own category's
      count when it moves and the error count when it does not. */
  lemma TallyStep(o: Organizer, folders: set<string>, done: seq<string>, refused: set<string>, r: Organizer, name: string)
    requires r.fs.folders.Keys == folders
    requires FilesInvariant(o, folders, done, refused, r)
    requires Tallied(o, folders, done, refused, r)
    ensures Tallied(o, folders, done + [name], refused, NextMove(r, name, refused).next)
  {
    var category := Classify(Suffix(name));
    var step := NextMove(r, name, refused);
    var next := step.next;
    SnocFacts(done, name);
    var done' := done + [name];
    if Distinct(done') {
      var files, moves := o.fs.files, Moves(o.fs.files, folders, refused, name);
      StepOk(o, folders, done, refused, r, name);
      forall c
        ensures Count(next.movedFiles, c) == Count(o.movedFiles, c) + MovedInto(files, folders, refused, done', c)
      {
        assert MovedInto(files, folders, refused, done', c)
          == MovedInto(files, folders, refused, done, c) + (if moves && category == c then 1 else 0);
        assert Count(next.movedFiles, c) == Count(r.movedFiles, c) + (if step.ok && category == c then 1 else 0);
      }
      assert Failures(files, folders, refused, done') == Failures(files, folders, refused, done) + (if moves then 0 else 1);
    }
  }

  /** After one more file, moves and errors rise by one between them, no
      count goes down, and (without repeated names) the file's own category
      count or the error count is the one that rose. */
  lemma CountsStep(o: Organizer, folders: set<string>, done: seq<string>, refused: set<string>, r: Organizer, name: string)
    requires r.fs.folders.Keys == folders
    requires FilesInvariant(o, folders, done, refused, r)
    requires CountsInvariant(o, folders, done, refused, r)
    ensures CountsInvariant(o, folders, done + [name], refused, NextMove(r, name, refused).next)
  {
    var category := Classify(Suffix(name));
    var step := NextMove(r, name, refused);
    var next := step.next;
    forall k | k in o.movedFiles
      ensures k in next.movedFiles && next.movedFiles[k] >= o.movedFiles[k]
    {
      if k == category && step.ok {
        assert next.movedFiles[k] > r.movedFiles[k];
      }
    }
    TallyStep(o, folders, done, refused, r, name);
  }

  lemma FilesStep(o: Organizer, folders: set<string>, done: seq<string>, refused: set<string>, r: Organizer, name: string)
    requires r.fs.folders.Keys == folders
    requires FilesInvariant(o, folders, done, refused, r)
    ensures FilesInvariant(o, folders, done + [name], refused, NextMove(r, name, refused).next)
  {
    var step := NextMove(r, name, refused);
    var files := step.next.fs.files;
    assert files == if step.ok then r.fs.files - {name} else r.fs.files;
    forall x | x in o.fs.files && (x in refused || x !in done + [name])
      ensures x in files
    {
      assert x in refused || x !in done;
    }
    forall x | x in done + [name] && x !in refused && Classify(Suffix(x)) in folders
      ensures x !in files
    {
      if x != name {
        assert x in done;
      }
    }
  }

  /** A file that has landed in a folder stays landed as the folder grows. */
  lemma LandedGrows(a: set<string>, b: set<string>, name: string)
    requires a <= b && Landed(a, name)
    ensures Landed(b, name)
  {
    if name !in a {
      var k :| 1 <= k && Candidate(Stem(name), Suffix(name), k) in a;
    }
  }

  /** A successful move adds exactly one entry to the category folder, the
      file under its own name or a rename, and touches no other folder. */
  lemma MovedLands(r: Organizer, name: string, refused: set<string>)
    requires NextMove(r, name, refused).ok
    ensures var c := Classify(Suffix(name));
      var next := NextMove(r, name, refused).next;
      && c in r.fs.folders && c in next.fs.folders
      && r.fs.folders[c] <= next.fs.folders[c]
      && |next.fs.folders[c]| == |r.fs.folders[c]| + 1
      && Landed(next.fs.folders[c] - r.fs.folders[c], name)
      && next.fs.folders.Keys == r.fs.folders.Keys
      && (forall k :: k in r.fs.folders && k != c ==> next.fs.folders[k] == r.fs.folders[k])
  {
    var c := Classify(Suffix(name));
    var next := NextMove(r, name, refused).next;
    if name in r.fs.folders[c] {
      var k :| IsLeastFree(r.fs.folders[c], Stem(name), Suffix(name), k)
            && Candidate(Stem(name), Suffix(name), k) in next.fs.folders[c];
      assert Candidate(Stem(name), Suffix(name), k) in next.fs.folders[c] - r.fs.folders[c];
    } else {
      assert name in next.fs.folders[c] - r.fs.folders[c];
    }
  }

  /** After one more file, the folders still only grow, and the file, if it
      moves, is among the entries added to its category folder, under its
      own name or a rename. */
  lemma PlacementStep(o: Organizer, start: Organizer, done: seq<string>, refused: set<string>, r: Organizer, name: string)
    requires FilesInvariant(o, start.fs.folders.Keys, done, refused, r)
    requires PlacementInvariant(o, start, done, refused, r)
    ensures PlacementInvariant(o, start, done + [name], refused, NextMove(r, name, refused).next)
  {
    var step := NextMove(r, name, refused);
    var next := step.next;
    var folders := start.fs.folders.Keys;
    assert forall k :: k in r.fs.folders ==> r.fs.folders[k] <= next.fs.folders[k] by {
      if step.ok {
        MovedLands(r, name, refused);
      }
    }
    SnocFacts(done, name);
    forall x | x in done + [name] && Moves(o.fs.files, folders, refused, x)
      ensures Landed(next.fs.folders[Classify(Suffix(x))] - start.fs.folders[Classify(Suffix(x))], x)
    {
      var c := Classify(Suffix(x));
      if x in done {
        LandedGrows(r.fs.folders[c] - start.fs.folders[c], next.fs.folders[c] - start.fs.folders[c], x);
      } else {
        assert x == name && name in r.fs.files && step.ok;
        MovedLands(r, name, refused);
        LandedGrows(next.fs.folders[c] - r.fs.folders[c], next.fs.folders[c] - start.fs.folders[c], x);
      }
    }
  }

  /** Without repeated names, one more file adds one entry to its own folder
      when it moves and leaves every folder's size alone otherwise. */
  lemma FilledStep(o: Organizer, start: Organizer, done: seq<string>, refused: set<string>, r: Organizer, name: string)
    requires r.fs.folders.Keys == start.fs.folders.Keys
    requires FilesInvariant(o, start.fs.folders.Keys, done, refused, r)
    requires Filled(o, start, done, refused, r)
    ensures Filled(o, start, done + [name], refused, NextMove(r, name, refused).next)
  {
    var folders := start.fs.folders.Keys;
    var category := Classify(Suffix(name));
    var step := NextMove(r, name, refused);
    var next := step.next;
    SnocFacts(done, name);
    var done' := done + [name];
    if Distinct(done') {
      var moves := Moves(o.fs.files, folders, refused, name);
      StepOk(o, folders, done, refused, r, name);
      if step.ok {
        MovedLands(r, name, refused);
      }
      forall c | c in start.fs.folders
        ensures c in next.fs.folders
          && |next.fs.folders[c]| == |start.fs.folders[c]| + MovedInto(o.fs.files, folders, refused, done', c)
      {
        assert MovedInto(o.fs.files, folders, refused, done', c)
          == MovedInto(o.fs.files, folders, refused, done, c) + (if moves && category == c then 1 else 0);
      }
    }
  }

  /** Classifying and moving one more file keeps the run invariant: the
      counts, the top-level files, where moved files landed, and the shape
      of the tree. */
  lemma RunStep(o: Organizer, start: Organizer, done: seq<string>, refused: set<string>, r: Organizer, name: string)
    requires RunInvariant(o, start, done, refused, r)
    ensures RunInvariant(o, start, done + [name], refused, NextMove(r, name, refused).next)
  {
    CountsStep(o, start.fs.folders.Keys, done, refused, r, name);
    FilesStep(o, start.fs.folders.Keys, done, refused, r, name);
    PlacementStep(o, start, done, refused, r, name);
    FilledStep(o, start, done, refused, r, name);
  }

  /** Before any file, the counts are those of the start. */
  lemma CountsStart(o: Organizer, folders: set<string>, refused: set<string>, start: Organizer)
    requires start.movedFiles == o.movedFiles && start.errorCount == o.errorCount
    ensures CountsInvariant(o, folders, [], refused, start)
  {
    forall c
      ensures Count(start.movedFiles, c) == Count(o.movedFiles, c) + MovedInto(o.fs.files, folders, refused, [], c)
    {
    }
  }

  /** The loop starts from the state with the folders created. */
  lemma RunStart(o: Organizer, refused: set<string>)
    requires Wf(o.fs)
    ensures RunInvariant(o, CreateFolders(o), [], refused, CreateFolders(o))
  {
    var start := CreateFolders(o);
    CountsStart(o, start.fs.folders.Keys, refused, start);
    assert FilesInvariant(o, start.fs.folders.Keys, [], refused, start);
    assert PlacementInvariant(o, start, [], refused, start);
    assert Filled(o, start, [], refused, start) by {
      forall c | c in start.fs.folders
        ensures MovedInto(o.fs.files, start.fs.folders.Keys, refused, [], c) == 0
      {
      }
    }
  }

  /** The fold over any list of names keeps the run invariant. */
  lemma {:induction false} RunHolds(o: Organizer, names: seq<string>, refused: set<string>)
    requires Wf(o.fs)
    ensures RunInvariant(o, CreateFolders(o), names, refused, Run(CreateFolders(o), names, refused))
    decreases |names|
  {
    var start := CreateFolders(o);
    if |names| == 0 {
      RunStart(o, refused);
    } else {
      var prefix, last := names[..|names| - 1], names[|names| - 1];
      assert prefix + [last] == names;
      assert Run(start, names, refused) == NextMove(Run(start, prefix, refused), last, refused).next;
      RunHolds(o, prefix, refused);
      RunStep(o, start, prefix, refused, Run(start, prefix, refused), last);
    }
  }

  /** What a completed run over `eligible` guarantees. */
  lemma RunConclusion(o: Organizer, start: Organizer, eligible: seq<string>, refused: set<string>, r: Organizer)
    requires RunInvariant(o, start, eligible, refused, r)
    requires forall x :: x in eligible ==> x in o.fs.files
    ensures Total(r.movedFiles) + r.errorCount == Total(o.movedFiles) + o.errorCount + |eligible|
    ensures Distinct(eligible) ==>
      forall c :: Count(r.movedFiles, c) == Count(o.movedFiles, c) + MovedInto(o.fs.files, start.fs.folders.Keys, refused, eligible, c)
    ensures Distinct(eligible) ==> r.errorCount == o.errorCount + Failures(o.fs.files, start.fs.folders.Keys, refused, eligible)
    ensures forall x :: x in eligible && x in refused ==> x in r.fs.files
    ensures forall x :: x in eligible && x !in refused && Classify(Suffix(x)) in start.fs.folders ==>
      var c := Classify(Suffix(x));
      x !in r.fs.files && c in r.fs.folders && Landed(r.fs.folders[c] - start.fs.folders[c], x)
    ensures Distinct(eligible) ==> forall c :: c in start.fs.folders ==>
      c in r.fs.folders
      && |r.fs.folders[c]| == |start.fs.folders[c]| + MovedInto(o.fs.files, start.fs.folders.Keys, refused, eligible, c)
    ensures forall x :: x in o.fs.files && x !in eligible ==> x in r.fs.files
    ensures r.fs.files <= o.fs.files
    ensures r.errorCount >= o.errorCount
    ensures forall k :: k in r.movedFiles ==> k in o.movedFiles || IsCategory(k)
    ensures forall k :: k in o.movedFiles ==> k in r.movedFiles && r.movedFiles[k] >= o.movedFiles[k]
    ensures r.fs.folders.Keys == start.fs.folders.Keys
    ensures forall k :: k in start.fs.folders ==> start.fs.folders[k] <= r.fs.folders[k]
    ensures EntryCount(r.fs) == EntryCount(start.fs)
    ensures Wf(r.fs)
  {
  }

  /** The loop of `organize_files`: classify and move each eligible file
      once, in listing order. */
  method MoveAll(o: Organizer, start: Organizer, eligible: seq<string>, refused: set<string>)
    returns (r: Organizer)
    requires Wf(o.fs) && start == CreateFolders(o)
    ensures r == Run(start, eligible, refused)
    ensures RunInvariant(o, start, eligible, refused, r)
  {
    r := start;
    assert eligible[..0] == [];
    for i := 0 to |eligible|
      invariant r == Run(start, eligible[..i], refused)
    {
      RunSnoc(start, eligible, i, refused);
      r := NextMove(r, eligible[i], refused).next;
    }
    assert eligible[..|eligible|] == eligible;
    RunHolds(o, eligible, refused);
  }

  /** Two eligible files, listed in that order, are processed in that order. */
  lemma EligiblePair(files: set<string>, a: string, b: string)
    requires Eligible(files, a) && Eligible(files, b)
    ensures EligibleFiles(files, [a, b]) == [a, b]
  {
    assert [a, b][1..] == [b] && [b][1..] == [];
    assert VisibleFiles(files, [b]) == [b];
    assert VisibleFiles(files, [a, b]) == [a, b];
    assert WithoutScripts([b]) == [b];
  }

  /** The fold over two names is two moves. */
  lemma RunPair(start: Organizer, a: string, b: string, refused: set<string>)
    ensures Run(start, [a, b], refused) == NextMove(NextMove(start, a, refused).next, b, refused).next
  {
    assert [a][..0] == [];
    assert Run(start, [a], refused) == NextMove(start, a, refused).next;
    assert [a, b][..1] == [a];
  }

  /** A refused move changes nothing but the error count. */
  lemma RefusedMove(r: Organizer, name: string, refused: set<string>)
    requires name in refused
    ensures NextMove(r, name, refused).next == r.(errorCount := r.errorCount + 1)
  {
  }

  /** The directory after `name` alone moved from the top level into its
      category folder: it left the top level, the folder gained exactly one
      entry, holding it under its own name or a rename, and no other folder
      changed. */
  ghost predicate SoleMove(before: Fs, name: string, after: Fs)
  {
    var c := Classify(Suffix(name));
    && c in before.folders && c in after.folders
    && after.files == before.files - {name}
    && Landed(after.folders[c] - before.folders[c], name)
    && |after.folders[c]| == |before.folders[c]| + 1
    && (forall k :: k in before.folders && k != c ==> k in after.folders && after.folders[k] == before.folders[k])
  }

  /** An unrefused file moved from a state with no moves yet is the one
      move, and only it changes the directory. */
  lemma FirstSuccess(r: Organizer, b: string, refused: set<string>)
    requires r.movedFiles == map[]
    requires b in r.fs.files && b !in refused && Classify(Suffix(b)) in r.fs.folders
    ensures var next := NextMove(r, b, refused).next;
      && next.errorCount == r.errorCount
      && next.movedFiles == map[Classify(Suffix(b)) := 1]
      && next.fs.files == r.fs.files - {b}
      && SoleMove(r.fs, b, next.fs)
  {
    var c := Classify(Suffix(b));
    MovedLands(r, b, refused);
    assert NextMove(r, b, refused).next.movedFiles == map[c := 1];
  }

  /** Two moves from a state with no moves and no errors, the first of
      them refused: one error, and the second file is the one move. */
  lemma RefusedThenMoved(start: Organizer, a: string, b: string, refused: set<string>)
    requires start.movedFiles == map[] && start.errorCount == 0
    requires a in start.fs.files && b in start.fs.files && a != b
    requires a in refused && b !in refused
    requires Classify(Suffix(b)) in start.fs.folders
    ensures var r := Run(start, [a, b], refused);
      && r.errorCount == 1
      && r.movedFiles == map[Classify(Suffix(b)) := 1]
      && a in r.fs.files
      && SoleMove(start.fs, b, r.fs)
  {
    var first := start.(errorCount := start.errorCount + 1);
    RunPair(start, a, b, refused);
    RefusedMove(start, a, refused);
    FirstSuccess(first, b, refused);
  }

  /** Partial failure: of two eligible files, the filesystem refuses the
      first and lets the second go. The run still processes both. The first
      stays where it was and is the one error. The second is the one move,
      counted under its category: it leaves the top level, its folder gains
      exactly one entry holding it, and no other folder changes. */
  lemma PartialFailure(o: Organizer, a: string, b: string, refused: set<string>)
    requires Wf(o.fs) && o.movedFiles == map[] && o.errorCount == 0
    requires Eligible(o.fs.files, a) && Eligible(o.fs.files, b) && a != b
    requires a in refused && b !in refused
    requires Classify(Suffix(b)) !in o.fs.files
    ensures var start := CreateFolders(o);
      var r := Run(start, EligibleFiles(o.fs.files, [a, b]), refused);
      && r.errorCount == 1
      && r.movedFiles == map[Classify(Suffix(b)) := 1]
      && a in r.fs.files
      && SoleMove(start.fs, b, r.fs)
  {
    var start := CreateFolders(o);
    assert start.fs.files == o.fs.files;
    EligiblePair(o.fs.files, a, b);
    RefusedThenMoved(start, a, b, refused);
  }

  /** `organize_files`: create the folders, list the eligible files once,
      then classify and move each in listing order, and report. With no
      eligible file it stops after creating the folders and reports nothing.
      `listing` is the order `iterdir` yields the target's entries in;
      `refused` names the files whose move the filesystem refuses. */
  method OrganizeFiles(o: Organizer, listing: seq<string>, refused: set<string>)
    returns (r: Organizer, summary: Option<Summary>)
    requires Wf(o.fs)
    ensures var eligible := EligibleFiles(o.fs.files, listing);
      && r == Run(CreateFolders(o), eligible, refused)
      && (summary.None? <==> |eligible| == 0)
      && (|eligible| == 0 ==> r == CreateFolders(o))
      && Total(r.movedFiles) + r.errorCount == Total(o.movedFiles) + o.errorCount + |eligible|
      && (forall x :: x in eligible && x in refused ==> x in r.fs.files)
      && (forall x :: x in eligible && x !in refused && Classify(Suffix(x)) !in o.fs.files ==>
            var c := Classify(Suffix(x));
            x !in r.fs.files && c in r.fs.folders && c in CreateFolders(o).fs.folders
            && Landed(r.fs.folders[c] - CreateFolders(o).fs.folders[c], x))
      && (forall x :: x in o.fs.files && x !in eligible ==> x in r.fs.files)
    ensures var eligible := EligibleFiles(o.fs.files, listing);
      var folders := CreateFolders(o).fs.folders.Keys;
      Distinct(listing) ==>
        && (forall c :: Count(r.movedFiles, c) == Count(o.movedFiles, c) + MovedInto(o.fs.files, folders, refused, eligible, c))
        && r.errorCount == o.errorCount + Failures(o.fs.files, folders, refused, eligible)
        && (forall c :: c in folders ==>
              c in r.fs.folders
              && |r.fs.folders[c]| == |CreateFolders(o).fs.folders[c]| + MovedInto(o.fs.files, folders, refused, eligible, c))
    ensures r.fs.files <= o.fs.files
    ensures r.errorCount >= o.errorCount
    ensures forall k :: k in r.movedFiles ==> k in o.movedFiles || IsCategory(k)
    ensures forall k :: k in o.movedFiles ==> k in r.movedFiles && r.movedFiles[k] >= o.movedFiles[k]
    ensures r.fs.folders.Keys == CreateFolders(o).fs.folders.Keys
    ensures forall k :: k in o.fs.folders ==> o.fs.folders[k] <= r.fs.folders[k]
    ensures EntryCount(r.fs) == EntryCount(CreateFolders(o).fs)
    ensures Wf(r.fs)
    ensures summary.Some? ==> summary.value.total == Total(r.movedFiles) && summary.value.errors == r.errorCount
    ensures summary.Some? ==> forall i, j :: 0 <= i < j < |summary.value.rows| ==>
      Below(summary.value.rows[i].category, summary.value.rows[j].category)
      && summary.value.rows[i].category != summary.value.rows[j].category
    ensures summary.Some? ==> forall i :: 0 <= i < |summary.value.rows| ==>
      summary.value.rows[i].category in r.movedFiles
      && summary.value.rows[i].count == r.movedFiles[summary.value.rows[i].category]
    ensures summary.Some? ==> forall k :: k in r.movedFiles ==>
      exists i :: 0 <= i < |summary.value.rows| && summary.value.rows[i].category == k
  {
    var start := CreateFolders(o);
    var eligible := EligibleFiles(start.fs.files, listing);
    r := start;
    if |eligible| == 0 {
      RunStart(o, refused);
      RunConclusion(o, start, eligible, refused, r);
      return r, None;
    }
    r := MoveAll(o, start, eligible, refused);
    RunConclusion(o, start, eligible, refused, r);
    forall x | x in eligible && x !in refused && Classify(Suffix(x)) !in o.fs.files
      ensures Classify(Suffix(x)) in start.fs.folders
    {
    }
    var s := ShowSummary(r.movedFiles, r.errorCount);
    summary := Some(s);
  }
}
