/** The organizer's category table and the extension classifier
    (`FileOrganizer.file_types` and `FileOrganizer.get_file_category`). */
module Categories {
  import opened Wrappers
  import opened Text

  /** One row of the table: a folder name and the lower-case extensions,
      dot included, that it collects. */
  datatype Category = Category(name: string, extensions: seq<string>)

  /** The category that receives every extension no list names. */
  const Miscellaneous: string := "Miscellaneous"

  /** The table in the order Python's dict iterates it. */
  const FileTypes: seq<Category> := [
    Category("Images", [".jpg", ".jpeg", ".png", ".gif", ".bmp", ".svg"]),
    Category("Documents", [".pdf", ".docx", ".doc", ".txt", ".xlsx", ".xls", ".pptx"]),
    Category("Music", [".mp3", ".wav", ".flac", ".aac", ".m4a"]),
    Category("Videos", [".mp4", ".mkv", ".avi", ".mov", ".wmv", ".webm"]),
    Category("Archives", [".zip", ".rar", ".7z", ".tar", ".gz"]),
    Category("Code", [".py", ".js", ".html", ".css", ".java", ".cpp", ".json"]),
    Category(Miscellaneous, [])
  ]

  /** The category names in table order (`file_types.keys()`). */
  function Names(table: seq<Category>): seq<string>
  {
    seq(|table|, i requires 0 <= i < |table| => table[i].name)
  }

  /** The folder names the organizer creates. */
  function CategoryNames(): seq<string>
  {
    Names(FileTypes)
  }

  /** A name is a category of the fixed table. */
  predicate IsCategory(name: string)
  {
    name in CategoryNames()
  }

  /** Whether some list of `table` contains `ext`. */
  predicate Listed(table: seq<Category>, ext: string)
  {
    exists i :: 0 <= i < |table| && ext in table[i].extensions
  }

  /** The first row of `table`, in order, whose list contains `ext`. */
  function FirstMatch(table: seq<Category>, ext: string): (r: Option<nat>)
    ensures r.None? <==> !Listed(table, ext)
    ensures r.Some? ==> r.value < |table| && ext in table[r.value].extensions
    ensures r.Some? ==> forall j :: 0 <= j < r.value ==> ext !in table[j].extensions
  {
    if |table| == 0 then None
    else if ext in table[0].extensions then Some(0)
    else match FirstMatch(table[1..], ext)
      case None =>
        assert forall i :: 1 <= i < |table| ==> table[i] == table[1..][i - 1];
        None
      case Some(i) =>
        assert table[1..][i] == table[i + 1];
        Some(i + 1)
  }

  /** No extension is listed under two rows. */
  predicate Disjoint(table: seq<Category>)
  {
    forall i, j, e :: 0 <= i < j < |table| && e in table[i].extensions ==> e !in table[j].extensions
  }

  /** No extension of row `i` reappears in a later row. */
  lemma RowDisjointFromLater(i: nat)
    requires i < |FileTypes|
    ensures forall j, e :: i < j < |FileTypes| && e in FileTypes[i].extensions ==> e !in FileTypes[j].extensions
  {
    var a := FileTypes[i].extensions;
    forall j, k | i < j < |FileTypes| && 0 <= k < |a|
      ensures a[k] !in FileTypes[j].extensions
    {
      var b := FileTypes[j].extensions;
      forall m | 0 <= m < |b|
        ensures a[k] != b[m]
      {
        assert |a[k]| != |b[m]| || a[k][1] != b[m][1] || a[k][2] != b[m][2] || a[k][3..] != b[m][3..];
      }
    }
  }

  /** The lists of the fixed table are pairwise disjoint and the fallback row,
      the last one, lists nothing. */
  lemma FileTypesDisjoint()
    ensures Disjoint(FileTypes)
    ensures FileTypes[|FileTypes| - 1] == Category(Miscellaneous, [])
    ensures forall i :: 0 <= i < |FileTypes| - 1 ==> FileTypes[i].name != Miscellaneous
  {
    forall i | 0 <= i < |FileTypes|
      ensures forall j, e :: i < j < |FileTypes| && e in FileTypes[i].extensions ==> e !in FileTypes[j].extensions
    {
      RowDisjointFromLater(i);
    }
  }

  /** `get_file_category(ext)`: lower-case the extension, return the first
      category listing it, or the fallback. */
  function Classify(ext: string): (r: string)
    ensures IsCategory(r)
    ensures r == Miscellaneous <==> !Listed(FileTypes, Lower(ext))
    ensures r != Miscellaneous ==>
      exists i :: 0 <= i < |FileTypes| && FileTypes[i].name == r && Lower(ext) in FileTypes[i].extensions
  {
    FileTypesDisjoint();
    match FirstMatch(FileTypes, Lower(ext))
    case Some(i) =>
      assert CategoryNames()[i] == FileTypes[i].name;
      FileTypes[i].name
    case None =>
      assert CategoryNames()[|FileTypes| - 1] == Miscellaneous;
      Miscellaneous
  }

  /** In a disjoint table the first match is the only row listing the extension. */
  lemma FirstMatchUnique(table: seq<Category>, ext: string, i: nat)
    requires Disjoint(table)
    requires i < |table| && ext in table[i].extensions
    ensures FirstMatch(table, ext) == Some(i)
  {
    var k := FirstMatch(table, ext).value;
    if k < i {
      assert ext in table[k].extensions;
    }
  }

  /** The classifier returns exactly the category whose list holds the
      lower-cased extension, whichever row that is. */
  lemma ClassifyUnique(ext: string, i: nat)
    requires i < |FileTypes| && Lower(ext) in FileTypes[i].extensions
    ensures Classify(ext) == FileTypes[i].name
    ensures Classify(ext) != Miscellaneous
  {
    FileTypesDisjoint();
    FirstMatchUnique(FileTypes, Lower(ext), i);
  }

  /** Classification ignores letter case. */
  lemma ClassifyCaseInsensitive(ext: string)
    ensures Classify(ext) == Classify(Lower(ext))
  {
    LowerIdempotent(ext);
  }

  /** Upper- and lower-case spellings of an image suffix both go to Images. */
  lemma ClassifyImageAnyCase()
    ensures Classify(".JPG") == "Images" && Classify(".jpg") == "Images"
  {
    assert Lower(".JPG") == ".jpg" by {
      assert forall i :: 0 <= i < 4 ==> Lower(".JPG")[i] == ".jpg"[i];
    }
    ClassifyCaseInsensitive(".JPG");
    ClassifyUnique(".JPG", 0);
  }

  /** The empty suffix falls back to Miscellaneous. */
  lemma ClassifyEmptySuffix()
    ensures Classify("") == Miscellaneous
  {
    assert Lower("") == "";
    forall i | 0 <= i < |FileTypes|
      ensures "" !in FileTypes[i].extensions
    {
      var exts := FileTypes[i].extensions;
      forall k | 0 <= k < |exts|
        ensures exts[k] != ""
      {
        assert |exts[k]| >= 2;
      }
    }
  }

  /** An extension no list names falls back to Miscellaneous. */
  lemma ClassifyUnknownSuffix()
    ensures Classify(".xyz") == Miscellaneous
  {
    assert Lower(".xyz") == ".xyz" by {
      assert forall i :: 0 <= i < 4 ==> Lower(".xyz")[i] == ".xyz"[i];
    }
    forall i | 0 <= i < |FileTypes|
      ensures ".xyz" !in FileTypes[i].extensions
    {
      var exts := FileTypes[i].extensions;
      forall k | 0 <= k < |exts|
        ensures exts[k] != ".xyz"
      {
        assert exts[k][1] != 'x' || exts[k][2] != 'y';
      }
    }
  }

  /** An upper-case script suffix is classified as Code. */
  lemma ClassifyUpperCaseScript()
    ensures Classify(".PY") == "Code"
  {
    assert Lower(".PY") == ".py" by {
      assert forall i :: 0 <= i < 3 ==> Lower(".PY")[i] == ".py"[i];
    }
    ClassifyUnique(".PY", 5);
  }
}
