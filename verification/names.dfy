/** The split of a file name into `Path.stem` and `Path.suffix`, following
    pathlib's rule: the suffix starts at the last dot, provided that dot is
    neither the first nor the last character of the name. */
module PathNames {

  /** `name.rfind('.')`: the index of the last dot, or -1 when there is none. */
  function LastDot(name: string): (i: int)
    ensures -1 <= i < |name|
    ensures 0 <= i ==> name[i] == '.'
    ensures forall j :: i < j < |name| ==> name[j] != '.'
  {
    if |name| == 0 then -1
    else if name[|name| - 1] == '.' then |name| - 1
    else LastDot(name[..|name| - 1])
  }

  /** Whether pathlib sees a suffix in `name`. */
  predicate HasSuffix(name: string)
  {
    0 < LastDot(name) < |name| - 1
  }

  /** `Path(name).suffix`. */
  function Suffix(name: string): (r: string)
    ensures r == "" || (2 <= |r| && r[0] == '.' && forall j :: 1 <= j < |r| ==> r[j] != '.')
    ensures r == "" <==> !HasSuffix(name)
  {
    if HasSuffix(name) then name[LastDot(name)..] else ""
  }

  /** `Path(name).stem`. */
  function Stem(name: string): (r: string)
    ensures HasSuffix(name) ==> 1 <= |r| < |name|
    ensures !HasSuffix(name) ==> r == name
  {
    if HasSuffix(name) then name[..LastDot(name)] else name
  }

  /** Stem and suffix together give back the name. */
  lemma StemSuffixSplit(name: string)
    ensures Stem(name) + Suffix(name) == name
  {
    if HasSuffix(name) {
      var i := LastDot(name);
      assert name == name[..i] + name[i..];
    }
  }

  /** A hidden name, one that starts with a dot (`name.startswith('.')`). */
  predicate IsHidden(name: string)
  {
    0 < |name| && name[0] == '.'
  }
}
