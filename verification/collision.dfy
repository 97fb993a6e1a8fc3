/** Duplicate-name resolution in `FileOrganizer.move_file`: when the
    destination folder already holds the file's name, the names
    `stem_1.ext`, `stem_2.ext`, ... are tried in turn and the first one the
    folder does not hold is used. */
module Collision {
  import opened Text
  import opened PathNames

  /** The `k`-th renamed candidate, `f"{stem}_{k}{suffix}"`. */
  function Candidate(stem: string, suffix: string, k: nat): string
  {
    stem + "_" + Decimal(k) + suffix
  }

  /** Different counters give different candidates. */
  lemma CandidateInjective(stem: string, suffix: string, j: nat, k: nat)
    requires Candidate(stem, suffix, j) == Candidate(stem, suffix, k)
    ensures j == k
  {
    var cj, ck := Candidate(stem, suffix, j), Candidate(stem, suffix, k);
    assert |Decimal(j)| == |Decimal(k)|;
    var lo, hi := |stem| + 1, |cj| - |suffix|;
    assert cj[lo..hi] == Decimal(j);
    assert ck[lo..hi] == Decimal(k);
    DecimalInjective(j, k);
  }

  /** The candidates with counters 1 to n. */
  function Probed(stem: string, suffix: string, n: nat): set<string>
  {
    if n == 0 then {} else Probed(stem, suffix, n - 1) + {Candidate(stem, suffix, n)}
  }

  /** A later candidate is not among the earlier ones. */
  lemma {:induction false} ProbedFresh(stem: string, suffix: string, n: nat, k: nat)
    requires n < k
    ensures Candidate(stem, suffix, k) !in Probed(stem, suffix, n)
  {
    if n > 0 {
      ProbedFresh(stem, suffix, n - 1, k);
      if Candidate(stem, suffix, k) == Candidate(stem, suffix, n) {
        CandidateInjective(stem, suffix, k, n);
      }
    }
  }

  /** n probes visit n distinct names. */
  lemma {:induction false} ProbedSize(stem: string, suffix: string, n: nat)
    ensures |Probed(stem, suffix, n)| == n
  {
    if n > 0 {
      ProbedSize(stem, suffix, n - 1);
      ProbedFresh(stem, suffix, n - 1, n);
    }
  }

  /** If the first n candidates are all taken, the folder holds at least n
      names: the probe cannot run past the folder's size. */
  lemma {:induction false} ProbeBound(occupied: set<string>, stem: string, suffix: string, n: nat)
    requires forall j :: 1 <= j <= n ==> Candidate(stem, suffix, j) in occupied
    ensures n <= |occupied|
  {
    var p := Probed(stem, suffix, n);
    assert p <= occupied by {
      ProbedWithin(occupied, stem, suffix, n);
    }
    ProbedSize(stem, suffix, n);
    assert occupied == p + (occupied - p);
    assert |occupied| == |p| + |occupied - p|;
  }

  lemma {:induction false} ProbedWithin(occupied: set<string>, stem: string, suffix: string, n: nat)
    requires forall j :: 1 <= j <= n ==> Candidate(stem, suffix, j) in occupied
    ensures Probed(stem, suffix, n) <= occupied
  {
    if n > 0 {
      ProbedWithin(occupied, stem, suffix, n - 1);
    }
  }

  /** `k` is the least counter from 1 whose candidate is free. */
  predicate IsLeastFree(occupied: set<string>, stem: string, suffix: string, k: nat)
  {
    && 1 <= k
    && Candidate(stem, suffix, k) !in occupied
    && forall j :: 1 <= j < k ==> Candidate(stem, suffix, j) in occupied
  }

  /** The least free counter from `k` on, when every counter below `k` is taken. */
  function ProbeFrom(occupied: set<string>, stem: string, suffix: string, k: nat): (r: nat)
    requires 1 <= k
    requires forall j :: 1 <= j < k ==> Candidate(stem, suffix, j) in occupied
    ensures IsLeastFree(occupied, stem, suffix, r)
    decreases |occupied| + 1 - k
  {
    if Candidate(stem, suffix, k) !in occupied then k
    else
      ProbeBound(occupied, stem, suffix, k);
      ProbeFrom(occupied, stem, suffix, k + 1)
  }

  /** The name a file called `name` receives in a folder holding `occupied`:
      the name itself when free, otherwise the candidate with the least free
      counter, built from the name's stem and suffix. */
  function DestinationName(occupied: set<string>, name: string): (r: string)
    ensures r !in occupied
    ensures name !in occupied ==> r == name
    ensures name in occupied ==>
      exists k :: IsLeastFree(occupied, Stem(name), Suffix(name), k) && r == Candidate(Stem(name), Suffix(name), k)
  {
    if name !in occupied then name
    else
      var k := ProbeFrom(occupied, Stem(name), Suffix(name), 1);
      Candidate(Stem(name), Suffix(name), k)
  }

  /** Only one counter is the least free one. */
  lemma LeastFreeUnique(occupied: set<string>, stem: string, suffix: string, j: nat, k: nat)
    requires IsLeastFree(occupied, stem, suffix, j)
    requires IsLeastFree(occupied, stem, suffix, k)
    ensures j == k
  {
  }

  /** The probe loop as written: keep building `stem_<counter><suffix>` while
      the current destination exists. It terminates and picks the same name
      as `DestinationName`. */
  method ResolveDestination(occupied: set<string>, name: string) returns (dest: string)
    ensures dest == DestinationName(occupied, name)
    ensures dest !in occupied
  {
    dest := name;
    if dest in occupied {
      var stem, suffix := Stem(name), Suffix(name);
      var counter: nat := 1;
      while dest in occupied
        invariant 1 <= counter
        invariant counter == 1 ==> dest == name
        invariant counter > 1 ==> dest == Candidate(stem, suffix, counter - 1)
        invariant forall j :: 1 <= j < counter - 1 ==> Candidate(stem, suffix, j) in occupied
        invariant counter - 2 <= |occupied|
        decreases |occupied| + 2 - counter
      {
        ProbeBound(occupied, stem, suffix, counter - 1);
        dest := Candidate(stem, suffix, counter);
        counter := counter + 1;
      }
      assert IsLeastFree(occupied, stem, suffix, counter - 1);
      LeastFreeUnique(occupied, stem, suffix, counter - 1, ProbeFrom(occupied, stem, suffix, 1));
    }
  }

  /** A second `report.pdf` becomes `report_1.pdf`, a third `report_2.pdf`. */
  lemma ReportExample()
    ensures DestinationName({"report.pdf"}, "report.pdf") == "report_1.pdf"
    ensures DestinationName({"report.pdf", "report_1.pdf"}, "report.pdf") == "report_2.pdf"
  {
    var name := "report.pdf";
    assert name[6] == '.' && name[7] == 'p' && name[8] == 'd' && name[9] == 'f';
    assert LastDot(name) == 6;
    assert Stem(name) == "report" && Suffix(name) == ".pdf";
    assert Decimal(1) == "1" && Decimal(2) == "2";
    assert Candidate("report", ".pdf", 1) == "report_1.pdf";
    assert Candidate("report", ".pdf", 2) == "report_2.pdf";
    assert IsLeastFree({name}, "report", ".pdf", 1);
    assert IsLeastFree({name, "report_1.pdf"}, "report", ".pdf", 2);
  }
}
