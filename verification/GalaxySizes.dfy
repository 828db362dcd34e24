/** What the Galaxy pass leaves at the locations of a start: the locations and sizes of its
    parts, exactly if no later part of the group shares a location with another and no part of
    any group was stored over one of them with another size. */
module GalaxySizes {
  import opened Bytes
  import opened Format
  import opened GalaxyText
  import opened Galaxy
  import opened GalaxyLaws
  import opened Grouping

  // ---------------------------------------------------------------- the condition, on the markers

  /** The locations of the parts of start s behind s itself, among the first k files. */
  function LaterLocations(ms: seq<Marks>, n: nat, k: nat, s: nat): seq<uint32>
    requires k <= |ms|
  {
    if k == 0 then []
    else LaterLocations(ms, n, k - 1, s) + if PartOf(ms, n, k - 1, s) && s != k - 1 then [ms[k - 1].location] else []
  }

  /** The locations of all parts of start s, which has taken its own. */
  function PartLocations(ms: seq<Marks>, n: nat, k: nat, s: nat): seq<uint32>
    requires k <= |ms| && s < |ms|
  {
    [ms[s].location] + LaterLocations(ms, n, k, s)
  }

  /** The later parts of start s have pairwise distinct locations. */
  predicate LaterPartsApart(ms: seq<Marks>, n: nat, k: nat, s: nat)
    requires k <= |ms|
  {
    forall i, j {:trigger PartOf(ms, n, i, s), PartOf(ms, n, j, s)} ::
      0 <= i < j < k && i != s && j != s && PartOf(ms, n, i, s) && PartOf(ms, n, j, s) ==>
      ms[i].location != ms[j].location
  }

  /** The size of the last part, of any group, that is stored at location l. */
  function LastSize(ms: seq<Marks>, n: nat, k: nat, l: nat): Option<uint64>
    requires k <= |ms|
  {
    if k == 0 then None
    else if PartSize(ms, n, k - 1).Some? && ms[k - 1].location == l then PartSize(ms, n, k - 1)
    else LastSize(ms, n, k - 1, l)
  }

  /** For every part of start s, the last part stored at its location declares the same size. */
  predicate LastAgrees(ms: seq<Marks>, n: nat, s: nat) {
    forall i {:trigger PartOf(ms, n, i, s)} :: 0 <= i < |ms| && PartOf(ms, n, i, s) ==>
      LastSize(ms, n, |ms|, ms[i].location) == PartSize(ms, n, i)
  }

  // ---------------------------------------------------------------- locations

  /** The collected locations are those of later parts. */
  lemma {:induction false} CollectedAreParts(ms: seq<Marks>, n: nat, k: nat, s: nat, location: uint32)
    requires k <= |ms| && location in LocationsAfter([], ms, n, k, s)
    ensures exists i :: 0 <= i < k && i != s && PartOf(ms, n, i, s) && ms[i].location == location
  {
    if location in LocationsAfter([], ms, n, k - 1, s) {
      CollectedAreParts(ms, n, k - 1, s, location);
    }
  }

  lemma {:induction false} CollectedAtMost(ms: seq<Marks>, n: nat, k: nat, s: nat)
    requires k <= |ms|
    ensures |LocationsAfter([], ms, n, k, s)| <= |LaterLocations(ms, n, k, s)|
  {
    if k > 0 {
      CollectedAtMost(ms, n, k - 1, s);
    }
  }

  /** What is collected is the list of the later parts exactly if they are at distinct places. */
  predicate CollectedExactly(ms: seq<Marks>, n: nat, k: nat, s: nat)
    requires k <= |ms|
  {
    LocationsAfter([], ms, n, k, s) == LaterLocations(ms, n, k, s) <==> LaterPartsApart(ms, n, k, s)
  }

  /** One more later part, at a new location or not. */
  lemma CollectedStep(ms: seq<Marks>, n: nat, k: nat, s: nat)
    requires 0 < k <= |ms| && PartOf(ms, n, k - 1, s) && s != k - 1
    requires CollectedExactly(ms, n, k - 1, s)
    ensures CollectedExactly(ms, n, k, s)
  {
    var last, location := k - 1, ms[k - 1].location;
    var before, all := LocationsAfter([], ms, n, last, s), LaterLocations(ms, n, last, s);
    CollectedAtMost(ms, n, last, s);
    if location in before {
      CollectedAreParts(ms, n, last, s, location);
      assert |LocationsAfter([], ms, n, k, s)| < |LaterLocations(ms, n, k, s)|;
    } else {
      forall i | 0 <= i < last && i != s && PartOf(ms, n, i, s)
        ensures ms[i].location != location
      {
        LocationIsCollected([], ms, n, i, last, s);
      }
      assert before + [location] == all + [location] <==> before == all by {
        assert (before + [location])[..|before + [location]| - 1] == before;
        assert (all + [location])[..|all + [location]| - 1] == all;
      }
    }
  }

  lemma NothingCollected(ms: seq<Marks>, n: nat, k: nat, s: nat)
    requires 0 < k <= |ms| && !(PartOf(ms, n, k - 1, s) && s != k - 1)
    ensures LocationsAfter([], ms, n, k, s) == LocationsAfter([], ms, n, k - 1, s)
    ensures LaterLocations(ms, n, k, s) == LaterLocations(ms, n, k - 1, s)
    ensures LaterPartsApart(ms, n, k, s) <==> LaterPartsApart(ms, n, k - 1, s)
  {
    assert LaterLocations(ms, n, k - 1, s) + [] == LaterLocations(ms, n, k - 1, s);
  }

  lemma CollectedNext(ms: seq<Marks>, n: nat, k: nat, s: nat)
    requires 0 < k <= |ms| && CollectedExactly(ms, n, k - 1, s)
    ensures CollectedExactly(ms, n, k, s)
  {
    if PartOf(ms, n, k - 1, s) && s != k - 1 {
      CollectedStep(ms, n, k, s);
    } else {
      NothingCollected(ms, n, k, s);
    }
  }

  lemma {:induction false} CollectedIsAll(ms: seq<Marks>, n: nat, k: nat, s: nat)
    requires k <= |ms|
    ensures CollectedExactly(ms, n, k, s)
  {
    if k > 0 {
      CollectedIsAll(ms, n, k - 1, s);
      CollectedNext(ms, n, k, s);
    }
  }

  // ---------------------------------------------------------------- sizes

  lemma {:induction false} EntryHoldsLast(entry: DataEntry, ms: seq<Marks>, n: nat, k: nat, l: nat)
    requires k <= |ms|
    ensures var last := LastSize(ms, n, k, l);
      EntryAfter(entry, ms, n, k, l).uncompressedSize == if last.Some? then last.value else entry.uncompressedSize
  {
    if k > 0 {
      EntryHoldsLast(entry, ms, n, k - 1, l);
    }
  }

  lemma {:induction false} SomeLast(ms: seq<Marks>, n: nat, i: nat, k: nat)
    requires i < k <= |ms| && PartSize(ms, n, i).Some?
    ensures LastSize(ms, n, k, ms[i].location).Some?
  {
    if i < k - 1 {
      SomeLast(ms, n, i, k - 1);
    }
  }

  /** The entries of the parts of start s hold their sizes. */
  ghost predicate HoldsParts(ms: seq<Marks>, final: seq<DataEntry>, s: nat) {
    forall i {:trigger PartOf(ms, |final|, i, s)} :: 0 <= i < |ms| && PartOf(ms, |final|, i, s) ==>
      final[ms[i].location].uncompressedSize == PartSize(ms, |final|, i).value
  }

  lemma FinalEntry(a: GogArchive, i: nat)
    requires i < |a.files| && IsGalaxy(a) && PartSize(AllMarks(a.files), |a.entries|, i).Some?
    ensures var ms, n := AllMarks(a.files), |a.entries|;
      && ms[i].location < n && |Applied(a).entries| == n
      && Some(Applied(a).entries[ms[i].location].uncompressedSize) == LastSize(ms, n, |ms|, ms[i].location)
  {
    var ms, n := AllMarks(a.files), |a.entries|;
    SomeLast(ms, n, i, |ms|);
    EntryHoldsLast(a.entries[ms[i].location], ms, n, |ms|, ms[i].location);
  }

  lemma HoldsIfLastAgrees(a: GogArchive, s: nat)
    requires IsGalaxy(a)
    ensures HoldsParts(AllMarks(a.files), Applied(a).entries, s) <==> LastAgrees(AllMarks(a.files), |a.entries|, s)
  {
    var ms, n := AllMarks(a.files), |a.entries|;
    assert |Applied(a).entries| == n;
    forall i | 0 <= i < |ms| && PartOf(ms, n, i, s)
      ensures Applied(a).entries[ms[i].location].uncompressedSize == PartSize(ms, n, i).value
         <==> LastSize(ms, n, |ms|, ms[i].location) == PartSize(ms, n, i)
    {
      FinalEntry(a, i);
    }
  }

  // ---------------------------------------------------------------- the exact condition

  lemma StartMeansGalaxy(a: GogArchive, i: nat, s: nat)
    requires i < |a.files| && PartOf(AllMarks(a.files), |a.entries|, i, s)
    ensures IsGalaxy(a)
  {
    assert PartInfo(a.files[i]) != [];
  }

  lemma LocationsOfStart(a: GogArchive, s: nat)
    requires s < |a.files| && a.files[s].additionalLocations == [] && IsGalaxy(a)
    ensures var ms, n := AllMarks(a.files), |a.entries|;
      Locations(Applied(a).files[s]) == [ms[s].location] + LocationsAfter([], ms, n, |ms|, s)
  {
    var parts := PartsApplied(a.files, |a.entries|);
    ConstrainedKeeps(parts[s], AllLanguages(parts));
  }

  /** After Apply, the locations of start s are those of its parts in order, and the entry of
      each part holds the size that the part declared. */
  ghost predicate Kept(a: GogArchive, s: nat)
    requires s < |a.files|
  {
    var ms, b := AllMarks(a.files), Applied(a);
    && |b.files| == |a.files| && |b.entries| == |a.entries|
    && Locations(b.files[s]) == PartLocations(ms, |a.entries|, |ms|, s)
    && HoldsParts(ms, b.entries, s)
  }

  /** A start that took its own part keeps its parts exactly if the later ones are at distinct
      locations and the last part stored at the location of each declares the same size. */
  lemma PartsAreKept(a: GogArchive, s: nat)
    requires s < |a.files| && a.files[s].additionalLocations == []
    requires PartOf(AllMarks(a.files), |a.entries|, s, s)
    ensures var ms, n := AllMarks(a.files), |a.entries|;
      Kept(a, s) <==> LaterPartsApart(ms, n, |ms|, s) && LastAgrees(ms, n, s)
  {
    var ms, n := AllMarks(a.files), |a.entries|;
    StartMeansGalaxy(a, s, s);
    LocationsOfStart(a, s);
    CollectedIsAll(ms, n, |ms|, s);
    HoldsIfLastAgrees(a, s);
    var collected, all := LocationsAfter([], ms, n, |ms|, s), LaterLocations(ms, n, |ms|, s);
    assert [ms[s].location] + collected == [ms[s].location] + all <==> collected == all by {
      assert ([ms[s].location] + collected)[1..] == collected && ([ms[s].location] + all)[1..] == all;
    }
  }

  // ---------------------------------------------------------------- sizes are conserved

  lemma SizeSnoc(entries: seq<DataEntry>, locations: seq<uint32>, location: uint32)
    ensures SizeSum(entries, locations + [location]) == SizeSum(entries, locations) + SizeAt(entries, location)
  {
    assert (locations + [location])[..|locations|] == locations;
  }

  /** The final sizes at these locations are the sizes taken so far. */
  ghost predicate Balanced(ms: seq<Marks>, final: seq<DataEntry>, k: nat, s: nat)
    requires k <= |ms| && s < |ms|
  {
    SizeSum(final, PartLocations(ms, |final|, k, s)) == TakenSum(ms, |final|, k, s)
  }

  lemma {:induction false} NothingLaterYet(ms: seq<Marks>, n: nat, k: nat, s: nat)
    requires k <= s < |ms|
    ensures LaterLocations(ms, n, k, s) == []
  {
    if k > 0 {
      NothingLaterYet(ms, n, k - 1, s);
      ActiveIsStart(ms, n, k - 1);
    }
  }

  lemma FirstPart(ms: seq<Marks>, final: seq<DataEntry>, s: nat)
    requires s < |ms| && HoldsParts(ms, final, s) && PartOf(ms, |final|, s, s)
    ensures Balanced(ms, final, s + 1, s)
  {
    var none: seq<uint32> := [];
    NothingBefore([], ms, |final|, s, s);
    NothingLaterYet(ms, |final|, s, s);
    assert PartLocations(ms, |final|, s + 1, s) == none + [ms[s].location];
    SizeSnoc(final, none, ms[s].location);
    assert SizeSum(final, none) == 0;
  }

  /** One more part of the group. */
  lemma NextPart(ms: seq<Marks>, final: seq<DataEntry>, k: nat, s: nat)
    requires s + 1 < k <= |ms| && HoldsParts(ms, final, s)
    requires PartOf(ms, |final|, k - 1, s) && Balanced(ms, final, k - 1, s)
    ensures Balanced(ms, final, k, s)
  {
    var before, location := PartLocations(ms, |final|, k - 1, s), ms[k - 1].location;
    assert PartLocations(ms, |final|, k, s) == before + [location];
    SizeSnoc(final, before, location);
  }

  lemma OneMoreFile(ms: seq<Marks>, final: seq<DataEntry>, k: nat, s: nat)
    requires s + 1 < k <= |ms| && HoldsParts(ms, final, s) && Balanced(ms, final, k - 1, s)
    ensures Balanced(ms, final, k, s)
  {
    if PartOf(ms, |final|, k - 1, s) {
      NextPart(ms, final, k, s);
    } else {
      assert LaterLocations(ms, |final|, k, s) == LaterLocations(ms, |final|, k - 1, s);
    }
  }

  lemma {:induction false} SizesAddUp(ms: seq<Marks>, final: seq<DataEntry>, k: nat, s: nat)
    requires s < k <= |ms| && HoldsParts(ms, final, s) && Balanced(ms, final, s + 1, s)
    ensures Balanced(ms, final, k, s)
    decreases k
  {
    if k > s + 1 {
      SizesAddUp(ms, final, k - 1, s);
      OneMoreFile(ms, final, k, s);
    }
  }

  lemma {:induction false} LaterInRange(ms: seq<Marks>, n: nat, k: nat, s: nat)
    requires k <= |ms|
    ensures forall l :: l in LaterLocations(ms, n, k, s) ==> l < n
  {
    if k > 0 {
      LaterInRange(ms, n, k - 1, s);
    }
  }

  /** May the size of start s be compared?  It took its own part and had no other locations, the
      sizes of its parts add up to a uint64, and its parts are kept. */
  ghost predicate Countable(a: GogArchive, s: nat)
    requires s < |a.files|
  {
    var ms, n := AllMarks(a.files), |a.entries|;
    && a.files[s].additionalLocations == [] && PartOf(ms, n, s, s)
    && LaterPartsApart(ms, n, |ms|, s) && LastAgrees(ms, n, s)
    && TakenSum(ms, n, |ms|, s) <= MAX_UINT64
  }

  lemma SizeAfter(file: FileEntry, ms: seq<Marks>, n: nat, s: nat)
    requires s < |ms| && PartOf(ms, n, s, s) && TakenSum(ms, n, |ms|, s) <= MAX_UINT64
    ensures FileAfter(file, ms, n, |ms|, s).size == TakenSum(ms, n, |ms|, s)
  {
    GroupsAreContiguous(ms, n, s, s);
  }

  lemma StartSize(a: GogArchive, s: nat)
    requires s < |a.files| && PartOf(AllMarks(a.files), |a.entries|, s, s)
    requires TakenSum(AllMarks(a.files), |a.entries|, |a.files|, s) <= MAX_UINT64
    ensures Applied(a).files[s].size == TakenSum(AllMarks(a.files), |a.entries|, |a.files|, s)
  {
    var parts := PartsApplied(a.files, |a.entries|);
    StartMeansGalaxy(a, s, s);
    SizeAfter(a.files[s], AllMarks(a.files), |a.entries|, s);
    ConstrainedKeeps(parts[s], AllLanguages(parts));
  }

  /** The sizes of a group whose entries hold its parts add up to the sizes taken. */
  lemma GroupAddsUp(ms: seq<Marks>, final: seq<DataEntry>, s: nat)
    requires s < |ms| && HoldsParts(ms, final, s) && PartOf(ms, |final|, s, s)
    ensures InRange(final, PartLocations(ms, |final|, |ms|, s))
    ensures SizeSum(final, PartLocations(ms, |final|, |ms|, s)) == TakenSum(ms, |final|, |ms|, s)
  {
    FirstPart(ms, final, s);
    SizesAddUp(ms, final, |ms|, s);
    LaterInRange(ms, |final|, |ms|, s);
    var locations := PartLocations(ms, |final|, |ms|, s);
    forall j | 0 <= j < |locations|
      ensures locations[j] < |final|
    {
      assert j > 0 ==> locations[j] in LaterLocations(ms, |final|, |ms|, s);
    }
  }

  /** Sizes are conserved: the Size of a start is the total size at its locations, which are
      those of its parts. */
  lemma SizeIsConserved(a: GogArchive, s: nat)
    requires s < |a.files| && Countable(a, s)
    ensures var b := Applied(a);
      && InRange(b.entries, Locations(b.files[s]))
      && b.files[s].size == SizeSum(b.entries, Locations(b.files[s]))
  {
    PartsAreKept(a, s);
    StartSize(a, s);
    GroupAddsUp(AllMarks(a.files), Applied(a).entries, s);
  }

  lemma SizedIsPlaced(b: Archive, i: nat)
    requires i < |b.files| && InRange(b.entries, Locations(b.files[i]))
    requires b.files[i].size == SizeSum(b.entries, Locations(b.files[i]))
    ensures var placed := Placed(b, i);
      Placeable(b, i) && placed.totalSize == b.files[i].size && !placed.skip && !placed.failed
  {
    assert Locations(b.files[i])[0] == b.files[i].location;
  }

  /** That is also the size Extract computes for the file, and it can be extracted. */
  lemma ExtractAgreesOnSize(a: GogArchive, s: nat)
    requires s < |a.files| && Countable(a, s)
    ensures var b := Applied(a);
      var placed := Placed(Archive(b.files, b.entries), s);
      && Placeable(Archive(b.files, b.entries), s)
      && placed.totalSize == b.files[s].size && !placed.skip && !placed.failed
  {
    SizeIsConserved(a, s);
    SizedIsPlaced(Archive(Applied(a).files, Applied(a).entries), s);
  }
}
