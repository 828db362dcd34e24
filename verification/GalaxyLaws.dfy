/** What Apply promises: applying it twice is applying it once, Galaxy groups are well formed in
    every run, and only absorbed files lose their destination. */
module GalaxyLaws {
  import opened Bytes
  import opened Format
  import opened GalaxyText
  import opened Names
  import opened Galaxy

  // ---------------------------------------------------------------- idempotence, field by field

  lemma ConstrainedKeeps(file: FileEntry, all: set<string>)
    ensures var c := Constrained(file, all);
      && c.destination == file.destination && c.size == file.size && c.checksum == file.checksum
      && c.additionalLocations == file.additionalLocations && c.location == file.location && c.check == file.check
      && c.beforeInstall == file.beforeInstall && c.afterInstall == file.afterInstall
      && (file.languages != "" ==> c.languages != "")
  {
    CheckKeepsLanguages(file, all);
  }

  lemma CheckKeepsLanguages(file: FileEntry, all: set<string>)
    ensures file.languages != "" ==> WithCheck(file, all).languages != ""
  {
    var check := CheckInfo(file);
    if check != [] && ParsedConstraints(check[0]) != [] {
      ExpressionIsNotEmpty(ParsedConstraints(check[0]));
    }
  }

  lemma CheckTwice(file: FileEntry, again: FileEntry, all: set<string>)
    requires var c := WithCheck(file, all);
      && again == c.(components := again.components) && (c.components != "" ==> again.components == c.components)
    ensures WithCheck(again, all) == again
  {
  }

  lemma ConstrainedTwice(file: FileEntry, all: set<string>)
    ensures Constrained(Constrained(file, all), all) == Constrained(file, all)
  {
    if file.destination != "" {
      CheckTwice(file, WithDependency(WithCheck(file, all)), all);
    }
  }

  lemma MarksAreKept(a: GogArchive)
    ensures AllMarks(Applied(a).files) == AllMarks(a.files)
  {
    if IsGalaxy(a) {
      var parts := PartsApplied(a.files, |a.entries|);
      forall j | 0 <= j < |a.files|
        ensures MarksOf(Applied(a).files[j]) == MarksOf(a.files[j])
      {
        ConstrainedKeeps(parts[j], AllLanguages(parts));
      }
    }
  }

  /** Every location a start collects is in its final list, so collecting again adds nothing. */
  lemma {:induction false} LocationsTwice(locations: seq<uint32>, ms: seq<Marks>, n: nat, k: nat, m: nat, s: nat)
    requires k <= m <= |ms|
    ensures var once := LocationsAfter(locations, ms, n, m, s);
      LocationsAfter(once, ms, n, k, s) == once
  {
    if k > 0 {
      LocationsTwice(locations, ms, n, k - 1, m, s);
      if PartOf(ms, n, k - 1, s) && s != k - 1 {
        LocationIsCollected(locations, ms, n, k - 1, m, s);
      }
    }
  }

  lemma {:induction false} LocationIsCollected(locations: seq<uint32>, ms: seq<Marks>, n: nat, i: nat, k: nat, s: nat)
    requires i < k <= |ms| && PartOf(ms, n, i, s) && s != i
    ensures ms[i].location in LocationsAfter(locations, ms, n, k, s)
  {
    if i < k - 1 {
      LocationIsCollected(locations, ms, n, i, k - 1, s);
    }
  }

  /** The last part stored in an entry decides it, whatever was there before. */
  lemma {:induction false} EntryTwice(entry: DataEntry, ms: seq<Marks>, n: nat, k: nat, l: nat)
    requires k <= |ms|
    ensures EntryAfter(EntryAfter(entry, ms, n, k, l), ms, n, k, l) == EntryAfter(entry, ms, n, k, l)
  {
    if k > 0 {
      var final := EntryAfter(entry, ms, n, k, l);
      if PartSize(ms, n, k - 1).Some? && ms[k - 1].location == l {
        assert AsPart(AsPart(entry, PartSize(ms, n, k - 1).value), PartSize(ms, n, k - 1).value) == final;
      } else {
        EntryTwice(entry, ms, n, k - 1, l);
      }
    }
  }

  lemma FileTwice(file: FileEntry, again: FileEntry, ms: seq<Marks>, n: nat, j: nat)
    requires j < |ms|
    requires var once := FileAfter(file, ms, n, |ms|, j);
      && again.destination == once.destination && again.size == once.size && again.checksum == once.checksum
      && again.additionalLocations == once.additionalLocations
    ensures FileAfter(again, ms, n, |ms|, j) == again
  {
    LocationsTwice(file.additionalLocations, ms, n, |ms|, |ms|, j);
  }

  lemma {:induction false} SameLanguages(files: seq<FileEntry>, others: seq<FileEntry>)
    requires |files| == |others|
    requires forall j :: 0 <= j < |files| ==>
      files[j].destination == others[j].destination && files[j].check == others[j].check
    ensures AllLanguages(files) == AllLanguages(others)
  {
    if files != [] {
      SameLanguages(files[..|files| - 1], others[..|files| - 1]);
    }
  }

  lemma {:induction false} ConstraintsStay(files: seq<FileEntry>, others: seq<FileEntry>)
    requires |files| == |others| && HasLanguageConstraints(files)
    requires forall j :: 0 <= j < |files| && files[j].languages != "" ==> others[j].languages != ""
    ensures HasLanguageConstraints(others)
  {
    if HasLanguageConstraints(files[..|files| - 1]) {
      ConstraintsStay(files[..|files| - 1], others[..|files| - 1]);
    }
  }

  // ---------------------------------------------------------------- languages

  lemma {:induction false} LanguagesAreAdded(languages: seq<Language>, names: seq<string>, k: nat)
    requires k <= |names|
    ensures languages <= WithLanguages(languages, names)
    ensures forall i :: 0 <= i < |names| ==> HasLanguage(WithLanguages(languages, names), names[i])
  {
    if names != [] {
      var init, name := names[..|names| - 1], names[|names| - 1];
      var before, after := WithLanguages(languages, init), WithLanguages(languages, names);
      LanguagesAreAdded(languages, init, 0);
      assert before <= after;
      forall i | 0 <= i < |names|
        ensures HasLanguage(after, names[i])
      {
        if i < |init| {
          assert HasLanguage(before, init[i]);
          var m :| 0 <= m < |before| && before[m].name == names[i];
          assert after[m] == before[m];
        } else if !HasLanguage(before, name) {
          assert after[|before|].name == name;
        }
      }
    }
  }

  lemma {:induction false} NothingToAdd(languages: seq<Language>, names: seq<string>)
    requires forall i :: 0 <= i < |names| ==> HasLanguage(languages, names[i])
    ensures WithLanguages(languages, names) == languages
  {
    if names != [] {
      NothingToAdd(languages, names[..|names| - 1]);
      assert HasLanguage(languages, names[|names| - 1]);
    }
  }

  // ---------------------------------------------------------------- the archive

  /** A second pass over the file table finds everything as it should be. */
  lemma FilesTwice(a: GogArchive)
    requires IsGalaxy(a)
    ensures var parts := PartsApplied(a.files, |a.entries|);
      var b := Applied(a);
      && |b.entries| == |a.entries|
      && PartsApplied(b.files, |b.entries|) == b.files
      && AllLanguages(b.files) == AllLanguages(parts)
      && ConstraintsApplied(b.files, AllLanguages(parts)) == b.files
  {
    var ms, n := AllMarks(a.files), |a.entries|;
    var parts := PartsApplied(a.files, n);
    var all := AllLanguages(parts);
    var b := Applied(a);
    MarksAreKept(a);
    forall j | 0 <= j < |a.files|
      ensures PartsApplied(b.files, n)[j] == b.files[j]
      ensures Constrained(b.files[j], all) == b.files[j]
      ensures b.files[j].destination == parts[j].destination && b.files[j].check == parts[j].check
    {
      ConstrainedKeeps(parts[j], all);
      ConstrainedTwice(parts[j], all);
      FileTwice(a.files[j], b.files[j], ms, n, j);
    }
    SameLanguages(b.files, parts);
  }

  lemma EntriesTwice(a: GogArchive)
    requires IsGalaxy(a)
    ensures EntriesApplied(Applied(a).files, Applied(a).entries) == Applied(a).entries
  {
    MarksAreKept(a);
    forall l | 0 <= l < |a.entries|
      ensures EntriesApplied(Applied(a).files, Applied(a).entries)[l] == Applied(a).entries[l]
    {
      EntryTwice(a.entries[l], AllMarks(a.files), |a.entries|, |a.files|, l);
    }
  }

  lemma LanguagesTwice(a: GogArchive, all: set<string>)
    requires IsGalaxy(a) && all == AllLanguages(PartsApplied(a.files, |a.entries|)) && all != {}
    ensures var b := Applied(a);
      WithLanguages(if HasLanguageConstraints(b.files) then b.languages else [], Sorted(all)) == b.languages
  {
    var b := Applied(a);
    var base := if HasLanguageConstraints(a.files) then a.languages else [];
    LanguagesAreAdded(base, Sorted(all), 0);
    NothingToAdd(b.languages, Sorted(all));
    if HasLanguageConstraints(a.files) {
      var parts := PartsApplied(a.files, |a.entries|);
      forall j | 0 <= j < |a.files| && a.files[j].languages != ""
        ensures b.files[j].languages != ""
      {
        ConstrainedKeeps(parts[j], all);
      }
      ConstraintsStay(a.files, b.files);
    }
  }

  lemma StillGalaxy(a: GogArchive)
    requires IsGalaxy(a)
    ensures IsGalaxy(Applied(a))
  {
    MarksAreKept(a);
    if HasMarkers(a.files) {
      var i :| 0 <= i < |a.files| && (StartInfo(a.files[i]) != [] || PartInfo(a.files[i]) != []);
      assert AllMarks(a.files)[i] == AllMarks(Applied(a).files)[i];
    }
  }

  /** Apply is idempotent on the whole archive, for every archive: destinations, sizes,
      checksums, locations, filters, components, architecture bits and languages. */
  lemma ApplyIsIdempotent(a: GogArchive)
    ensures Applied(Applied(a)) == Applied(a)
  {
    if IsGalaxy(a) {
      StillGalaxy(a);
      FilesTwice(a);
      EntriesTwice(a);
      var all := AllLanguages(PartsApplied(a.files, |a.entries|));
      if all != {} {
        LanguagesTwice(a, all);
      }
    }
  }

  // ---------------------------------------------------------------- every run is well formed

  /** What the control state means: an open group has a start; as long as parts remain, every
      file from the start on has been taken, and the two add up to the declared number. */
  ghost predicate WellFormedControl(ms: seq<Marks>, n: nat, i: nat)
    requires i <= |ms|
  {
    var c := ControlBefore(ms, n, i);
    && (c.remaining > 0 ==> c.active.Some?)
    && (c.active.Some? ==>
          var s := c.active.value;
          && s < i && ms[s].start != []
          && (c.remaining > 0 ==>
                && i - s + c.remaining == DeclaredParts(ms[s].start)
                && (forall k :: s <= k < i ==> PartOf(ms, n, k, s))
                && (forall k :: s < k < i ==> ms[k].start == [])))
  }

  lemma {:induction false} ControlIsWellFormed(ms: seq<Marks>, n: nat, i: nat)
    requires i <= |ms|
    ensures WellFormedControl(ms, n, i)
  {
    if i > 0 {
      ControlIsWellFormed(ms, n, i - 1);
      var c := ControlAt(ms, n, i - 1);
      assert PartSize(ms, n, i - 1).Some? && c.active.Some? ==> PartOf(ms, n, i - 1, c.active.value);
    }
  }

  /** Galaxy groups are well formed in every run: a part taken by start s lies at or behind s,
      everything from s to it has been taken by s and no other start lies between them, and it
      is within the declared number of parts. */
  lemma GroupsAreContiguous(ms: seq<Marks>, n: nat, i: nat, s: nat)
    requires i < |ms| && PartOf(ms, n, i, s)
    ensures s <= i && ms[s].start != []
    ensures forall k :: s <= k <= i ==> PartOf(ms, n, k, s)
    ensures forall k :: s < k <= i ==> ms[k].start == []
    ensures i - s < DeclaredParts(ms[s].start)
  {
    ControlIsWellFormed(ms, n, i);
  }

  /** No file is taken by two starts, and Apply empties a destination only for a file that a
      start other than itself has taken. */
  lemma OnlyAbsorbedAreCleared(a: GogArchive, i: nat, s: nat, t: nat)
    requires IsGalaxy(a) && i < |a.files|
    ensures PartOf(AllMarks(a.files), |a.entries|, i, s) && PartOf(AllMarks(a.files), |a.entries|, i, t) ==> s == t
    ensures Absorbed(AllMarks(a.files), |a.entries|, i) ==>
      Applied(a).files[i].destination == "" && !IsStartFile(a, i)
    ensures !Absorbed(AllMarks(a.files), |a.entries|, i) && a.files[i].destination != "" ==>
      Applied(a).files[i].destination != ""
  {
    var parts := PartsApplied(a.files, |a.entries|);
    ConstrainedKeeps(parts[i], AllLanguages(parts));
    var c := ControlAt(AllMarks(a.files), |a.entries|, i);
    if Absorbed(AllMarks(a.files), |a.entries|, i) {
      GroupsAreContiguous(AllMarks(a.files), |a.entries|, i, c.active.value);
    }
  }

  predicate IsStartFile(a: GogArchive, i: nat)
    requires i < |a.files|
  {
    AllMarks(a.files)[i].start != []
  }
}
