/** What Apply makes of an archive, said from the texts of its hooks and checks
    (internal/gog/gog.go).

    Which file is a part of which group is given without the loop and its control state: a group
    is a run of files from its start on.  From that follow the files, the data entries and the
    languages that Apply leaves. */
module GalaxyMeaning {
  import opened Bytes
  import opened Format
  import opened Calls
  import opened GalaxyText
  import opened TextLaws
  import opened Names
  import opened Galaxy
  import opened GalaxyLaws

  // ---------------------------------------------------------------- calls in the hooks

  ghost predicate StartCall(file: FileEntry, args: seq<string>) {
    args != [] && (IsCall(file.beforeInstall, "before_install", args)
                   || IsCall(file.beforeInstall, "before_install_dependency", args))
  }

  ghost predicate PartCall(file: FileEntry, args: seq<string>) {
    args != [] && (IsCall(file.afterInstall, "after_install", args)
                   || IsCall(file.afterInstall, "after_install_dependency", args))
  }

  ghost predicate CheckCall(file: FileEntry, args: seq<string>) {
    args != [] && IsCall(file.check, "check_if_install", args)
  }

  ghost predicate DependencyCall(file: FileEntry, args: seq<string>) {
    args != [] && IsCall(file.check, "check_if_install_dependency", args)
  }

  lemma PlainNames()
    ensures PlainToken("before_install", true) && PlainToken("before_install_dependency", true)
    ensures PlainToken("after_install", true) && PlainToken("after_install_dependency", true)
    ensures PlainToken("check_if_install", true) && PlainToken("check_if_install_dependency", true)
  {
  }

  lemma StartIsRead(file: FileEntry, args: seq<string>)
    requires args != []
    ensures StartInfo(file) == args <==> StartCall(file, args)
  {
    PlainNames();
    TwoNames(file.beforeInstall, "before_install", "before_install_dependency", args);
  }

  lemma PartIsRead(file: FileEntry, args: seq<string>)
    requires args != []
    ensures PartInfo(file) == args <==> PartCall(file, args)
  {
    PlainNames();
    TwoNames(file.afterInstall, "after_install", "after_install_dependency", args);
  }

  lemma TwoNames(code: string, name: string, other: string, args: seq<string>)
    requires args != [] && PlainToken(name, true) && PlainToken(other, true) && |name| != |other|
    ensures FirstCall(code, name, other) == args <==> IsCall(code, name, args) || IsCall(code, other, args)
  {
    FirstCallIsExact(code, name, other, args);
  }

  lemma ChecksAreRead(file: FileEntry, args: seq<string>)
    requires args != []
    ensures CheckInfo(file) == args <==> CheckCall(file, args)
    ensures ParsedCall(file.check, "check_if_install_dependency") == args <==> DependencyCall(file, args)
  {
    PlainNames();
    ParserIsExact(file.check, "check_if_install", args);
    ParserIsExact(file.check, "check_if_install_dependency", args);
  }

  /** Decimal digits with a uint64 value. */
  predicate Decimal(s: string, v: uint64) {
    s != "" && AllDigits(s) && Number(s) == v
  }

  /** The number of parts that a start declares: its third argument, but at least one; none if
      that is not a number. */
  ghost predicate Declares(args: seq<string>, parts: uint64) {
    if |args| < 3 then parts == 1
    else if Decimal(args[2], 0) then parts == 1
    else Decimal(args[2], parts) || (parts == 0 && forall v: uint64 :: !Decimal(args[2], v))
  }

  lemma DeclaresIs(args: seq<string>)
    ensures Declares(args, DeclaredParts(args))
  {
    if |args| >= 3 {
      forall v: uint64
        ensures ParsedUint(args[2]) == Some(v) <==> Decimal(args[2], v)
      {
        NumberIsRead(args[2], v);
      }
    }
  }

  /** A file that can be a part: it calls the part hook with a size and has a data entry. */
  ghost predicate PartOfSize(file: FileEntry, n: nat, size: uint64) {
    file.location < n && exists args :: PartCall(file, args) && |args| >= 3 && Decimal(args[2], size)
  }

  // ---------------------------------------------------------------- groups are runs

  predicate Usable(m: Marks, n: nat) {
    |m.part| >= 3 && m.location < n && ParsedUint(m.part[2]).Some?
  }

  /** From s to i, every file is usable, and only s is a start, which declares enough parts. */
  predicate MarkedRun(ms: seq<Marks>, n: nat, i: nat, s: nat)
    requires i < |ms|
  {
    && s <= i && ms[s].start != [] && i - s < DeclaredParts(ms[s].start)
    && (forall j :: s <= j <= i ==> Usable(ms[j], n))
    && (forall j :: s < j <= i ==> ms[j].start == [])
  }

  lemma {:induction false} RunIsTaken(ms: seq<Marks>, n: nat, i: nat, s: nat)
    requires i < |ms| && MarkedRun(ms, n, i, s)
    ensures ControlAt(ms, n, i) == Control(Some(s), DeclaredParts(ms[s].start) - (i - s))
    ensures PartOf(ms, n, i, s)
  {
    assert Usable(ms[i], n);
    if i > s {
      RunIsTaken(ms, n, i - 1, s);
    }
  }

  lemma TakenIsRun(ms: seq<Marks>, n: nat, i: nat, s: nat)
    requires i < |ms| && PartOf(ms, n, i, s)
    ensures MarkedRun(ms, n, i, s)
  {
    GroupsAreContiguous(ms, n, i, s);
    forall j | s <= j <= i
      ensures Usable(ms[j], n)
    {
      assert PartOf(ms, n, j, s);
    }
  }

  ghost predicate CanBePart(file: FileEntry, n: nat) {
    exists size :: PartOfSize(file, n, size)
  }

  ghost predicate IsStart(file: FileEntry) {
    exists args :: StartCall(file, args)
  }

  /** A start that declares more than k parts. */
  ghost predicate StartsMore(file: FileEntry, k: nat) {
    exists args, parts :: StartCall(file, args) && Declares(args, parts) && k < parts
  }

  /** File i belongs to the group that starts at s: s calls the start hook and declares enough
      parts, every file from s to i can be a part, and none behind s calls the start hook. */
  ghost predicate InGroup(files: seq<FileEntry>, n: nat, i: nat, s: nat)
    requires i < |files|
  {
    && s <= i && StartsMore(files[s], i - s)
    && (forall j :: s <= j <= i ==> CanBePart(files[j], n))
    && (forall j :: s < j <= i ==> !IsStart(files[j]))
  }

  lemma StartMark(file: FileEntry)
    ensures StartInfo(file) != [] ==> StartCall(file, StartInfo(file))
    ensures forall args :: StartCall(file, args) ==> StartInfo(file) == args
  {
    forall args | args != []
      ensures StartInfo(file) == args <==> StartCall(file, args)
    {
      StartIsRead(file, args);
    }
  }

  lemma PartMark(file: FileEntry)
    ensures PartInfo(file) != [] ==> PartCall(file, PartInfo(file))
    ensures forall args :: PartCall(file, args) ==> PartInfo(file) == args
  {
    forall args | args != []
      ensures PartInfo(file) == args <==> PartCall(file, args)
    {
      PartIsRead(file, args);
    }
  }

  /** The size with which a file can be a part. */
  lemma SizeIsRead(file: FileEntry, n: nat, size: uint64)
    ensures PartOfSize(file, n, size) <==>
      Usable(MarksOf(file), n) && ParsedUint(PartInfo(file)[2]) == Some(size)
  {
    PartMark(file);
    if |PartInfo(file)| >= 3 {
      NumberIsRead(PartInfo(file)[2], size);
    }
  }

  lemma UsableIs(file: FileEntry, n: nat)
    ensures Usable(MarksOf(file), n) <==> CanBePart(file, n)
  {
    if Usable(MarksOf(file), n) {
      SizeIsRead(file, n, ParsedUint(PartInfo(file)[2]).value);
    }
    forall size | PartOfSize(file, n, size)
      ensures Usable(MarksOf(file), n)
    {
      SizeIsRead(file, n, size);
    }
  }

  lemma NoStartIs(file: FileEntry)
    ensures MarksOf(file).start != [] <==> IsStart(file)
  {
    StartMark(file);
  }

  lemma DeclaredUnique(args: seq<string>, parts: uint64)
    requires Declares(args, parts)
    ensures parts == DeclaredParts(args)
  {
    DeclaresIs(args);
  }

  lemma DeclaresEnough(file: FileEntry, k: nat)
    ensures MarksOf(file).start != [] && k < DeclaredParts(MarksOf(file).start) <==> StartsMore(file, k)
  {
    StartMark(file);
    DeclaresIs(StartInfo(file));
    forall args, parts | StartCall(file, args) && Declares(args, parts) && k < parts
      ensures StartInfo(file) == args && k < DeclaredParts(StartInfo(file))
    {
      DeclaredUnique(args, parts);
    }
  }

  lemma RunIsGroup(files: seq<FileEntry>, n: nat, i: nat, s: nat)
    requires i < |files|
    ensures MarkedRun(AllMarks(files), n, i, s) <==> InGroup(files, n, i, s)
  {
    var ms := AllMarks(files);
    if s <= i {
      DeclaresEnough(files[s], i - s);
      forall j | s <= j <= i
        ensures Usable(ms[j], n) <==> CanBePart(files[j], n)
        ensures ms[j].start != [] <==> IsStart(files[j])
      {
        UsableIs(files[j], n);
        NoStartIs(files[j]);
      }
    }
  }

  /** Groups are runs: the loop takes file i as a part of start s exactly if i belongs to the
      group of s. */
  lemma GroupsAreRuns(files: seq<FileEntry>, n: nat, i: nat, s: nat)
    requires i < |files|
    ensures PartOf(AllMarks(files), n, i, s) <==> InGroup(files, n, i, s)
  {
    RunIsGroup(files, n, i, s);
    if MarkedRun(AllMarks(files), n, i, s) {
      RunIsTaken(AllMarks(files), n, i, s);
    }
    if PartOf(AllMarks(files), n, i, s) {
      TakenIsRun(AllMarks(files), n, i, s);
    }
  }

  // ---------------------------------------------------------------- the files

  /** File i of an archive that Apply has changed. */
  lemma FileIs(a: GogArchive, i: nat)
    requires IsGalaxy(a) && i < |a.files|
    ensures var ms, n := AllMarks(a.files), |a.entries|;
      var parts := PartsApplied(a.files, n);
      && |Applied(a).files| == |a.files|
      && parts[i] == FileAfter(a.files[i], ms, n, |ms|, i)
      && Applied(a).files[i] == Constrained(parts[i], AllLanguages(parts))
  {
  }

  /** Does a file belong to the group of an earlier start? */
  ghost predicate InEarlierGroup(files: seq<FileEntry>, n: nat, i: nat)
    requires i < |files|
  {
    exists s :: 0 <= s < i && InGroup(files, n, i, s)
  }

  lemma AbsorbedIs(files: seq<FileEntry>, n: nat, i: nat)
    requires i < |files|
    ensures Absorbed(AllMarks(files), n, i) <==> InEarlierGroup(files, n, i)
  {
    if Absorbed(AllMarks(files), n, i) {
      AbsorbedHasGroup(files, n, i);
    }
    forall s | 0 <= s < i && InGroup(files, n, i, s)
      ensures Absorbed(AllMarks(files), n, i)
    {
      GroupsAreRuns(files, n, i, s);
    }
  }

  lemma AbsorbedBy(ms: seq<Marks>, n: nat, i: nat) returns (s: nat)
    requires i < |ms| && Absorbed(ms, n, i)
    ensures s < i && PartOf(ms, n, i, s)
  {
    s := ControlAt(ms, n, i).active.value;
    GroupsAreContiguous(ms, n, i, s);
  }

  lemma AbsorbedHasGroup(files: seq<FileEntry>, n: nat, i: nat)
    requires i < |files| && Absorbed(AllMarks(files), n, i)
    ensures InEarlierGroup(files, n, i)
  {
    var s := AbsorbedBy(AllMarks(files), n, i);
    GroupsAreRuns(files, n, i, s);
  }

  lemma StartIsOutside(files: seq<FileEntry>, n: nat, i: nat)
    requires i < |files| && IsStart(files[i])
    ensures !InEarlierGroup(files, n, i)
  {
  }

  /** A start takes its destination from its second argument, if there is one that is not empty,
      and its checksum from the first: the MD5 digest that it spells, or none. */
  lemma StartIsNamed(a: GogArchive, i: nat, args: seq<string>)
    requires IsGalaxy(a) && i < |a.files| && StartCall(a.files[i], args)
    ensures var f, g := a.files[i], Applied(a).files[i];
      && g.destination == (if |args| >= 2 && args[1] != "" then args[1] else f.destination)
      && (forall d: bytes :: |d| == 16 && Spells(args[0], d) ==> g.checksum == Checksum(ChecksumMD5, d))
      && ((forall d: bytes :: |d| == 16 ==> !Spells(args[0], d)) ==> g.checksum == Checksum(ChecksumNone, []))
  {
    var parts := PartsApplied(a.files, |a.entries|);
    FileIs(a, i);
    StartMark(a.files[i]);
    AbsorbedIs(a.files, |a.entries|, i);
    StartIsOutside(a.files, |a.entries|, i);
    ConstrainedKeeps(parts[i], AllLanguages(parts));
    DigestIsRead(args[0]);
  }

  /** The other files keep their checksum, size and locations, and their destination too, unless
      an earlier start takes them: then it is cleared. */
  lemma OthersAreKept(a: GogArchive, i: nat)
    requires IsGalaxy(a) && i < |a.files| && !IsStart(a.files[i])
    ensures var f, g := a.files[i], Applied(a).files[i];
      && g.destination == (if InEarlierGroup(a.files, |a.entries|, i) then "" else f.destination)
      && g.checksum == f.checksum && g.size == f.size && g.additionalLocations == f.additionalLocations
  {
    var parts := PartsApplied(a.files, |a.entries|);
    FileIs(a, i);
    NoStartIs(a.files[i]);
    AbsorbedIs(a.files, |a.entries|, i);
    ConstrainedKeeps(parts[i], AllLanguages(parts));
    NothingCollected(a.files[i].additionalLocations, AllMarks(a.files), |a.entries|, |a.files|, i);
  }

  lemma {:induction false} NothingCollected(locations: seq<uint32>, ms: seq<Marks>, n: nat, k: nat, s: nat)
    requires k <= |ms| && s < |ms| && ms[s].start == []
    ensures LocationsAfter(locations, ms, n, k, s) == locations
  {
    if k > 0 {
      NothingCollected(locations, ms, n, k - 1, s);
      if PartOf(ms, n, k - 1, s) {
        GroupsAreContiguous(ms, n, k - 1, s);
      }
    }
  }

  /** Apply never touches the location of a file, its hooks or its check. */
  lemma HooksStay(a: GogArchive, i: nat)
    requires i < |a.files|
    ensures var f, g := a.files[i], Applied(a).files[i];
      && g.location == f.location && g.check == f.check
      && g.beforeInstall == f.beforeInstall && g.afterInstall == f.afterInstall
  {
    if IsGalaxy(a) {
      var parts := PartsApplied(a.files, |a.entries|);
      FileIs(a, i);
      ConstrainedKeeps(parts[i], AllLanguages(parts));
    }
  }

  // ---------------------------------------------------------------- sizes

  ghost function SizeOfPart(file: FileEntry, n: nat): uint64
    requires CanBePart(file, n)
  {
    var size :| PartOfSize(file, n, size);
    size
  }

  lemma SizeOfPartIs(file: FileEntry, n: nat)
    requires CanBePart(file, n)
    ensures Usable(MarksOf(file), n) && ParsedUint(PartInfo(file)[2]) == Some(SizeOfPart(file, n))
  {
    SizeIsRead(file, n, SizeOfPart(file, n));
  }

  function Sum(x: seq<nat>): nat {
    if x == [] then 0 else Sum(x[..|x| - 1]) + x[|x| - 1]
  }

  /** For each file, its size as a part of the group of s, or 0 if it is in no such group. */
  ghost function GroupSizes(files: seq<FileEntry>, n: nat, s: nat): (x: seq<nat>)
    ensures |x| == |files|
  {
    seq(|files|, i requires 0 <= i < |files| => if InGroup(files, n, i, s) then SizeOfPart(files[i], n) else 0)
  }

  /** What start s takes of file i. */
  function TakenOf(ms: seq<Marks>, n: nat, i: nat, s: nat): nat
    requires i < |ms|
  {
    if PartOf(ms, n, i, s) then PartSize(ms, n, i).value else 0
  }

  lemma TakenOfIs(files: seq<FileEntry>, n: nat, i: nat, s: nat)
    requires i < |files|
    ensures TakenOf(AllMarks(files), n, i, s) == if InGroup(files, n, i, s) then SizeOfPart(files[i], n) else 0
  {
    GroupsAreRuns(files, n, i, s);
    if InGroup(files, n, i, s) {
      SizeOfPartIs(files[i], n);
    }
  }

  lemma {:induction false} TakenIsSum(ms: seq<Marks>, n: nat, k: nat, s: nat, x: seq<nat>)
    requires |x| == k <= |ms| && forall i :: 0 <= i < k ==> x[i] == TakenOf(ms, n, i, s)
    ensures TakenSum(ms, n, k, s) == Sum(x)
  {
    if k > 0 {
      TakenIsSum(ms, n, k - 1, s, x[..k - 1]);
    }
  }

  lemma GroupTaken(files: seq<FileEntry>, n: nat, s: nat)
    ensures TakenSum(AllMarks(files), n, |files|, s) == Sum(GroupSizes(files, n, s))
  {
    var ms, x := AllMarks(files), GroupSizes(files, n, s);
    forall i | 0 <= i < |files|
      ensures x[i] == TakenOf(ms, n, i, s)
    {
      TakenOfIs(files, n, i, s);
    }
    TakenIsSum(ms, n, |files|, s, x);
  }

  /** The Size of a start is that of its group, as a uint64. */
  lemma StartHasGroupSize(a: GogArchive, s: nat)
    requires IsGalaxy(a) && s < |a.files| && IsStart(a.files[s])
    ensures Applied(a).files[s].size == Sum(GroupSizes(a.files, |a.entries|, s)) % 0x1_0000_0000_0000_0000
  {
    var parts := PartsApplied(a.files, |a.entries|);
    FileIs(a, s);
    NoStartIs(a.files[s]);
    ConstrainedKeeps(parts[s], AllLanguages(parts));
    GroupTaken(a.files, |a.entries|, s);
  }

  // ---------------------------------------------------------------- the data entries

  /** File i is a part, of any group, that is stored in entry l. */
  ghost predicate StoredIn(files: seq<FileEntry>, n: nat, i: nat, l: nat)
    requires i < |files|
  {
    files[i].location == l && exists s :: 0 <= s <= i && InGroup(files, n, i, s)
  }

  lemma IsPartIs(files: seq<FileEntry>, n: nat, i: nat)
    requires i < |files|
    ensures var size := PartSize(AllMarks(files), n, i);
      && (size.Some? <==> exists s :: 0 <= s <= i && InGroup(files, n, i, s))
      && (size.Some? ==> CanBePart(files[i], n) && size.value == SizeOfPart(files[i], n))
  {
    var ms := AllMarks(files);
    if PartSize(ms, n, i).Some? {
      var s := ControlAt(ms, n, i).active.value;
      assert PartOf(ms, n, i, s);
      GroupsAreRuns(files, n, i, s);
      TakenOfIs(files, n, i, s);
    }
    forall s | 0 <= s <= i && InGroup(files, n, i, s)
      ensures PartSize(ms, n, i).Some?
    {
      GroupsAreRuns(files, n, i, s);
    }
  }

  predicate Stores(ms: seq<Marks>, n: nat, i: nat, l: nat)
    requires i < |ms|
  {
    PartSize(ms, n, i).Some? && ms[i].location == l
  }

  lemma StoresIs(files: seq<FileEntry>, n: nat, i: nat, l: nat)
    requires i < |files|
    ensures StoredIn(files, n, i, l) <==> Stores(AllMarks(files), n, i, l)
  {
    IsPartIs(files, n, i);
  }

  lemma {:induction false} NoPartStored(ms: seq<Marks>, n: nat, k: nat, l: nat, entry: DataEntry)
    requires k <= |ms| && forall i :: 0 <= i < k ==> !Stores(ms, n, i, l)
    ensures EntryAfter(entry, ms, n, k, l) == entry
  {
    if k > 0 {
      assert !Stores(ms, n, k - 1, l);
      NoPartStored(ms, n, k - 1, l, entry);
    }
  }

  lemma {:induction false} LastPartStored(ms: seq<Marks>, n: nat, k: nat, l: nat, entry: DataEntry, i: nat)
    requires i < k <= |ms| && Stores(ms, n, i, l)
    requires forall j :: i < j < k ==> !Stores(ms, n, j, l)
    ensures EntryAfter(entry, ms, n, k, l) == AsPart(entry, PartSize(ms, n, i).value)
  {
    if i < k - 1 {
      assert !Stores(ms, n, k - 1, l);
      LastPartStored(ms, n, k - 1, l, entry, i);
    }
  }

  lemma EntryIs(a: GogArchive, l: nat)
    requires IsGalaxy(a) && l < |a.entries|
    ensures |Applied(a).entries| == |a.entries|
    ensures Applied(a).entries[l] == EntryAfter(a.entries[l], AllMarks(a.files), |a.entries|, |a.files|, l)
  {
  }

  lemma AllStores(a: GogArchive, l: nat)
    ensures forall i :: 0 <= i < |a.files| ==>
      (StoredIn(a.files, |a.entries|, i, l) <==> Stores(AllMarks(a.files), |a.entries|, i, l))
  {
    forall i | 0 <= i < |a.files|
      ensures StoredIn(a.files, |a.entries|, i, l) <==> Stores(AllMarks(a.files), |a.entries|, i, l)
    {
      StoresIs(a.files, |a.entries|, i, l);
    }
  }

  /** A data entry in which no part is stored stays as it is. */
  lemma EntryStays(a: GogArchive, l: nat)
    requires IsGalaxy(a) && l < |a.entries|
    requires forall i :: 0 <= i < |a.files| ==> !StoredIn(a.files, |a.entries|, i, l)
    ensures |Applied(a).entries| == |a.entries| && Applied(a).entries[l] == a.entries[l]
  {
    EntryIs(a, l);
    AllStores(a, l);
    NoPartStored(AllMarks(a.files), |a.entries|, |a.files|, l, a.entries[l]);
  }

  /** Any other has the size of the last part stored in it and is inflated; its chunk, its range
      and its checksum stay. */
  lemma EntryIsLastPart(a: GogArchive, l: nat, i: nat)
    requires IsGalaxy(a) && l < |a.entries| && i < |a.files| && StoredIn(a.files, |a.entries|, i, l)
    requires forall j :: i < j < |a.files| ==> !StoredIn(a.files, |a.entries|, j, l)
    ensures |Applied(a).entries| == |a.entries| && CanBePart(a.files[i], |a.entries|)
    ensures var e, stored := a.entries[l], a.entries[l].file;
      Applied(a).entries[l]
      == DataEntry(e.chunk, StoredFile(stored.offset, stored.size, stored.checksum, ZlibFilter),
                   SizeOfPart(a.files[i], |a.entries|))
  {
    EntryIs(a, l);
    LastStoredIs(a.files, |a.entries|, l, i, a.entries[l]);
    InflatedPart(a.entries[l], SizeOfPart(a.files[i], |a.entries|));
  }

  lemma LastStoredIs(files: seq<FileEntry>, n: nat, l: nat, i: nat, entry: DataEntry)
    requires i < |files| && StoredIn(files, n, i, l)
    requires forall j :: i < j < |files| ==> !StoredIn(files, n, j, l)
    ensures CanBePart(files[i], n)
    ensures EntryAfter(entry, AllMarks(files), n, |files|, l) == AsPart(entry, SizeOfPart(files[i], n))
  {
    forall j | i < j < |files|
      ensures !Stores(AllMarks(files), n, j, l)
    {
      assert !StoredIn(files, n, j, l);
      StoresIs(files, n, j, l);
    }
    StoresIs(files, n, i, l);
    IsPartIs(files, n, i);
    LastPartStored(AllMarks(files), n, |files|, l, entry, i);
  }

  lemma InflatedPart(e: DataEntry, size: uint64)
    ensures AsPart(e, size)
         == DataEntry(e.chunk, StoredFile(e.file.offset, e.file.size, e.file.checksum, ZlibFilter), size)
  {
  }

  // ---------------------------------------------------------------- checks

  lemma CheckMark(file: FileEntry)
    ensures CheckInfo(file) != [] ==> CheckCall(file, CheckInfo(file))
    ensures forall args :: CheckCall(file, args) ==> CheckInfo(file) == args
  {
    forall args | args != []
      ensures CheckInfo(file) == args <==> CheckCall(file, args)
    {
      ChecksAreRead(file, args);
    }
  }

  /** The check of a file names a language, negated or not. */
  ghost predicate NamesLanguage(file: FileEntry, name: string) {
    exists args, negated :: CheckCall(file, args) && Constraint(name, negated) in ParsedConstraints(args[0])
  }

  lemma {:induction false} NamesOfIs(cs: seq<Constraint>, name: string)
    ensures name in NamesOf(cs) <==> Constraint(name, true) in cs || Constraint(name, false) in cs
  {
    if cs != [] {
      var init, last := cs[..|cs| - 1], cs[|cs| - 1];
      NamesOfIs(init, name);
      assert forall c :: c in cs <==> c in init || c == last;
    }
  }

  lemma NamesInIs(file: FileEntry, name: string)
    ensures name in NamesIn(file.check) <==> NamesLanguage(file, name)
  {
    var check := CheckInfo(file);
    CheckMark(file);
    if check != [] {
      NamesOfIs(ParsedConstraints(check[0]), name);
      if check[0] == "" {
        ConstraintsAreTokens("", "");
        assert ParsedConstraints("") == [];
      }
    }
  }

  /** Some file that is still there names the language. */
  ghost predicate Offered(files: seq<FileEntry>, name: string) {
    exists j :: 0 <= j < |files| && files[j].destination != "" && NamesLanguage(files[j], name)
  }

  lemma LanguagesOfIs(file: FileEntry, name: string)
    ensures name in LanguagesOf(file) <==> file.destination != "" && NamesLanguage(file, name)
  {
    NamesInIs(file, name);
  }

  lemma {:induction false} OfferedIs(files: seq<FileEntry>, name: string)
    ensures name in AllLanguages(files) <==> Offered(files, name)
  {
    if files != [] {
      var init, last := files[..|files| - 1], files[|files| - 1];
      assert files == init + [last];
      OfferedIs(init, name);
      LanguagesOfIs(last, name);
      OfferedMore(init, last, name);
      FoundInOneMore(files, name);
    }
  }

  lemma FoundInOneMore(files: seq<FileEntry>, name: string)
    requires files != []
    ensures name in AllLanguages(files)
       <==> name in AllLanguages(files[..|files| - 1]) || name in LanguagesOf(files[|files| - 1])
  {
  }

  lemma OfferedMore(files: seq<FileEntry>, file: FileEntry, name: string)
    ensures Offered(files + [file], name) <==>
      Offered(files, name) || (file.destination != "" && NamesLanguage(file, name))
  {
    var more := files + [file];
    assert forall j :: 0 <= j < |files| ==> more[j] == files[j];
    assert more[|files|] == file;
  }

  /** The languages that Apply finds. */
  ghost function Found(a: GogArchive): set<string> {
    AllLanguages(PartsApplied(a.files, |a.entries|))
  }

  /** They are those that a check of a file names which still has a destination afterwards. */
  lemma FoundIsOffered(a: GogArchive, name: string)
    requires IsGalaxy(a)
    ensures name in Found(a) <==> Offered(Applied(a).files, name)
  {
    var parts, files := PartsApplied(a.files, |a.entries|), Applied(a).files;
    forall j | 0 <= j < |files|
      ensures files[j].destination == parts[j].destination && files[j].check == parts[j].check
    {
      FileIs(a, j);
      ConstrainedKeeps(parts[j], AllLanguages(parts));
    }
    SameLanguages(parts, files);
    OfferedIs(files, name);
  }

  /** A check for every language that there is, where there are several. */
  ghost predicate ForEveryLanguage(a: GogArchive, cs: seq<Constraint>) {
    && (exists x, y :: x != y && Offered(Applied(a).files, x) && Offered(Applied(a).files, y))
    && (forall name :: Offered(Applied(a).files, name) ==> Constraint(name, false) in cs)
  }

  lemma SeveralIs(all: set<string>)
    ensures |all| > 1 <==> exists x, y :: x != y && x in all && y in all
  {
    if |all| > 1 {
      var x :| x in all;
      assert |all - {x}| > 0;
      var y :| y in all - {x};
      assert x != y && x in all && y in all;
    }
    forall x, y | x != y && x in all && y in all
      ensures |all| > 1
    {
      assert {x, y} <= all;
      assert |all| == |all - {x, y}| + |{x, y}|;
    }
  }

  lemma EveryLanguageIs(a: GogArchive, cs: seq<Constraint>)
    requires IsGalaxy(a)
    ensures IsAllLanguages(cs, Found(a)) <==> ForEveryLanguage(a, cs)
  {
    AllLanguagesIs(cs, Found(a));
    SeveralIs(Found(a));
    forall name
      ensures name in Found(a) <==> Offered(Applied(a).files, name)
    {
      FoundIsOffered(a, name);
    }
  }

  /** File i as Apply leaves it, from what it had before the constraints. */
  lemma FinalFile(a: GogArchive, i: nat)
    requires IsGalaxy(a) && i < |a.files|
    ensures var f, g := a.files[i], Applied(a).files[i];
      exists p: FileEntry ::
        && p.destination == g.destination && p.check == f.check && p.languages == f.languages
        && p.components == f.components && p.bits32 == f.bits32 && p.bits64 == f.bits64
        && g == Constrained(p, Found(a))
  {
    var parts := PartsApplied(a.files, |a.entries|);
    FileIs(a, i);
    ConstrainedKeeps(parts[i], AllLanguages(parts));
    assert Applied(a).files[i] == Constrained(parts[i], Found(a));
  }

  /** Without a check call and a dependency, or without a destination, a file stays as it is. */
  lemma UncheckedStays(a: GogArchive, i: nat)
    requires IsGalaxy(a) && i < |a.files|
    requires Applied(a).files[i].destination == ""
          || forall args :: !CheckCall(a.files[i], args) && !DependencyCall(a.files[i], args)
    ensures var f, g := a.files[i], Applied(a).files[i];
      g.languages == f.languages && g.components == f.components && g.bits32 == f.bits32 && g.bits64 == f.bits64
  {
    var f := a.files[i];
    FinalFile(a, i);
    CheckMark(f);
    var dependency := ParsedCall(f.check, "check_if_install_dependency");
    if dependency != [] {
      ChecksAreRead(f, dependency);
    }
  }

  /** A dependency without a check call names the component of a file that has none. */
  lemma DependencyIsApplied(a: GogArchive, i: nat, args: seq<string>)
    requires IsGalaxy(a) && i < |a.files| && Applied(a).files[i].destination != ""
    requires DependencyCall(a.files[i], args) && forall other :: !CheckCall(a.files[i], other)
    ensures var f, g := a.files[i], Applied(a).files[i];
      && g.components == (if f.components == "" then args[0] else f.components)
      && g.languages == f.languages && g.bits32 == f.bits32 && g.bits64 == f.bits64
  {
    FinalFile(a, i);
    CheckMark(a.files[i]);
    ChecksAreRead(a.files[i], args);
  }

  /** A check call puts a file without a component into the game, sets its architecture from its
      second argument if that is there and not empty, and its languages from the first, unless
      that names none or all of them. */
  lemma CheckIsApplied(a: GogArchive, i: nat, args: seq<string>)
    requires IsGalaxy(a) && i < |a.files| && Applied(a).files[i].destination != ""
    requires CheckCall(a.files[i], args)
    ensures var f, g, cs := a.files[i], Applied(a).files[i], ParsedConstraints(args[0]);
      && g.components == (if f.components == "" then "game" else f.components)
      && g.languages == (if cs == [] || ForEveryLanguage(a, cs) then f.languages else Expression(cs))
      && (g.bits32, g.bits64)
         == if |args| < 2 || args[1] == "" then (f.bits32, f.bits64) else ArchitectureBits(args[1])
  {
    FinalFile(a, i);
    CheckMark(a.files[i]);
    EveryLanguageIs(a, ParsedConstraints(args[0]));
    if args[0] == "" {
      ConstraintsAreTokens("", "");
      assert ParsedConstraints("") == [];
    }
  }

  // ---------------------------------------------------------------- the list of languages

  predicate Listed(r: seq<Language>, name: string) {
    exists k :: 0 <= k < |r| && r[k].name == name
  }

  /** The list behind `base` in r: new languages with these names, in increasing order. */
  ghost predicate Adds(base: seq<Language>, r: seq<Language>, names: set<string>) {
    && base <= r
    && (forall k :: |base| <= k < |r| ==>
          && r[k] == Language(r[k].name, "", 0, 0) && r[k].name in names
          && !Listed(base, r[k].name))
    && (forall j, k :: |base| <= j < k < |r| ==> Before(r[j].name, r[k].name))
    && (forall name :: name in names ==> Listed(r, name))
  }

  lemma HasMore(r: seq<Language>, l: Language, x: string)
    ensures Listed(r + [l], x) <==> Listed(r, x) || l.name == x
  {
    var more := r + [l];
    assert forall k :: 0 <= k < |r| ==> more[k] == r[k];
    assert more[|r|] == l;
  }

  lemma AddsOneMore(base: seq<Language>, r: seq<Language>, names: set<string>, name: string)
    requires Adds(base, r, names) && forall x :: x in names ==> Before(x, name)
    ensures Adds(base, if HasLanguage(r, name) then r else r + [Language(name, "", 0, 0)], names + {name})
  {
    if !HasLanguage(r, name) {
      var more := r + [Language(name, "", 0, 0)];
      assert forall k :: 0 <= k < |r| ==> more[k] == r[k];
      forall x | x in names + {name}
        ensures Listed(more, x)
      {
        HasMore(r, Language(name, "", 0, 0), x);
      }
    }
  }

  lemma {:induction false} AddsAll(base: seq<Language>, names: seq<string>)
    requires Increasing(names)
    ensures Adds(base, WithLanguages(base, names), Elements(names))
  {
    if names != [] {
      var init, last := names[..|names| - 1], names[|names| - 1];
      AddsAll(base, init);
      AddsOneMore(base, WithLanguages(base, init), Elements(init), last);
      assert names == init + [last];
      assert Elements(names) == Elements(init) + {last};
    }
  }

  lemma {:induction false} ConstrainedSomewhere(files: seq<FileEntry>)
    ensures HasLanguageConstraints(files) <==> exists j :: 0 <= j < |files| && files[j].languages != ""
  {
    if files != [] {
      ConstrainedSomewhere(files[..|files| - 1]);
    }
  }

  /** The languages of the archive are kept, or dropped if no file was bound to one; the found
      ones that are missing follow in increasing order.  Without any found, nothing changes. */
  lemma LanguagesAreFound(a: GogArchive)
    requires IsGalaxy(a)
    ensures Found(a) == {} ==> Applied(a).languages == a.languages
    ensures Found(a) != {} ==>
      Adds(if exists j :: 0 <= j < |a.files| && a.files[j].languages != "" then a.languages else [],
           Applied(a).languages, Found(a))
  {
    ConstrainedSomewhere(a.files);
    AddsAll(if HasLanguageConstraints(a.files) then a.languages else [], Sorted(Found(a)));
  }

  /** Apply changes an archive only if it looks like one of GOG or a file calls a hook. */
  lemma GalaxyIs(a: GogArchive)
    ensures IsGalaxy(a) <==>
      || HasGame(a.registry, "") || (exists i :: 0 <= i <= |a.publisher| - 7 && FoldsAt(a.publisher, i, "gog.com"))
      || exists i, args :: 0 <= i < |a.files| && (StartCall(a.files[i], args) || PartCall(a.files[i], args))
    ensures !IsGalaxy(a) ==> Applied(a) == a
  {
    LooksLikeIs(a.registry, a.publisher);
    forall i | 0 <= i < |a.files|
      ensures StartInfo(a.files[i]) != [] || PartInfo(a.files[i]) != []
         <==> exists args :: StartCall(a.files[i], args) || PartCall(a.files[i], args)
    {
      StartMark(a.files[i]);
      PartMark(a.files[i]);
    }
  }
}
