/** Apply (internal/gog/gog.go): recovers the files of GOG Galaxy multi-part installers from
    the calls in their install hooks.

    A start marker opens a group; the parts that follow it at once, up to the declared number,
    are absorbed into the start file.  The loop writes through pointers into the file table and
    the data entries; its effect is described field by field (`FileAfter`, `EntryAfter`), over
    the control state that the markers alone determine (`ControlBefore`). */
module Galaxy {
  import opened Bytes
  import opened Format
  import opened Calls
  import opened GalaxyText
  import opened Names

  // ---------------------------------------------------------------- control

  /** What the part loop reads of a file and never writes: its markers and its location. */
  datatype Marks = Marks(start: seq<string>, part: seq<string>, location: uint32)

  function MarksOf(file: FileEntry): Marks {
    Marks(StartInfo(file), PartInfo(file), file.location)
  }

  function AllMarks(files: seq<FileEntry>): (ms: seq<Marks>)
    ensures |ms| == |files|
    ensures forall i :: 0 <= i < |files| ==> ms[i] == MarksOf(files[i])
  {
    seq(|files|, i requires 0 <= i < |files| => MarksOf(files[i]))
  }

  /** activeStart and remaining; None is the source's -1. */
  datatype Control = Control(active: Option<nat>, remaining: uint64)

  const IDLE := Control(None, 0)

  /** The number of parts a start marker declares; 0 if the number is malformed. */
  function DeclaredParts(info: seq<string>): uint64 {
    if |info| < 3 then 1
    else
      match ParsedUint(info[2])
      case None => 0
      case Some(n) => if n == 0 then 1 else n
  }

  /** After the start marker of file i, if it has one. */
  function Opened(c: Control, m: Marks, i: nat): Control {
    if m.start == [] then c
    else if DeclaredParts(m.start) == 0 then IDLE
    else Control(Some(i), DeclaredParts(m.start))
  }

  /** The uncompressed size of a part that the active group takes; n is the number of entries. */
  function Taken(c: Control, m: Marks, n: nat): (size: Option<uint64>)
    ensures size.Some? ==> c.active.Some? && c.remaining > 0 && m.location < n
  {
    if m.part == [] || c.active.None? || c.remaining == 0 || m.location >= n || |m.part| < 3 then None
    else ParsedUint(m.part[2])
  }

  /** After file i. */
  function Closed(c: Control, m: Marks, n: nat): Control {
    if Taken(c, m, n).Some? then c.(remaining := c.remaining - 1)
    else if m.part != [] || m.start != [] || c.remaining != 0 then IDLE
    else c
  }

  /** The control state before file i. */
  function ControlBefore(ms: seq<Marks>, n: nat, i: nat): Control
    requires i <= |ms|
  {
    if i == 0 then IDLE
    else Closed(Opened(ControlBefore(ms, n, i - 1), ms[i - 1], i - 1), ms[i - 1], n)
  }

  function ControlAt(ms: seq<Marks>, n: nat, i: nat): Control
    requires i < |ms|
  {
    Opened(ControlBefore(ms, n, i), ms[i], i)
  }

  /** The size of file i as a part, if it is taken as one. */
  function PartSize(ms: seq<Marks>, n: nat, i: nat): Option<uint64>
    requires i < |ms|
  {
    Taken(ControlAt(ms, n, i), ms[i], n)
  }

  /** Is file i taken as a part of the group that starts at s? */
  predicate PartOf(ms: seq<Marks>, n: nat, i: nat, s: nat)
    requires i < |ms|
  {
    PartSize(ms, n, i).Some? && ControlAt(ms, n, i).active == Some(s)
  }

  /** Is file i taken by a start other than itself? */
  predicate Absorbed(ms: seq<Marks>, n: nat, i: nat)
    requires i < |ms|
  {
    PartSize(ms, n, i).Some? && ControlAt(ms, n, i).active != Some(i)
  }

  // ---------------------------------------------------------------- the files and entries after k steps

  function DestinationOf(file: FileEntry, ms: seq<Marks>, n: nat, i: nat): string
    requires i < |ms|
  {
    if Absorbed(ms, n, i) then "" else StartDestination(file, ms[i])
  }

  function StartDestination(file: FileEntry, m: Marks): string {
    if |m.start| >= 2 && m.start[1] != "" then m.start[1] else file.destination
  }

  function ChecksumOf(file: FileEntry, m: Marks): Checksum {
    if m.start == [] then file.checksum
    else
      match ParsedMD5(m.start[0])
      case Some(checksum) => checksum
      case None => NO_CHECKSUM
  }

  /** The sizes of the parts taken by start s among the first k files. */
  function TakenSum(ms: seq<Marks>, n: nat, k: nat, s: nat): nat
    requires k <= |ms|
  {
    if k == 0 then 0
    else TakenSum(ms, n, k - 1, s) + if PartOf(ms, n, k - 1, s) then PartSize(ms, n, k - 1).value else 0
  }

  function WithLocation(locations: seq<uint32>, location: uint32): seq<uint32> {
    if location in locations then locations else locations + [location]
  }

  /** The AdditionalLocations of start s after k steps, from `locations`. */
  function LocationsAfter(locations: seq<uint32>, ms: seq<Marks>, n: nat, k: nat, s: nat): seq<uint32>
    requires k <= |ms|
  {
    if k == 0 then locations
    else
      var before := LocationsAfter(locations, ms, n, k - 1, s);
      if PartOf(ms, n, k - 1, s) && s != k - 1 then WithLocation(before, ms[k - 1].location) else before
  }

  /** File j after the first k files have been visited. */
  function FileAfter(file: FileEntry, ms: seq<Marks>, n: nat, k: nat, j: nat): FileEntry
    requires k <= |ms| && j < |ms|
  {
    if j >= k then file
    else file.(
      destination := DestinationOf(file, ms, n, j),
      checksum := ChecksumOf(file, ms[j]),
      size := if ms[j].start != [] then Wrap64(TakenSum(ms, n, k, j)) else file.size,
      additionalLocations := LocationsAfter(file.additionalLocations, ms, n, k, j))
  }

  function AsPart(entry: DataEntry, size: uint64): DataEntry {
    entry.(uncompressedSize := size, file := entry.file.(filter := ZlibFilter))
  }

  /** Data entry l after the first k files have been visited: the last part stored there wins. */
  function EntryAfter(entry: DataEntry, ms: seq<Marks>, n: nat, k: nat, l: nat): DataEntry
    requires k <= |ms|
  {
    if k == 0 then entry
    else if PartSize(ms, n, k - 1).Some? && ms[k - 1].location == l then AsPart(entry, PartSize(ms, n, k - 1).value)
    else EntryAfter(entry, ms, n, k - 1, l)
  }

  /** The languages that a check names. */
  function NamesIn(code: string): set<string> {
    var check := ParsedCall(code, "check_if_install");
    if check == [] || check[0] == "" then {} else NamesOf(ParsedConstraints(check[0]))
  }

  function NamesOf(cs: seq<Constraint>): set<string> {
    if cs == [] then {} else NamesOf(cs[..|cs| - 1]) + {cs[|cs| - 1].name}
  }

  function LanguagesOf(file: FileEntry): set<string> {
    if file.destination == "" then {} else NamesIn(file.check)
  }

  function AllLanguages(files: seq<FileEntry>): set<string> {
    if files == [] then {} else AllLanguages(files[..|files| - 1]) + LanguagesOf(files[|files| - 1])
  }

  predicate HasLanguageConstraints(files: seq<FileEntry>) {
    files != [] && (HasLanguageConstraints(files[..|files| - 1]) || files[|files| - 1].languages != "")
  }

  // ---------------------------------------------------------------- constraints

  /** applyGalaxyConstraints on one file. */
  function Constrained(file: FileEntry, all: set<string>): FileEntry {
    if file.destination == "" then file
    else WithDependency(WithCheck(file, all))
  }

  /** The language constraints of a check. */
  function Restricted(file: FileEntry, code: string, all: set<string>): FileEntry {
    var cs := ParsedConstraints(code);
    file.(languages := if code != "" && cs != [] && !IsAllLanguages(cs, all) then Expression(cs) else file.languages)
  }

  /** The architecture constraints of a check. */
  function WithBits(file: FileEntry, code: string): FileEntry {
    var bits := if code != "" then ArchitectureBits(code) else (file.bits32, file.bits64);
    file.(bits32 := bits.0, bits64 := bits.1)
  }

  /** A file with a check belongs to the game unless it has a component of its own. */
  function InGame(file: FileEntry): FileEntry {
    file.(components := if file.components == "" then "game" else file.components)
  }

  function WithCheck(file: FileEntry, all: set<string>): FileEntry {
    var check := CheckInfo(file);
    if check == [] then file
    else
      InGame(WithBits(Restricted(file, check[0], all), if |check| >= 2 then check[1] else ""))
  }

  function WithDependency(file: FileEntry): FileEntry {
    var dependency := ParsedCall(file.check, "check_if_install_dependency");
    if dependency != [] && file.components == "" && dependency[0] != "" then file.(components := dependency[0])
    else file
  }

  // ---------------------------------------------------------------- the whole archive

  datatype GogArchive = GogArchive(
    files: seq<FileEntry>, entries: seq<DataEntry>, languages: seq<Language>,
    registry: seq<RegistryEntry>, publisher: string)

  predicate HasMarkers(files: seq<FileEntry>) {
    exists i :: 0 <= i < |files| && (StartInfo(files[i]) != [] || PartInfo(files[i]) != [])
  }

  predicate IsGalaxy(a: GogArchive) {
    LooksLikeGOG(a.registry, a.publisher) || HasMarkers(a.files)
  }

  predicate HasLanguage(languages: seq<Language>, name: string) {
    exists i :: 0 <= i < |languages| && languages[i].name == name
  }

  function WithLanguages(languages: seq<Language>, names: seq<string>): seq<Language> {
    if names == [] then languages
    else
      var before := WithLanguages(languages, names[..|names| - 1]);
      var name := names[|names| - 1];
      if HasLanguage(before, name) then before else before + [Language(name, "", 0, 0)]
  }

  function PartsApplied(files: seq<FileEntry>, n: nat): (r: seq<FileEntry>)
    ensures |r| == |files|
    ensures forall j :: 0 <= j < |files| ==> r[j] == FileAfter(files[j], AllMarks(files), n, |files|, j)
  {
    seq(|files|, j requires 0 <= j < |files| => FileAfter(files[j], AllMarks(files), n, |files|, j))
  }

  function EntriesApplied(files: seq<FileEntry>, entries: seq<DataEntry>): (r: seq<DataEntry>)
    ensures |r| == |entries|
    ensures forall l :: 0 <= l < |entries| ==>
      r[l] == EntryAfter(entries[l], AllMarks(files), |entries|, |files|, l)
  {
    seq(|entries|, l requires 0 <= l < |entries| => EntryAfter(entries[l], AllMarks(files), |entries|, |files|, l))
  }

  function ConstraintsApplied(files: seq<FileEntry>, all: set<string>): (r: seq<FileEntry>)
    ensures |r| == |files|
    ensures forall j :: 0 <= j < |files| ==> r[j] == Constrained(files[j], all)
  {
    seq(|files|, j requires 0 <= j < |files| => Constrained(files[j], all))
  }

  /** Apply, as a function of the archive. */
  ghost function Applied(a: GogArchive): GogArchive {
    if !IsGalaxy(a) then a
    else
      var parts := PartsApplied(a.files, |a.entries|);
      var all := AllLanguages(parts);
      a.(files := ConstraintsApplied(parts, all),
         entries := EntriesApplied(a.files, a.entries),
         languages :=
           if all == {} then a.languages
           else WithLanguages(if HasLanguageConstraints(a.files) then a.languages else [], Sorted(all)))
  }

  // ---------------------------------------------------------------- in place

  class GogInstaller {
    const files: array<FileEntry>
    const entries: array<DataEntry>
    const registry: seq<RegistryEntry>
    const publisher: string
    var languages: seq<Language>

    ghost function Value(): GogArchive
      reads this, files, entries
    {
      GogArchive(files[..], entries[..], languages, registry, publisher)
    }

    constructor (a: GogArchive)
      ensures Value() == a && fresh(files) && fresh(entries)
    {
      files := new FileEntry[|a.files|](i requires 0 <= i < |a.files| => a.files[i]);
      entries := new DataEntry[|a.entries|](i requires 0 <= i < |a.entries| => a.entries[i]);
      registry, publisher, languages := a.registry, a.publisher, a.languages;
    }

    /** The start marker of file i: destination, checksum and size of the start file. */
    method OpenGroup(i: nat, c: Control) returns (c': Control)
      requires i < files.Length
      modifies files
      ensures c' == Opened(c, MarksOf(old(files[i])), i)
      ensures files[..] == old(files[..])[i := Started(old(files[i]), MarksOf(old(files[i])))]
    {
      c' := c;
      var startInfo := FirstFunctionCall(files[i].beforeInstall, "before_install", "before_install_dependency");
      if |startInfo| != 0 {
        c' := IDLE;
        MarkStart(i, startInfo);
        var parts: uint64 := 1;
        if |startInfo| >= 3 {
          var parsed := ParsedUint(startInfo[2]);
          if parsed.None? {
            parts := 0;
          } else if parsed.value != 0 {
            parts := parsed.value;
          }
        }
        if parts != 0 {
          c' := Control(Some(i), parts);
        }
      }
    }

    /** The fields that a start marker sets. */
    method MarkStart(i: nat, startInfo: seq<string>)
      requires i < files.Length && startInfo != [] && startInfo == StartInfo(files[i])
      modifies files
      ensures files[..] == old(files[..])[i := Started(old(files[i]), MarksOf(old(files[i])))]
    {
      ghost var file := files[i];
      if |startInfo| >= 2 && startInfo[1] != "" {
        files[i] := files[i].(destination := startInfo[1]);
      }
      assert files[i] == file.(destination := StartDestination(file, MarksOf(file)));
      files[i] := files[i].(checksum := NO_CHECKSUM);
      var checksum := ParsedMD5(startInfo[0]);
      if checksum.Some? {
        files[i] := files[i].(checksum := checksum.value);
      }
      files[i] := files[i].(size := 0);
    }

    /** The part marker of file i, with the writes through the start file's pointer; the start
        file may be file i itself. */
    method TakePart(i: nat, c: Control) returns (c': Control)
      requires i < files.Length && (c.active.Some? ==> c.active.value <= i)
      modifies files, entries
      ensures c' == Closed(c, MarksOf(old(files[i])), entries.Length)
      ensures var part := Taken(c, MarksOf(old(files[i])), entries.Length);
        && entries[..] == EntriesStep(old(entries[..]), old(files[i].location), part)
        && files[..] == FilesStep(old(files[..]), i, c, part)
    {
      c' := c;
      var partInfo := FirstFunctionCall(files[i].afterInstall, "after_install", "after_install_dependency");
      var startInfo := FirstFunctionCall(files[i].beforeInstall, "before_install", "before_install_dependency");
      if |partInfo| != 0 {
        c' := TakeMarked(i, c, partInfo);
      } else if |startInfo| != 0 || c.remaining != 0 {
        c' := IDLE;
      }
    }

    /** A file with a part marker. */
    method TakeMarked(i: nat, c: Control, partInfo: seq<string>) returns (c': Control)
      requires i < files.Length && (c.active.Some? ==> c.active.value <= i)
      requires partInfo != [] && partInfo == PartInfo(files[i])
      modifies files, entries
      ensures c' == Closed(c, MarksOf(old(files[i])), entries.Length)
      ensures var part := Taken(c, MarksOf(old(files[i])), entries.Length);
        && entries[..] == EntriesStep(old(entries[..]), old(files[i].location), part)
        && files[..] == FilesStep(old(files[..]), i, c, part)
    {
      if c.active.None? || c.remaining == 0 || files[i].location >= entries.Length || |partInfo| < 3 {
        return IDLE;
      }
      var uncompressed := ParsedUint(partInfo[2]);
      if uncompressed.None? {
        return IDLE;
      }
      c' := c.(remaining := c.remaining - 1);
      AddPart(i, c, uncompressed.value);
    }

    method AddPart(i: nat, c: Control, size: uint64)
      requires c.active.Some? && c.active.value <= i < files.Length && files[i].location < entries.Length
      modifies files, entries
      ensures entries[..] == EntriesStep(old(entries[..]), old(files[i].location), Some(size))
      ensures files[..] == FilesStep(old(files[..]), i, c, Some(size))
    {
      var s, location := c.active.value, files[i].location;
      var data := entries[location];
      entries[location] := AsPart(data, size);
      files[s] := files[s].(size := Wrap64(files[s].size + size));
      if i != s {
        files[i] := files[i].(destination := "");
        if location !in files[s].additionalLocations {
          files[s] := files[s].(additionalLocations := files[s].additionalLocations + [location]);
        }
      }
    }

    /** applyGalaxyParts. */
    method ApplyParts() returns (all: set<string>, constrained: bool)
      modifies files, entries
      ensures files[..] == PartsApplied(old(files[..]), entries.Length)
      ensures entries[..] == EntriesApplied(old(files[..]), old(entries[..]))
      ensures all == AllLanguages(PartsApplied(old(files[..]), entries.Length))
      ensures constrained == HasLanguageConstraints(old(files[..]))
    {
      ghost var was, data, n := files[..], entries[..], entries.Length;
      ghost var ms, done := AllMarks(was), PartsApplied(was, n);
      var c := IDLE;
      all, constrained := {}, false;
      for i := 0 to files.Length
        invariant Visited(was, data, ms, i, c)
        invariant all == AllLanguages(done[..i])
        invariant constrained == HasLanguageConstraints(was[..i])
      {
        c := VisitFile(i, c, was, data, ms);
        SettledFile(was, n, i, files[i]);
        all := VisitLanguages(files[i], all, done, i);
        constrained := constrained || files[i].languages != "";
      }
      assert done[..files.Length] == done && was[..files.Length] == was;
      AllVisited(was, data, files[..], entries[..]);
    }

    /** The first k files have been visited, and c is the control state that leaves. */
    ghost predicate Visited(was: seq<FileEntry>, data: seq<DataEntry>, ms: seq<Marks>, k: nat, c: Control)
      reads files, entries
    {
      && k <= files.Length == |was| == |ms| && |data| == entries.Length
      && c == ControlBefore(ms, entries.Length, k)
      && (forall j :: 0 <= j < files.Length ==> files[j] == FileAfter(was[j], ms, entries.Length, k, j))
      && (forall l :: 0 <= l < entries.Length ==> entries[l] == EntryAfter(data[l], ms, entries.Length, k, l))
    }

    /** One turn of the part loop. */
    method VisitFile(i: nat, c: Control, ghost was: seq<FileEntry>, ghost data: seq<DataEntry>, ghost ms: seq<Marks>)
      returns (c': Control)
      requires i < files.Length && Visited(was, data, ms, i, c) && ms == AllMarks(was)
      modifies files, entries
      ensures Visited(was, data, ms, i + 1, c')
    {
      ghost var n, before, stored := entries.Length, files[..], entries[..];
      assert MarksOf(files[i]) == ms[i];
      ActiveIsStart(ms, n, i);
      c' := OpenGroup(i, c);
      assert MarksOf(files[i]) == ms[i];
      c' := TakePart(i, c');
      StepFiles(was, ms, n, i, before);
      StepEntries(data, ms, i, stored);
    }

    /** applyGalaxyConstraints. */
    method ApplyConstraints(all: set<string>)
      modifies files
      ensures files[..] == ConstraintsApplied(old(files[..]), all)
    {
      ghost var was := files[..];
      for i := 0 to files.Length
        invariant forall j :: 0 <= j < i ==> files[j] == Constrained(was[j], all)
        invariant forall j :: i <= j < files.Length ==> files[j] == was[j]
      {
        ConstrainFile(i, all);
      }
    }

    method ConstrainFile(i: nat, all: set<string>)
      requires i < files.Length
      modifies files
      ensures files[..] == old(files[..])[i := Constrained(old(files[i]), all)]
    {
      if files[i].destination != "" {
        ApplyCheck(i, all);
        ApplyDependency(i);
      }
    }

    method ApplyDependency(i: nat)
      requires i < files.Length
      modifies files
      ensures files[..] == old(files[..])[i := WithDependency(old(files[i]))]
    {
      var dependency := ParseFunctionCall(files[i].check, "check_if_install_dependency");
      if |dependency| != 0 && files[i].components == "" && dependency[0] != "" {
        files[i] := files[i].(components := dependency[0]);
      }
    }

    method ApplyCheck(i: nat, all: set<string>)
      requires i < files.Length
      modifies files
      ensures files[..] == old(files[..])[i := WithCheck(old(files[i]), all)]
    {
      var check := ParseFunctionCall(files[i].check, "check_if_install");
      if |check| != 0 {
        Restrict(i, check[0], all);
        SetBits(i, if |check| >= 2 then check[1] else "");
        NameGame(i);
      }
    }

    /** The architecture constraints of a check. */
    method SetBits(i: nat, code: string)
      requires i < files.Length
      modifies files
      ensures files[..] == old(files[..])[i := WithBits(old(files[i]), code)]
    {
      if code != "" {
        var bits32, bits64 := ComputeArchitectureBits(code);
        files[i] := files[i].(bits32 := bits32, bits64 := bits64);
      }
    }

    method NameGame(i: nat)
      requires i < files.Length
      modifies files
      ensures files[..] == old(files[..])[i := InGame(old(files[i]))]
    {
      if files[i].components == "" {
        files[i] := files[i].(components := "game");
      }
    }

    /** The language constraints of a check. */
    method Restrict(i: nat, code: string, all: set<string>)
      requires i < files.Length
      modifies files
      ensures files[..] == old(files[..])[i := Restricted(old(files[i]), code, all)]
    {
      if code == "" {
        return;
      }
      var constraints := ParseConstraints(code);
      if |constraints| != 0 && !IsAllLanguages(constraints, all) {
        files[i] := files[i].(languages := Expression(constraints));
      }
    }

    /** hasGalaxyMarkers. */
    method FindMarkers() returns (found: bool)
      ensures found == HasMarkers(files[..])
    {
      for i := 0 to files.Length
        invariant forall j :: 0 <= j < i ==> StartInfo(files[j]) == [] && PartInfo(files[j]) == []
      {
        var start := FirstFunctionCall(files[i].beforeInstall, "before_install", "before_install_dependency");
        var part := FirstFunctionCall(files[i].afterInstall, "after_install", "after_install_dependency");
        if |start| != 0 || |part| != 0 {
          assert files[..][i] == files[i];
          return true;
        }
      }
      found := false;
    }

    /** Apply. */
    method Apply()
      modifies this, files, entries
      ensures Value() == Applied(old(Value()))
    {
      var galaxy := LooksLikeGOG(registry, publisher);
      if !galaxy {
        galaxy := FindMarkers();
      }
      if !galaxy {
        return;
      }
      var all, constrained := ApplyParts();
      ApplyConstraints(all);
      if |all| == 0 {
        return;
      }
      var names := SortNames(all);
      if !constrained {
        languages := [];
      }
      AddLanguages(names);
    }

    method AddLanguages(names: seq<string>)
      modifies this
      ensures languages == WithLanguages(old(languages), names)
    {
      for i := 0 to |names|
        invariant languages == WithLanguages(old(languages), names[..i])
      {
        assert names[..i + 1][..i] == names[..i];
        if !HasLanguage(languages, names[i]) {
          languages := languages + [Language(names[i], "", 0, 0)];
        }
      }
      assert names[..|names|] == names;
    }
  }

  /** The languages of a file that still has a destination. */
  method VisitLanguages(file: FileEntry, all: set<string>, ghost files: seq<FileEntry>, ghost i: nat)
    returns (r: set<string>)
    requires i < |files| && file.destination == files[i].destination && file.check == files[i].check
    requires all == AllLanguages(files[..i])
    ensures r == AllLanguages(files[..i + 1])
  {
    OneMore(files, i, file);
    r := all;
    if file.destination != "" {
      r := CollectLanguages(file.check, all);
    }
  }

  /** After its own turn a file keeps its destination, check and languages. */
  lemma SettledFile(files: seq<FileEntry>, n: nat, i: nat, file: FileEntry)
    requires i < |files| && file == FileAfter(files[i], AllMarks(files), n, i + 1, i)
    ensures HasLanguageConstraints(files[..i + 1]) == (HasLanguageConstraints(files[..i]) || file.languages != "")
    ensures var done := PartsApplied(files, n)[i];
      done.destination == file.destination && done.check == file.check
  {
    assert files[..i + 1][..i] == files[..i];
  }

  lemma AllVisited(files: seq<FileEntry>, entries: seq<DataEntry>, files': seq<FileEntry>, entries': seq<DataEntry>)
    requires |files'| == |files| && |entries'| == |entries|
    requires forall j :: 0 <= j < |files| ==>
      files'[j] == FileAfter(files[j], AllMarks(files), |entries|, |files|, j)
    requires forall l :: 0 <= l < |entries| ==>
      entries'[l] == EntryAfter(entries[l], AllMarks(files), |entries|, |files|, l)
    ensures files' == PartsApplied(files, |entries|) && entries' == EntriesApplied(files, entries)
  {
  }

  lemma OneMore(files: seq<FileEntry>, i: nat, file: FileEntry)
    requires i < |files| && file.destination == files[i].destination && file.check == files[i].check
    ensures AllLanguages(files[..i + 1]) == AllLanguages(files[..i]) + LanguagesOf(file)
  {
    assert files[..i + 1][..i] == files[..i];
  }

  /** collectLanguages; the map it fills is returned. */
  method CollectLanguages(code: string, all: set<string>) returns (r: set<string>)
    ensures r == all + NamesIn(code)
  {
    r := all;
    var check := ParseFunctionCall(code, "check_if_install");
    if |check| == 0 || check[0] == "" {
      return;
    }
    var cs := ParseConstraints(check[0]);
    for i := 0 to |cs|
      invariant r == all + NamesOf(cs[..i])
    {
      assert cs[..i + 1][..i] == cs[..i];
      r := r + {cs[i].name};
    }
    assert cs[..|cs|] == cs;
  }

  /** File i after its start marker. */
  function Started(file: FileEntry, m: Marks): FileEntry {
    if m.start == [] then file
    else file.(destination := StartDestination(file, m), checksum := ChecksumOf(file, m), size := 0)
  }

  function EntriesStep(entries: seq<DataEntry>, location: uint32, part: Option<uint64>): seq<DataEntry>
    requires part.Some? ==> location < |entries|
  {
    if part.None? then entries else entries[location := AsPart(entries[location], part.value)]
  }

  function FilesStep(files: seq<FileEntry>, i: nat, c: Control, part: Option<uint64>): seq<FileEntry>
    requires i < |files| && (part.Some? ==> c.active.Some? && c.active.value < |files|)
  {
    if part.None? then files
    else
      var s := c.active.value;
      var grown := files[s := files[s].(size := Wrap64(files[s].size + part.value))];
      if i == s then grown
      else
        var cleared := grown[i := grown[i].(destination := "")];
        var locations := WithLocation(cleared[s].additionalLocations, files[i].location);
        cleared[s := cleared[s].(additionalLocations := locations)]
  }

  // ---------------------------------------------------------------- one turn of the part loop

  /** An active start lies behind the current file and has a start marker. */
  lemma {:induction false} ActiveIsStart(ms: seq<Marks>, n: nat, i: nat)
    requires i <= |ms|
    ensures var c := ControlBefore(ms, n, i);
      c.active.Some? ==> c.active.value < i && ms[c.active.value].start != []
  {
    if i > 0 {
      ActiveIsStart(ms, n, i - 1);
    }
  }

  /** A start takes nothing before its own turn. */
  lemma {:induction false} NothingBefore(locations: seq<uint32>, ms: seq<Marks>, n: nat, k: nat, s: nat)
    requires k <= s < |ms|
    ensures TakenSum(ms, n, k, s) == 0 && LocationsAfter(locations, ms, n, k, s) == locations
  {
    if k > 0 {
      NothingBefore(locations, ms, n, k - 1, s);
      ActiveIsStart(ms, n, k - 1);
    }
  }

  lemma WrapSum(a: nat, b: nat)
    ensures Wrap64(Wrap64(a) + b) == Wrap64(a + b)
  {
  }

  lemma NoPart(file: FileEntry, ms: seq<Marks>, n: nat, k: nat, j: nat)
    requires k < |ms| && j < |ms| && PartSize(ms, n, k).None?
    ensures FileAfter(file, ms, n, k + 1, j)
         == if j == k then Started(FileAfter(file, ms, n, k, j), ms[k]) else FileAfter(file, ms, n, k, j)
  {
    if k <= j {
      NothingBefore(file.additionalLocations, ms, n, k, j);
    }
  }

  lemma OnePart(file: FileEntry, ms: seq<Marks>, n: nat, k: nat, files: seq<FileEntry>, j: nat)
    requires k < |ms| == |files| && j < |files| && files[k].location == ms[k].location && PartSize(ms, n, k).Some?
    requires files[j] == if j == k then Started(FileAfter(file, ms, n, k, j), ms[k]) else FileAfter(file, ms, n, k, j)
    requires j == k ==> file.location == ms[k].location
    requires var c := ControlAt(ms, n, k);
      c.active.Some? ==> c.active.value <= k && ms[c.active.value].start != []
    ensures FilesStep(files, k, ControlAt(ms, n, k), PartSize(ms, n, k))[j] == FileAfter(file, ms, n, k + 1, j)
  {
    if k <= j {
      NothingBefore(file.additionalLocations, ms, n, k, j);
    }
    WrapSum(TakenSum(ms, n, k, j), PartSize(ms, n, k).value);
  }

  /** File j over the turn of file k. */
  lemma StepFile(file: FileEntry, ms: seq<Marks>, n: nat, k: nat, files: seq<FileEntry>, j: nat)
    requires k < |ms| == |files| && j < |files| && files[k].location == ms[k].location
    requires files[j] == if j == k then Started(FileAfter(file, ms, n, k, j), ms[k]) else FileAfter(file, ms, n, k, j)
    requires j == k ==> file.location == ms[k].location
    requires var c := ControlAt(ms, n, k);
      c.active.Some? ==> c.active.value <= k && ms[c.active.value].start != []
    ensures FilesStep(files, k, ControlAt(ms, n, k), PartSize(ms, n, k))[j] == FileAfter(file, ms, n, k + 1, j)
  {
    if PartSize(ms, n, k).None? {
      NoPart(file, ms, n, k, j);
    } else {
      OnePart(file, ms, n, k, files, j);
    }
  }

  lemma StepFiles(files: seq<FileEntry>, ms: seq<Marks>, n: nat, k: nat, before: seq<FileEntry>)
    requires k < |files| == |before| == |ms| && ms[k].location == files[k].location
    requires forall j :: 0 <= j < |files| ==> before[j] == FileAfter(files[j], ms, n, k, j)
    ensures var c := ControlAt(ms, n, k);
      c.active.Some? ==> c.active.value <= k && ms[c.active.value].start != []
    ensures var after := FilesStep(before[k := Started(before[k], ms[k])], k, ControlAt(ms, n, k), PartSize(ms, n, k));
      forall j :: 0 <= j < |files| ==> after[j] == FileAfter(files[j], ms, n, k + 1, j)
  {
    ActiveIsStart(ms, n, k);
    var after := FilesStep(before[k := Started(before[k], ms[k])], k, ControlAt(ms, n, k), PartSize(ms, n, k));
    forall j | 0 <= j < |files|
      ensures after[j] == FileAfter(files[j], ms, n, k + 1, j)
    {
      StepFile(files[j], ms, n, k, before[k := Started(before[k], ms[k])], j);
    }
  }

  lemma StepEntries(entries: seq<DataEntry>, ms: seq<Marks>, k: nat, before: seq<DataEntry>)
    requires k < |ms| && |entries| == |before|
    requires forall l :: 0 <= l < |entries| ==> before[l] == EntryAfter(entries[l], ms, |entries|, k, l)
    ensures var after := EntriesStep(before, ms[k].location, PartSize(ms, |entries|, k));
      forall l :: 0 <= l < |entries| ==> after[l] == EntryAfter(entries[l], ms, |entries|, k + 1, l)
  {
    forall l | 0 <= l < |entries|
      ensures forall size: uint64 :: AsPart(before[l], size) == AsPart(entries[l], size)
    {
      PartOverwrites(entries[l], ms, |entries|, k, l);
    }
  }

  /** A part replaces whatever earlier parts have stored in the entry. */
  lemma {:induction false} PartOverwrites(entry: DataEntry, ms: seq<Marks>, n: nat, k: nat, l: nat)
    requires k <= |ms|
    ensures forall size: uint64 :: AsPart(EntryAfter(entry, ms, n, k, l), size) == AsPart(entry, size)
  {
    if k > 0 {
      PartOverwrites(entry, ms, n, k - 1, l);
    }
  }
}
