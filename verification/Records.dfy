/** Data entries (internal/setup/setup.go): a cursor over the secondary header stream and the
    version-dependent layout of one record.

    The specification of a record is read off the front of the remaining bytes.  One read in it
    swallows its error: a digest that is cut short is taken as absent and the cursor stays, so
    the fields behind it are read from where it should have been.  The lemmas say exactly which
    byte strings that lets through. */
module Records {
  import opened Bytes
  import opened Format
  import opened Blocks
  import opened Words

  // ---------------------------------------------------------------- layout

  predicate WideOffsets(v: Version) {
    AtLeast(v, 6, 5, 2)
  }

  predicate NewDigest(v: Version) {
    AtLeast(v, 6, 4, 0)
  }

  /** Two flag bytes and a sign-mode byte. */
  predicate SignMode(v: Version) {
    AtLeast(v, 6, 3, 0) && !AtLeast(v, 6, 4, 3)
  }

  function OffsetWidth(v: Version): nat {
    if WideOffsets(v) then 8 else 4
  }

  function DigestLength(v: Version): nat {
    if NewDigest(v) then 32 else 20
  }

  function DigestKind(v: Version): ChecksumType {
    if NewDigest(v) then ChecksumSHA256 else ChecksumSHA1
  }

  /** The fields in front of the digest: first and last slice, chunk offset, file offset, file
      size, chunk size. */
  function Layout(v: Version): seq<nat> {
    [4, 4, OffsetWidth(v), 8, 8, 8]
  }

  /** Those behind it: timestamp, file version, flags and sign mode. */
  function TailLayout(v: Version): seq<nat> {
    if SignMode(v) then [8, 8, 2, 1] else [8, 8, 1]
  }

  function FieldsLength(v: Version): nat {
    32 + OffsetWidth(v)
  }

  function TailLength(v: Version): nat {
    if SignMode(v) then 19 else 17
  }

  function RecordLength(v: Version): nat {
    FieldsLength(v) + DigestLength(v) + TailLength(v)
  }

  lemma SumOfMore(n: nat, widths: seq<nat>)
    ensures Sum([n] + widths) == n + Sum(widths)
  {
    assert ([n] + widths)[1..] == widths;
  }

  lemma LayoutLengths(v: Version)
    ensures Sum(Layout(v)) == FieldsLength(v) && Sum(TailLayout(v)) == TailLength(v)
  {
    var w := OffsetWidth(v);
    assert Layout(v) == [4] + ([4] + ([w] + ([8] + ([8] + ([8] + [])))));
    SumOfMore(8, []);
    SumOfMore(8, [8] + []);
    SumOfMore(8, [8] + ([8] + []));
    SumOfMore(w, [8] + ([8] + ([8] + [])));
    SumOfMore(4, [w] + ([8] + ([8] + ([8] + []))));
    SumOfMore(4, [4] + ([w] + ([8] + ([8] + ([8] + [])))));
    var flags := if SignMode(v) then [2] + ([1] + []) else [1] + [];
    assert TailLayout(v) == [8] + ([8] + flags);
    SumOfMore(1, []);
    SumOfMore(2, [1] + []);
    SumOfMore(8, flags);
    SumOfMore(8, [8] + flags);
  }

  // ---------------------------------------------------------------- the cursor

  class Cursor {
    const b: bytes
    var pos: nat

    ghost predicate Valid()
      reads this
    {
      pos <= |b|
    }

    /** The bytes still to be read. */
    function Rest(): bytes
      requires Valid()
      reads this
    {
      b[pos..]
    }

    constructor (b: bytes)
      ensures Valid() && Rest() == b
    {
      this.b, pos := b, 0;
    }

    method Read(n: nat) returns (r: Option<bytes>)
      requires Valid()
      modifies this
      ensures Valid()
      ensures r == if n <= |old(Rest())| then Some(old(Rest())[..n]) else None
      ensures Rest() == if r.Some? then old(Rest())[n..] else old(Rest())
    {
      if n > |b| - pos {
        return None;
      }
      assert b[pos..pos + n] == Rest()[..n] && b[pos + n..] == Rest()[n..];
      r := Some(b[pos..pos + n]);
      pos := pos + n;
    }

    /** u32, u64: n bytes, least significant first. */
    method Number(n: nat) returns (r: Option<nat>)
      requires Valid()
      modifies this
      ensures Valid()
      ensures r == if n <= |old(Rest())| then Some(LE(old(Rest())[..n])) else None
      ensures Rest() == if r.Some? then old(Rest())[n..] else old(Rest())
    {
      var read := Read(n);
      r := if read.None? then None else Some(LE(read.value));
    }

    /** The next of several numbers, for a caller that has ns. */
    method Next(n: nat, ghost widths: seq<nat>, ghost ns: seq<nat>) returns (r: Option<nat>)
      requires Valid() && widths != [] && widths[0] == n
      modifies this
      ensures Valid()
      ensures Behind(ns, Numbers(widths, old(Rest())))
           == if r.Some? then Behind(ns + [r.value], Numbers(widths[1..], Rest())) else None
    {
      OneMoreNumber(widths, Rest(), ns);
      r := Number(n);
    }

    /** mustReadCursor: no error, and no bytes when there are not enough. */
    method MustRead(n: nat) returns (r: bytes)
      requires Valid()
      modifies this
      ensures Valid()
      ensures r == if n <= |old(Rest())| then old(Rest())[..n] else []
      ensures Rest() == old(Rest())[|r|..]
    {
      var read := Read(n);
      r := if read.None? then [] else read.value;
      assert read.None? ==> Rest()[0..] == Rest();
    }
  }

  // ---------------------------------------------------------------- one record

  predicate Bit(flags: nat, k: nat)
    requires k == 2 || k == 3 || k == 4
  {
    (flags / (if k == 2 then 4 else if k == 3 then 8 else 16)) % 2 == 1
  }

  lemma LayoutFits(v: Version, f: seq<nat>)
    ensures Fit(Layout(v), f)
       <==> |f| == 6 && f[0] < 0x1_0000_0000 && f[1] < 0x1_0000_0000
            && f[2] <= (if WideOffsets(v) then MAX_UINT64 else 0xFFFF_FFFF)
            && f[3] <= MAX_UINT64 && f[4] <= MAX_UINT64 && f[5] <= MAX_UINT64
  {
    SmallPowers();
    EightBytes();
    var w := Layout(v);
    if |f| == 6 {
      assert Fit(w[6..], f[6..]);
      FitsOneLess(w, f, 5);
      FitsOneLess(w, f, 4);
      FitsOneLess(w, f, 3);
      FitsOneLess(w, f, 2);
      FitsOneLess(w, f, 1);
      FitsOneLess(w, f, 0);
      assert w[0..] == w && f[0..] == f;
    }
  }

  lemma FitsOneLess(w: seq<nat>, f: seq<nat>, i: nat)
    requires i < |w| == |f|
    ensures Fit(w[i..], f[i..]) <==> f[i] < Pow256(w[i]) && Fit(w[i + 1..], f[i + 1..])
  {
    assert w[i..][1..] == w[i + 1..] && f[i..][1..] == f[i + 1..];
  }

  /** The entry that these fields, this digest and these flags stand for. */
  function EntryOf(v: Version, compression: Compression, f: seq<nat>, digest: bytes, flags: nat): DataEntry
    requires Fit(Layout(v), f)
  {
    LayoutFits(v, f);
    DataEntry(
      Chunk(f[0], f[1], f[2], f[2], f[5],
            if Bit(flags, 4) then compression else Stored,
            if !Bit(flags, 3) then Plaintext else if NewDigest(v) then XChaCha20 else ARC4SHA1),
      StoredFile(f[3], f[4], Checksum(DigestKind(v), digest), if Bit(flags, 2) then Instruction5309 else NoFilter),
      f[4])
  }

  /** The digest, or nothing if it is cut short. */
  function DigestAt(v: Version, t: bytes): (d: bytes)
    ensures |d| <= |t|
  {
    if |t| >= DigestLength(v) then t[..DigestLength(v)] else []
  }

  /** parseDataEntry on the remaining bytes. */
  function ParsedEntry(v: Version, compression: Compression, t: bytes): Option<(DataEntry, bytes)> {
    match Numbers(Layout(v), t)
    case None => None
    case Some((f, u)) =>
      var digest := DigestAt(v, u);
      match Numbers(TailLayout(v), u[|digest|..])
      case None => None
      case Some((tail, rest)) =>
        WriteRead(Layout(v), t, f, u);
        WriteRead(TailLayout(v), u[|digest|..], tail, rest);
        Some((EntryOf(v, compression, f, digest, tail[2]), rest))
  }

  function ParsedEntries(v: Version, compression: Compression, n: nat, t: bytes): Option<(seq<DataEntry>, bytes)> {
    if n == 0 then Some(([], t))
    else
      match ParsedEntry(v, compression, t)
      case None => None
      case Some((d, rest)) =>
        match ParsedEntries(v, compression, n - 1, rest)
        case None => None
        case Some((ds, behind)) => Some(([d] + ds, behind))
  }

  /** The entries, if the stream holds n of them and nothing else. */
  function Accepted(v: Version, compression: Compression, n: nat, t: bytes): Option<seq<DataEntry>> {
    match ParsedEntries(v, compression, n, t)
    case None => None
    case Some((ds, rest)) => if rest == [] then Some(ds) else None
  }

  /** The fields in front of the digest, one by one. */
  method ParseFields(c: Cursor, v: Version) returns (f: Option<seq<nat>>)
    requires c.Valid()
    modifies c
    ensures c.Valid()
    ensures Numbers(Layout(v), old(c.Rest())) == if f.Some? then Some((f.value, c.Rest())) else None
  {
    ghost var w := Layout(v);
    assert w[1..][1..] == w[2..] && w[2..][1..] == w[3..] && w[3..][1..] == w[4..];
    assert w[4..][1..] == w[5..] && w[5..][1..] == [];
    BehindNothing(Numbers(w, c.Rest()));
    var fields: seq<nat> := [];
    var x := c.Next(4, w, fields);
    if x.None? {
      return None;
    }
    fields := fields + [x.value];
    x := c.Next(4, w[1..], fields);
    if x.None? {
      return None;
    }
    fields := fields + [x.value];
    x := c.Next(if WideOffsets(v) then 8 else 4, w[2..], fields);
    if x.None? {
      return None;
    }
    fields := fields + [x.value];
    x := c.Next(8, w[3..], fields);
    if x.None? {
      return None;
    }
    fields := fields + [x.value];
    x := c.Next(8, w[4..], fields);
    if x.None? {
      return None;
    }
    fields := fields + [x.value];
    x := c.Next(8, w[5..], fields);
    if x.None? {
      return None;
    }
    fields := fields + [x.value];
    assert fields + [] == fields;
    f := Some(fields);
  }

  /** The data flags, with what is skipped in front of them and behind. */
  method ParseFlags(c: Cursor, v: Version) returns (flags: Option<nat>)
    requires c.Valid()
    modifies c
    ensures c.Valid()
    ensures var tail := Numbers(TailLayout(v), old(c.Rest()));
      && flags.Some? == tail.Some?
      && (tail.Some? ==> |tail.value.0| > 2 && flags.value == tail.value.0[2] && c.Rest() == tail.value.1)
  {
    ghost var w := TailLayout(v);
    assert w[1..][1..] == w[2..] && w[2..][1..] == if SignMode(v) then w[3..] else [];
    BehindNothing(Numbers(w, c.Rest()));
    var tail: seq<nat> := [];
    var x := c.Next(8, w, tail);
    if x.None? {
      return None;
    }
    tail := tail + [x.value];
    x := c.Next(8, w[1..], tail);
    if x.None? {
      return None;
    }
    tail := tail + [x.value];
    x := c.Next(if SignMode(v) then 2 else 1, w[2..], tail);
    if x.None? {
      return None;
    }
    tail := tail + [x.value];
    if SignMode(v) {
      x := c.Next(1, w[3..], tail);
      if x.None? {
        return None;
      }
      assert w[3..][1..] == [];
      tail := tail + [x.value];
    }
    assert tail + [] == tail;
    flags := Some(tail[2]);
  }

  method ParseDataEntry(c: Cursor, v: Version, compression: Compression) returns (d: Option<DataEntry>)
    requires c.Valid()
    modifies c
    ensures c.Valid()
    ensures ParsedEntry(v, compression, old(c.Rest())) == if d.Some? then Some((d.value, c.Rest())) else None
  {
    ghost var t := c.Rest();
    var f := ParseFields(c, v);
    if f.None? {
      return None;
    }
    WriteRead(Layout(v), t, f.value, c.Rest());
    var digest := c.MustRead(if NewDigest(v) then 32 else 20);
    var flags := ParseFlags(c, v);
    if flags.None? {
      return None;
    }
    d := Some(EntryOf(v, compression, f.value, digest, flags.value));
  }

  /** The loop of Parse over the secondary stream, with its check that nothing is left. */
  method ParseDataEntries(secondary: bytes, v: Version, compression: Compression, n: nat)
    returns (entries: Option<seq<DataEntry>>)
    ensures entries == Accepted(v, compression, n, secondary)
  {
    var c := new Cursor(secondary);
    var ds: seq<DataEntry> := [];
    ghost var whole, t := ParsedEntries(v, compression, n, secondary), secondary;
    BehindNothing(whole);
    for i := 0 to n
      invariant c.Valid() && c.Rest() == t
      invariant whole == Behind(ds, ParsedEntries(v, compression, n - i, t))
    {
      var d := ParseDataEntry(c, v, compression);
      OneMoreEntry(v, compression, n - i, t, ds, d, c.Rest());
      t := c.Rest();
      if d.None? {
        return None;
      }
      ds := ds + [d.value];
    }
    assert ds + [] == ds;
    entries := if c.Rest() == [] then Some(ds) else None;
  }

  lemma OneMoreEntry(v: Version, compression: Compression, n: nat, t: bytes, ds: seq<DataEntry>,
                     d: Option<DataEntry>, rest: bytes)
    requires n > 0
    requires ParsedEntry(v, compression, t) == if d.Some? then Some((d.value, rest)) else None
    ensures Behind(ds, ParsedEntries(v, compression, n, t))
         == if d.Some? then Behind(ds + [d.value], ParsedEntries(v, compression, n - 1, rest)) else None
  {
    if d.Some? {
      BehindTwice(ds, [d.value], ParsedEntries(v, compression, n - 1, rest));
    }
  }

  /** A parsed entry declares the size that it stores, and is not inflated. */
  lemma {:induction false} ParsedDeclare(v: Version, compression: Compression, n: nat, t: bytes)
    requires ParsedEntries(v, compression, n, t).Some?
    ensures forall d :: d in ParsedEntries(v, compression, n, t).value.0 ==>
      d.uncompressedSize == d.file.size && d.file.filter != ZlibFilter
  {
    if n > 0 {
      ParsedDeclare(v, compression, n - 1, ParsedEntry(v, compression, t).value.1);
    }
  }

  // ---------------------------------------------------------------- writing records

  /** A record as it is stored: an entry, and the numbers behind its digest. */
  datatype Record = Record(entry: DataEntry, tail: seq<nat>)

  function FieldsOf(d: DataEntry): seq<nat> {
    [d.chunk.firstSlice, d.chunk.lastSlice, d.chunk.offset, d.file.offset, d.file.size, d.chunk.size]
  }

  /** Can this record be stored for this version and header compression?  One whose digest is
      missing reads back only where fewer than a digest's bytes follow its fields. */
  predicate Storable(v: Version, compression: Compression, r: Record, rest: bytes) {
    && Fit(Layout(v), FieldsOf(r.entry)) && Fit(TailLayout(v), r.tail)
    && r.entry == EntryOf(v, compression, FieldsOf(r.entry), r.entry.file.checksum.data, r.tail[2])
    && (|r.entry.file.checksum.data| == DigestLength(v)
        || (r.entry.file.checksum.data == [] && TailLength(v) + |rest| < DigestLength(v)))
  }

  function Serialized(v: Version, r: Record): bytes
    requires |r.tail| == |TailLayout(v)|
  {
    Written(Layout(v), FieldsOf(r.entry)) + r.entry.file.checksum.data + Written(TailLayout(v), r.tail)
  }

  function AllSerialized(v: Version, rs: seq<Record>): bytes
    requires forall r | r in rs :: |r.tail| == |TailLayout(v)|
  {
    if rs == [] then [] else Serialized(v, rs[0]) + AllSerialized(v, rs[1..])
  }

  function Entries(rs: seq<Record>): seq<DataEntry> {
    if rs == [] then [] else [rs[0].entry] + Entries(rs[1..])
  }

  /** Every record has its digest, but the last may lack it. */
  predicate AllStorable(v: Version, compression: Compression, rs: seq<Record>)
    ensures AllStorable(v, compression, rs) ==> forall r | r in rs :: |r.tail| == |TailLayout(v)|
  {
    rs != [] ==> AllStorable(v, compression, rs[1..]) && Storable(v, compression, rs[0], AllSerialized(v, rs[1..]))
  }

  // ---------------------------------------------------------------- reading what was written

  /** One record reads back, whatever stands behind it. */
  lemma RecordBack(v: Version, compression: Compression, r: Record, rest: bytes)
    requires Storable(v, compression, r, rest)
    ensures ParsedEntry(v, compression, Serialized(v, r) + rest) == Some((r.entry, rest))
  {
    var f, digest := FieldsOf(r.entry), r.entry.file.checksum.data;
    var fields, w := Written(Layout(v), f), Written(TailLayout(v), r.tail);
    FourInARow(fields, digest, w, rest);
    ReadWritten(Layout(v), f, digest + (w + rest));
    ReadWritten(TailLayout(v), r.tail, rest);
    LayoutLengths(v);
    WrittenLength(TailLayout(v), r.tail);
    DigestBack(v, digest, w + rest);
  }

  lemma DigestBack(v: Version, digest: bytes, rest: bytes)
    requires |digest| == DigestLength(v) || (digest == [] && |rest| < DigestLength(v))
    ensures DigestAt(v, digest + rest) == digest && (digest + rest)[|digest|..] == rest
  {
  }

  lemma FourInARow(a: bytes, b: bytes, c: bytes, rest: bytes)
    ensures a + b + c + rest == a + (b + (c + rest))
  {
  }

  lemma AcceptedOneLess(v: Version, compression: Compression, n: nat, t: bytes, d: DataEntry, rest: bytes)
    requires n > 0 && ParsedEntry(v, compression, t) == Some((d, rest))
    ensures var a := Accepted(v, compression, n - 1, rest);
      Accepted(v, compression, n, t) == if a.Some? then Some([d] + a.value) else None
  {
  }

  /** Storable records read back, to the end of the stream. */
  lemma {:induction false} RecordsBack(v: Version, compression: Compression, rs: seq<Record>)
    requires AllStorable(v, compression, rs)
    ensures Accepted(v, compression, |rs|, AllSerialized(v, rs)) == Some(Entries(rs))
  {
    if rs != [] {
      var rest := AllSerialized(v, rs[1..]);
      RecordBack(v, compression, rs[0], rest);
      RecordsBack(v, compression, rs[1..]);
      AcceptedOneLess(v, compression, |rs|, AllSerialized(v, rs), rs[0].entry, rest);
    }
  }

  // ---------------------------------------------------------------- writing what was read

  /** The record at the front of t, once it has parsed. */
  lemma RecordAgain(v: Version, compression: Compression, t: bytes, d: DataEntry, rest: bytes) returns (r: Record)
    requires ParsedEntry(v, compression, t) == Some((d, rest))
    ensures r.entry == d && Storable(v, compression, r, rest) && t == Serialized(v, r) + rest
  {
    var (f, u) := Numbers(Layout(v), t).value;
    var digest := DigestAt(v, u);
    var w := u[|digest|..];
    var (tail, _) := Numbers(TailLayout(v), w).value;
    r := Record(d, tail);
    WriteRead(Layout(v), t, f, u);
    WriteRead(TailLayout(v), w, tail, rest);
    LayoutFits(v, f);
    assert FieldsOf(d) == f;
    Halves(u, |digest|);
    FourInARow(Written(Layout(v), f), digest, Written(TailLayout(v), tail), rest);
    LayoutLengths(v);
    ReadLength(TailLayout(v), w);
  }

  lemma Joined(v: Version, compression: Compression, r: Record, behind: seq<Record>) returns (rs: seq<Record>)
    requires AllStorable(v, compression, behind) && Storable(v, compression, r, AllSerialized(v, behind))
    ensures |rs| == 1 + |behind| && AllStorable(v, compression, rs)
    ensures AllSerialized(v, rs) == Serialized(v, r) + AllSerialized(v, behind)
    ensures Entries(rs) == [r.entry] + Entries(behind)
  {
    rs := [r] + behind;
    assert rs[1..] == behind;
  }

  lemma {:induction false} RecordsAgain(v: Version, compression: Compression, n: nat, t: bytes)
    returns (rs: seq<Record>)
    requires Accepted(v, compression, n, t).Some?
    ensures |rs| == n && AllStorable(v, compression, rs) && t == AllSerialized(v, rs)
    ensures Accepted(v, compression, n, t) == Some(Entries(rs))
  {
    if n == 0 {
      rs := [];
    } else {
      var (d, rest) := ParsedEntry(v, compression, t).value;
      AcceptedOneLess(v, compression, n, t, d, rest);
      var r := RecordAgain(v, compression, t, d, rest);
      var behind := RecordsAgain(v, compression, n - 1, rest);
      rs := Joined(v, compression, r, behind);
    }
  }

  /** The parser inverts the writer: it accepts exactly the written forms of n records, and
      yields their entries.  This is for every version, and so across the gates for the offset,
      the digest, the flags and the sign mode. */
  lemma ParserIsExact(v: Version, compression: Compression, n: nat, t: bytes, ds: seq<DataEntry>)
    ensures Accepted(v, compression, n, t) == Some(ds)
       <==> exists rs: seq<Record> ::
              |rs| == n && AllStorable(v, compression, rs) && t == AllSerialized(v, rs) && ds == Entries(rs)
  {
    if Accepted(v, compression, n, t) == Some(ds) {
      var rs := RecordsAgain(v, compression, n, t);
    }
    forall rs: seq<Record>
      | |rs| == n && AllStorable(v, compression, rs) && t == AllSerialized(v, rs) && ds == Entries(rs)
      ensures Accepted(v, compression, n, t) == Some(ds)
    {
      RecordsBack(v, compression, rs);
    }
  }

  // ---------------------------------------------------------------- which entries can be stored

  /** What a data entry of this version can hold. */
  predicate Representable(v: Version, compression: Compression, d: DataEntry) {
    && d.chunk.sortOffset == d.chunk.offset && d.uncompressedSize == d.file.size
    && (!WideOffsets(v) ==> d.chunk.offset < 0x1_0000_0000)
    && d.file.checksum.kind == DigestKind(v) && |d.file.checksum.data| == DigestLength(v)
    && (d.file.filter == NoFilter || d.file.filter == Instruction5309)
    && (d.chunk.compression == Stored || d.chunk.compression == compression)
    && (d.chunk.encryption == Plaintext || d.chunk.encryption == if NewDigest(v) then XChaCha20 else ARC4SHA1)
  }

  /** Flag bits for the filter, the encryption and the compression. */
  function FlagsFor(d: DataEntry): nat {
    (if d.file.filter != NoFilter then 4 else 0) + (if d.chunk.encryption != Plaintext then 8 else 0)
    + if d.chunk.compression != Stored then 16 else 0
  }

  /** A record that holds the entry d. */
  function RecordOf(v: Version, d: DataEntry): Record {
    Record(d, if SignMode(v) then [0, 0, FlagsFor(d), 0] else [0, 0, FlagsFor(d)])
  }

  lemma TailFits(v: Version, d: DataEntry)
    ensures Fit(TailLayout(v), RecordOf(v, d).tail)
  {
    var w, f := TailLayout(v), RecordOf(v, d).tail;
    SmallPowers();
    EightBytes();
    assert w[0..] == w && f[0..] == f;
    FitsOneLess(w, f, 0);
    FitsOneLess(w, f, 1);
    FitsOneLess(w, f, 2);
    if SignMode(v) {
      FitsOneLess(w, f, 3);
    }
  }

  /** The entry that is read from those fields and flags. */
  lemma FlagsComeBack(v: Version, compression: Compression, d: DataEntry)
    requires Representable(v, compression, d) && Fit(Layout(v), FieldsOf(d))
    ensures EntryOf(v, compression, FieldsOf(d), d.file.checksum.data, FlagsFor(d)) == d
  {
  }

  lemma RepresentableIsStorable(v: Version, compression: Compression, d: DataEntry, rest: bytes)
    requires Representable(v, compression, d)
    ensures Storable(v, compression, RecordOf(v, d), rest)
  {
    TailFits(v, d);
    LayoutFits(v, FieldsOf(d));
    FlagsComeBack(v, compression, d);
    assert RecordOf(v, d).tail[2] == FlagsFor(d);
  }

  function RecordsOf(v: Version, ds: seq<DataEntry>): (rs: seq<Record>)
    ensures forall r | r in rs :: |r.tail| == |TailLayout(v)|
  {
    if ds == [] then [] else [RecordOf(v, ds[0])] + RecordsOf(v, ds[1..])
  }

  /** Entries that a version can hold come back from their records, with nothing left over. */
  lemma {:induction false} EntriesComeBack(v: Version, compression: Compression, ds: seq<DataEntry>)
    requires forall d | d in ds :: Representable(v, compression, d)
    ensures Accepted(v, compression, |ds|, AllSerialized(v, RecordsOf(v, ds))) == Some(ds)
  {
    if ds != [] {
      var rs := RecordsOf(v, ds);
      var behind := AllSerialized(v, RecordsOf(v, ds[1..]));
      assert rs[1..] == RecordsOf(v, ds[1..]);
      RepresentableIsStorable(v, compression, ds[0], behind);
      RecordBack(v, compression, rs[0], behind);
      AcceptedOneLess(v, compression, |ds|, AllSerialized(v, rs), ds[0], behind);
      EntriesComeBack(v, compression, ds[1..]);
      assert [ds[0]] + ds[1..] == ds;
    }
  }

  // ---------------------------------------------------------------- what a swallowed error lets through

  lemma OneLess(n: nat, k: nat)
    requires n > 0
    ensures n * k == k + (n - 1) * k
    ensures n >= 2 ==> n * k >= k + k
  {
    if n >= 2 {
      OneLess(n - 1, k);
    }
  }

  lemma EntryLength(v: Version, compression: Compression, t: bytes)
    ensures var k, p := RecordLength(v), ParsedEntry(v, compression, t);
      && (p.Some? <==> |t| >= k || (k > |t| + TailLength(v) && |t| >= k - DigestLength(v)))
      && (p.Some? ==> |p.value.1| == |t| - if |t| >= k - TailLength(v) then k else k - DigestLength(v))
  {
    LayoutLengths(v);
    ReadLength(Layout(v), t);
    if |t| >= FieldsLength(v) {
      var u := Numbers(Layout(v), t).value.1;
      ReadLength(TailLayout(v), u[|DigestAt(v, u)|..]);
    }
  }

  /** A length that n records can have. */
  predicate Fits(v: Version, n: nat, length: nat) {
    length == n * RecordLength(v) || (n > 0 && length == n * RecordLength(v) - DigestLength(v))
  }

  lemma FitsWithOneLess(v: Version, n: nat, length: nat)
    requires n > 0
    ensures var k, d := RecordLength(v), DigestLength(v);
      && (length >= k ==> Fits(v, n, length) == Fits(v, n - 1, length - k))
      && (k - d <= length < k - TailLength(v) ==> Fits(v, n, length) == Fits(v, n - 1, length - (k - d)))
      && (Fits(v, n, length) ==> length >= k - d && !(k - TailLength(v) <= length < k))
  {
    var k := RecordLength(v);
    OneLess(n, k);
    if n > 1 {
      OneLess(n - 1, k);
    }
  }

  /** Acceptance depends on the length alone: n whole records, or n records of which the last
      has lost its digest. */
  lemma {:induction false} AcceptedLengths(v: Version, compression: Compression, n: nat, t: bytes)
    ensures Accepted(v, compression, n, t).Some?
       <==> |t| == n * RecordLength(v) || (n > 0 && |t| == n * RecordLength(v) - DigestLength(v))
  {
    if n > 0 {
      EntryLength(v, compression, t);
      FitsWithOneLess(v, n, |t|);
      var p := ParsedEntry(v, compression, t);
      if p.Some? {
        var (d, rest) := p.value;
        AcceptedLengths(v, compression, n - 1, rest);
        AcceptedOneLess(v, compression, n, t, d, rest);
        assert Fits(v, n - 1, |rest|) == Fits(v, n, |t|);
      }
    }
  }

  /** A record without its digest is accepted, with an empty digest in place of the lost one. */
  lemma LostDigest(v: Version, compression: Compression, r: Record)
    requires Storable(v, compression, r, []) && r.entry.file.checksum.data != []
    ensures var cut := r.entry.(file := r.entry.file.(checksum := Checksum(DigestKind(v), [])));
      && |Serialized(v, r)| == |Serialized(v, r.(entry := cut))| + DigestLength(v)
      && Accepted(v, compression, 1, Serialized(v, r.(entry := cut))) == Some([cut])
  {
    var cut := r.entry.(file := r.entry.file.(checksum := Checksum(DigestKind(v), [])));
    var rs := Joined(v, compression, r.(entry := cut), []);
    assert Serialized(v, r.(entry := cut)) + [] == Serialized(v, r.(entry := cut));
    assert AllSerialized(v, []) == [] && Entries([]) == [];
    assert [cut] + [] == [cut];
    RecordsBack(v, compression, rs);
  }
}
