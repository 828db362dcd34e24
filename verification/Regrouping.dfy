/** buildGroups is an exact regrouping: nothing is lost, doubled or put under another chunk,
    and inside a chunk the segments come in the order of their stored offsets. */
module Regrouping {
  import opened Bytes
  import opened Format
  import opened Grouping

  function OfChunk(refs: seq<SegmentRef>, chunk: Chunk): seq<SegmentRef> {
    if refs == [] then []
    else
      var last := refs[|refs| - 1];
      OfChunk(refs[..|refs| - 1], chunk) + if last.entry.chunk == chunk then [last] else []
  }

  function OfFile(refs: seq<SegmentRef>, i: nat): seq<SegmentRef> {
    if refs == [] then []
    else
      var last := refs[|refs| - 1];
      OfFile(refs[..|refs| - 1], i) + if last.fileIndex == i then [last] else []
  }

  function WithOffset(refs: seq<SegmentRef>, offset: uint64): seq<SegmentRef> {
    if refs == [] then []
    else
      var last := refs[|refs| - 1];
      WithOffset(refs[..|refs| - 1], offset) + if last.entry.file.offset == offset then [last] else []
  }

  predicate Ordered(refs: seq<SegmentRef>) {
    forall j, k :: 0 <= j < k < |refs| ==> refs[j].entry.file.offset <= refs[k].entry.file.offset
  }

  lemma LastOf(refs: seq<SegmentRef>)
    requires refs != []
    ensures multiset(refs) == multiset(refs[..|refs| - 1]) + multiset{refs[|refs| - 1]}
  {
    assert refs == refs[..|refs| - 1] + [refs[|refs| - 1]];
  }

  // ---------------------------------------------------------------- the stable sort

  lemma {:induction false} InsertedKeeps(sorted: seq<SegmentRef>, r: SegmentRef)
    ensures multiset(Inserted(sorted, r)) == multiset(sorted) + multiset{r}
    decreases |sorted|
  {
    if sorted != [] {
      InsertedKeeps(sorted[..|sorted| - 1], r);
      LastOf(sorted);
    }
  }

  lemma {:induction false} InsertedInOrder(sorted: seq<SegmentRef>, r: SegmentRef)
    requires Ordered(sorted)
    ensures Ordered(Inserted(sorted, r))
    ensures forall o: uint64 | r.entry.file.offset <= o ::
              (sorted == [] || sorted[|sorted| - 1].entry.file.offset <= o) ==> AtMost(Inserted(sorted, r), o)
    decreases |sorted|
  {
    if sorted != [] && sorted[|sorted| - 1].entry.file.offset > r.entry.file.offset {
      InsertedInOrder(sorted[..|sorted| - 1], r);
      assert AtMost(Inserted(sorted[..|sorted| - 1], r), sorted[|sorted| - 1].entry.file.offset);
    }
  }

  predicate AtMost(refs: seq<SegmentRef>, offset: uint64) {
    forall k :: 0 <= k < |refs| ==> refs[k].entry.file.offset <= offset
  }

  lemma WithOffsetSnoc(refs: seq<SegmentRef>, r: SegmentRef, offset: uint64)
    ensures WithOffset(refs + [r], offset)
         == WithOffset(refs, offset) + if r.entry.file.offset == offset then [r] else []
  {
    assert (refs + [r])[..|refs|] == refs;
  }

  lemma {:induction false} InsertedBehindEquals(sorted: seq<SegmentRef>, r: SegmentRef, offset: uint64)
    ensures WithOffset(Inserted(sorted, r), offset) == WithOffset(sorted + [r], offset)
    decreases |sorted|
  {
    if sorted != [] && sorted[|sorted| - 1].entry.file.offset > r.entry.file.offset {
      var init, last := sorted[..|sorted| - 1], sorted[|sorted| - 1];
      InsertedBehindEquals(init, r, offset);
      WithOffsetSnoc(Inserted(init, r), last, offset);
      WithOffsetSnoc(init, r, offset);
      WithOffsetSnoc(sorted, r, offset);
    }
  }

  /** sort.SliceStable: ordered by stored offset, the same references, and those with equal
      offsets in their old order. */
  lemma {:induction false} SortIsStable(refs: seq<SegmentRef>, offset: uint64)
    ensures Ordered(SortedByOffset(refs))
    ensures multiset(SortedByOffset(refs)) == multiset(refs)
    ensures WithOffset(SortedByOffset(refs), offset) == WithOffset(refs, offset)
  {
    if refs != [] {
      var init, last := refs[..|refs| - 1], refs[|refs| - 1];
      SortIsStable(init, offset);
      InsertedInOrder(SortedByOffset(init), last);
      InsertedKeeps(SortedByOffset(init), last);
      InsertedBehindEquals(SortedByOffset(init), last, offset);
      WithOffsetSnoc(SortedByOffset(init), last, offset);
      LastOf(refs);
    }
  }

  // ---------------------------------------------------------------- groups by chunk

  predicate DistinctChunks(groups: seq<ChunkGroup>) {
    forall g, h :: 0 <= g < h < |groups| ==> groups[g].chunk != groups[h].chunk
  }

  /** Each group holds the references of its chunk, in their order; no chunk has two groups. */
  lemma {:induction false} GroupedByChunk(refs: seq<SegmentRef>)
    ensures var groups := Grouped(refs);
      && DistinctChunks(groups)
      && (forall g :: 0 <= g < |groups| ==> groups[g].refs == OfChunk(refs, groups[g].chunk))
      && (forall c :: GroupFor(groups, c) == |groups| ==> OfChunk(refs, c) == [])
  {
    var groups := Grouped(refs);
    if refs == [] {
    } else {
      var init, ref := refs[..|refs| - 1], refs[|refs| - 1];
      var before := Grouped(init);
      var at := GroupFor(before, ref.entry.chunk);
      GroupedByChunk(init);
      forall g | 0 <= g < |groups|
        ensures groups[g].refs == OfChunk(refs, groups[g].chunk)
      {
        if g == |before| {
          assert OfChunk(init, ref.entry.chunk) == [];
        } else if g != at {
          assert groups[g] == before[g] && before[g].chunk != ref.entry.chunk;
        }
      }
      forall c | GroupFor(groups, c) == |groups|
        ensures OfChunk(refs, c) == []
      {
        AddedChunks(before, ref, c);
      }
    }
  }

  lemma AddedChunks(before: seq<ChunkGroup>, ref: SegmentRef, c: Chunk)
    requires GroupFor(AddRef(before, ref), c) == |AddRef(before, ref)|
    ensures GroupFor(before, c) == |before| && c != ref.entry.chunk
  {
    var after := AddRef(before, ref);
    var h := GroupFor(before, ref.entry.chunk);
    assert h < |after| && after[h].chunk == ref.entry.chunk;
    forall k | 0 <= k < |before|
      ensures before[k].chunk != c
    {
      assert after[k].chunk == before[k].chunk;
    }
  }

  predicate HasChunk(refs: seq<SegmentRef>, c: Chunk) {
    exists i :: 0 <= i < |refs| && refs[i].entry.chunk == c
  }

  /** Chunk c is referred to before chunk d is. */
  predicate Precedes(refs: seq<SegmentRef>, c: Chunk, d: Chunk) {
    exists i :: 0 <= i < |refs| && refs[i].entry.chunk == c && !HasChunk(refs[..i], d)
  }

  lemma HasMore(refs: seq<SegmentRef>, r: SegmentRef, c: Chunk)
    ensures HasChunk(refs + [r], c) <==> HasChunk(refs, c) || r.entry.chunk == c
  {
    var more := refs + [r];
    assert forall i :: 0 <= i < |refs| ==> more[i] == refs[i];
    assert more[|refs|] == r;
  }

  lemma PrecedesMore(refs: seq<SegmentRef>, r: SegmentRef, c: Chunk, d: Chunk)
    requires Precedes(refs, c, d) || (HasChunk(refs, c) && !HasChunk(refs, d))
    ensures Precedes(refs + [r], c, d)
  {
    var more := refs + [r];
    if HasChunk(refs, c) && !HasChunk(refs, d) {
      var i :| 0 <= i < |refs| && refs[i].entry.chunk == c;
      assert more[i] == refs[i] && more[..i] == refs[..i];
      assert forall j :: 0 <= j < i ==> refs[..i][j] == refs[j];
    } else {
      var i :| 0 <= i < |refs| && refs[i].entry.chunk == c && !HasChunk(refs[..i], d);
      assert more[i] == refs[i] && more[..i] == refs[..i];
    }
  }

  /** The groups come in the order in which their chunks are first referred to. */
  lemma {:induction false} GroupsInSourceOrder(refs: seq<SegmentRef>)
    ensures var groups := Grouped(refs);
      && (forall c :: GroupFor(groups, c) < |groups| <==> HasChunk(refs, c))
      && (forall g, h :: 0 <= g < h < |groups| ==> Precedes(refs, groups[g].chunk, groups[h].chunk))
  {
    if refs != [] {
      var init, last := refs[..|refs| - 1], refs[|refs| - 1];
      var before, after := Grouped(init), Grouped(refs);
      GroupsInSourceOrder(init);
      assert refs == init + [last];
      forall c
        ensures GroupFor(after, c) < |after| <==> HasChunk(refs, c)
      {
        HasMore(init, last, c);
        FoundAfter(before, last, c);
      }
      forall g, h | 0 <= g < h < |after|
        ensures Precedes(refs, after[g].chunk, after[h].chunk)
      {
        if h == |before| {
          FoundAt(before, g);
        }
        PrecedesMore(init, last, after[g].chunk, after[h].chunk);
      }
    }
  }

  lemma FoundAfter(before: seq<ChunkGroup>, ref: SegmentRef, c: Chunk)
    ensures GroupFor(AddRef(before, ref), c) < |AddRef(before, ref)|
       <==> GroupFor(before, c) < |before| || ref.entry.chunk == c
  {
    var after := AddRef(before, ref);
    assert forall g :: 0 <= g < |before| ==> after[g].chunk == before[g].chunk;
    if ref.entry.chunk == c {
      assert after[GroupFor(before, c)].chunk == c;
    }
  }

  lemma FoundAt(groups: seq<ChunkGroup>, g: nat)
    requires g < |groups|
    ensures GroupFor(groups, groups[g].chunk) < |groups|
  {
  }

  // ---------------------------------------------------------------- nothing lost or doubled

  /** All references in the order in which they are processed. */
  function Flat(groups: seq<ChunkGroup>): seq<SegmentRef> {
    if groups == [] then [] else Flat(groups[..|groups| - 1]) + groups[|groups| - 1].refs
  }

  lemma {:induction false} FlatUpdate(groups: seq<ChunkGroup>, g: nat, ref: SegmentRef)
    requires g < |groups|
    ensures multiset(Flat(groups[g := groups[g].(refs := groups[g].refs + [ref])]))
         == multiset(Flat(groups)) + multiset{ref}
    decreases |groups|
  {
    var n := |groups| - 1;
    var updated := groups[g := groups[g].(refs := groups[g].refs + [ref])];
    if g == n {
      assert updated[..n] == groups[..n];
      assert Flat(updated) == Flat(groups) + [ref];
    } else {
      FlatUpdate(groups[..n], g, ref);
      assert updated[..n] == groups[..n][g := groups[g].(refs := groups[g].refs + [ref])];
    }
  }

  lemma AddRefAddsOne(groups: seq<ChunkGroup>, ref: SegmentRef)
    ensures multiset(Flat(AddRef(groups, ref))) == multiset(Flat(groups)) + multiset{ref}
  {
    var g := GroupFor(groups, ref.entry.chunk);
    if g == |groups| {
      var added := groups + [ChunkGroup(ref.entry.chunk, [ref])];
      assert added[..|groups|] == groups;
      assert Flat(added) == Flat(groups) + [ref];
    } else {
      FlatUpdate(groups, g, ref);
    }
  }

  lemma {:induction false} GroupedKeeps(refs: seq<SegmentRef>)
    ensures multiset(Flat(Grouped(refs))) == multiset(refs)
  {
    if refs != [] {
      GroupedKeeps(refs[..|refs| - 1]);
      AddRefAddsOne(Grouped(refs[..|refs| - 1]), refs[|refs| - 1]);
      LastOf(refs);
    }
  }

  lemma {:induction false} SortingKeeps(groups: seq<ChunkGroup>)
    ensures multiset(Flat(SortedGroups(groups))) == multiset(Flat(groups))
  {
    if groups != [] {
      var n := |groups| - 1;
      SortingKeeps(groups[..n]);
      SortIsStable(groups[n].refs, 0);
      assert SortedGroups(groups)[..n] == SortedGroups(groups[..n]);
    }
  }

  lemma {:induction false} OfFileConcat(s: seq<SegmentRef>, t: seq<SegmentRef>, i: nat)
    ensures OfFile(s + t, i) == OfFile(s, i) + OfFile(t, i)
    decreases |t|
  {
    if t == [] {
      assert s + t == s;
    } else {
      OfFileConcat(s, t[..|t| - 1], i);
      assert (s + t)[..|s + t| - 1] == s + t[..|t| - 1];
    }
  }

  lemma {:induction false} OfOwnFile(refs: seq<SegmentRef>, i: nat, j: nat)
    requires AreOf(refs, j)
    ensures OfFile(refs, i) == if i == j then refs else []
  {
    if refs != [] {
      OfOwnFile(refs[..|refs| - 1], i, j);
      assert refs == refs[..|refs| - 1] + [refs[|refs| - 1]];
    }
  }

  predicate AreOf(refs: seq<SegmentRef>, j: nat) {
    forall k :: 0 <= k < |refs| ==> refs[k].fileIndex == j
  }

  lemma OwnReferences(a: Archive, j: nat)
    requires j < |a.files|
    ensures AreOf(FileRefs(a, j), j)
  {
  }

  /** The references of file j, behind those of the files in front of it. */
  lemma LastFile(all: seq<SegmentRef>, own: seq<SegmentRef>, i: nat, j: nat)
    requires AreOf(own, j) && (i >= j ==> OfFile(all, i) == [])
    ensures OfFile(all + own, i) == if i < j then OfFile(all, i) else if i == j then own else []
  {
    OfFileConcat(all, own, i);
    OfOwnFile(own, i, j);
    NothingAdded(own);
    NothingAdded(OfFile(all, i));
  }

  /** Lists of references, one behind the other. */
  function Chained(lists: seq<seq<SegmentRef>>): seq<SegmentRef> {
    if lists == [] then [] else Chained(lists[..|lists| - 1]) + lists[|lists| - 1]
  }

  /** If list j is of file j, the references of a file in all of them are its list. */
  lemma {:induction false} ChainedOfFile(lists: seq<seq<SegmentRef>>, i: nat)
    requires forall j :: 0 <= j < |lists| ==> AreOf(lists[j], j)
    ensures OfFile(Chained(lists), i) == if i < |lists| then lists[i] else []
  {
    if lists != [] {
      var j := |lists| - 1;
      ChainedOfFile(lists[..j], i);
      LastFile(Chained(lists[..j]), lists[j], i, j);
    }
  }

  function RefLists(a: Archive, n: nat): (lists: seq<seq<SegmentRef>>)
    requires n <= |a.files|
    ensures |lists| == n && forall j :: 0 <= j < n ==> lists[j] == FileRefs(a, j)
  {
    if n == 0 then [] else RefLists(a, n - 1) + [FileRefs(a, n - 1)]
  }

  lemma {:induction false} AllRefsAreChained(a: Archive, n: nat)
    requires n <= |a.files|
    ensures AllRefs(a, n) == Chained(RefLists(a, n))
  {
    if n > 0 {
      var lists := RefLists(a, n);
      AllRefsAreChained(a, n - 1);
      assert lists[..n - 1] == RefLists(a, n - 1);
    }
  }

  lemma AllRefsOfFile(a: Archive, n: nat, i: nat)
    requires n <= |a.files| && i < |a.files|
    ensures OfFile(AllRefs(a, n), i) == if i < n then FileRefs(a, i) else []
  {
    var lists := RefLists(a, n);
    AllRefsAreChained(a, n);
    forall j | 0 <= j < n
      ensures AreOf(lists[j], j)
    {
      OwnReferences(a, j);
    }
    ChainedOfFile(lists, i);
  }

  lemma {:induction false} OfFileCount(refs: seq<SegmentRef>, i: nat, r: SegmentRef)
    ensures multiset(OfFile(refs, i))[r] == if r.fileIndex == i then multiset(refs)[r] else 0
  {
    if refs != [] {
      OfFileCount(refs[..|refs| - 1], i, r);
      assert refs == refs[..|refs| - 1] + [refs[|refs| - 1]];
    }
  }

  lemma OfFilePermuted(s: seq<SegmentRef>, t: seq<SegmentRef>, i: nat)
    requires multiset(s) == multiset(t)
    ensures multiset(OfFile(s, i)) == multiset(OfFile(t, i))
  {
    forall r: SegmentRef
      ensures multiset(OfFile(s, i))[r] == multiset(OfFile(t, i))[r]
    {
      OfFileCount(s, i, r);
      OfFileCount(t, i, r);
    }
  }

  /** The groups of an archive: one per chunk, each the stable sort by stored offset of the
      chunk's references; over all groups, the references of each file are exactly its
      (file, position) pairs with the prefix sums as destinations, in some order. */
  lemma ExactRegrouping(a: Archive)
    ensures var groups := GroupsOf(a);
      && DistinctChunks(groups)
      && (forall g :: 0 <= g < |groups| ==>
            && groups[g].refs == SortedByOffset(OfChunk(AllRefs(a, |a.files|), groups[g].chunk))
            && Ordered(groups[g].refs))
      && multiset(Flat(groups)) == multiset(AllRefs(a, |a.files|))
      && (forall i :: 0 <= i < |a.files| ==> multiset(OfFile(Flat(groups), i)) == multiset(FileRefs(a, i)))
  {
    var refs := AllRefs(a, |a.files|);
    var groups := GroupsOf(a);
    GroupedByChunk(refs);
    GroupedKeeps(refs);
    SortingKeeps(Grouped(refs));
    forall g | 0 <= g < |groups|
      ensures Ordered(groups[g].refs)
    {
      SortIsStable(Grouped(refs)[g].refs, 0);
    }
    forall i | 0 <= i < |a.files|
      ensures multiset(OfFile(Flat(groups), i)) == multiset(FileRefs(a, i))
    {
      OfFilePermuted(Flat(groups), refs, i);
      AllRefsOfFile(a, |a.files|, i);
    }
  }

  /** Every reference in a group names that group's chunk. */
  lemma {:induction false} OfChunkOnly(refs: seq<SegmentRef>, chunk: Chunk)
    ensures forall k :: 0 <= k < |OfChunk(refs, chunk)| ==> OfChunk(refs, chunk)[k].entry.chunk == chunk
  {
    if refs != [] {
      OfChunkOnly(refs[..|refs| - 1], chunk);
    }
  }

  lemma GroupsAreUniform(a: Archive)
    ensures forall g, k :: 0 <= g < |GroupsOf(a)| && 0 <= k < |GroupsOf(a)[g].refs| ==>
      GroupsOf(a)[g].refs[k].entry.chunk == GroupsOf(a)[g].chunk
  {
    ExactRegrouping(a);
    var groups, all := GroupsOf(a), AllRefs(a, |a.files|);
    forall g, k | 0 <= g < |groups| && 0 <= k < |groups[g].refs|
      ensures groups[g].refs[k].entry.chunk == groups[g].chunk
    {
      OfChunkOnly(all, groups[g].chunk);
      SortIsStable(OfChunk(all, groups[g].chunk), 0);
      assert groups[g].refs[k] in multiset(groups[g].refs);
      assert groups[g].refs[k] in OfChunk(all, groups[g].chunk);
    }
  }
}
