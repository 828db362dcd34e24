/** Where buildGroups puts the segments of a file: each behind the declared sizes in front of it.
    Only an entry that declares no size can hold something else than it declares, so the layout
    is the concatenation exactly as long as nothing stands behind such a segment. */
module Placement {
  import opened Bytes
  import opened Format
  import opened Grouping

  function Joined(segments: seq<bytes>): bytes {
    if segments == [] then [] else Joined(segments[..|segments| - 1]) + segments[|segments| - 1]
  }

  /** The destination of segment k. */
  function Dest(entries: seq<DataEntry>, locations: seq<uint32>, k: nat): nat
    requires k <= |locations|
  {
    SizeSum(entries, locations[..k])
  }

  /** A declared size is the size of the segment. */
  predicate Held(entries: seq<DataEntry>, locations: seq<uint32>, segments: seq<bytes>) {
    && |segments| == |locations|
    && forall k :: 0 <= k < |segments| && SizeAt(entries, locations[k]) != 0 ==>
         |segments[k]| == SizeAt(entries, locations[k])
  }

  /** Nothing stands behind bytes of an entry that declares no size. */
  predicate NothingBehind(entries: seq<DataEntry>, locations: seq<uint32>, segments: seq<bytes>)
    requires |segments| == |locations|
  {
    forall j, k :: 0 <= j < k < |segments| && SizeAt(entries, locations[j]) == 0 && segments[j] != [] ==>
      segments[k] == []
  }

  /** No byte of the output belongs to two segments. */
  predicate Apart(entries: seq<DataEntry>, locations: seq<uint32>, segments: seq<bytes>)
    requires |segments| == |locations|
  {
    forall j, k :: 0 <= j < k < |segments| && segments[j] != [] && segments[k] != [] ==>
      || Dest(entries, locations, j) + |segments[j]| <= Dest(entries, locations, k)
      || Dest(entries, locations, k) + |segments[k]| <= Dest(entries, locations, j)
  }

  /** Every segment with bytes starts where it starts in the concatenation. */
  predicate AtPlaces(entries: seq<DataEntry>, locations: seq<uint32>, segments: seq<bytes>)
    requires |segments| == |locations|
  {
    forall k :: 0 <= k < |segments| && segments[k] != [] ==>
      Dest(entries, locations, k) == |Joined(segments[..k])|
  }

  // ---------------------------------------------------------------- the concatenation

  lemma JoinedNext(segments: seq<bytes>, k: nat)
    requires k < |segments|
    ensures Joined(segments[..k + 1]) == Joined(segments[..k]) + segments[k]
  {
    assert segments[..k + 1][..k] == segments[..k];
  }

  lemma {:induction false} JoinedGrows(segments: seq<bytes>, j: nat, k: nat)
    requires j <= k <= |segments|
    ensures Joined(segments[..j]) <= Joined(segments[..k])
  {
    if j < k {
      JoinedGrows(segments, j, k - 1);
      JoinedNext(segments, k - 1);
    }
  }

  /** Segment k inside the concatenation. */
  lemma PieceAt(segments: seq<bytes>, k: nat)
    requires k < |segments|
    ensures var at := |Joined(segments[..k])|;
      at + |segments[k]| <= |Joined(segments)| && Joined(segments)[at..at + |segments[k]|] == segments[k]
  {
    JoinedNext(segments, k);
    JoinedGrows(segments, k + 1, |segments|);
    assert segments[..|segments|] == segments;
    Inside(Joined(segments[..k]), segments[k], Joined(segments));
  }

  lemma Inside(a: bytes, b: bytes, whole: bytes)
    requires a + b <= whole
    ensures whole[|a|..|a| + |b|] == b
  {
    assert (a + b)[|a|..] == b;
  }

  /** Byte p of the concatenation belongs to some segment. */
  lemma {:induction false} FindPiece(segments: seq<bytes>, p: nat) returns (k: nat)
    requires p < |Joined(segments)|
    ensures k < |segments| && |Joined(segments[..k])| <= p < |Joined(segments[..k])| + |segments[k]|
  {
    var n := |segments| - 1;
    if p < |Joined(segments[..n])| {
      k := FindPiece(segments[..n], p);
      assert segments[..n][..k] == segments[..k];
    } else {
      k := n;
    }
  }

  // ---------------------------------------------------------------- destinations

  lemma {:induction false} DestAtMost(entries: seq<DataEntry>, locations: seq<uint32>, segments: seq<bytes>, k: nat)
    requires Held(entries, locations, segments) && k <= |segments|
    ensures Dest(entries, locations, k) <= |Joined(segments[..k])|
  {
    if k > 0 {
      DestAtMost(entries, locations, segments, k - 1);
      PrefixSum(entries, locations, k - 1);
      JoinedNext(segments, k - 1);
    }
  }

  /** Behind segments of their declared sizes, a destination is the place in the concatenation. */
  lemma {:induction false} DestIsPlace(entries: seq<DataEntry>, locations: seq<uint32>, segments: seq<bytes>, k: nat)
    requires |segments| == |locations| && k <= |segments|
    requires forall j :: 0 <= j < k ==> |segments[j]| == SizeAt(entries, locations[j])
    ensures Dest(entries, locations, k) == |Joined(segments[..k])|
  {
    if k > 0 {
      DestIsPlace(entries, locations, segments, k - 1);
      PrefixSum(entries, locations, k - 1);
      JoinedNext(segments, k - 1);
    }
  }

  /** If together they have their declared sizes, so has each. */
  lemma {:induction false} SizesAreExact(entries: seq<DataEntry>, locations: seq<uint32>, segments: seq<bytes>, k: nat)
    requires Held(entries, locations, segments) && k <= |segments|
    requires |Joined(segments[..k])| == Dest(entries, locations, k)
    ensures forall j :: 0 <= j < k ==> |segments[j]| == SizeAt(entries, locations[j])
  {
    if k > 0 {
      DestAtMost(entries, locations, segments, k - 1);
      PrefixSum(entries, locations, k - 1);
      JoinedNext(segments, k - 1);
      SizesAreExact(entries, locations, segments, k - 1);
    }
  }

  lemma PlaceOf(entries: seq<DataEntry>, locations: seq<uint32>, segments: seq<bytes>, k: nat)
    requires Held(entries, locations, segments) && NothingBehind(entries, locations, segments)
    requires k < |segments| && segments[k] != []
    ensures Dest(entries, locations, k) == |Joined(segments[..k])|
  {
    DestIsPlace(entries, locations, segments, k);
  }

  /** Entries without a size do not move the destination. */
  lemma {:induction false} DestStays(entries: seq<DataEntry>, locations: seq<uint32>, j: nat, m: nat)
    requires j <= m <= |locations| && forall x :: j <= x < m ==> SizeAt(entries, locations[x]) == 0
    ensures Dest(entries, locations, m) == Dest(entries, locations, j)
  {
    if j < m {
      DestStays(entries, locations, j, m - 1);
      PrefixSum(entries, locations, m - 1);
    }
  }

  /** The first segment with bytes behind segment j. */
  lemma {:induction false} FirstBehind(segments: seq<bytes>, j: nat, k: nat) returns (m: nat)
    requires j < k < |segments| && segments[k] != []
    ensures j < m <= k && segments[m] != [] && forall x :: j < x < m ==> segments[x] == []
    decreases k
  {
    if x :| j < x < k && segments[x] != [] {
      m := FirstBehind(segments, j, x);
    } else {
      m := k;
    }
  }

  /** What stands behind an undeclared segment starts where that one starts. */
  lemma Collision(entries: seq<DataEntry>, locations: seq<uint32>, segments: seq<bytes>, j: nat, k: nat)
    returns (m: nat)
    requires Held(entries, locations, segments) && j < k < |segments|
    requires SizeAt(entries, locations[j]) == 0 && segments[j] != [] && segments[k] != []
    ensures j < m < |segments| && segments[m] != []
    ensures Dest(entries, locations, m) == Dest(entries, locations, j)
    ensures |Joined(segments[..m])| > |Joined(segments[..j])|
  {
    m := FirstBehind(segments, j, k);
    DestStays(entries, locations, j, m);
    JoinedNext(segments, j);
    JoinedGrows(segments, j + 1, m);
  }

  /** The layout is the concatenation exactly if nothing stands behind bytes of an entry that
      declares no size; and that is when no two segments share a byte of the output. */
  lemma LayoutIsExact(entries: seq<DataEntry>, locations: seq<uint32>, segments: seq<bytes>)
    requires Held(entries, locations, segments)
    ensures AtPlaces(entries, locations, segments) <==> NothingBehind(entries, locations, segments)
    ensures Apart(entries, locations, segments) <==> NothingBehind(entries, locations, segments)
  {
    if NothingBehind(entries, locations, segments) {
      forall k | 0 <= k < |segments| && segments[k] != []
        ensures Dest(entries, locations, k) == |Joined(segments[..k])|
      {
        PlaceOf(entries, locations, segments, k);
      }
      PlacesAreApart(entries, locations, segments);
    } else {
      var j, k :| 0 <= j < k < |segments| && SizeAt(entries, locations[j]) == 0 && segments[j] != []
        && segments[k] != [];
      var m := Collision(entries, locations, segments, j, k);
    }
  }

  lemma PlacesAreApart(entries: seq<DataEntry>, locations: seq<uint32>, segments: seq<bytes>)
    requires Held(entries, locations, segments) && AtPlaces(entries, locations, segments)
    ensures Apart(entries, locations, segments)
  {
    forall j, k | 0 <= j < k < |segments| && segments[j] != [] && segments[k] != []
      ensures Dest(entries, locations, j) + |segments[j]| <= Dest(entries, locations, k)
    {
      JoinedNext(segments, j);
      JoinedGrows(segments, j + 1, k);
    }
  }
}
