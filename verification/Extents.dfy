/** Address-ordered extents as values: what splitting and coalescing do to the bytes they cover
    (bin/varnishd/storage_file.c). */
module Extents {

  /** A range of the mapped file: its address, its offset in the file, its size, and whether it is free. */
  datatype Extent = Extent(ptr: nat, offset: nat, size: nat, free: bool)

  /** By address, without overlaps, and no free extent is empty. */
  ghost predicate Ordered(v: seq<Extent>) {
    && (forall i :: 0 <= i < |v| && v[i].free ==> v[i].size > 0)
    && forall i, j :: 0 <= i < j < |v| ==> v[i].ptr + v[i].size <= v[j].ptr
  }

  /** No extent is empty. */
  ghost predicate Positive(v: seq<Extent>) {
    forall i :: 0 <= i < |v| ==> v[i].size > 0
  }

  predicate Contiguous(a: Extent, b: Extent) {
    a.ptr + a.size == b.ptr && a.offset + a.size == b.offset
  }

  predicate Mergeable(a: Extent, b: Extent) {
    a.free && b.free && Contiguous(a, b)
  }

  /** No two neighbouring free extents are contiguous. */
  ghost predicate Coalesced(v: seq<Extent>) {
    forall i :: 0 <= i && i + 1 < |v| ==> !Mergeable(v[i], v[i + 1])
  }

  predicate Covers(e: Extent, a: nat, o: nat) {
    e.ptr <= a < e.ptr + e.size && o - e.offset == a - e.ptr
  }

  /** The mapped bytes: pairs of an address and an offset in the file. */
  ghost function Bytes(v: seq<Extent>): iset<(nat, nat)> {
    iset a: nat, o: nat | (exists i :: 0 <= i < |v| && Covers(v[i], a, o)) :: (a, o)
  }

  function Allocated(v: seq<Extent>): nat {
    if v == [] then 0 else (if v[0].free then 0 else v[0].size) + Allocated(v[1..])
  }

  /** The extent at `i` swallows its right neighbour. */
  function Merge(v: seq<Extent>, i: nat): seq<Extent>
    requires i + 1 < |v|
  {
    v[..i] + [v[i].(size := v[i].size + v[i + 1].size)] + v[i + 2..]
  }

  /** The extent at `i` is cut after `n` bytes; the front part gets `free`. */
  function Split(v: seq<Extent>, i: nat, n: nat, free: bool): seq<Extent>
    requires i < |v| && n <= v[i].size
  {
    var e := v[i];
    v[..i] + [Extent(e.ptr, e.offset, n, free), Extent(e.ptr + n, e.offset + n, e.size - n, e.free)] + v[i + 1..]
  }

  lemma MergeAt(v: seq<Extent>, i: nat, j: nat)
    requires i + 1 < |v| && j < |v| - 1
    ensures |Merge(v, i)| == |v| - 1
    ensures Merge(v, i)[j] ==
      if j < i then v[j] else if j == i then v[i].(size := v[i].size + v[i + 1].size) else v[j + 1]
  {
  }

  lemma SplitAt(v: seq<Extent>, i: nat, n: nat, free: bool, j: nat)
    requires i < |v| && n <= v[i].size && j < |v| + 1
    ensures |Split(v, i, n, free)| == |v| + 1
    ensures Split(v, i, n, free)[j] ==
      if j < i then v[j]
      else if j == i then Extent(v[i].ptr, v[i].offset, n, free)
      else if j == i + 1 then Extent(v[i].ptr + n, v[i].offset + n, v[i].size - n, v[i].free)
      else v[j - 1]
  {
  }

  lemma MergeOrdered(v: seq<Extent>, i: nat)
    requires Ordered(v) && i + 1 < |v| && Contiguous(v[i], v[i + 1])
    ensures Ordered(Merge(v, i))
  {
    var w := Merge(v, i);
    forall j | 0 <= j < |w|
      ensures w[j] == if j < i then v[j] else if j == i then v[i].(size := v[i].size + v[i + 1].size) else v[j + 1]
    {
      MergeAt(v, i, j);
    }
  }

  lemma MergeCovers(v: seq<Extent>, i: nat, a: nat, o: nat)
    requires i + 1 < |v| && Contiguous(v[i], v[i + 1])
    ensures (a, o) in Bytes(Merge(v, i)) <==> (a, o) in Bytes(v)
  {
    var w := Merge(v, i);
    if j :| 0 <= j < |v| && Covers(v[j], a, o) {
      var k := if j <= i then j else j - 1;
      MergeAt(v, i, k);
      assert Covers(w[k], a, o);
    }
    if j :| 0 <= j < |w| && Covers(w[j], a, o) {
      MergeAt(v, i, j);
      assert Covers(v[if j < i then j else if j == i && a < v[i].ptr + v[i].size then i else j + 1], a, o);
    }
  }

  /** Coalescing contiguous neighbours keeps the order and the bytes covered. */
  lemma MergeKeeps(v: seq<Extent>, i: nat)
    requires Ordered(v) && i + 1 < |v| && Contiguous(v[i], v[i + 1])
    ensures Ordered(Merge(v, i)) && Bytes(Merge(v, i)) == Bytes(v)
  {
    hide Ordered, Merge;
    MergeOrdered(v, i);
    forall a: nat, o: nat
      ensures (a, o) in Bytes(Merge(v, i)) <==> (a, o) in Bytes(v)
    {
      MergeCovers(v, i, a, o);
    }
  }

  lemma SplitOrdered(v: seq<Extent>, i: nat, n: nat, free: bool)
    requires Ordered(v) && i < |v| && n < v[i].size && (free ==> n > 0)
    ensures Ordered(Split(v, i, n, free))
  {
    var w := Split(v, i, n, free);
    forall j | 0 <= j < |w|
      ensures w[j] ==
        if j < i then v[j]
        else if j == i then Extent(v[i].ptr, v[i].offset, n, free)
        else if j == i + 1 then Extent(v[i].ptr + n, v[i].offset + n, v[i].size - n, v[i].free)
        else v[j - 1]
    {
      SplitAt(v, i, n, free, j);
    }
  }

  lemma SplitCovers(v: seq<Extent>, i: nat, n: nat, free: bool, a: nat, o: nat)
    requires i < |v| && n < v[i].size
    ensures (a, o) in Bytes(Split(v, i, n, free)) <==> (a, o) in Bytes(v)
  {
    var w := Split(v, i, n, free);
    if j :| 0 <= j < |v| && Covers(v[j], a, o) {
      var k := if j < i || (j == i && a < v[i].ptr + n) then j else j + 1;
      SplitAt(v, i, n, free, k);
      assert Covers(w[k], a, o);
    }
    if j :| 0 <= j < |w| && Covers(w[j], a, o) {
      SplitAt(v, i, n, free, j);
      assert Covers(v[if j <= i then j else j - 1], a, o);
    }
  }

  /** Splitting keeps the order and the bytes covered. */
  lemma SplitKeeps(v: seq<Extent>, i: nat, n: nat, free: bool)
    requires Ordered(v) && i < |v| && n < v[i].size && (free ==> n > 0)
    ensures Ordered(Split(v, i, n, free)) && Bytes(Split(v, i, n, free)) == Bytes(v)
  {
    hide Ordered, Split;
    SplitOrdered(v, i, n, free);
    forall a: nat, o: nat
      ensures (a, o) in Bytes(Split(v, i, n, free)) <==> (a, o) in Bytes(v)
    {
      SplitCovers(v, i, n, free, a, o);
    }
  }

  /** Marking one extent free or not covers the same bytes. */
  lemma MarkKeeps(v: seq<Extent>, i: nat, free: bool)
    requires Ordered(v) && i < |v| && v[i].size > 0
    ensures Ordered(v[i := v[i].(free := free)]) && Bytes(v[i := v[i].(free := free)]) == Bytes(v)
  {
    var w := v[i := v[i].(free := free)];
    forall a: nat, o: nat
      ensures (a, o) in Bytes(w) <==> (a, o) in Bytes(v)
    {
      if j :| 0 <= j < |v| && Covers(v[j], a, o) {
        assert Covers(w[j], a, o);
      }
      if j :| 0 <= j < |w| && Covers(w[j], a, o) {
        assert Covers(v[j], a, o);
      }
    }
  }

  /* ---- bytes allocated ---- */

  lemma {:induction false} AllocatedSum(a: seq<Extent>, b: seq<Extent>)
    ensures Allocated(a + b) == Allocated(a) + Allocated(b)
  {
    if a == [] {
      assert a + b == b;
    } else {
      assert (a + b)[1..] == a[1..] + b;
      AllocatedSum(a[1..], b);
    }
  }

  lemma AllocatedAt(v: seq<Extent>, i: nat)
    requires i < |v|
    ensures Allocated(v) == Allocated(v[..i]) + (if v[i].free then 0 else v[i].size) + Allocated(v[i + 1..])
  {
    assert v == v[..i] + [v[i]] + v[i + 1..];
    AllocatedSum(v[..i], [v[i]]);
    AllocatedSum(v[..i] + [v[i]], v[i + 1..]);
  }

  lemma MarkAllocated(v: seq<Extent>, i: nat, free: bool)
    requires i < |v|
    ensures Allocated(v[i := v[i].(free := free)])
         == Allocated(v) - (if v[i].free then 0 else v[i].size) + if free then 0 else v[i].size
  {
    var w := v[i := v[i].(free := free)];
    AllocatedAt(v, i);
    AllocatedAt(w, i);
    assert w[..i] == v[..i] && w[i + 1..] == v[i + 1..];
  }

  lemma MergeAllocated(v: seq<Extent>, i: nat)
    requires i + 1 < |v| && v[i].free && v[i + 1].free
    ensures Allocated(Merge(v, i)) == Allocated(v)
  {
    var w := Merge(v, i);
    AllocatedAt(v, i);
    AllocatedAt(v[i + 1..], 0);
    assert v[i + 1..][1..] == v[i + 2..] && v[i + 1..][..0] == [];
    AllocatedAt(w, i);
    assert w[..i] == v[..i] && w[i + 1..] == v[i + 2..];
  }

  lemma SplitAllocated(v: seq<Extent>, i: nat, n: nat, free: bool)
    requires i < |v| && n <= v[i].size
    ensures Allocated(Split(v, i, n, free))
         == Allocated(v) - (if v[i].free then 0 else n) + if free then 0 else n
  {
    var w := Split(v, i, n, free);
    AllocatedAt(v, i);
    AllocatedAt(w, i);
    AllocatedAt(w[i + 1..], 0);
    assert w[..i] == v[..i];
    assert w[i + 1..][1..] == v[i + 1..] && w[i + 1..][..0] == [];
  }

  /* ---- freeing ---- */

  /** Merge the extent at `i` with its right neighbour, or with its left one, if both are free and
      contiguous. */
  function MergedRight(v: seq<Extent>, i: nat): seq<Extent> {
    if i + 1 < |v| && Mergeable(v[i], v[i + 1]) then Merge(v, i) else v
  }

  function MergedLeft(v: seq<Extent>, i: nat): seq<Extent> {
    if 0 < i < |v| && Mergeable(v[i - 1], v[i]) then Merge(v, i - 1) else v
  }

  /** Freeing the extent at `i`: merge it with a free contiguous right neighbour, then left. */
  function Freed(v: seq<Extent>, i: nat): seq<Extent>
    requires i < |v|
  {
    MergedLeft(MergedRight(v[i := v[i].(free := true)], i), i)
  }

  /** Freeing keeps the order, the bytes and coalescing, and frees exactly that extent's bytes. */
  lemma FreedKeeps(v: seq<Extent>, i: nat)
    requires Ordered(v) && i < |v| && !v[i].free && v[i].size > 0
    requires forall j :: 0 <= j && j + 1 < |v| && j != i && j + 1 != i ==> !Mergeable(v[j], v[j + 1])
    ensures Ordered(Freed(v, i)) && Bytes(Freed(v, i)) == Bytes(v) && Coalesced(Freed(v, i))
    ensures Allocated(Freed(v, i)) == Allocated(v) - v[i].size
  {
    var v1 := v[i := v[i].(free := true)];
    MarkKeeps(v, i, true);
    MarkAllocated(v, i, true);
    var right := i + 1 < |v1| && Mergeable(v1[i], v1[i + 1]);
    var v2 := if right then Merge(v1, i) else v1;
    if right {
      MergeKeeps(v1, i);
      MergeAllocated(v1, i);
      assert Ordered(v1);
    }
    var left := 0 < i && Mergeable(v2[i - 1], v2[i]);
    if left {
      MergeKeeps(v2, i - 1);
      MergeAllocated(v2, i - 1);
    }
    FreedCoalesced(v, i);
  }

  lemma RightMerged(v: seq<Extent>, i: nat)
    requires i + 1 < |v| && Mergeable(v[i], v[i + 1])
    requires forall j :: 0 <= j && j + 1 < |v| && j != i && j + 1 != i ==> !Mergeable(v[j], v[j + 1])
    ensures var w := Merge(v, i); forall j :: 0 <= j && j + 1 < |w| && j + 1 != i ==> !Mergeable(w[j], w[j + 1])
  {
    var w := Merge(v, i);
    forall j | 0 <= j && j + 1 < |w| && j + 1 != i
      ensures !Mergeable(w[j], w[j + 1])
    {
      MergeAt(v, i, j);
      MergeAt(v, i, j + 1);
      assert !Mergeable(v[if j < i then j else j + 1], v[if j < i then j + 1 else j + 2]);
    }
  }

  lemma LeftMerged(v: seq<Extent>, i: nat)
    requires 0 < i < |v| && Mergeable(v[i - 1], v[i])
    requires forall j :: 0 <= j && j + 1 < |v| && j + 1 != i ==> !Mergeable(v[j], v[j + 1])
    ensures Coalesced(Merge(v, i - 1))
  {
    var w := Merge(v, i - 1);
    forall j | 0 <= j && j + 1 < |w|
      ensures !Mergeable(w[j], w[j + 1])
    {
      MergeAt(v, i - 1, j);
      MergeAt(v, i - 1, j + 1);
      if j + 1 < i - 1 {
        assert !Mergeable(v[j], v[j + 1]);
      } else if j + 1 == i - 1 {
        assert !Mergeable(v[i - 2], v[i - 1]);
      } else {
        assert !Mergeable(v[j + 1], v[j + 2]);
      }
    }
  }

  lemma FreedCoalesced(v: seq<Extent>, i: nat)
    requires Ordered(v) && i < |v| && !v[i].free
    requires forall j :: 0 <= j && j + 1 < |v| && j != i && j + 1 != i ==> !Mergeable(v[j], v[j + 1])
    ensures Coalesced(Freed(v, i))
  {
    hide Ordered;
    var v1 := v[i := v[i].(free := true)];
    var right := i + 1 < |v1| && Mergeable(v1[i], v1[i + 1]);
    var v2 := if right then Merge(v1, i) else v1;
    if right {
      RightMerged(v1, i);
    }
    assert forall j :: 0 <= j && j + 1 < |v2| && j + 1 != i ==> !Mergeable(v2[j], v2[j + 1]);
    if 0 < i && Mergeable(v2[i - 1], v2[i]) {
      LeftMerged(v2, i);
    }
  }

  /* ---- allocating ---- */

  /** Take `n` bytes from the front of the free extent at `i`. */
  function Taken(v: seq<Extent>, i: nat, n: nat): seq<Extent>
    requires i < |v| && n <= v[i].size
  {
    if n == v[i].size then v[i := v[i].(free := false)] else Split(v, i, n, false)
  }

  lemma TakenAt(v: seq<Extent>, i: nat, n: nat)
    requires i < |v| && n <= v[i].size
    ensures i < |Taken(v, i, n)| && Taken(v, i, n)[i] == Extent(v[i].ptr, v[i].offset, n, false)
  {
  }

  /** Taking keeps the order, the bytes and coalescing, and allocates exactly `n` bytes. */
  lemma TakenKeeps(v: seq<Extent>, i: nat, n: nat)
    requires Ordered(v) && Coalesced(v) && i < |v| && v[i].free && n <= v[i].size
    ensures Ordered(Taken(v, i, n)) && Bytes(Taken(v, i, n)) == Bytes(v) && Coalesced(Taken(v, i, n))
    ensures Allocated(Taken(v, i, n)) == Allocated(v) + n
  {
    if n == v[i].size {
      MarkKeeps(v, i, false);
      MarkAllocated(v, i, false);
    } else {
      SplitKeeps(v, i, n, false);
      SplitAllocated(v, i, n, false);
      SplitCoalesced(v, i, n);
    }
  }

  lemma SplitCoalesced(v: seq<Extent>, i: nat, n: nat)
    requires Coalesced(v) && i < |v| && n <= v[i].size
    ensures Coalesced(Split(v, i, n, false))
  {
    var w := Split(v, i, n, false);
    forall j | 0 <= j && j + 1 < |w|
      ensures !Mergeable(w[j], w[j + 1])
    {
      SplitAt(v, i, n, false, j);
      SplitAt(v, i, n, false, j + 1);
      if j + 1 < i {
        assert !Mergeable(v[j], v[j + 1]);
      } else if j > i {
        assert !Mergeable(v[j - 1], v[j]);
      }
    }
  }

  /** Cut an allocated extent to its first `n` bytes and free the rest. */
  function Trimmed(v: seq<Extent>, i: nat, n: nat): seq<Extent>
    requires i < |v| && n <= v[i].size
  {
    Freed(Split(v, i, n, false), i + 1)
  }

  /** Trimming keeps the order, the bytes and coalescing, and frees exactly the bytes cut off. */
  lemma TrimmedKeeps(v: seq<Extent>, i: nat, n: nat)
    requires Ordered(v) && Coalesced(v) && i < |v| && !v[i].free && 0 < n < v[i].size
    ensures Ordered(Trimmed(v, i, n)) && Bytes(Trimmed(v, i, n)) == Bytes(v) && Coalesced(Trimmed(v, i, n))
    ensures Allocated(Trimmed(v, i, n)) == Allocated(v) - (v[i].size - n)
  {
    var w := Split(v, i, n, false);
    SplitKeeps(v, i, n, false);
    SplitAllocated(v, i, n, false);
    SplitCoalesced(v, i, n);
    SplitAt(v, i, n, false, i + 1);
    FreedKeeps(w, i + 1);
  }

  /* ---- new memory ---- */

  function Added(v: seq<Extent>, k: nat, e: Extent): seq<Extent>
    requires k <= |v|
  {
    Freed(v[..k] + [e] + v[k..], k)
  }

  /** A newly mapped chunk keeps the order and coalescing, adds its bytes and allocates none. */
  lemma AddedKeeps(v: seq<Extent>, k: nat, e: Extent)
    requires Ordered(v) && Coalesced(v) && k <= |v| && e.size > 0 && !e.free
    requires forall j :: 0 <= j < k ==> v[j].ptr + v[j].size <= e.ptr
    requires forall j :: k <= j < |v| ==> e.ptr + e.size <= v[j].ptr
    ensures Ordered(Added(v, k, e)) && Coalesced(Added(v, k, e)) && Bytes(Added(v, k, e)) == Bytes(v) + Bytes([e])
    ensures Allocated(Added(v, k, e)) == Allocated(v)
  {
    AddedOrdered(v, k, e);
    AddedBytes(v, k, e);
    AddedGaps(v, k, e);
    AddedAllocated(v, k, e);
    hide Ordered, Coalesced, Bytes, Allocated, Freed;
    FreedKeeps(v[..k] + [e] + v[k..], k);
  }

  lemma AddedGaps(v: seq<Extent>, k: nat, e: Extent)
    requires Coalesced(v) && k <= |v|
    ensures var w := v[..k] + [e] + v[k..];
            forall j :: 0 <= j && j + 1 < |w| && j != k && j + 1 != k ==> !Mergeable(w[j], w[j + 1])
  {
    var w := v[..k] + [e] + v[k..];
    forall j | 0 <= j && j + 1 < |w| && j != k && j + 1 != k
      ensures !Mergeable(w[j], w[j + 1])
    {
      if j + 1 < k {
        assert !Mergeable(v[j], v[j + 1]);
      } else {
        assert !Mergeable(v[j - 1], v[j]);
      }
    }
  }

  lemma AddedAllocated(v: seq<Extent>, k: nat, e: Extent)
    requires k <= |v| && !e.free
    ensures Allocated(v[..k] + [e] + v[k..]) == Allocated(v) + e.size
  {
    var w := v[..k] + [e] + v[k..];
    AllocatedAt(w, k);
    assert w[..k] == v[..k] && w[k + 1..] == v[k..];
    AllocatedSum(v[..k], v[k..]);
    assert v == v[..k] + v[k..];
  }

  lemma AddedOrdered(v: seq<Extent>, k: nat, e: Extent)
    requires Ordered(v) && k <= |v| && e.size > 0
    requires forall j :: 0 <= j < k ==> v[j].ptr + v[j].size <= e.ptr
    requires forall j :: k <= j < |v| ==> e.ptr + e.size <= v[j].ptr
    ensures Ordered(v[..k] + [e] + v[k..])
  {
    var w := v[..k] + [e] + v[k..];
    forall i, j | 0 <= i < j < |w|
      ensures w[i].ptr + w[i].size <= w[j].ptr
    {
      if i != k && j != k {
        assert w[i] == v[if i < k then i else i - 1] && w[j] == v[if j < k then j else j - 1];
      }
    }
  }

  lemma AddedBytes(v: seq<Extent>, k: nat, e: Extent)
    requires k <= |v|
    ensures Bytes(v[..k] + [e] + v[k..]) == Bytes(v) + Bytes([e])
  {
    var w := v[..k] + [e] + v[k..];
    forall a: nat, o: nat
      ensures (a, o) in Bytes(w) <==> (a, o) in Bytes(v) + Bytes([e])
    {
      if j :| 0 <= j < |v| && Covers(v[j], a, o) {
        assert Covers(w[if j < k then j else j + 1], a, o);
      }
      if (a, o) in Bytes([e]) {
        assert Covers([e][0], a, o) && Covers(w[k], a, o);
      }
      if j :| 0 <= j < |w| && Covers(w[j], a, o) {
        assert if j == k then Covers([e][0], a, o) else Covers(v[if j < k then j else j - 1], a, o);
      }
    }
  }

  /* ---- the whole invariant of the order list ---- */

  /** Ordered, coalesced except perhaps around the extent at `i`, and covering exactly `m`. */
  ghost predicate GoodBut(v: seq<Extent>, i: nat, m: iset<(nat, nat)>) {
    && Ordered(v) && Bytes(v) == m
    && forall j :: 0 <= j && j + 1 < |v| && j != i && j + 1 != i ==> !Mergeable(v[j], v[j + 1])
  }

  /** Ordered, coalesced, and covering exactly `m`. */
  ghost predicate Good(v: seq<Extent>, m: iset<(nat, nat)>) {
    Ordered(v) && Coalesced(v) && Bytes(v) == m
  }

  /** Freeing what has just been taken gives back the same extents. */
  lemma TakenFreed(v: seq<Extent>, i: nat, n: nat)
    requires Coalesced(v) && i < |v| && v[i].free && 0 < n <= v[i].size
    ensures Freed(Taken(v, i, n), i) == v
  {
    var w := Taken(v, i, n);
    var w1 := w[i := w[i].(free := true)];
    if n == v[i].size {
      assert w1 == v;
    } else {
      SplitAt(v, i, n, false, i);
      SplitAt(v, i, n, false, i + 1);
      assert Merge(w1, i) == v;
    }
    if i + 1 < |v| {
      assert !Mergeable(v[i], v[i + 1]);
    }
    if 0 < i {
      assert !Mergeable(v[i - 1], v[i]);
    }
  }

  /** Taking no bytes leaves an empty extent, and nothing else does. */
  lemma TakenPositive(v: seq<Extent>, i: nat, n: nat)
    requires i < |v| && n <= v[i].size && v[i].size > 0
    ensures Positive(Taken(v, i, n)) <==> Positive(v) && n > 0
  {
    var w := Taken(v, i, n);
    if n != v[i].size {
      forall j | 0 <= j < |w|
        ensures j < i ==> w[j] == v[j]
        ensures j > i + 1 ==> w[j] == v[j - 1]
      {
        SplitAt(v, i, n, false, j);
      }
      SplitAt(v, i, n, false, i);
      SplitAt(v, i, n, false, i + 1);
      assert forall j :: 0 <= j < |v| && j != i ==> v[j] == w[if j < i then j else j + 1];
    } else {
      assert forall j :: 0 <= j < |v| ==> v[j].size == w[j].size;
    }
  }

  /** Freeing and trimming leave the empty extents, and make none. */
  lemma FreedPositive(v: seq<Extent>, i: nat)
    requires Ordered(v) && i < |v| && !v[i].free && v[i].size > 0
    ensures Positive(Freed(v, i)) <==> Positive(v)
  {
    var v1 := v[i := v[i].(free := true)];
    MarkKeeps(v, i, true);
    assert forall j :: 0 <= j < |v| ==> v1[j].size == v[j].size;
    var v2 := MergedRight(v1, i);
    if i + 1 < |v1| && Mergeable(v1[i], v1[i + 1]) {
      MergePositive(v1, i);
      MergeKeeps(v1, i);
    }
    if 0 < i && Mergeable(v2[i - 1], v2[i]) {
      MergePositive(v2, i - 1);
    }
  }

  lemma MergePositive(v: seq<Extent>, i: nat)
    requires Ordered(v) && i + 1 < |v| && v[i].free && v[i + 1].free
    ensures Positive(Merge(v, i)) <==> Positive(v)
  {
    var w := Merge(v, i);
    forall j | 0 <= j < |w| && j != i
      ensures w[j] == v[if j < i then j else j + 1]
    {
      MergeAt(v, i, j);
    }
    MergeAt(v, i, i);
    forall j | 0 <= j < |v| && j != i && j != i + 1
      ensures v[j] == w[if j < i then j else j - 1]
    {
      MergeAt(v, i, if j < i then j else j - 1);
    }
  }

  lemma TrimmedPositive(v: seq<Extent>, i: nat, n: nat)
    requires Ordered(v) && i < |v| && !v[i].free && 0 < n < v[i].size
    ensures Positive(Trimmed(v, i, n)) <==> Positive(v)
  {
    var w := Split(v, i, n, false);
    SplitKeeps(v, i, n, false);
    SplitAt(v, i, n, false, i + 1);
    TakenPositive(v, i, n);
    FreedPositive(w, i + 1);
  }

  lemma GoodEverywhere(v: seq<Extent>, i: nat, m: iset<(nat, nat)>)
    requires Good(v, m)
    ensures GoodBut(v, i, m)
  {
  }

  lemma FreedGood(v: seq<Extent>, i: nat, m: iset<(nat, nat)>)
    requires GoodBut(v, i, m) && i < |v| && !v[i].free && v[i].size > 0
    ensures Good(Freed(v, i), m) && Allocated(Freed(v, i)) == Allocated(v) - v[i].size
  {
    FreedKeeps(v, i);
  }

  lemma TakenGood(v: seq<Extent>, i: nat, n: nat, m: iset<(nat, nat)>)
    requires Good(v, m) && i < |v| && v[i].free && n <= v[i].size
    ensures Good(Taken(v, i, n), m) && Allocated(Taken(v, i, n)) == Allocated(v) + n
  {
    TakenKeeps(v, i, n);
  }

  lemma TrimmedGood(v: seq<Extent>, i: nat, n: nat, m: iset<(nat, nat)>)
    requires Good(v, m) && i < |v| && !v[i].free && 0 < n < v[i].size
    ensures Good(Trimmed(v, i, n), m) && Allocated(Trimmed(v, i, n)) == Allocated(v) - (v[i].size - n)
    ensures GoodBut(Split(v, i, n, false), i + 1, m)
  {
    TrimmedKeeps(v, i, n);
    SplitKeeps(v, i, n, false);
    SplitCoalesced(v, i, n);
  }

  lemma AddedGood(v: seq<Extent>, k: nat, e: Extent, m: iset<(nat, nat)>)
    requires Good(v, m) && k <= |v| && e.size > 0 && !e.free
    requires forall j :: 0 <= j < k ==> v[j].ptr + v[j].size <= e.ptr
    requires forall j :: k <= j < |v| ==> e.ptr + e.size <= v[j].ptr
    ensures Good(Added(v, k, e), m + Bytes([e])) && Allocated(Added(v, k, e)) == Allocated(v)
    ensures GoodBut(v[..k] + [e] + v[k..], k, m + Bytes([e]))
  {
    AddedKeeps(v, k, e);
    AddedOrdered(v, k, e);
    AddedBytes(v, k, e);
    AddedGaps(v, k, e);
  }

  /** Two extents with bytes in them never start at the same offset of the file, if no two addresses share one. */
  lemma OffsetsDiffer(v: seq<Extent>, m: iset<(nat, nat)>, i: nat, j: nat)
    requires Ordered(v) && Bytes(v) == m && i < j < |v| && v[i].size > 0 && v[j].size > 0
    requires OneToOne(m)
    ensures v[i].offset != v[j].offset
  {
    assert Covers(v[i], v[i].ptr, v[i].offset) && Covers(v[j], v[j].ptr, v[j].offset);
    assert (v[i].ptr, v[i].offset) in m && (v[j].ptr, v[j].offset) in m;
  }

  /** The extent `e` shares no address and no offset with `m`. */
  ghost predicate Apart(m: iset<(nat, nat)>, e: Extent) {
    forall a, o :: (a, o) in m ==> !(e.ptr <= a < e.ptr + e.size) && !(e.offset <= o < e.offset + e.size)
  }

  /** No two mapped bytes share an offset in the file. */
  ghost predicate OneToOne(m: iset<(nat, nat)>) {
    forall a, a', o :: (a, o) in m && (a', o) in m ==> a == a'
  }

  lemma OneToOneAdd(m: iset<(nat, nat)>, e: Extent)
    requires OneToOne(m) && Apart(m, e)
    ensures OneToOne(m + Bytes([e]))
  {
    forall a, a', o | (a, o) in m + Bytes([e]) && (a', o) in m + Bytes([e])
      ensures a == a'
    {
      assert (a, o) in m || Covers(e, a, o);
      assert (a', o) in m || Covers(e, a', o);
    }
  }

  /** Between neighbours by start address, an extent that overlaps nothing fits. */
  lemma NewFits(v: seq<Extent>, m: iset<(nat, nat)>, k: nat, e: Extent)
    requires Good(v, m) && Positive(v) && k <= |v| && e.size > 0 && Apart(m, e)
    requires forall j :: 0 <= j < k ==> v[j].ptr <= e.ptr
    requires k < |v| ==> e.ptr < v[k].ptr
    ensures forall j :: 0 <= j < k ==> v[j].ptr + v[j].size <= e.ptr
    ensures forall j :: k <= j < |v| ==> e.ptr + e.size <= v[j].ptr
  {
    forall j | 0 <= j < k
      ensures v[j].ptr + v[j].size <= e.ptr
    {
      var last := v[j].ptr + v[j].size - 1;
      var n := (if e.ptr < last then e.ptr else last) - v[j].ptr;
      assert Covers(v[j], v[j].ptr + n, v[j].offset + n);
      assert (v[j].ptr + n, v[j].offset + n) in m;
    }
    if k < |v| {
      assert Covers(v[k], v[k].ptr, v[k].offset);
      assert (v[k].ptr, v[k].offset) in m;
    }
  }
}
