/** The file storage allocator of bin/varnishd/storage_file.c: an address-ordered list of extents, a
    list of the used ones, and free lists by size class. */
module StorageFile {
  import opened Extents
  import opened Lists

  const NBUCKET: nat := 33

  class Smf {
    var size: nat
    var offset: nat
    var ptr: nat
    var alloc: bool
    /** The free list the extent is on, -1 for none. */
    var flist: int

    constructor (ptr: nat, offset: nat, size: nat)
      ensures this.ptr == ptr && this.offset == offset && this.size == size && alloc && flist == -1
    {
      this.ptr := ptr;
      this.offset := offset;
      this.size := size;
      alloc := true;
      flist := -1;
    }
  }

  function E(s: Smf): Extent
    reads s`ptr, s`offset, s`size, s`alloc
  {
    Extent(s.ptr, s.offset, s.size, !s.alloc)
  }

  /** The order alloc_smf prefers: the smaller extent, then the one at the lower offset; but of two extents of 32 pages
      or more, the one at the lower offset, whatever their sizes. */
  predicate InFront(s: Extent, t: Extent, p: nat) {
    if 32 * p <= s.size && 32 * p <= t.size then s.offset <= t.offset
    else s.size < t.size || (s.size == t.size && s.offset <= t.offset)
  }

  function ExtentsOf(l: seq<Smf>): (v: seq<Extent>)
    reads l`ptr, l`offset, l`size, l`alloc
    ensures |v| == |l| && forall i :: 0 <= i < |l| ==> v[i] == E(l[i])
  {
    if l == [] then [] else ExtentsOf(l[..|l| - 1]) + [E(l[|l| - 1])]
  }

  /** Removing from a list sorted by offset keeps it sorted. */
  lemma {:induction false} WithoutSorted(s: seq<Smf>, x: Smf)
    requires forall i, j :: 0 <= i < j < |s| ==> s[i].offset < s[j].offset
    ensures var w := Without(s, x); forall i, j :: 0 <= i < j < |w| ==> w[i].offset < w[j].offset
  {
    if s != [] && s[0] != x {
      var r := s[1..];
      assert forall j :: 0 <= j < |r| ==> r[j] == s[j + 1];
      WithoutSorted(r, x);
      WithoutOk(r, x);
      var w := Without(r, x);
      forall j | 0 <= j < |w|
        ensures s[0].offset < w[j].offset
      {
        var k :| 0 <= k < |r| && r[k] == w[j];
      }
    }
  }

  class SmfSc {
    const pagesize: nat
    var order: seq<Smf>
    var free: seq<seq<Smf>>
    var used: seq<Smf>
    /** VSL_stats->sm_balloc and VSL_stats->sm_bfree. */
    var balloc: int
    var bfree: int
    /** The bytes given to new_smf. */
    ghost var mapped: iset<(nat, nat)>
    /** Extents that are between lists. */
    ghost var loose: set<Smf>

    /** The size class of an extent. */
    function Class(size: nat): (b: nat)
      requires pagesize > 0
      ensures b < NBUCKET
    {
      if size / pagesize >= NBUCKET then NBUCKET - 1 else size / pagesize
    }

    /** The order list as values. */
    ghost function View(): (v: seq<Extent>)
      reads this`order, order`ptr, order`offset, order`size, order`alloc
      ensures |v| == |order| && forall i :: 0 <= i < |order| ==> v[i] == E(order[i])
    {
      ExtentsOf(order)
    }

    ghost predicate Pages()
      reads this`order, order`size, order`alloc
    {
      && pagesize > 0 && NoRepeats(order)
      && forall s :: s in order ==> s.size % pagesize == 0 && (!s.alloc ==> s.size > 0)
    }

    /** `l` holds free extents of class `b`, by offset. */
    ghost predicate Bucket(b: nat, l: seq<Smf>)
      reads this`order, this`loose, l`size, l`alloc, l`offset, l`flist
    {
      && pagesize > 0
      && (forall s :: s in l ==> s in order && s !in loose && !s.alloc && s.flist == b && Class(s.size) == b)
      && (forall i, j :: 0 <= i < j < |l| ==> l[i].offset < l[j].offset)
    }

    ghost predicate FreeOk()
      reads this`order, this`free, this`loose, order`size, order`alloc, order`offset, order`flist
    {
      && pagesize > 0 && |free| == NBUCKET
      && (forall b, i :: 0 <= b < NBUCKET && 0 <= i < |free[b]| ==> free[b][i] in order)
      && (forall b :: 0 <= b < NBUCKET ==> Bucket(b, free[b]))
      && (forall s :: s in order && !s.alloc && s !in loose ==> s in free[Class(s.size)])
    }

    ghost predicate UsedOk()
      reads this`order, this`used, this`loose, order`alloc, order`flist
    {
      && NoRepeats(used)
      && (forall s :: s in used ==> s in order && s !in loose && s.alloc)
      && (forall s :: s in order && s.alloc && s !in loose ==> s in used)
      && (forall s :: s in order && (s.alloc || s in loose) ==> s.flist == -1)
    }

    /** Each extent is on used or on the free list of its class, unless it is loose. */
    ghost predicate Lists()
      reads this`order, this`free, this`used, this`loose, order
    {
      Pages() && FreeOk() && UsedOk()
    }

    ghost predicate Core()
      reads this`order, this`free, this`used, this`loose, this`mapped, order
    {
      Lists() && loose == {} && OneToOne(mapped) && Good(View(), mapped)
    }

    ghost predicate Valid()
      reads this, order
    {
      Core() && balloc == Allocated(View()) && PageSize(pagesize) && UsedFit()
    }

    /** What is handed out has a size of 32 bits. */
    ghost predicate UsedFit()
      reads this`order, this`used, order`size
    {
      forall s :: s in order && s in used ==> s.size < WORD
    }

    /** smf_init. */
    constructor (pagesize: nat)
      requires PageSize(pagesize)
      ensures Valid() && this.pagesize == pagesize && order == [] && mapped == iset{} && balloc == bfree == 0
    {
      this.pagesize := pagesize;
      order, used, balloc, bfree, mapped, loose := [], [], 0, 0, iset{}, {};
      free := seq(NBUCKET, i => []);
      new;
      assert Bytes(View()) == iset{};
    }

    function Index(s: Smf): (i: nat)
      requires s in order && NoRepeats(order)
      reads this`order
      ensures i < |order| && order[i] == s
    {
      var i :| 0 <= i < |order| && order[i] == s;
      i
    }

    /* ---- the free lists ---- */

    /** insfree. */
    method InsFree(sp: Smf)
      requires Lists() && sp in loose && sp in order && !sp.alloc
      requires sp.size > 0 && forall s :: s in order && s != sp && !s.alloc ==> s.offset != sp.offset
      modifies this`free, this`loose, {sp}`flist
      ensures Lists() && loose == old(loose) - {sp}
    {
      hide Bucket, NoRepeats;
      var b := Class(sp.size);
      var l := InsertSorted(sp, b);
      sp.flist := b;
      free := free[b := l];
      loose := loose - {sp};
      Inserted(sp);
    }

    /** The free list of class `b` with `sp` put in by offset. */
    method InsertSorted(sp: Smf, b: nat) returns (l: seq<Smf>)
      requires FreeOk() && sp in order && sp in loose && b < NBUCKET
      requires forall s :: s in order && s != sp && !s.alloc ==> s.offset != sp.offset
      ensures forall i, j :: 0 <= i < j < |l| ==> l[i].offset < l[j].offset
      ensures forall s :: s in l <==> s in free[b] || s == sp
    {
      l := free[b];
      assert Bucket(b, l);
      var i := 0;
      while i < |l| && sp.offset >= l[i].offset
        invariant 0 <= i <= |l|
        invariant forall j :: 0 <= j < i ==> l[j].offset < sp.offset
      {
        assert l[i] in l;
        i := i + 1;
      }
      SortedWith(l, i, sp);
      l := l[..i] + [sp] + l[i..];
    }

    static lemma SortedWith(l: seq<Smf>, i: nat, sp: Smf)
      requires i <= |l| && forall j, k :: 0 <= j < k < |l| ==> l[j].offset < l[k].offset
      requires (forall j :: 0 <= j < i ==> l[j].offset < sp.offset) && (i < |l| ==> sp.offset < l[i].offset)
      ensures var m := l[..i] + [sp] + l[i..]; forall j, k :: 0 <= j < k < |m| ==> m[j].offset < m[k].offset
      ensures forall s :: s in l[..i] + [sp] + l[i..] <==> s in l || s == sp
    {
      var m := l[..i] + [sp] + l[i..];
      assert forall j :: 0 <= j < |m| ==> m[j] == if j < i then l[j] else if j == i then sp else l[j - 1];
      forall s | s in l
        ensures s in m
      {
        var j :| 0 <= j < |l| && l[j] == s;
        assert m[if j < i then j else j + 1] == s;
      }
    }

    twostate lemma Inserted(sp: Smf)
      requires old(FreeOk()) && sp in old(loose) && loose == old(loose) - {sp}
      requires order == old(order) && sp in order && !sp.alloc && sp.flist == Class(sp.size)
      requires |free| == NBUCKET && unchanged(order`size) && unchanged(order`alloc) && unchanged(order`offset)
      requires forall s :: s in order && s != sp ==> s.flist == old(s.flist)
      requires forall b :: 0 <= b < NBUCKET && b != Class(sp.size) ==> free[b] == old(free[b])
      requires var l := free[Class(sp.size)];
               && (forall i, j :: 0 <= i < j < |l| ==> l[i].offset < l[j].offset)
               && (forall s :: s in l <==> s in old(free[Class(sp.size)]) || s == sp)
      ensures FreeOk()
    {
      forall b | 0 <= b < NBUCKET
        ensures Bucket(b, free[b])
      {
        assert old(Bucket(b, free[b]));
        assert forall i :: 0 <= i < |free[b]| ==> free[b][i] in free[b];
      }
    }

    /** remfree. */
    method RemFree(sp: Smf)
      requires Lists() && sp in order && !sp.alloc && sp !in loose
      modifies this`free, this`loose, {sp}`flist
      ensures Lists() && loose == old(loose) + {sp}
    {
      hide Bucket, NoRepeats;
      var b := Class(sp.size);
      BucketOf(sp);
      WithoutSorted(free[b], sp);
      WithoutOk(free[b], sp);
      free := free[b := Without(free[b], sp)];
      sp.flist := -1;
      loose := loose + {sp};
      Removed(sp);
    }

    lemma BucketOf(sp: Smf)
      requires FreeOk() && sp in order && !sp.alloc && sp !in loose
      ensures sp in free[Class(sp.size)] && sp.flist == Class(sp.size)
      ensures var l := free[Class(sp.size)]; forall i, j :: 0 <= i < j < |l| ==> l[i].offset < l[j].offset
    {
      assert Bucket(Class(sp.size), free[Class(sp.size)]);
    }

    twostate lemma Removed(sp: Smf)
      requires old(FreeOk()) && sp !in old(loose) && loose == old(loose) + {sp}
      requires order == old(order) && sp in order && !sp.alloc && sp.flist == -1
      requires |free| == NBUCKET && unchanged(order`size) && unchanged(order`alloc) && unchanged(order`offset)
      requires forall s :: s in order && s != sp ==> s.flist == old(s.flist)
      requires forall b :: 0 <= b < NBUCKET && b != Class(sp.size) ==> free[b] == old(free[b])
      requires var l := free[Class(sp.size)];
               && (forall i, j :: 0 <= i < j < |l| ==> l[i].offset < l[j].offset)
               && (forall s :: s in l <==> s in old(free[Class(sp.size)]) && s != sp)
      ensures FreeOk()
    {
      forall b | 0 <= b < NBUCKET
        ensures Bucket(b, free[b])
      {
        assert old(Bucket(b, free[b]));
        assert forall i :: 0 <= i < |free[b]| ==> free[b][i] in free[b];
      }
    }

    /* ---- freeing ---- */

    /** VTAILQ_REMOVE from the used list. */
    method Unuse(sp: Smf)
      requires Lists() && sp in order && sp !in loose && sp.alloc && sp.size > 0
      modifies this`used, this`loose, {sp}`alloc
      ensures Lists() && loose == old(loose) + {sp} && !sp.alloc
      ensures View() == old(View())[Index(sp) := old(View()[Index(sp)]).(free := true)]
      ensures used == Without(old(used), sp)
    {
      hide Bucket;
      WithoutOk(used, sp);
      used := Without(used, sp);
      sp.alloc := false;
      loose := loose + {sp};
      Unused(sp);
    }

    twostate lemma Unused(sp: Smf)
      requires old(FreeOk()) && sp !in old(loose) && loose == old(loose) + {sp} && old(sp.alloc) && !sp.alloc
      requires order == old(order) && sp in order && free == old(free)
      requires unchanged(order`size) && unchanged(order`offset) && unchanged(order`flist)
      requires forall s :: s in order && s != sp ==> s.alloc == old(s.alloc)
      ensures FreeOk()
    {
      forall b | 0 <= b < NBUCKET
        ensures Bucket(b, free[b])
      {
        assert old(Bucket(b, free[b]));
        assert forall i :: 0 <= i < |free[b]| ==> free[b][i] in free[b];
      }
    }

    /** The extent at `i` of the order list swallows its right neighbour, both being loose. */
    method Absorb(i: nat)
      requires Lists() && i + 1 < |order| && order[i] in loose && order[i + 1] in loose
      requires Contiguous(E(order[i]), E(order[i + 1]))
      modifies this`order, this`loose, {order[i]}`size
      ensures Lists() && loose == old(loose) - {old(order[i + 1])}
      ensures order == old(order)[..i + 1] + old(order)[i + 2..]
      ensures View() == Merge(old(View()), i)
    {
      hide FreeOk, UsedOk;
      PagesMerge(i);
      var sp, sp2 := order[i], order[i + 1];
      sp.size := sp.size + sp2.size;
      order := order[..i + 1] + order[i + 2..];
      loose := loose - {sp2};
      Dropped(sp2);
      ViewMerged(i);
    }

    lemma PagesMerge(i: nat)
      requires Pages() && i + 1 < |order|
      ensures (order[i].size + order[i + 1].size) % pagesize == 0
      ensures order[i] in order && order[i + 1] in order && order[i] != order[i + 1]
      ensures var l := order[..i + 1] + order[i + 2..];
              NoRepeats(l) && (forall s :: s in l <==> s in order && s != order[i + 1])
    {
      var p, a, b := pagesize, order[i].size, order[i + 1].size;
      SumMod(p, a, b);
    }

    twostate lemma ViewMerged(i: nat)
      requires i + 1 < |old(order)| && order == old(order)[..i + 1] + old(order)[i + 2..]
      requires NoRepeats(old(order))
      requires unchanged(old(order)`ptr) && unchanged(old(order)`offset) && unchanged(old(order)`alloc)
      requires forall s :: s in old(order) && s != old(order[i]) ==> s.size == old(s.size)
      requires old(order)[i].size == old(order[i].size + order[i + 1].size)
      ensures View() == Merge(old(View()), i)
    {
      forall j | 0 <= j < |order|
        ensures View()[j] == Merge(old(View()), i)[j]
      {
        MergeAt(old(View()), i, j);
        assert order[j] == old(order)[if j <= i then j else j + 1];
        assert old(order)[if j <= i then j else j + 1] in old(order);
      }
    }

    /** An extent that is on no list leaves the order list. */
    twostate lemma Dropped(t: Smf)
      requires old(FreeOk() && UsedOk()) && t in old(loose) && loose == old(loose) - {t}
      requires forall s :: s in order <==> s in old(order) && s != t
      requires free == old(free) && used == old(used)
      requires unchanged(old(order)`alloc) && unchanged(old(order)`offset) && unchanged(old(order)`flist)
      requires forall s :: s in old(order) && s !in old(loose) ==> s.size == old(s.size)
      ensures FreeOk() && UsedOk()
    {
      forall b | 0 <= b < NBUCKET
        ensures Bucket(b, free[b])
      {
        assert old(Bucket(b, free[b]));
        assert forall i :: 0 <= i < |free[b]| ==> free[b][i] in free[b];
      }
      assert forall b, i :: 0 <= b < NBUCKET && 0 <= i < |free[b]| ==> Bucket(b, free[b]) && free[b][i] in free[b];
    }

    /** All extents are on lists, and only those next to the one at `i` may be uncoalesced. */
    ghost predicate CoreBut(i: nat)
      reads this`order, this`free, this`used, this`loose, this`mapped, order
    {
      Lists() && loose == {} && OneToOne(mapped) && GoodBut(View(), i, mapped)
    }

    /** The extents that stay used have not changed. */
    twostate predicate UsedKept()
      reads this`used, used`size, used`ptr, used`offset
    {
      forall s :: s in old(used) && s in used ==>
        s.size == old(s.size) && s.ptr == old(s.ptr) && s.offset == old(s.offset)
    }

    /** The same, but for the size of `sp`. */
    twostate predicate UsedKeptBut(sp: Smf)
      reads this`used, used`size, used`ptr, used`offset
    {
      forall s :: s in old(used) && s in used ==>
        (s == sp || s.size == old(s.size)) && s.ptr == old(s.ptr) && s.offset == old(s.offset)
    }

    lemma FreeUnused(s: Smf)
      requires UsedOk() && !s.alloc
      ensures s !in used
    {
    }

    lemma InUsed(s: Smf)
      requires Lists() && loose == {} && s in order && s.alloc
      ensures s in used
    {
    }

    /** Merge the extent at `i`, which is loose, with its right neighbour if that is free and contiguous. */
    method MergeRight(i: nat)
      requires Lists() && i < |order| && loose == {order[i]} && !order[i].alloc
      modifies this`order, this`free, this`loose, order`flist, order`size
      ensures Lists() && i < |order| && order[i] == old(order[i]) && loose == old(loose) && !order[i].alloc
      ensures UsedKept()
      ensures forall j :: 0 <= j < |order| ==> order[j] in old(order)
      ensures View() == MergedRight(old(View()), i)
    {
      hide FreeOk, UsedOk, NoRepeats, View, ExtentsOf;
      assert order[i] in order;
      if i + 1 < |order| {
        var sp, sp2 := order[i], order[i + 1];
        assert sp2 in order;
        Distinct(i);
        if !sp2.alloc && sp2.ptr == sp.ptr + sp.size && sp2.offset == sp.offset + sp.size {
          FreeUnused(sp);
          RemFree(sp2);
          Absorb(i);
        }
      }
    }

    /** Merge the extent at `i`, which is loose, into its left neighbour if that is free and contiguous. */
    method MergeLeft(i: nat) returns (sp: Smf)
      requires Lists() && i < |order| && loose == {order[i]} && !order[i].alloc
      modifies this`order, this`free, this`loose, order`flist, order`size
      ensures Lists() && sp in order && loose == {sp} && !sp.alloc
      ensures UsedKept()
      ensures forall j :: 0 <= j < |order| ==> order[j] in old(order)
      ensures View() == MergedLeft(old(View()), i)
    {
      hide FreeOk, UsedOk, NoRepeats, View, ExtentsOf;
      sp := order[i];
      assert sp in order;
      if 0 < i {
        var sp2 := order[i - 1];
        assert sp2 in order;
        Distinct(i - 1);
        if !sp2.alloc && sp.ptr == sp2.ptr + sp2.size && sp.offset == sp2.offset + sp2.size {
          FreeUnused(sp2);
          RemFree(sp2);
          Absorb(i - 1);
          sp := sp2;
        }
      }
    }

    lemma Distinct(i: nat)
      requires Pages() && i + 1 < |order|
      ensures order[i] != order[i + 1]
    {
    }

    /** free_smf: merge forward and backward, then sort into a free list. The code asserts that the extent is not
        empty. */
    method FreeSmf(sp: Smf)
      requires sp in order && NoRepeats(order) && CoreBut(Index(sp)) && sp.alloc && sp.size > 0
      modifies this`order, this`free, this`used, this`loose, order`flist, order`size, {sp}`alloc
      ensures Core() && View() == Freed(old(View()), old(Index(sp)))
      ensures used == Without(old(used), sp) && UsedKept()
      ensures Allocated(View()) == old(Allocated(View())) - old(sp.size)
      ensures forall j :: 0 <= j < |order| ==> order[j] in old(order)
    {
      hide Allocated, Lists, NoRepeats, Freed, OneToOne, View, ExtentsOf, Good, GoodBut, Without;
      var i := Index(sp);
      FreedGood(View(), i, mapped);
      var p := Release(sp);
      Settle(p);
    }

    /** The extent leaves the used list and is merged with its neighbours. */
    method Release(sp: Smf) returns (p: Smf)
      requires sp in order && NoRepeats(order) && Lists() && loose == {} && sp.alloc && sp.size > 0
      modifies this`order, this`free, this`used, this`loose, order`flist, order`size, {sp}`alloc
      ensures Lists() && p in order && loose == {p} && !p.alloc
      ensures View() == Freed(old(View()), old(Index(sp)))
      ensures used == Without(old(used), sp) && UsedKept()
      ensures forall j :: 0 <= j < |order| ==> order[j] in old(order)
    {
      hide FreeOk, UsedOk, NoRepeats, Freed, Pages, View, ExtentsOf, Without;
      var i := Index(sp);
      ghost var v := View();
      Unuse(sp);
      p := MergeBoth(i, v);
    }

    /** The last loose extent goes on its free list. */
    method Settle(p: Smf)
      requires Lists() && p in order && loose == {p} && !p.alloc && Good(View(), mapped) && OneToOne(mapped)
      modifies this`free, this`loose, {p}`flist
      ensures Core() && View() == old(View())
    {
      hide FreeOk, UsedOk, NoRepeats, Pages, OneToOne, View, ExtentsOf, Good;
      FreeNotEmpty();
      AllOffsetsDiffer(p);
      InsFree(p);
    }

    lemma FreeNotEmpty()
      requires Pages()
      ensures forall s :: s in order && !s.alloc ==> s.size > 0
    {
    }

    /** The two merges of free_smf. */
    method MergeBoth(i: nat, ghost v: seq<Extent>) returns (p: Smf)
      requires Lists() && i < |order| && loose == {order[i]} && !order[i].alloc
      requires |v| == |order| && View() == v[i := v[i].(free := true)]
      modifies this`order, this`free, this`loose, order`flist, order`size
      ensures Lists() && p in order && loose == {p} && !p.alloc
      ensures UsedKept()
      ensures forall j :: 0 <= j < |order| ==> order[j] in old(order)
      ensures View() == Freed(v, i)
    {
      hide FreeOk, UsedOk, NoRepeats, MergedRight, MergedLeft, Pages, View, ExtentsOf;
      MergeRight(i);
      p := MergeLeft(i);
    }

    /** Two extents with bytes in them never start at the same offset of the file. */
    lemma AllOffsetsDiffer(s: Smf)
      requires Pages() && s in order && s.size > 0 && Good(View(), mapped) && OneToOne(mapped)
      ensures forall t :: t in order && t != s && t.size > 0 ==> t.offset != s.offset
    {
      forall t | t in order && t != s && t.size > 0
        ensures t.offset != s.offset
      {
        var i, j := Index(s), Index(t);
        if i < j {
          OffsetsDiffer(View(), mapped, i, j);
        } else {
          OffsetsDiffer(View(), mapped, j, i);
        }
      }
    }

    /* ---- allocating ---- */

    /** A free extent that is large enough. */
    predicate Fits(s: Smf, bytes: nat)
      reads s`alloc, s`size
    {
      !s.alloc && s.size >= bytes
    }

    ghost predicate Preferred(s: Smf, t: Smf)
      reads s, t
    {
      InFront(E(s), E(t), pagesize)
    }

    /** The size classes keep to that order. */
    lemma ByClass(s: Smf, t: Smf)
      requires pagesize > 0 && s.size % pagesize == 0 && t.size % pagesize == 0
      requires Class(s.size) < Class(t.size) || (Class(s.size) == Class(t.size) && s.offset <= t.offset)
      ensures Preferred(s, t)
    {
      InPages(s.size, t.size);
      InPages(t.size, s.size);
    }

    lemma InPages(m: nat, n: nat)
      requires pagesize > 0 && m % pagesize == 0 && n % pagesize == 0
      ensures m < n <==> m / pagesize < n / pagesize
      ensures m < 32 * pagesize <==> m / pagesize < 32
    {
      var p, a, b := pagesize, m / pagesize, n / pagesize;
      assert m == p * a && n == p * b;
      if a < b {
        MulMonotone(p, a + 1, b);
      } else {
        MulMonotone(p, b, a);
      }
      if a < 32 {
        MulMonotone(p, a + 1, 32);
      } else {
        MulMonotone(p, 32, a);
      }
    }

    ghost predicate NoneFits(bytes: nat)
      reads this`order, order`alloc, order`size
    {
      forall s :: s in order ==> !Fits(s, bytes)
    }

    /** `sp` is the preferred extent that fits. */
    ghost predicate BestFit(sp: Smf, bytes: nat)
      reads this`order, order, sp
    {
      pagesize > 0 && sp in order && Fits(sp, bytes) && forall s :: s in order && Fits(s, bytes) ==> Preferred(sp, s)
    }

    /** `sp` is the first one that fits in the first class that has one. */
    ghost predicate FirstFit(sp: Smf, bytes: nat)
      reads this`order, order`alloc, order`size, order`offset, sp
    {
      && pagesize > 0 && sp in order && Fits(sp, bytes)
      && forall s :: s in order && Fits(s, bytes) ==>
        Class(sp.size) < Class(s.size) || (Class(sp.size) == Class(s.size) && sp.offset <= s.offset)
    }

    /** The search of alloc_smf: null if nothing fits, else the first extent that fits. */
    method Pick(bytes: nat) returns (sp: Smf?)
      requires Lists() && loose == {} && bytes % pagesize == 0
      ensures sp == null <==> NoneFits(bytes)
      ensures sp != null ==> FirstFit(sp, bytes)
    {
      hide NoRepeats, UsedOk;
      ghost var b0 := Class(bytes);
      var b := Class(bytes);
      while b < NBUCKET - 1 && free[b] == []
        invariant b0 <= b < NBUCKET
        invariant forall c :: b0 <= c < b ==> free[c] == []
      {
        b := b + 1;
      }
      Buckets(bytes);
      if b < NBUCKET - 1 {
        sp := free[b][0];
        assert sp in free[b] && Bucket(b, free[b]);
        FullClass(bytes, sp.size);
        FirstOffset(b, 0);
        return;
      }
      sp := PickLarge(bytes);
    }

    /** The search of the last class, when those before it have nothing. */
    method PickLarge(bytes: nat) returns (sp: Smf?)
      requires Lists() && loose == {} && bytes % pagesize == 0
      requires forall c :: Class(bytes) <= c < NBUCKET - 1 ==> free[c] == []
      ensures sp == null <==> NoneFits(bytes)
      ensures sp != null ==> FirstFit(sp, bytes)
    {
      hide NoRepeats, UsedOk;
      var b, i := NBUCKET - 1, 0;
      Buckets(bytes);
      assert Bucket(b, free[b]);
      while i < |free[b]| && free[b][i].size < bytes
        invariant 0 <= i <= |free[b]|
        invariant forall j :: 0 <= j < i ==> free[b][j].size < bytes
      {
        i := i + 1;
      }
      if i == |free[b]| {
        return null;
      }
      sp := free[b][i];
      assert sp in free[b];
      FirstOffset(b, i);
    }

    /** That is the preferred one. */
    lemma FirstIsBest(sp: Smf, bytes: nat)
      requires Pages() && FirstFit(sp, bytes)
      ensures BestFit(sp, bytes)
    {
      hide Class, Preferred, NoRepeats;
      forall s | s in order && Fits(s, bytes)
        ensures Preferred(sp, s)
      {
        ByClass(sp, s);
      }
    }

    /** What fits is in a bucket the search looks at. */
    lemma Buckets(bytes: nat)
      requires FreeOk() && loose == {}
      ensures forall s :: s in order && Fits(s, bytes) ==> Class(bytes) <= Class(s.size) && s in free[Class(s.size)]
    {
      forall s | s in order && Fits(s, bytes)
        ensures Class(bytes) <= Class(s.size)
      {
        DivMonotone(bytes, s.size, pagesize);
      }
    }

    /** Below the last class, all extents of a class have the same size. */
    lemma FullClass(bytes: nat, size: nat)
      requires pagesize > 0 && bytes % pagesize == 0 && size % pagesize == 0
      requires Class(bytes) <= Class(size) < NBUCKET - 1
      ensures bytes <= size
    {
      assert bytes == pagesize * (bytes / pagesize) && size == pagesize * (size / pagesize);
      MulMonotone(pagesize, bytes / pagesize, size / pagesize);
    }

    lemma FirstOffset(b: nat, i: nat)
      requires FreeOk() && b < NBUCKET && i < |free[b]|
      ensures forall j :: i <= j < |free[b]| ==> free[b][i].offset <= free[b][j].offset
    {
      assert Bucket(b, free[b]);
    }

    /** Split the loose free extent `sp`: the front, `bytes` long, becomes a used extent. */
    method CutFront(sp: Smf, bytes: nat) returns (sp2: Smf)
      requires Lists() && sp in order && loose == {sp} && !sp.alloc
      requires bytes < sp.size && bytes % pagesize == 0
      modifies this`order, this`used, {sp}`offset, {sp}`ptr, {sp}`size
      ensures Lists() && loose == {sp} && sp in order
      ensures fresh(sp2) && order == old(order)[..old(Index(sp))] + [sp2] + old(order)[old(Index(sp))..]
      ensures sp2.size == bytes && sp2.alloc && sp2.ptr == old(sp.ptr) && sp2.offset == old(sp.offset)
      ensures used == old(used) + [sp2]
      ensures View() == Split(old(View()), old(Index(sp)), bytes, false)
    {
      hide FreeOk, UsedOk, NoRepeats, View, ExtentsOf;
      var i := Index(sp);
      SumMod(pagesize, sp.size, bytes);
      sp2 := new Smf(sp.ptr, sp.offset, bytes);
      NoRepeatsInsert(order, i, sp2);
      sp.offset := sp.offset + bytes;
      sp.ptr := sp.ptr + bytes;
      sp.size := sp.size - bytes;
      order := order[..i] + [sp2] + order[i..];
      used := used + [sp2];
      Grown(sp2);
      ViewSplit(i);
    }

    /** A new used extent joins the order list. */
    twostate lemma Grown(new t: Smf)
      requires old(FreeOk() && UsedOk()) && loose == old(loose) && t.alloc && t.flist == -1
      requires t !in old(order) && t !in loose && forall s :: s in order <==> s in old(order) || s == t
      requires free == old(free) && (used == old(used) + [t] || used == [t] + old(used))
      requires unchanged(old(order)`alloc) && unchanged(old(order)`flist)
      requires forall s :: s in old(order) && s !in loose && !s.alloc ==>
        s.size == old(s.size) && s.offset == old(s.offset)
      ensures FreeOk() && UsedOk()
    {
      forall b | 0 <= b < NBUCKET
        ensures Bucket(b, free[b])
      {
        assert old(Bucket(b, free[b]));
        assert forall i :: 0 <= i < |free[b]| ==> free[b][i] in free[b];
      }
      assert forall b, i :: 0 <= b < NBUCKET && 0 <= i < |free[b]| ==> Bucket(b, free[b]) && free[b][i] in free[b];
    }

    twostate lemma ViewSplit(i: nat)
      requires i < |old(order)| && NoRepeats(old(order)) && |order| == |old(order)| + 1
      requires order == old(order)[..i] + [order[i]] + old(order)[i..] && order[i] !in old(order)
      requires unchanged(old(order)`alloc)
      requires forall s :: s in old(order) && s != order[i + 1] ==>
        s.ptr == old(s.ptr) && s.offset == old(s.offset) && s.size == old(s.size)
      requires var s, t := order[i], order[i + 1];
               && t == old(order)[i]
               && s.alloc && s.size < old(t.size) && s.ptr == old(t.ptr) && s.offset == old(t.offset)
               && t.size == old(t.size) - s.size && t.ptr == old(t.ptr) + s.size && t.offset == old(t.offset) + s.size
      ensures View() == Split(old(View()), i, order[i].size, false)
    {
      hide Split, ExtentsOf;
      SplitAt(old(View()), i, order[i].size, false, 0);
      forall j | 0 <= j < |order|
        ensures View()[j] == Split(old(View()), i, order[i].size, false)[j]
      {
        SplitAt(old(View()), i, order[i].size, false, j);
        if j != i {
          assert order[j] == old(order)[if j < i then j else j - 1];
          assert order[j] in old(order);
        }
      }
    }

    /** alloc_smf: the chosen extent, cut to size. */
    method AllocSmf(bytes: nat) returns (sp: Smf?, ghost at: nat)
      requires Core() && bytes % pagesize == 0
      modifies this`order, this`free, this`used, this`loose
      modifies order`flist, order`size, order`alloc, order`offset, order`ptr
      ensures Core()
      ensures sp == null <==> old(NoneFits(bytes))
      ensures sp == null ==> View() == old(View()) && order == old(order) && used == old(used)
      ensures sp != null ==> Chosen(sp, at, bytes) && used == old(used) + [sp] && UsedKept()
      ensures sp != null ==> sp.size == bytes && Allocated(View()) == old(Allocated(View())) + bytes
      ensures Positive(View()) <==> old(Positive(View())) && (sp == null || bytes > 0)
      ensures forall j :: 0 <= j < |order| ==> order[j] in old(order) || fresh(order[j])
    {
      hide FreeOk, UsedOk, NoRepeats, View, ExtentsOf, OneToOne, Good, Bucket, Fits, Taken, Preferred, Class, Allocated;
      at := 0;
      var s := Pick(bytes);
      if s == null {
        return null, at;
      }
      FirstIsBest(s, bytes);
      FitsSize(s, bytes);
      at := Index(s);
      sp := Take(s, bytes);
    }

    lemma FitsSize(s: Smf, bytes: nat)
      requires Fits(s, bytes)
      ensures !s.alloc && s.size >= bytes
    {
    }

    /** Take `bytes` from the front of the free extent `s`. */
    method Take(s: Smf, bytes: nat) returns (sp: Smf)
      requires Core() && s in order && NoRepeats(order) && !s.alloc && bytes <= s.size && bytes % pagesize == 0
      modifies this`order, this`free, this`used, this`loose, {s}`flist, {s}`size, {s}`alloc, {s}`offset, {s}`ptr
      ensures Core() && View() == Taken(old(View()), old(Index(s)), bytes)
      ensures Allocated(View()) == old(Allocated(View())) + bytes
      ensures Positive(View()) <==> old(Positive(View())) && bytes > 0
      ensures old(Index(s)) < |order| && order[old(Index(s))] == sp && sp.alloc && sp.size == bytes
      ensures used == old(used) + [sp] && UsedKept()
      ensures forall j :: 0 <= j < |order| ==> order[j] in old(order) || fresh(order[j])
    {
      hide FreeOk, UsedOk, NoRepeats, View, ExtentsOf, OneToOne, Good, Bucket, Split, Allocated, Positive;
      ghost var v, at := View(), Index(s);
      FreeNotEmpty();
      TakenGood(v, at, bytes, mapped);
      TakenPositive(v, at, bytes);
      FreeUnused(s);
      RemFree(s);
      if s.size == bytes {
        Use(s);
        sp := s;
      } else {
        sp := CutFront(s, bytes);
        assert View() == Taken(v, at, bytes);
        Settle(s);
      }
    }

    /** What alloc_smf did: `sp` is the front of the preferred extent that fits. */
    twostate predicate Chosen(new sp: Smf, i: nat, bytes: nat)
      reads this`order, order, sp
    {
      && i < |old(order)| && i < |order| && order[i] == sp && sp.alloc && sp.size == bytes
      && old(BestFit(order[i], bytes))
      && View() == Taken(old(View()), i, bytes)
    }

    /** A loose extent becomes used. */
    method Use(sp: Smf)
      requires Lists() && sp in order && loose == {sp} && !sp.alloc
      modifies this`used, this`loose, {sp}`alloc
      ensures Lists() && loose == {} && sp.alloc
      ensures View() == old(View())[Index(sp) := old(View()[Index(sp)]).(free := false)]
      ensures used == old(used) + [sp]
    {
      hide Bucket;
      sp.alloc := true;
      used := used + [sp];
      loose := {};
      Reused(sp);
    }

    twostate lemma Reused(sp: Smf)
      requires old(FreeOk()) && sp in old(loose) && loose == old(loose) - {sp} && sp.alloc
      requires order == old(order) && sp in order && free == old(free)
      requires unchanged(order`size) && unchanged(order`offset) && unchanged(order`flist)
      requires forall s :: s in order && s != sp ==> s.alloc == old(s.alloc)
      ensures FreeOk()
    {
      forall b | 0 <= b < NBUCKET
        ensures Bucket(b, free[b])
      {
        assert old(Bucket(b, free[b]));
        assert forall i :: 0 <= i < |free[b]| ==> free[b][i] in free[b];
      }
    }

    /* ---- trimming ---- */

    /** trim_smf: cut the tail off a used extent and free it. */
    method TrimSmf(sp: Smf, bytes: nat)
      requires Core() && sp in order && NoRepeats(order) && sp.alloc && 0 < bytes < sp.size && bytes % pagesize == 0
      modifies this`order, this`free, this`used, this`loose, order`flist, order`size
      ensures Core() && View() == Trimmed(old(View()), old(Index(sp)), bytes)
      ensures used == old(used) && UsedKeptBut(sp) && sp.size == bytes
      ensures Allocated(View()) == old(Allocated(View())) - (old(sp.size) - bytes)
      ensures forall j :: 0 <= j < |order| ==> order[j] in old(order) || fresh(order[j])
    {
      hide FreeOk, UsedOk, NoRepeats, View, ExtentsOf, OneToOne, Good, GoodBut, Bucket, Freed, Split, Allocated;
      ghost var v, at := View(), Index(sp);
      InUsed(sp);
      TrimmedGood(v, at, bytes, mapped);
      var sp2 := CutTail(sp, bytes);
      FreeSmf(sp2);
      WithoutLast(old(used), sp2);
    }

    /** Split the used extent `sp` after `bytes`: the tail becomes a new used extent. */
    method CutTail(sp: Smf, bytes: nat) returns (sp2: Smf)
      requires Lists() && sp in order && loose == {} && sp.alloc && 0 < bytes < sp.size && bytes % pagesize == 0
      modifies this`order, this`used, {sp}`size
      ensures Lists() && loose == {} && fresh(sp2) && sp2.alloc && sp2.size == old(sp.size) - bytes
      ensures order == old(order)[..old(Index(sp)) + 1] + [sp2] + old(order)[old(Index(sp)) + 1..]
      ensures used == old(used) + [sp2] && sp.size == bytes && Index(sp2) == old(Index(sp)) + 1
      ensures View() == Split(old(View()), old(Index(sp)), bytes, false)
    {
      hide FreeOk, UsedOk, NoRepeats, View, ExtentsOf;
      var i := Index(sp);
      SumMod(pagesize, sp.size, bytes);
      sp2 := new Smf(sp.ptr + bytes, sp.offset + bytes, sp.size - bytes);
      NoRepeatsInsert(order, i + 1, sp2);
      sp.size := bytes;
      order := order[..i + 1] + [sp2] + order[i + 1..];
      used := used + [sp2];
      Grown(sp2);
      ViewTrimmed(i);
    }

    twostate lemma ViewTrimmed(i: nat)
      requires i < |old(order)| && NoRepeats(old(order)) && |order| == |old(order)| + 1
      requires order == old(order)[..i + 1] + [order[i + 1]] + old(order)[i + 1..] && order[i + 1] !in old(order)
      requires unchanged(old(order)`alloc) && unchanged(old(order)`ptr) && unchanged(old(order)`offset)
      requires forall s :: s in old(order) && s != order[i] ==> s.size == old(s.size)
      requires var s, t := order[i], order[i + 1];
               && s == old(order)[i]
               && s.alloc && t.alloc && 0 < s.size < old(s.size)
               && t.ptr == s.ptr + s.size && t.offset == s.offset + s.size && t.size == old(s.size) - s.size
      ensures View() == Split(old(View()), i, order[i].size, false)
    {
      hide Split, ExtentsOf;
      SplitAt(old(View()), i, order[i].size, false, 0);
      forall j | 0 <= j < |order|
        ensures View()[j] == Split(old(View()), i, order[i].size, false)[j]
      {
        SplitAt(old(View()), i, order[i].size, false, j);
        if j != i + 1 {
          assert order[j] == old(order)[if j <= i then j else j - 1];
          assert order[j] in old(order);
        }
      }
    }

    /* ---- new memory ---- */

    /** new_smf: a newly mapped range goes in by address, as used, and is freed to do any collapses. */
    method NewSmf(ptr: nat, off: nat, len: nat) returns (ghost k: nat)
      requires Core() && Positive(View()) && len > 0 && len % pagesize == 0
      requires Apart(mapped, Extent(ptr, off, len, false))
      modifies this`order, this`free, this`used, this`loose, this`mapped, order`flist, order`size
      ensures Core() && mapped == old(mapped) + Bytes([Extent(ptr, off, len, false)])
      ensures k <= |old(order)| && View() == Added(old(View()), k, Extent(ptr, off, len, false))
      ensures used == old(used) && UsedKept() && Allocated(View()) == old(Allocated(View()))
      ensures forall j :: 0 <= j < |order| ==> order[j] in old(order) || fresh(order[j])
    {
      hide FreeOk, UsedOk, NoRepeats, View, ExtentsOf, OneToOne, Good, GoodBut, Bucket, Freed, Allocated, Bytes, Apart,
        Positive, Class;
      ghost var v, e := View(), Extent(ptr, off, len, false);
      var sp := new Smf(ptr, off, len);
      k := PutByAddress(sp);
      NewFits(v, mapped, k, e);
      AddedGood(v, k, e, mapped);
      OneToOneAdd(mapped, e);
      mapped := mapped + Bytes([e]);
      FreeSmf(sp);
    }

    /** The loop of new_smf: before the first extent at a higher address, and at the head of used. */
    method PutByAddress(sp: Smf) returns (i: nat)
      requires Lists() && loose == {} && sp !in order && sp.alloc && sp.flist == -1
      requires sp.size > 0 && sp.size % pagesize == 0
      modifies this`order, this`used
      ensures Lists() && loose == {} && i <= |old(order)| && sp in order && Index(sp) == i
      ensures order == old(order)[..i] + [sp] + old(order)[i..] && used == [sp] + old(used)
      ensures View() == old(View())[..i] + [E(sp)] + old(View())[i..]
      ensures forall s :: s in order <==> s in old(order) || s == sp
      ensures forall j :: 0 <= j < i ==> old(View())[j].ptr <= sp.ptr
      ensures i < |old(order)| ==> sp.ptr < old(View())[i].ptr
    {
      hide FreeOk, UsedOk, NoRepeats, View, ExtentsOf;
      i := 0;
      while i < |order| && order[i].ptr <= sp.ptr
        invariant 0 <= i <= |order|
        invariant forall j :: 0 <= j < i ==> order[j].ptr <= sp.ptr
      {
        i := i + 1;
      }
      NoRepeatsInsert(order, i, sp);
      order := order[..i] + [sp] + order[i..];
      used := [sp] + used;
      Grown(sp);
      ViewPut(i);
    }

    twostate lemma ViewPut(i: nat)
      requires i <= |old(order)| && |order| == |old(order)| + 1
      requires order == old(order)[..i] + [order[i]] + old(order)[i..]
      requires unchanged(old(order))
      ensures View() == old(View())[..i] + [E(order[i])] + old(View())[i..]
      ensures forall j :: 0 <= j < |old(order)| ==> old(View())[j] == E(old(order)[j])
    {
      forall j | 0 <= j < |order| && j != i
        ensures View()[j] == old(View())[if j < i then j else j - 1]
      {
        assert order[j] == old(order)[if j < i then j else j - 1];
        assert order[j] in old(order);
      }
    }

    /* ---- the stevedore ---- */

    /** smf_alloc. A size that rounds to zero is handed out as an empty extent, in front of the preferred free one. */
    method SmfAlloc(size: nat) returns (sp: Smf?, ghost at: nat)
      requires Valid() && size > 0
      modifies this`order, this`free, this`used, this`loose, this`balloc, this`bfree
      modifies order`flist, order`size, order`alloc, order`offset, order`ptr
      ensures Valid() && balloc + bfree == old(balloc + bfree)
      ensures sp == null <==> old(NoneFits(Rounded(size, pagesize)))
      ensures sp == null ==> View() == old(View()) && order == old(order) && used == old(used)
      ensures sp != null ==> Chosen(sp, at, Rounded(size, pagesize)) && used == old(used) + [sp] && UsedKept()
      ensures Positive(View()) <==> old(Positive(View())) && (sp == null || Rounded(size, pagesize) > 0)
      ensures sp != null && size < WORD && old(Positive(View())) ==>
        (Positive(View()) <==> size + (pagesize - 1) < WORD)
      ensures forall j :: 0 <= j < |order| ==> order[j] in old(order) || fresh(order[j])
    {
      hide FreeOk, UsedOk, NoRepeats, View, ExtentsOf, OneToOne, Good, BestFit, NoneFits, Taken, Allocated, Rounded,
        Positive, UsedFit, Lists;
      RoundedPages(size, pagesize);
      if size < WORD {
        RoundedToZero(size, pagesize);
      }
      var n := Rounded(size, pagesize);
      sp, at := AllocSmf(n);
      if sp != null {
        balloc := balloc + sp.size;
        bfree := bfree - sp.size;
        StillFit(sp);
      }
    }

    /** All but `sp` are handed out as before. */
    twostate lemma StillFit(new sp: Smf)
      requires old(Lists() && UsedFit()) && (sp in used ==> sp.size < WORD)
      requires forall s :: s in used && s != sp ==> s in old(used) && s.size == old(s.size)
      ensures UsedFit()
    {
    }

    /** smf_trim. */
    method SmfTrim(sp: Smf, size: nat)
      requires Valid() && sp in used && 0 < size <= sp.size
      modifies this`order, this`free, this`used, this`loose, this`balloc, this`bfree, order`flist, order`size
      ensures Valid() && balloc + bfree == old(balloc + bfree)
      ensures sp.size == Rounded(size, pagesize) <= old(sp.size) && used == old(used) && UsedKeptBut(sp)
      ensures sp.size < old(sp.size) ==>
        sp in old(order) && NoRepeats(old(order)) && View() == Trimmed(old(View()), old(Index(sp)), sp.size)
      ensures sp.size == old(sp.size) ==> View() == old(View()) && order == old(order)
      ensures Positive(View()) <==> old(Positive(View()))
      ensures forall j :: 0 <= j < |order| ==> order[j] in old(order) || fresh(order[j])
    {
      hide Lists, NoRepeats, View, ExtentsOf, OneToOne, Good, Trimmed, Allocated, Positive, UsedFit;
      InUse(sp);
      RoundedPages(size, pagesize);
      RoundedLeast(size, pagesize, sp.size);
      var n := Rounded(size, pagesize);
      if sp.size > n {
        GoodIsOrdered(Index(sp));
        TrimmedPositive(View(), Index(sp), n);
        balloc := balloc - (sp.size - n);
        bfree := bfree + (sp.size - n);
        TrimSmf(sp, n);
        StillFit(sp);
      }
    }

    lemma GoodIsOrdered(i: nat)
      requires Core() && i < |order|
      ensures Ordered(View()) && View()[i] == E(order[i])
    {
    }

    /** smf_free, of an extent that is not empty. */
    method SmfFree(sp: Smf)
      requires Valid() && sp in used && sp.size > 0
      modifies this`order, this`free, this`used, this`loose, this`balloc, this`bfree
      modifies order`flist, order`size, {sp}`alloc
      ensures Valid() && balloc + bfree == old(balloc + bfree)
      ensures sp in old(order) && NoRepeats(old(order)) && View() == Freed(old(View()), old(Index(sp)))
      ensures used == Without(old(used), sp) && UsedKept()
      ensures Positive(View()) <==> old(Positive(View()))
      ensures forall j :: 0 <= j < |order| ==> order[j] in old(order)
    {
      hide Lists, View, ExtentsOf, OneToOne, Good, GoodBut, Freed, Allocated, Positive, UsedFit, Without, NoRepeats,
        Class;
      Freeable(sp);
      balloc := balloc - sp.size;
      bfree := bfree + sp.size;
      FreeSmf(sp);
      StillFit(sp);
    }

    /** What free_smf takes for granted, and what it will leave. */
    lemma Freeable(sp: Smf)
      requires Core() && sp in used && sp.size > 0
      ensures sp in order && NoRepeats(order) && sp.alloc && CoreBut(Index(sp))
      ensures Positive(Freed(View(), Index(sp))) <==> Positive(View())
      ensures forall s :: s in Without(used, sp) ==> s in used && s != sp
    {
      hide Lists, View, ExtentsOf, OneToOne, Good, Freed, Positive, Without, NoRepeats;
      InUse(sp);
      WithoutOk(used, sp);
      GoodEverywhere(View(), Index(sp), mapped);
      GoodIsOrdered(Index(sp));
      FreedPositive(View(), Index(sp));
    }

    lemma InUse(sp: Smf)
      requires Lists() && sp in used
      ensures sp in order && sp.alloc && NoRepeats(used) && NoRepeats(order)
      ensures sp.size % pagesize == 0 && (UsedFit() ==> sp.size < WORD)
    {
    }

    /** An allocation of `size` bytes gives an empty extent: the size rounds to zero, and something is free. */
    ghost predicate GivesNothing(op: Op)
      reads this`order, order`alloc, order`size
    {
      op.Alloc? && op.size > 0 && pagesize > 0 && Rounded(op.size, pagesize) == 0 && !NoneFits(0)
    }

    lemma PageOk()
      requires Valid()
      ensures pagesize > 0
    {
    }

    /** The allocator as a value: the extents of the file, and those handed out, in the order of that. */
    ghost function Abs(): State
      reads this`order, order`ptr, order`offset, order`size, order`alloc
      reads this`used, used`ptr, used`offset, used`size, used`alloc
    {
      State(View(), ExtentsOf(used))
    }

    /** Any run of allocations, trims and frees, up to one that frees an empty extent, does what each of them asks for,
        step by step, and keeps the allocator valid over the same bytes of the file, and the two byte counters add up to
        the same number. If no extent is empty at the start, none is and the run goes to its end unless some allocation
        rounds to zero. */
    method Run(ops: seq<Op>) returns (died: bool, ghost states: seq<State>)
      requires Valid()
      modifies this, order
      ensures Valid() && mapped == old(mapped) && balloc + bfree == old(balloc + bfree)
      ensures |states| > 0 && states[0] == old(Abs()) && states[|states| - 1] == Abs()
      ensures |states| <= |ops| + 1 && pagesize > 0
      ensures forall n :: 0 <= n < |states| - 1 ==> Step(ops[n], states[n], states[n + 1], pagesize)
      ensures if died then |states| > 1 && Fatal(ops[|states| - 2], states[|states| - 2]) else |states| == |ops| + 1
      ensures Positive(View()) ==> old(Positive(View())) && !died
      ensures old(Positive(View())) && (forall n :: 0 <= n < |ops| ==> RoundsToBytes(ops[n], pagesize)) ==>
        Positive(View())
    {
      hide Valid, Positive, View, Step, Abs;
      died, states := false, [Abs()];
      PageOk();
      for i := 0 to |ops|
        invariant Valid() && mapped == old(mapped) && balloc + bfree == old(balloc + bfree)
        invariant Positive(View()) ==> old(Positive(View()))
        invariant old(Positive(View())) && (forall n :: 0 <= n < i ==> RoundsToBytes(ops[n], pagesize)) ==>
          Positive(View())
        invariant forall j :: 0 <= j < |order| ==> order[j] in old(order) || fresh(order[j])
        invariant |states| == i + 1 && states[0] == old(Abs()) && states[i] == Abs()
        invariant forall n :: 0 <= n < i ==> Step(ops[n], states[n], states[n + 1], pagesize)
      {
        died := Do(ops[i]);
        states := states + [Abs()];
        if died {
          return;
        }
      }
    }

    /** One operation; one that its callers may not ask for does nothing. An empty extent comes from an allocation
        that rounds to zero, and from nothing else; freeing it is fatal. */
    method Do(op: Op) returns (died: bool)
      requires Valid()
      modifies this, order
      ensures Valid() && mapped == old(mapped) && balloc + bfree == old(balloc + bfree)
      ensures died <==> Fatal(op, old(Abs()))
      ensures pagesize > 0 && Step(op, old(Abs()), Abs(), pagesize)
      ensures Positive(View()) <==> old(Positive(View()) && !GivesNothing(op))
      ensures died ==> !Positive(View())
      ensures forall j :: 0 <= j < |order| ==> order[j] in old(order) || fresh(order[j])
    {
      hide Valid, Lists, View, ExtentsOf, Positive, NoneFits, Step;
      died := false;
      match op
      case Alloc(size) =>
        DoAlloc(size);
      case Trim(k, size) =>
        DoTrim(k, size);
      case Free(k) =>
        died := DoFree(k);
    }

    method DoAlloc(size: nat)
      requires Valid()
      modifies this`order, this`free, this`used, this`loose, this`balloc, this`bfree
      modifies order`flist, order`size, order`alloc, order`offset, order`ptr
      ensures Valid() && balloc + bfree == old(balloc + bfree)
      ensures pagesize > 0 && Step(Op.Alloc(size), old(Abs()), Abs(), pagesize)
      ensures Positive(View()) <==> old(Positive(View()) && !GivesNothing(Op.Alloc(size)))
      ensures forall j :: 0 <= j < |order| ==> order[j] in old(order) || fresh(order[j])
    {
      hide Lists, FreeOk, UsedOk, NoRepeats, View, ExtentsOf, OneToOne, Good, Allocated, Rounded, Positive, UsedFit,
        UsedKept, BestFit, BestAt, NoneFits, Taken, FitsAt;
      if size > 0 {
        ghost var n := Rounded(size, pagesize);
        NoneFitsAt(n);
        BestIs(n);
        var sp, at := SmfAlloc(size);
        if sp == null {
          SameValues();
        } else {
          Unmoved();
          MoreValues(sp);
          TakenAt(old(View()), at, n);
          assert Takes(old(Abs()), Abs(), at, n, pagesize);
        }
      }
    }

    /** What the search of alloc_smf compares, of the extents as values. */
    lemma NoneFitsAt(n: nat)
      ensures NoneFits(n) <==> !exists i: nat :: FitsAt(View(), i, n)
    {
      forall i: nat | FitsAt(View(), i, n)
        ensures order[i] in order && Fits(order[i], n)
      {
        assert View()[i] == E(order[i]);
      }
      forall i | 0 <= i < |order| && Fits(order[i], n)
        ensures FitsAt(View(), i, n)
      {
        assert View()[i] == E(order[i]);
      }
    }

    lemma BestIs(n: nat)
      ensures forall i :: 0 <= i < |order| && BestFit(order[i], n) ==>
        BestAt(View(), i, n, pagesize) && n <= View()[i].size
    {
      forall i, j: nat | 0 <= i < |order| && BestFit(order[i], n) && FitsAt(View(), j, n)
        ensures FitsAt(View(), i, n) && Preferred(order[i], order[j]) && View()[i] == E(order[i]) &&
          View()[j] == E(order[j])
      {
        assert View()[i] == E(order[i]) && View()[j] == E(order[j]) && order[j] in order;
      }
    }

    /** The extents that stay used have the values they had. */
    twostate lemma Unmoved()
      requires old(Valid()) && Valid() && UsedKept()
      ensures forall s :: s in used && s in old(used) ==> E(s) == old(E(s))
    {
      hide View, Good, NoRepeats, FreeOk, OneToOne, Allocated, ExtentsOf;
    }

    /** What is handed out, as values: the same, */
    twostate lemma SameValues()
      requires old(Valid()) && Valid() && used == old(used) && order == old(order) && View() == old(View())
      ensures ExtentsOf(used) == old(ExtentsOf(used))
    {
      hide View, Good, NoRepeats, FreeOk, OneToOne, Allocated, ExtentsOf;
      forall i | 0 <= i < |used|
        ensures ExtentsOf(used)[i] == old(ExtentsOf(used))[i]
      {
        assert used[i] in used && used[i] in order;
        var j :| 0 <= j < |order| && order[j] == used[i];
        assert View()[j] == E(order[j]) && old(View())[j] == old(E(order[j]));
      }
    }

    /** ... one more, */
    twostate lemma MoreValues(new sp: Smf)
      requires used == old(used) + [sp] && forall s :: s in old(used) ==> E(s) == old(E(s))
      ensures ExtentsOf(used) == old(ExtentsOf(used)) + [E(sp)]
    {
      hide ExtentsOf;
      forall i | 0 <= i < |old(used)|
        ensures ExtentsOf(used)[i] == old(ExtentsOf(used))[i]
      {
        assert used[i] == old(used)[i] && old(used)[i] in old(used);
      }
    }

    /** ... or one fewer. */
    twostate lemma LessValues(k: nat)
      requires k < |old(used)| && used == old(used)[..k] + old(used)[k + 1..]
      requires forall s :: s in used ==> E(s) == old(E(s))
      ensures ExtentsOf(used) == old(ExtentsOf(used))[..k] + old(ExtentsOf(used))[k + 1..]
    {
      hide ExtentsOf;
      ghost var v := old(ExtentsOf(used));
      forall i | 0 <= i < |used|
        ensures ExtentsOf(used)[i] == (v[..k] + v[k + 1..])[i]
      {
        var m := if i < k then i else i + 1;
        assert used[i] == old(used)[m] && v[m] == old(E(used[m])) && (v[..k] + v[k + 1..])[i] == v[m];
        assert used[i] in used && ExtentsOf(used)[i] == E(used[i]);
      }
    }

    /** ... or one of them smaller. */
    twostate lemma CutValues(k: nat)
      requires old(Valid()) && Valid() && used == old(used) && k < |used| && UsedKeptBut(used[k])
      ensures ExtentsOf(used) == old(ExtentsOf(used))[k := old(ExtentsOf(used))[k].(size := used[k].size)]
    {
      hide View, Good, FreeOk, OneToOne, Allocated, ExtentsOf;
      forall i | 0 <= i < |used|
        ensures used[i] in used && used[i] in old(used) && (i != k ==> used[i] != used[k])
      {
      }
    }

    method DoTrim(k: nat, size: nat)
      requires Valid()
      modifies this`order, this`free, this`used, this`loose, this`balloc, this`bfree, order`flist, order`size
      ensures Valid() && balloc + bfree == old(balloc + bfree)
      ensures pagesize > 0 && Step(Op.Trim(k, size), old(Abs()), Abs(), pagesize)
      ensures Positive(View()) <==> old(Positive(View()))
      ensures forall j :: 0 <= j < |order| ==> order[j] in old(order) || fresh(order[j])
    {
      hide Lists, FreeOk, UsedOk, NoRepeats, View, ExtentsOf, OneToOne, Good, Allocated, Rounded, Positive, UsedFit,
        UsedKept, Trimmed, UsedKeptBut;
      if k < |used| && 0 < size <= used[k].size {
        Placed(used[k]);
        ghost var s, at := Abs(), Index(used[k]);
        assert s.file[at] == s.used[k] == E(used[k]);
        SmfTrim(used[k], size);
        CutValues(k);
        assert Trims(s, Abs(), at, k, used[k].size);
      }
    }

    twostate lemma StillUsed(k: nat)
      requires k < |old(used)| && used == old(used)[..k] + old(used)[k + 1..]
      ensures forall s :: s in used ==> s in old(used)
    {
      forall i | 0 <= i < |used|
        ensures used[i] in old(used)
      {
        assert used[i] == old(used)[if i < k then i else i + 1];
      }
    }

    /** Where an extent that is handed out is in the file. */
    lemma Placed(sp: Smf)
      requires Valid() && sp in used
      ensures sp in order && NoRepeats(order) && NoRepeats(used) && pagesize > 0
      ensures View()[Index(sp)] == E(sp) == Extent(sp.ptr, sp.offset, sp.size, false)
    {
    }

    method DoFree(k: nat) returns (died: bool)
      requires Valid()
      modifies this`order, this`free, this`used, this`loose, this`balloc, this`bfree
      modifies order`flist, order`size, order`alloc
      ensures Valid() && balloc + bfree == old(balloc + bfree)
      ensures pagesize > 0 && Step(Op.Free(k), old(Abs()), Abs(), pagesize)
      ensures died <==> Fatal(Op.Free(k), old(Abs()))
      ensures Positive(View()) <==> old(Positive(View()))
      ensures died ==> !Positive(View())
      ensures forall j :: 0 <= j < |order| ==> order[j] in old(order)
    {
      hide Lists, FreeOk, UsedOk, NoRepeats, View, ExtentsOf, OneToOne, Good, Allocated, Rounded, Positive, UsedFit,
        UsedKept, Freed, Without;
      died := false;
      if k < |used| {
        var sp := used[k];
        Placed(sp);
        ghost var s, l, at := Abs(), used, Index(sp);
        assert s.file[at] == s.used[k] == E(sp);
        if sp.size == 0 {
          Empty(sp);
          return true;
        }
        SmfFree(sp);
        WithoutAt(l, k);
        Unmoved();
        StillUsed(k);
        LessValues(k);
        assert Frees(s, Abs(), at, k);
      }
    }

    lemma Empty(sp: Smf)
      requires sp in order && sp.size == 0
      ensures !Positive(View())
    {
      var i :| 0 <= i < |order| && order[i] == sp;
      assert View()[i].size == 0;
    }
  }

  /** A request for the largest 32-bit size, from the smallest file that smf_open takes, 128 pages, is given an extent
      of no bytes. */
  method EmptyExtent() returns (sc: SmfSc)
    ensures sc.Valid() && sc.order != [] && sc.order[0].alloc && sc.order[0].size == 0 && !Positive(sc.View())
  {
    hide SmfSc.FreeOk, SmfSc.UsedOk, ExtentsOf, Good, OneToOne, Bytes;
    LargestRoundsToZero();
    sc := new SmfSc(4096);
    var k := sc.NewSmf(4096, 0, 128 * 4096);
    assert sc.View() == [Extent(4096, 0, 128 * 4096, true)];
    assert sc.Fits(sc.order[0], 0);
    var sp, at := sc.SmfAlloc(0xFFFF_FFFF);
    assert sc.View()[0].size == 0;
  }

  datatype Op = Alloc(size: nat) | Trim(k: nat, size: nat) | Free(k: nat)

  /** The extents of the file, and those that are handed out. */
  datatype State = State(file: seq<Extent>, used: seq<Extent>)

  /** A free extent of that size or more. */
  predicate FitsAt(v: seq<Extent>, i: nat, n: nat) {
    i < |v| && v[i].free && v[i].size >= n
  }

  /** The one that is taken. */
  ghost predicate BestAt(v: seq<Extent>, i: nat, n: nat, p: nat) {
    && FitsAt(v, i, n)
    && forall j :: 0 <= j < |v| && FitsAt(v, j, n) ==> InFront(v[i], v[j], p)
  }

  /** Freeing an empty extent: free_smf asserts that it is none. */
  predicate Fatal(op: Op, s: State) {
    op.Free? && op.k < |s.used| && s.used[op.k].size == 0
  }

  /** `n` bytes are taken from the front of the extent at `i`. */
  ghost predicate Takes(s: State, t: State, i: nat, n: nat, p: nat) {
    && BestAt(s.file, i, n, p)
    && t == State(Taken(s.file, i, n), s.used + [Extent(s.file[i].ptr, s.file[i].offset, n, false)])
  }

  /** The extent at `i`, which is the one handed out at `k`, is cut down to `n` bytes. */
  ghost predicate Trims(s: State, t: State, i: nat, k: nat, n: nat) {
    && i < |s.file| && k < |s.used| && s.file[i] == s.used[k] && n <= s.file[i].size
    && t == State(if n < s.file[i].size then Trimmed(s.file, i, n) else s.file, s.used[k := s.used[k].(size := n)])
  }

  /** The extent at `i`, which is the one handed out at `k`, is free again. */
  ghost predicate Frees(s: State, t: State, i: nat, k: nat) {
    && i < |s.file| && k < |s.used| && s.file[i] == s.used[k]
    && t == State(Freed(s.file, i), s.used[..k] + s.used[k + 1..])
  }

  /** What an operation does to the extents. One that its callers may not ask for does nothing. */
  ghost predicate Step(op: Op, s: State, t: State, p: nat)
    requires p > 0
  {
    match op
    case Alloc(size) =>
      var n := Rounded(size, p);
      if size > 0 && exists i :: FitsAt(s.file, i, n) then exists i :: Takes(s, t, i, n, p) else t == s
    case Trim(k, size) =>
      if k < |s.used| && 0 < size <= s.used[k].size then exists i :: Trims(s, t, i, k, Rounded(size, p)) else t == s
    case Free(k) =>
      if k < |s.used| && s.used[k].size > 0 then exists i :: Frees(s, t, i, k) else t == s
  }

  const WORD: nat := 0x1_0000_0000

  /** A power of two that fits the 32-bit unsigned pagesize: one of the divisors of 2^32. */
  ghost predicate PageSize(p: nat) {
    0 < p < WORD && WORD % p == 0
  }

  /** The rounding of smf_alloc and smf_trim. The mask made from the 32-bit page size also clears the upper half
      of a 64-bit size. */
  function Rounded(size: nat, p: nat): nat
    requires p > 0
  {
    var x := (size + (p - 1)) % WORD;
    x - x % p
  }

  /** No allocation that is rounded to nothing. */
  predicate RoundsToBytes(op: Op, p: nat) {
    op.Alloc? ==> p > 0 && (op.size > 0 ==> Rounded(op.size, p) > 0)
  }

  /** A size of 32 bits rounds to zero exactly when its rounded size does not fit 32 bits. */
  lemma RoundedToZero(size: nat, p: nat)
    requires PageSize(p) && 0 < size < WORD
    ensures Rounded(size, p) == 0 <==> size + (p - 1) >= WORD
  {
    if size + (p - 1) < WORD {
      RoundedIs(size, p);
    } else {
      var x := size + (p - 1) - WORD;
      assert x < p && (size + (p - 1)) % WORD == x && x % p == x;
    }
  }

  /** The largest size of 32 bits rounds to no bytes at all. */
  lemma LargestRoundsToZero()
    ensures PageSize(4096) && Rounded(0xFFFF_FFFF, 4096) == 0
  {
  }

  lemma RoundedPages(size: nat, p: nat)
    requires p > 0
    ensures Rounded(size, p) % p == 0 && Rounded(size, p) < WORD
  {
    var x := (size + (p - 1)) % WORD;
    ExactDivision(p, x - x % p, x / p);
  }

  /** Rounding gives at least what was asked for, and less than a page more, exactly when the rounded size
      fits 32 bits. */
  lemma RoundedEnough(size: nat, p: nat)
    requires PageSize(p)
    ensures size <= Rounded(size, p) < size + p <==> size + (p - 1) < WORD
  {
  }

  /** Rounding does not go past a whole number of pages that fits 32 bits. */
  lemma RoundedLeast(size: nat, p: nat, n: nat)
    requires PageSize(p) && 0 < size <= n < WORD && n % p == 0
    ensures 0 < Rounded(size, p) && size <= Rounded(size, p) <= n
  {
    hide Rounded;
    var k := n / p;
    Whole(p, n);
    SumMod(p, WORD, n);
    MultipleAtLeast(p, WORD - n);
    RoundedDown(size + (p - 1), p, k);
    RoundedIs(size, p);
  }

  lemma Whole(p: nat, n: nat)
    requires p > 0 && n % p == 0
    ensures n == p * (n / p)
  {
  }

  lemma RoundedIs(size: nat, p: nat)
    requires p > 0 && size + (p - 1) < WORD
    ensures var x := size + (p - 1); Rounded(size, p) == x - x % p >= size
  {
  }

  /** What is below the next page is rounded down to this one. */
  lemma RoundedDown(x: nat, p: nat, k: nat)
    requires p > 0 && x < p * k + p
    ensures x - x % p <= p * k
  {
    var q := x / p;
    assert x == p * q + x % p;
    if q > k {
      MulMonotone(p, k + 1, q);
      assert false;
    }
    MulMonotone(p, q, k);
  }

  lemma MultipleAtLeast(p: nat, n: nat)
    requires p > 0 && n > 0 && n % p == 0
    ensures n >= p
  {
  }

  lemma DivMonotone(a: nat, b: nat, p: nat)
    requires p > 0 && a <= b
    ensures a / p <= b / p
  {
    assert a == p * (a / p) + a % p && b == p * (b / p) + b % p;
    if a / p > b / p {
      MulMonotone(p, b / p + 1, a / p);
      assert false;
    }
  }

  lemma MulMonotone(p: nat, a: nat, b: nat)
    requires a <= b
    ensures p * a <= p * b
  {
  }

  lemma SumMod(p: nat, a: nat, b: nat)
    requires p > 0 && a % p == 0 && b % p == 0
    ensures (a + b) % p == 0
    ensures b <= a ==> (a - b) % p == 0
  {
    ExactDivision(p, a + b, a / p + b / p);
    if b <= a {
      ExactDivision(p, a - b, a / p - b / p);
    }
  }

  lemma ExactDivision(p: int, n: int, k: int)
    requires p > 0 && n == p * k
    ensures n % p == 0
  {
    var d := k - n / p;
    assert n % p == p * d;
    AtLeastOne(p, d);
  }

  lemma AtLeastOne(p: int, d: int)
    requires p > 0
    ensures d >= 1 ==> p * d >= p
    ensures d <= -1 ==> p * d <= -p
  {
  }
}
