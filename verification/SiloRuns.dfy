/** Runs of a persistent silo of one mebibyte, from its creation to where the code goes wrong
    (bin/varnishd/storage_persistent.c). */
module SiloRuns {
  import opened Lists
  import opened SiloMetrics
  import opened Silos

  /** Where the space for segments begins, behind an identification and four parts of a mebibyte each. */
  const SPC: nat := 4096 + 4 * MIB

  /** sizeof (struct object) and sizeof (struct storage). */
  const OBJECT: nat := 224
  const STORAGE: nat := 72

  /** smp_newsilo, smp_metrics and smp_open: a silo of any number of pages of 4096 bytes meets what its parts require,
      and has the dimensions that the code computes. */
  method NewSilo(media: nat) returns (silo: Silo)
    requires SPC < media && media % 4096 == 0
    ensures fresh(silo) && fresh(silo.cur) && silo.Valid() && silo.Blank() && silo.segs == [silo.cur]
    ensures silo.spc == silo.cur.offset == SPC && silo.media == media && silo.storage == STORAGE
    ensures var n := Halved((MIB - SIGN_SPACE) / MIN_NSEG, media - SPC - SIGN_SPACE, OBJECT);
            n.Some? && MetricsFor(n.value, media - SPC - SIGN_SPACE).aimSegl == silo.aimSegl &&
            MetricsFor(n.value, media - SPC - SIGN_SPACE).aimNobj == silo.aimNobj
  {
    hide Halved, MetricsFor, Silo.Valid;
    var space := media - SPC - SIGN_SPACE;
    AimBetween(space, MIB - SIGN_SPACE, OBJECT);
    var m := SmpMetrics(space, MIB - SIGN_SPACE, OBJECT);
    silo := new Silo(SPC, media, m.value.aimSegl, m.value.aimNobj, STORAGE);
  }

  /** The silo below has one mebibyte for segments; one of those is planned with 5824 bytes and 26 objects. */
  const MEDIA: nat := SPC + MIB
  const LEN: nat := 5824

  ghost predicate Sized(silo: Silo) {
    silo.spc == SPC && silo.media == MEDIA && silo.Len() == LEN && silo.aimNobj == 26 && silo.storage == STORAGE
  }

  method Mebibyte() returns (silo: Silo)
    ensures fresh(silo) && fresh(silo.cur) && Sized(silo) && silo.Valid() && silo.Blank()
    ensures silo.segs == [silo.cur] && silo.cur.offset == SPC
  {
    hide Halved, MetricsFor, Silo.Valid, Silo.Blank;
    OneMebibyte();
    silo := NewSilo(MEDIA);
  }

  /** A full segment overruns the length it was given: one object that leaves nothing but the reserve. */
  method Overrun() returns (silo: Silo, sg: Seg)
    ensures Sized(silo) && silo.Idle() && silo.segs == [sg] && sg.length == LEN + 8 && sg.nobj == 1
  {
    hide Silo.Order, Silo.ClosedOk, Silo.Within, NoRepeats, Packed, Silo.Allocates, Silo.Renewed, Silo.Now;
    silo := Mebibyte();
    sg := silo.cur;
    var alive, s, at, space := silo.Alloc(5488, true);
    var index := silo.Object(sg);
    ghost var k;
    alive, k := silo.CloseSeg();
  }

  /** A closing that drops the segment it closes: nothing in it has become an object. The code reads the end of the
      segment after it has freed it. */
  method ReadAfterFree() returns (silo: Silo, sg: Seg)
    ensures Sized(silo) && silo.Idle() && silo.segs == [] && silo.freeOffset == sg.offset + sg.length == SPC + 376
  {
    hide Silo.Order, Silo.ClosedOk, Silo.Within, NoRepeats, Packed, Silo.Allocates, Silo.Renewed, Silo.Now;
    silo := Mebibyte();
    sg := silo.cur;
    var alive, s, at, space := silo.Alloc(96, false);
    ghost var k;
    alive, k := silo.CloseSeg();
  }

  /** The same, of a segment with space for an object that smp_object has not been called for yet. When it is, it uses a
      segment that has been freed. */
  method LostObject() returns (silo: Silo, sg: Seg)
    ensures Sized(silo) && silo.Idle() && silo.segs == [] && sg.nalloc1 == 1 && sg.nalloc2 == 0
  {
    hide Silo.Order, Silo.ClosedOk, Silo.Within, NoRepeats, Packed, Silo.Allocates, Silo.Renewed, Silo.Now;
    silo := Mebibyte();
    sg := silo.cur;
    var alive, s, at, space := silo.Alloc(5488, true);
    ghost var k;
    alive, k := silo.CloseSeg();
  }

  /** The last of the segments is open at `o`, with one object of `n` bytes in it, registered if `nobj` is one. */
  ghost predicate OneObject(silo: Silo, o: nat, n: nat, nobj: nat)
    reads silo, silo.segs
  {
    && Sized(silo) && silo.Valid() && silo.cur != null && silo.objreserv == SMP_OBJECT
    && silo.cur.offset == o && silo.cur.allocs == [Bytes(o, n)] && silo.cur.nextAddr == o + 144 + n
    && silo.cur.nalloc1 == 1 && silo.cur.nalloc2 == silo.cur.nobj == nobj
  }

  /** The allocation of `n` bytes at the beginning of the segment at `o`. */
  function Bytes(o: nat, n: nat): Range {
    Range(o + SEG_SPACE, o + SEG_SPACE + 80 + n)
  }

  /** A silo whose first segment has one object. */
  method Start(size: nat) returns (silo: Silo)
    requires size % 16 == 0 && size <= 5488
    ensures fresh(silo) && fresh(silo.cur) && OneObject(silo, SPC, size, 1) && silo.segs == [silo.cur]
  {
    hide Silo.Order, Silo.ClosedOk, Silo.Within, NoRepeats, Packed, Silo.Allocates, Silo.Renewed, Silo.Now;
    silo := Mebibyte();
    var alive, sg, at, space := silo.Alloc(size, true);
    var index := silo.Object(silo.cur);
  }

  /** An object that does not fit the open segment opens another one, at `o`, and is registered there. */
  method Next(silo: Silo, size: nat, ghost k: nat, ghost o: nat, ghost was: nat, ghost n: nat)
    requires OneObject(silo, was, n, 1) && size % 16 == 0 && n % 16 == 0 && size <= 5488 && 5360 < n + size
    requires was + n + 344 <= MEDIA
    requires k < |silo.segs| && silo.segs[k].nobj > 0 && forall i :: 0 <= i < k ==> silo.segs[i].nobj == 0
    requires Place([Range(silo.segs[k].offset, 0)], was + n + 344, LEN, SPC, MEDIA) == Some(o)
    modifies silo, silo.cur
    ensures OneObject(silo, o, size, 1) && silo.segs == old(silo.segs)[k..] + [silo.cur] && fresh(silo.cur)
    ensures old(silo.cur).nobj == 1 && old(silo.cur).allocs == old(silo.cur.allocs)
  {
    hide Silo.Valid;
    Put(silo, size, k, o, was, n);
    Designate(silo, o, size);
  }

  method Put(silo: Silo, size: nat, ghost k: nat, ghost o: nat, ghost was: nat, ghost n: nat)
    requires OneObject(silo, was, n, 1) && size % 16 == 0 && n % 16 == 0 && size <= 5488 && 5360 < n + size
    requires was + n + 344 <= MEDIA
    requires k < |silo.segs| && silo.segs[k].nobj > 0 && forall i :: 0 <= i < k ==> silo.segs[i].nobj == 0
    requires Place([Range(silo.segs[k].offset, 0)], was + n + 344, LEN, SPC, MEDIA) == Some(o)
    modifies silo, silo.cur
    ensures OneObject(silo, o, size, 0) && silo.segs == old(silo.segs)[k..] + [silo.cur] && fresh(silo.cur)
    ensures old(silo.cur).nobj == 1 && old(silo.cur).allocs == old(silo.cur.allocs)
  {
    hide Silo.Order, Silo.ClosedOk, Silo.Within, NoRepeats, Packed, Place;
    var at := silo.AllocNext(size, k, o);
  }

  /** smp_object of the object in the open segment. */
  method Designate(silo: Silo, ghost o: nat, ghost n: nat)
    requires OneObject(silo, o, n, 0) && silo.cur in silo.segs
    modifies silo.cur
    ensures OneObject(silo, o, n, 1)
  {
    hide Silo.Order, Silo.ClosedOk, Silo.Within, NoRepeats, Packed, Silo.Allocates, Silo.Renewed, Silo.Now;
    var index := silo.Object(silo.cur);
  }

  /** The object of an older segment goes. */
  method Forget(silo: Silo, sg: Seg, ghost o: nat, ghost n: nat)
    requires OneObject(silo, o, n, 1) && sg in silo.segs && sg != silo.cur && sg.nobj == 1
    modifies sg`nobj
    ensures OneObject(silo, o, n, 1) && sg.nobj == 0
  {
    hide Silo.Order, Silo.ClosedOk, Silo.Within, NoRepeats, Packed, Silo.Allocates, Silo.Renewed, Silo.Now;
    silo.FreeObj(sg);
  }

  /** Where the segment `i` of 5832 bytes behind `e` begins. */
  function At(e: nat, i: nat): nat {
    e + 5832 * i
  }

  /** The segments from `m` on begin at `e`, one behind the other, and have an object of 5488 bytes each. */
  ghost predicate InARow(l: seq<Seg>, m: nat, e: nat)
    reads l
  {
    forall j :: m <= j < |l| ==>
      l[j].offset == At(e, j - m) && l[j].nobj == 1 && l[j].allocs == [Bytes(l[j].offset, 5488)]
  }

  /** `count` segments with one object of 5488 bytes each, behind the open one; no older one goes. */
  method Grow(silo: Silo, count: nat, ghost o: nat, ghost n: nat)
    requires OneObject(silo, o, n, 1) && n % 16 == 0 && count > 0 && |silo.segs| > 0 && silo.segs[0].nobj > 0
    requires var last := At(o + n + 344, count - 1) + LEN;
             last <= MEDIA && (silo.segs[0].offset <= o || last <= silo.segs[0].offset)
    modifies silo, silo.cur
    ensures OneObject(silo, At(o + n + 344, count - 1), 5488, 1) && fresh(silo.cur)
    ensures |silo.segs| == |old(silo.segs)| + count && old(silo.segs) <= silo.segs
    ensures InARow(silo.segs, |old(silo.segs)|, o + n + 344)
    ensures old(silo.cur).nobj == 1 && old(silo.cur).allocs == old(silo.cur.allocs)
    ensures forall j :: |old(silo.segs)| <= j < |silo.segs| ==> fresh(silo.segs[j])
  {
    hide OneObject, Bytes;
    ghost var e, m := o + n + 344, |silo.segs|;
    LastIsOpen(silo, o, n);
    ghost var oi, ni := o, n;
    for i := 0 to count
      invariant OneObject(silo, oi, ni, 1) && oi + ni + 344 == At(e, i) && SPC <= o <= oi && 0 <= ni && ni % 16 == 0
      invariant i == 0 ==> silo.cur == old(silo.cur) && silo.segs == old(silo.segs)
      invariant i > 0 ==> oi == At(e, i - 1) && ni == 5488 && fresh(silo.cur)
      invariant silo.cur != null && |silo.segs| == m + i && old(silo.segs) <= silo.segs && InARow(silo.segs, m, e)
      invariant old(silo.cur).nobj == 1 && old(silo.cur).allocs == old(silo.cur.allocs)
      invariant forall j :: m <= j < |silo.segs| ==> fresh(silo.segs[j])
      invariant silo.segs[0] == old(silo.segs[0]) && silo.segs[0].nobj > 0
      invariant silo.segs[|silo.segs| - 1] == silo.cur
    {
      Following(e, i, count);
      Next(silo, 5488, 0, At(e, i), oi, ni);
      oi, ni := At(e, i), 5488;
      LastIsOpen(silo, oi, ni);
    }
  }

  lemma LastIsOpen(silo: Silo, o: nat, n: nat)
    requires OneObject(silo, o, n, 1)
    ensures silo.segs != [] && silo.cur == silo.segs[|silo.segs| - 1] && SPC <= o
    ensures silo.cur.nobj == 1 && silo.cur.offset == o && silo.cur.allocs == [Bytes(o, n)]
  {
  }

  lemma Following(e: nat, i: nat, count: nat)
    requires i < count
    ensures At(e, i) <= At(e, count - 1) && At(e, i + 1) == At(e, i) + 5832
  {
  }

  /** A new segment is placed on the oldest one, which has an object: the segment that has started over from the
      beginning ends exactly where the oldest one starts. Both hand out the same bytes. */
  method OnOldest() returns (silo: Silo, a: Seg, c: Seg)
    ensures Sized(silo) && silo.Valid() && |silo.segs| == 180
    ensures a == silo.segs[0] && c == silo.segs[179] == silo.cur && a != c
    ensures a.nobj == 1 && a.offset == c.offset == SPC + 5832 && a.allocs == c.allocs == [Bytes(SPC + 5832, 5488)]
  {
    hide OneObject, Bytes;
    silo := Start(5488);
    var first := silo.cur;
    LastIsOpen(silo, SPC, 5488);
    Grow(silo, 178, SPC, 5488);
    a := silo.segs[1];
    LastIsOpen(silo, At(SPC + 5832, 177), 5488);
    Forget(silo, first, At(SPC + 5832, 177), 5488);
    Next(silo, 5488, 1, SPC, At(SPC + 5832, 177), 5488);
    Next(silo, 5488, 0, SPC + 5832, SPC, 5488);
    c := silo.cur;
    LastIsOpen(silo, SPC + 5832, 5488);
    IsValid(silo, SPC + 5832, 5488);
  }

  lemma IsValid(silo: Silo, o: nat, n: nat)
    requires OneObject(silo, o, n, 1)
    ensures Sized(silo) && silo.Valid()
  {
  }

  /** No segment but the open one has an object. */
  ghost predicate OnlyLast(silo: Silo)
    reads silo, silo.segs
  {
    forall i :: 0 <= i < |silo.segs| - 1 ==> silo.segs[i].nobj == 0
  }

  /** One more segment, behind the last; then the object of the one before goes. */
  method Roll(silo: Silo, size: nat, ghost o: nat, ghost n: nat)
    requires OneObject(silo, o, n, 1) && OnlyLast(silo)
    requires size % 16 == 0 && n % 16 == 0 && size <= 5488 && 5360 < n + size && o + n + 344 + LEN <= MEDIA
    modifies silo, silo.cur
    ensures OneObject(silo, o + n + 344, size, 1) && OnlyLast(silo) && fresh(silo.cur) && |silo.segs| == 2
  {
    hide OneObject;
    LastIsOpen(silo, o, n);
    var prev := silo.cur;
    Next(silo, size, |silo.segs| - 1, o + n + 344, o, n);
    LastIsOpen(silo, o + n + 344, size);
    Forget(silo, prev, o + n + 344, size);
  }

  /** Segments of one object each up to the last place in the silo; of all objects only the last one is left. */
  method Climb() returns (silo: Silo, a: Seg)
    ensures fresh(silo) && fresh(a) && a == silo.cur && |silo.segs| == 2
    ensures OneObject(silo, MEDIA - LEN, 5456, 1) && OnlyLast(silo)
  {
    hide OneObject;
    silo := Start(5456);
    ghost var o := SPC;
    for i := 0 to 178
      invariant OneObject(silo, o, 5456, 1) && o == SPC + 5800 * i && OnlyLast(silo) && fresh(silo) && fresh(silo.cur)
    {
      Roll(silo, 5456, o, 5456);
      o := o + 5800;
    }
    Roll(silo, 4208, SPC + 1032400, 5456);
    Roll(silo, 5456, SPC + 1038200, 4208);
    a := silo.cur;
    LastIsOpen(silo, MEDIA - LEN, 5456);
  }

  /** Behind that, a full round of segments from the beginning, none of whose objects go. */
  method Round() returns (silo: Silo, a: Seg, b: Seg)
    ensures fresh(silo) && fresh(silo.cur) && OneObject(silo, SPC + 1026432, 5488, 1) && |silo.segs| == 178
    ensures a == silo.segs[0] && b == silo.segs[1] != silo.cur && a != silo.cur
    ensures a.offset == MEDIA - LEN && a.nobj == 1 && b.offset == SPC && b.nobj == 1 && b.allocs == [Bytes(SPC, 5488)]
  {
    hide OneObject, Bytes;
    silo, a := Climb();
    LastIsOpen(silo, MEDIA - LEN, 5456);
    Next(silo, 5488, 1, SPC, MEDIA - LEN, 5456);
    b := silo.cur;
    LastIsOpen(silo, SPC, 5488);
    Grow(silo, 176, SPC, 5488);
  }

  /** A new segment is placed on one that has started over from the beginning before: the last one has overrun, past the
      start of the oldest segment, and so there is no room behind it. Both hand out the same bytes. */
  method OnNewest() returns (silo: Silo, a: Seg, b: Seg, c: Seg)
    ensures Sized(silo) && silo.Valid() && |silo.segs| == 181
    ensures a == silo.segs[0] && b == silo.segs[1] && c == silo.segs[180] == silo.cur && b != c
    ensures a.nobj == 1 && b.nobj == 1 && b.offset == c.offset == SPC && b.allocs == c.allocs == [Bytes(SPC, 5488)]
  {
    hide OneObject, Bytes;
    silo, a, b := Round();
    Next(silo, 4320, 0, SPC + 1032264, SPC + 1026432, 5488);
    Next(silo, 5488, 0, SPC + 1036928, SPC + 1032264, 4320);
    Next(silo, 5488, 0, SPC, SPC + 1036928, 5488);
    c := silo.cur;
    LastIsOpen(silo, SPC, 5488);
    IsValid(silo, SPC, 5488);
  }
}
