/** The segments of a persistent silo (bin/varnishd/storage_persistent.c): a bump allocator with an object index
    that grows at the other end, and segments that follow each other around the silo. */
module Silos {
  import opened Lists

  /** SEG_SPACE and sizeof (struct smp_object). */
  const SEG_SPACE: nat := 64
  const SMP_OBJECT: nat := 56

  /** C_ALIGN. */
  function CAlign(x: nat): (y: nat)
    ensures x <= y < x + 16 && y % 16 == 0
  {
    (x + 15) / 16 * 16
  }

  /** Bytes from `lo` up to, but not including, `hi`. */
  datatype Range = Range(lo: nat, hi: nat)

  ghost predicate Packed(l: seq<Range>, lo: nat, hi: nat) {
    && (forall i :: 0 <= i < |l| ==> lo <= l[i].lo <= l[i].hi <= hi)
    && forall i, j :: 0 <= i < j < |l| ==> l[i].hi <= l[j].lo
  }

  /* ---- where segments go ---- */

  predicate Disjoint(a: Range, b: Range) {
    a.hi <= b.lo || b.hi <= a.lo
  }

  /** The place that smp_new_seg gives a segment of `len` bytes; none if it gives up or an assertion fails. */
  function Place(l: seq<Range>, free: nat, len: nat, spc: nat, media: nat): Option<nat> {
    if free < spc || free >= media then None
    else if free + len > media then
      if l == [] || spc + len > l[0].lo then None else Some(spc)
    else if l != [] && l[0].lo > free && free + len > l[0].lo then None
    else Some(free)
  }

  /** Segments, oldest first: `w` old ones in the upper part of the silo, and then newer ones that have started
      over from its beginning, up to `free`, below them. */
  ghost predicate Laid(l: seq<Range>, w: nat, free: nat, spc: nat) {
    && w <= |l|
    && (forall i :: 0 <= i < |l| ==> spc <= l[i].lo && l[i].lo + 8 < l[i].hi)
    && (forall i, j :: 0 <= i < j < |l| && (j < w || w <= i) ==> l[i].hi <= l[j].lo)
    && (forall j :: w <= j < |l| ==> l[j].hi <= free)
    && (w > 0 ==> free <= l[0].lo + 8 && forall j :: w <= j < |l| ==> l[j].hi <= l[0].lo)
  }

  ghost predicate Apart(l: seq<Range>) {
    forall i, j :: 0 <= i < j < |l| ==> Disjoint(l[i], l[j])
  }

  lemma LaidApart(l: seq<Range>, w: nat, free: nat, spc: nat)
    requires Laid(l, w, free, spc)
    ensures Apart(l)
  {
    forall i, j | 0 <= i < j < |l|
      ensures Disjoint(l[i], l[j])
    {
      if i < w <= j {
        assert l[j].hi <= l[0].lo;
        assert i > 0 ==> l[0].hi <= l[i].lo;
      }
    }
  }

  /** Nothing old is in the way: the segments have not started over; or the next one fits behind the last and the
      last one leaves a gap; or it does not, and nothing is at the beginning yet. */
  predicate InTheClear(l: seq<Range>, w: nat, free: nat, len: nat, spc: nat, media: nat)
    requires w <= |l|
  {
    || w == 0
    || (free + len <= media && free < l[0].lo)
    || (free + len > media && (w == |l| || spc + len <= l[w].lo))
  }

  /** smp_new_seg gives a segment a place of its own exactly when it is in the clear. */
  lemma {:induction false} PlaceApart(l: seq<Range>, w: nat, free: nat, len: nat, spc: nat, media: nat)
    requires Laid(l, w, free, spc) && len > 0 && Place(l, free, len, spc, media).Some?
    ensures var o := Place(l, free, len, spc, media).value;
            (forall i :: 0 <= i < |l| ==>
              Disjoint(l[i], Range(o, o + len))) <==> InTheClear(l, w, free, len, spc, media)
  {
    var o := Place(l, free, len, spc, media).value;
    var r := Range(o, o + len);
    if InTheClear(l, w, free, len, spc, media) {
      forall i | 0 <= i < |l|
        ensures Disjoint(l[i], r)
      {
        assert i > 0 && (i < w || w == 0) ==> l[0].hi <= l[i].lo;
        assert i > w ==> l[w].hi <= l[i].lo;
      }
    } else if free + len <= media {
      assert !Disjoint(l[0], r);
    } else {
      assert !Disjoint(l[w], r);
    }
  }

  /** Where every segment had room for its full length, there are two ways to be in the way, and both follow from
      where the last segment ended. One that starts over at the beginning lands on a segment that has started over
      before only if the last one ended past the start of the oldest, by at most eight bytes: it has overrun. */
  lemma StartsOverTwice(l: seq<Range>, w: nat, free: nat, len: nat, spc: nat, media: nat)
    requires Laid(l, w, free, spc) && 0 < w < |l| && Place(l, free, len, spc, media).Some?
    requires l[0].lo + len <= media < free + len
    ensures l[0].lo < free <= l[0].lo + 8
  {
  }

  /** So a segment is placed on another one exactly if the last one ended at or past the start of the oldest, and
      there either is room for a segment up to the end of the silo, or there is not and a segment that has started over
      is too close to the beginning. */
  lemma Misplaced(l: seq<Range>, w: nat, free: nat, len: nat, spc: nat, media: nat)
    requires Laid(l, w, free, spc) && len > 0 && Place(l, free, len, spc, media).Some?
    requires l != [] ==> l[0].lo + len <= media
    ensures (exists i :: 0 <= i < |l| && !Disjoint(l[i], Range(Place(l, free, len, spc, media).value,
                                                              Place(l, free, len, spc, media).value + len)))
       <==> (w > 0 && l[0].lo <= free && (free + len <= media || (w < |l| && l[w].lo < spc + len)))
  {
    PlaceApart(l, w, free, len, spc, media);
    if 0 < w < |l| && media < free + len {
      StartsOverTwice(l, w, free, len, spc, media);
    }
  }

  /** The segments are still laid out in order. */
  predicate Orderly(l: seq<Range>, w: nat, free: nat, len: nat, spc: nat, media: nat)
    requires w <= |l|
  {
    InTheClear(l, w, free, len, spc, media) && (free + len <= media || w == 0 || w == |l|)
  }

  lemma PlaceLaid(l: seq<Range>, w: nat, free: nat, len: nat, spc: nat, media: nat)
    requires Laid(l, w, free, spc) && len > 8 && Place(l, free, len, spc, media).Some? &&
      Orderly(l, w, free, len, spc, media)
    ensures var o := Place(l, free, len, spc, media).value;
            var v := if free + len <= media then w else |l|;
            v < |l| + 1 && Laid(l + [Range(o, o + len)], v, o + len, spc)
  {
    var o := Place(l, free, len, spc, media).value;
    if free + len > media {
      forall i | 0 <= i < |l|
        ensures o + len <= l[i].lo && (w == 0 || w == |l|)
      {
        assert i > 0 ==> l[0].hi <= l[i].lo;
      }
    }
  }

  /** The last segment ends at `e`; what goes past its range is not counted. */
  lemma CloseLaid(l: seq<Range>, w: nat, free: nat, spc: nat, e: nat)
    requires Laid(l, w, free, spc) && w < |l|
    requires var r := l[|l| - 1]; r.lo + 8 < e <= r.hi + 8
    ensures var r := l[|l| - 1];
            Laid(l[..|l| - 1] + [Range(r.lo, if e < r.hi then e else r.hi)], w, e, spc)
  {
  }

  lemma RemoveLaid(l: seq<Range>, w: nat, free: nat, spc: nat)
    requires Laid(l, w, free, spc) && w < |l|
    ensures Laid(l[..|l| - 1], w, free, spc)
  {
  }

  lemma DropLaid(l: seq<Range>, w: nat, free: nat, spc: nat)
    requires Laid(l, w, free, spc) && l != []
    ensures Laid(l[1..], if w > 0 then w - 1 else 0, free, spc)
  {
  }

  lemma {:induction false} DropsLaid(l: seq<Range>, w: nat, free: nat, spc: nat, k: nat)
    requires Laid(l, w, free, spc) && k <= |l|
    ensures Laid(l[k..], if w > k then w - k else 0, free, spc)
    decreases k
  {
    if k > 0 {
      DropLaid(l, w, free, spc);
      DropsLaid(l[1..], if w > 0 then w - 1 else 0, free, spc, k - 1);
      assert l[1..][k - 1..] == l[k..];
    } else {
      assert l[0..] == l;
    }
  }

  /* ---- segments ---- */

  class Seg {
    const offset: nat
    var length: nat
    var nalloc: nat
    var nalloc1: nat
    var nalloc2: nat
    var nobj: nat
    var nextAddr: nat
    /** What the segment pointer on disk says of the index. */
    var objlist: nat
    var listed: nat
    /** The bytes handed out. */
    ghost var allocs: seq<Range>

    ghost predicate Counts()
      reads this`nalloc, this`nalloc1, this`nalloc2, this`allocs
    {
      nalloc == |allocs| && nalloc2 <= nalloc1 <= nalloc
    }

    /** Being filled, with room for the index and the signatures around it. */
    ghost predicate Open(len: nat, reserve: nat)
      reads this
    {
      && Counts() && offset % 8 == 0 && length == len
      && (nextAddr - offset) % 16 == 0 && nextAddr >= offset + SEG_SPACE
      && Packed(allocs, offset + SEG_SPACE, nextAddr)
      && nextAddr + reserve + 2 * SEG_SPACE <= offset + length
    }

    /** Closed: the allocations, the index after its signature, the closing signature. */
    ghost predicate Closed(len: nat)
      reads this
    {
      && Counts() && nalloc > 0 && listed == nalloc1
      && offset + 2 * SEG_SPACE <= objlist && Packed(allocs, offset + SEG_SPACE, objlist - SEG_SPACE)
      && objlist + CAlign(listed * SMP_OBJECT) + SEG_SPACE == offset + length
      && objlist + CAlign(listed * SMP_OBJECT) <= offset + len && length <= len + 8
    }

    constructor (offset: nat, length: nat)
      requires offset % 8 == 0 && length >= 3 * SEG_SPACE
      ensures this.offset == offset && Open(length, 0) && nalloc == nalloc1 == nalloc2 == nobj == 0
      ensures nextAddr == offset + SEG_SPACE
    {
      this.offset, this.length := offset, length;
      nalloc, nalloc1, nalloc2, nobj, objlist, listed, allocs := 0, 0, 0, 0, 0, 0, [];
      nextAddr := offset + SEG_SPACE;
    }

    /** Take space for a storage structure and for what it holds, and count it. */
    method Grab(head: nat, space: nat, oc: bool, len: nat, reserve: nat)
      requires Open(len, 0) && head % 16 == 0 && space % 16 == 0
      requires nextAddr + head + space + reserve + 2 * SEG_SPACE <= offset + length
      modifies this`nextAddr, this`nalloc, this`nalloc1, this`allocs
      ensures Open(len, reserve) && nextAddr == old(nextAddr) + head + space
      ensures nalloc1 == old(nalloc1) + if oc then 1 else 0
      ensures allocs == old(allocs) + [Range(old(nextAddr), old(nextAddr) + head + space)]
    {
      ghost var r := Range(nextAddr, nextAddr + head + space);
      nextAddr := nextAddr + head;
      nextAddr := nextAddr + space;
      if oc {
        nalloc1 := nalloc1 + 1;
      }
      nalloc := nalloc + 1;
      allocs := allocs + [r];
    }
  }

  /** Where a closed segment ends: the realignment costs eight bytes, which the reserve does not count. */
  lemma Ends(offset: nat, len: nat, next: nat, r: nat)
    requires offset % 8 == 0 && len % 8 == 0 && r % 16 == 0 && next >= offset && (next - offset) % 16 == 0
    requires next + r + 2 * SEG_SPACE <= offset + len
    ensures next / 8 * 8 + 8 == next + 8 && next % 8 == 0
    ensures next + 8 + r + 2 * SEG_SPACE > offset + len <==> offset + len - next == r + 2 * SEG_SPACE
    ensures len % 16 == 8 ==> next + 8 + r + 2 * SEG_SPACE <= offset + len
    ensures (next + 8 + r + 2 * SEG_SPACE) % 8 == 0
  {
    EndsIn(offset / 8, (next - offset) / 16, r / 16, len / 8);
  }

  lemma EndsIn(a: nat, b: nat, c: nat, d: nat)
    requires 8 * a + 16 * b + 16 * c + 2 * SEG_SPACE <= 8 * a + 8 * d
    ensures var next, r := 8 * a + 16 * b, 16 * c;
            && next % 8 == 0 && next / 8 * 8 == next && (next + 8 + r + 2 * SEG_SPACE) % 8 == 0
            && (next + 8 + r + 2 * SEG_SPACE > 8 * a + 8 * d <==> 8 * a + 8 * d - next == r + 2 * SEG_SPACE)
            && (8 * d % 16 == 8 ==> next + 8 + r + 2 * SEG_SPACE <= 8 * a + 8 * d)
  {
  }

  lemma PackedMore(l: seq<Range>, lo: nat, hi: nat, more: nat)
    requires Packed(l, lo, hi) && hi <= more
    ensures Packed(l, lo, more)
  {
  }

  /** The range a segment was given; one that overruns it is cut off there. */
  function Span(s: Seg, len: nat): Range
    reads s`length
  {
    Range(s.offset, s.offset + if s.length < len then s.length else len)
  }

  function SpansOf(l: seq<Seg>, len: nat): (r: seq<Range>)
    reads l`length
    ensures |r| == |l| && forall i :: 0 <= i < |l| ==> r[i] == Span(l[i], len)
  {
    if l == [] then [] else SpansOf(l[..|l| - 1], len) + [Span(l[|l| - 1], len)]
  }

  /** What there is to know of a segment, but for its end. */
  datatype SegState = SegState(offset: nat, nalloc: nat, nalloc1: nat, nalloc2: nat, nobj: nat)

  ghost function StateOf(s: Seg): SegState
    reads s
  {
    SegState(s.offset, s.nalloc, s.nalloc1, s.nalloc2, s.nobj)
  }

  ghost function StatesOf(l: seq<Seg>): (s: seq<SegState>)
    reads l
    ensures |s| == |l| && forall i :: 0 <= i < |l| ==> s[i] == StateOf(l[i])
  {
    if l == [] then [] else StatesOf(l[..|l| - 1]) + [StateOf(l[|l| - 1])]
  }

  /** The segments, the last of which is open; the next free byte in it, and the end of its range. */
  datatype State = State(segs: seq<SegState>, next: nat, free: nat)

  /** How many segments without objects come first. */
  function Leading(s: seq<SegState>): (k: nat)
    ensures k <= |s|
  {
    if s != [] && s[0].nobj == 0 then 1 + Leading(s[1..]) else 0
  }

  lemma {:induction false} LeadingIs(s: seq<SegState>, k: nat)
    requires k <= |s| && (forall i :: 0 <= i < k ==> s[i].nobj == 0) && (k < |s| ==> s[k].nobj > 0)
    ensures Leading(s) == k
  {
    if k > 0 {
      LeadingIs(s[1..], k - 1);
    }
  }

  class Silo {
    /** The space for segments, its end, the length and the object count of a segment, and the size of a storage
        structure. */
    const spc: nat
    const media: nat
    const aimSegl: nat
    const aimNobj: nat
    const storage: nat
    var segs: seq<Seg>
    var cur: Seg?
    var freeOffset: nat
    var objreserv: nat
    /** The segments of the upper part, and whether all segments so far were placed in order. */
    ghost var upper: nat
    ghost var orderly: bool

    function Len(): nat {
      aimSegl / 8 * 8
    }

    /** All segments but the open one. */
    ghost predicate ClosedOk(l: seq<Seg>)
      reads l
    {
      forall i :: 0 <= i < |l| ==> l[i].Closed(Len()) && l[i].offset + l[i].length <= media
    }

    ghost predicate Fixed()
      reads this`freeOffset
    {
      spc > 0 && spc % 8 == 0 && Len() >= 3 * SEG_SPACE && freeOffset >= spc && freeOffset % 8 == 0
    }

    /** Every segment had room for its full length where it was placed. */
    ghost predicate Within()
      reads this`segs
    {
      forall i :: 0 <= i < |segs| ==> spc <= segs[i].offset && segs[i].offset + Len() <= media
    }

    ghost predicate Order()
      reads this`segs, this`freeOffset, this`upper, this`orderly, segs`length
    {
      orderly ==> Laid(SpansOf(segs, Len()), upper, freeOffset, spc)
    }

    /** No segment is open. */
    ghost predicate Idle()
      reads this, segs
    {
      cur == null && Fixed() && Within() && NoRepeats(segs) && ClosedOk(segs) && Order()
    }

    /** The last segment is open. */
    ghost predicate Valid()
      reads this, segs
    {
      && segs != [] && cur == segs[|segs| - 1] && Fixed() && Within() && NoRepeats(segs)
      && ClosedOk(segs[..|segs| - 1]) && Order() && (orderly ==> upper < |segs|)
      && cur.Open(Len(), CAlign(objreserv)) && objreserv == cur.nalloc1 * SMP_OBJECT && cur.nalloc1 <= aimNobj
      && freeOffset == cur.offset + Len() <= media && cur.offset >= spc
    }

    /** Nothing has been allocated in the open segment. */
    ghost predicate Blank()
      reads this, cur
    {
      cur != null && cur.nalloc == cur.nalloc1 == cur.nobj == 0 && objreserv == 0 &&
        cur.nextAddr == cur.offset + SEG_SPACE
    }

    /** smp_open of a silo without segments. */
    constructor (spc: nat, media: nat, aimSegl: nat, aimNobj: nat, storage: nat)
      requires 0 < spc && spc % 8 == 0 && aimSegl / 8 * 8 >= 3 * SEG_SPACE && spc + aimSegl / 8 * 8 <= media
      ensures Valid() && orderly && |segs| == 1 && Blank() && fresh(cur) && cur.offset == spc
      ensures this.aimSegl == aimSegl && this.aimNobj == aimNobj && this.storage == storage
      ensures this.spc == spc && this.media == media
    {
      this.spc, this.media, this.aimSegl, this.aimNobj, this.storage := spc, media, aimSegl, aimNobj, storage;
      segs, cur, freeOffset, objreserv, upper, orderly := [], null, spc, 0, 0, true;
      new;
      var alive := NewSeg();
    }

    /** smp_new_seg: false if the process gives up. */
    method NewSeg() returns (alive: bool)
      requires Idle()
      modifies this
      ensures alive <==> old(Place(SpansOf(segs, Len()), freeOffset, Len(), spc, media)).Some?
      ensures alive ==> Valid() && Blank() && fresh(cur) && segs == old(segs) + [cur]
      ensures alive ==> Some(cur.offset) == old(Place(SpansOf(segs, Len()), freeOffset, Len(), spc, media))
      ensures alive && old(orderly) ==>
        (orderly <==> old(Orderly(SpansOf(segs, Len()), upper, freeOffset, Len(), spc, media)))
    {
      hide Laid, SpansOf, ClosedOk, NoRepeats;
      ghost var l := SpansOf(segs, Len());
      LaidBound();
      var len := Len();
      var offset := freeOffset;
      if offset >= media {
        return false;
      }
      if offset + len > media {
        freeOffset := spc;
        offset := freeOffset;
        if segs == [] {
          return false;
        }
        if offset + len > segs[0].offset {
          return false;
        }
      }
      if segs != [] && segs[0].offset > freeOffset {
        if offset + len > segs[0].offset {
          return false;
        }
      }
      ghost var free := old(freeOffset);
      assert Place(l, free, len, spc, media) == Some(offset);
      if orderly && Orderly(l, upper, free, len, spc, media) {
        PlaceLaid(l, upper, free, len, spc, media);
        upper := if free + len <= media then upper else |l|;
      } else {
        orderly := false;
      }
      Append(offset);
      alive := true;
    }

    lemma LaidBound()
      requires ClosedOk(segs) && Order()
      ensures orderly ==> upper <= |segs|
      ensures segs != [] ==> segs[0].offset <= media
    {
    }

    /** The new segment at `offset`, where free_offset is. */
    method Append(offset: nat)
      requires NoRepeats(segs) && ClosedOk(segs) && Fixed() && Within() && offset == freeOffset &&
        offset + Len() <= media
      requires orderly ==>
        upper <= |segs| && Laid(SpansOf(segs, Len()) + [Range(offset, offset + Len())], upper, offset + Len(), spc)
      modifies this`segs, this`cur, this`freeOffset, this`objreserv
      ensures Valid() && Blank() && fresh(cur) && segs == old(segs) + [cur] && cur.offset == offset
    {
      hide Laid, SpansOf, NoRepeats, ClosedOk, Packed;
      var sg := new Seg(offset, Len());
      NoRepeatsInsert(segs, |segs|, sg);
      assert segs[..|segs|] + [sg] + segs[|segs|..] == segs + [sg];
      freeOffset := freeOffset + Len();
      segs := segs + [sg];
      assert segs[..|segs| - 1] == old(segs);
      SpansMore(sg);
      cur := sg;
      objreserv := 0;
    }

    twostate lemma SpansMore(new sg: Seg)
      requires segs == old(segs) + [sg] && unchanged(old(segs)`length) && sg.length == Len()
      ensures SpansOf(segs, Len()) == old(SpansOf(segs, Len())) + [Range(sg.offset, sg.offset + Len())]
    {
      assert segs[..|segs| - 1] == old(segs);
    }

    /* ---- closing ---- */

    function SpaceLeft(sg: Seg): nat
      requires sg.nextAddr <= sg.offset + sg.length
      reads sg`length, sg`nextAddr
    {
      sg.offset + sg.length - sg.nextAddr
    }

    /** smp_close_seg: an empty segment is dropped; else the index is written behind the allocations, and the first
        `k` segments, those before the first one with objects, are dropped. The closed segment is itself dropped, and
        its end read after it was freed, exactly when no segment has objects. The checks on the space for the index
        hold. False if the assertion on the end of the silo fails. */
    method CloseSeg() returns (alive: bool, ghost k: nat)
      requires Valid()
      modifies this, cur
      ensures alive ==> Idle() && orderly == old(orderly)
      ensures old(cur.nalloc) == 0 ==> alive && segs == old(segs)[..|old(segs)| - 1] && freeOffset == old(freeOffset)
      ensures old(cur.nalloc) > 0 ==> Filed(old(cur), old(objreserv))
      ensures old(cur.nalloc) > 0 ==> Dropped(k) && freeOffset == old(cur).offset + old(cur).length
      ensures old(cur.nalloc) > 0 ==>
        (old(cur) !in segs <==> forall i :: 0 <= i < |old(segs)| ==> old(segs[i].nobj) == 0)
      ensures old(cur.nalloc) > 0 ==> DroppedOnes()
      ensures old(cur.nalloc) > 0 ==> (alive <==> old(cur) !in segs || freeOffset <= media)
      ensures forall j :: 0 <= j < |segs| ==> segs[j] in old(segs)
    {
      hide Laid, SpansOf, NoRepeats, ClosedOk, Packed, CAlign, DroppedOnes;
      var sg := cur;
      k := 0;
      if sg.nalloc == 0 {
        Detach();
        return true, k;
      }
      assert sg.nalloc1 * SMP_OBJECT == objreserv;
      assert CAlign(objreserv) + 2 * SEG_SPACE <= SpaceLeft(sg);
      alive, k := Finish();
    }

    method Finish() returns (alive: bool, ghost k: nat)
      requires Valid() && cur.nalloc > 0
      modifies this, cur
      ensures alive ==> Idle() && orderly == old(orderly)
      ensures Filed(old(cur), old(objreserv))
      ensures Dropped(k) && freeOffset == old(cur).offset + old(cur).length
      ensures old(cur) !in segs <==> forall i :: 0 <= i < |old(segs)| ==> old(segs[i].nobj) == 0
      ensures DroppedOnes()
      ensures alive <==> old(cur) !in segs || freeOffset <= media
    {
      hide Laid, SpansOf, NoRepeats, ClosedOk, Packed, CAlign, Within, Seg.Open, DroppedOnes;
      var sg := cur;
      OthersDiffer();
      k := File();
      alive := sg !in segs || sg.offset + sg.length <= media;
      if alive {
        StillOk(k);
        StillOrder(k);
        upper := if upper > k then upper - k else 0;
      }
    }

    /** The index is written, and the list of segments is saved. */
    method File() returns (ghost k: nat)
      requires Valid() && cur.nalloc > 0
      modifies this`cur, this`segs, this`freeOffset, cur`nextAddr, cur`objlist, cur`listed, cur`length
      ensures cur == null && Filed(old(cur), old(objreserv))
      ensures Dropped(k) && freeOffset == old(cur).offset + old(cur).length
      ensures old(cur) !in segs <==> forall i :: 0 <= i < |old(segs)| ==> old(segs[i].nobj) == 0
      ensures DroppedOnes()
    {
      hide Laid, SpansOf, NoRepeats, ClosedOk, Packed, CAlign, Within, Dropped, DroppedOnes, Order, Seg.Open,
        Seg.Closed;
      var sg := cur;
      cur := null;
      WriteIndex(sg);
      freeOffset := sg.offset + sg.length;
      k := DropEmpty();
      DroppedSince(k);
      LastDropped(k);
      WhoIsDropped(k);
    }

    /** The segments before the first one with objects, the first `k`, have left the list. */
    twostate predicate Dropped(k: nat)
      reads this`segs
    {
      && k <= |old(segs)| && segs == old(segs)[k..]
      && (forall i :: 0 <= i < k ==> old(segs[i].nobj) == 0) && (k < |old(segs)| ==> old(segs[k].nobj) > 0)
    }

    /** A segment is dropped exactly if neither it nor one before it has objects, whatever it still awaits. */
    twostate predicate DroppedOnes()
      reads this`segs
    {
      forall i :: 0 <= i < |old(segs)| ==>
        (old(segs)[i] !in segs <==> forall j :: 0 <= j <= i ==> old(segs[j].nobj) == 0)
    }

    twostate lemma WhoIsDropped(k: nat)
      requires Dropped(k) && old(NoRepeats(segs))
      ensures DroppedOnes()
    {
      forall i | 0 <= i < |old(segs)|
        ensures old(segs)[i] !in segs <==> forall j :: 0 <= j <= i ==> old(segs[j].nobj) == 0
      {
        if i >= k {
          assert segs[i - k] == old(segs)[i];
        }
      }
    }

    twostate lemma DroppedSince(k: nat)
      requires k <= |old(segs)| && segs == old(segs)[k..] && unchanged(old(segs)`nobj)
      requires (forall i :: 0 <= i < k ==> old(segs)[i].nobj == 0) && (segs != [] ==> segs[0].nobj > 0)
      ensures Dropped(k)
    {
    }

    twostate lemma LastDropped(k: nat)
      requires Dropped(k) && old(segs) != [] && old(NoRepeats(segs))
      ensures old(segs)[|old(segs)| - 1] !in segs <==> forall i :: 0 <= i < |old(segs)| ==> old(segs[i].nobj) == 0
    {
      var n := |old(segs)|;
      if k < n {
        assert segs[n - 1 - k] == old(segs)[n - 1] && segs[0] == old(segs)[k];
      }
    }

    lemma OthersDiffer()
      requires NoRepeats(segs) && segs != []
      ensures forall i :: 0 <= i < |segs| - 1 ==> segs[i] != segs[|segs| - 1]
      ensures segs[|segs| - 1] !in segs[..|segs| - 1]
    {
    }

    /** An open segment without allocations goes; where the next one would have gone stays. */
    method Detach()
      requires Valid() && cur.nalloc == 0
      modifies this`segs, this`cur
      ensures Idle() && segs == old(segs)[..|old(segs)| - 1]
    {
      hide Laid, ClosedOk;
      var n := |segs| - 1;
      if orderly {
        RemoveLaid(SpansOf(segs, Len()), upper, freeOffset, spc);
      }
      segs := segs[..n];
      cur := null;
    }

    /** The index of a segment: its signature, what it says of the objects, and the closing signature. */
    method WriteIndex(sg: Seg)
      requires sg.Open(Len(), CAlign(objreserv)) && objreserv == sg.nalloc1 * SMP_OBJECT && sg.nalloc > 0
      modifies sg`nextAddr, sg`objlist, sg`listed, sg`length
      ensures Filed(sg, objreserv)
    {
      hide CAlign, Packed;
      Ends(sg.offset, Len(), sg.nextAddr, CAlign(objreserv));
      PackedMore(sg.allocs, sg.offset + SEG_SPACE, sg.nextAddr, sg.nextAddr + 8);
      sg.nextAddr := sg.nextAddr / 8 * 8 + 7;
      sg.nextAddr := sg.nextAddr + 1;
      sg.nextAddr := sg.nextAddr + SEG_SPACE;
      sg.objlist := sg.nextAddr;
      sg.listed := sg.nalloc1;
      sg.nextAddr := sg.nextAddr + CAlign(objreserv);
      sg.nextAddr := sg.nextAddr + SEG_SPACE;
      sg.length := sg.nextAddr - sg.offset;
    }

    /** `sg` has been closed. It overruns its range, by eight bytes, exactly when nothing but the reserve was left;
        and never if its length was an odd multiple of eight. */
    twostate predicate Filed(sg: Seg, reserv: nat)
      reads sg
    {
      && sg.Closed(Len()) && sg.allocs == old(sg.allocs) && sg.listed == old(sg.nalloc1) &&
        (sg.offset + sg.length) % 8 == 0
      && sg.nobj == old(sg.nobj) && sg.nalloc1 == old(sg.nalloc1) && sg.nalloc2 == old(sg.nalloc2)
      && sg.offset + sg.length == old(sg.nextAddr) + 8 + SEG_SPACE + CAlign(reserv) + SEG_SPACE
      && old(sg.nextAddr) <= sg.offset + old(sg.length)
      && (sg.length > Len() <==> old(SpaceLeft(sg)) == CAlign(reserv) + 2 * SEG_SPACE)
      && (Len() % 16 == 8 ==> sg.length <= Len())
    }

    /** smp_save_segs: segments without objects leave the front of the list. */
    method DropEmpty() returns (k: nat)
      modifies this`segs
      ensures k <= |old(segs)| && segs == old(segs)[k..]
      ensures forall i :: 0 <= i < k ==> old(segs)[i].nobj == 0
      ensures segs != [] ==> segs[0].nobj > 0
    {
      k := 0;
      while segs != [] && segs[0].nobj == 0
        invariant k <= |old(segs)| && segs == old(segs)[k..]
        invariant forall i :: 0 <= i < k ==> old(segs)[i].nobj == 0
      {
        segs := segs[1..];
        k := k + 1;
      }
    }

    twostate lemma StillOk(k: nat)
      requires old(Valid()) && k <= |old(segs)| && segs == old(segs)[k..]
      requires forall i :: 0 <= i < |old(segs)| - 1 ==> unchanged(old(segs)[i])
      requires var sg := old(cur); sg.Closed(Len()) && (sg in segs ==> sg.offset + sg.length <= media)
      ensures NoRepeats(segs) && ClosedOk(segs) && Within()
    {
      hide Laid, SpansOf, Packed;
      var n := |old(segs)| - 1;
      forall i | 0 <= i < |segs|
        ensures segs[i].Closed(Len()) && segs[i].offset + segs[i].length <= media
      {
        assert segs[i] == old(segs)[k + i] && segs[i] in segs;
        if k + i < n {
          assert old(segs[..n])[k + i] == segs[i];
        }
      }
    }

    twostate lemma StillOrder(k: nat)
      requires old(Valid()) && k <= |old(segs)| && segs == old(segs)[k..]
      requires forall i :: 0 <= i < |old(segs)| - 1 ==> unchanged(old(segs)[i])
      requires var sg := old(cur); sg.Closed(Len()) && freeOffset == sg.offset + sg.length
      ensures old(orderly) ==>
        Laid(SpansOf(segs, Len()), if old(upper) > k then old(upper) - k else 0, freeOffset, spc)
    {
      hide Laid, SpansOf, NoRepeats, ClosedOk, Packed;
      var n := |old(segs)| - 1;
      var l := old(SpansOf(segs, Len()));
      if old(orderly) {
        CloseLaid(l, old(upper), old(freeOffset), spc, freeOffset);
        var l' := l[..n] + [Range(l[n].lo, if freeOffset < l[n].hi then freeOffset else l[n].hi)];
        DropsLaid(l', old(upper), freeOffset, spc, k);
        forall j | 0 <= j < |segs|
          ensures SpansOf(segs, Len())[j] == l'[k + j]
        {
          assert segs[j] == old(segs)[k + j];
        }
        assert SpansOf(segs, Len()) == l'[k..];
      }
    }

    /* ---- allocating ---- */

    /** With `left` bytes left there is room for all of the space, the storage structure, and the reserve as it will be;
        and for one more object, if it is one. */
    ghost predicate Whole(size: nat, oc: bool, reserv: nat, left: int, nobjs: nat) {
      && CAlign(storage) + CAlign(size) + CAlign(reserv + if oc then SMP_OBJECT else 0) + 2 * SEG_SPACE <= left
      && (oc ==> nobjs < aimNobj)
    }

    /** The same for more than 4096 bytes of what is not an object. */
    ghost predicate Part(reserv: nat, left: int) {
      CAlign(storage) + 4096 + CAlign(reserv) + 2 * SEG_SPACE < left
    }

    ghost function Now(): State
      reads this, cur, segs
    {
      State(StatesOf(segs), if cur == null then 0 else cur.nextAddr, freeOffset)
    }

    /** The open segment has given the space for a request that there was room for, all of it if possible. */
    ghost predicate Takes(s: State, t: State, size: nat, oc: bool)
      requires s.segs != []
    {
      var n := |s.segs| - 1;
      var last, space := s.segs[n], t.next - s.next - CAlign(storage);
      && t.free == s.free
      && t.segs == s.segs[n := last.(nalloc := last.nalloc + 1, nalloc1 := last.nalloc1 + if oc then 1 else 0)]
      && if Whole(size, oc, last.nalloc1 * SMP_OBJECT, s.free - s.next, last.nalloc1) then space == CAlign(size)
         else && 4096 <= space < CAlign(size) && space % 16 == 0
              && t.free - t.next < CAlign(last.nalloc1 * SMP_OBJECT) + 2 * SEG_SPACE + 16
    }

    /** Only the open segment has changed. */
    twostate lemma LastChanged()
      requires segs == old(segs) && segs != [] && forall i :: 0 <= i < |segs| - 1 ==> unchanged(segs[i])
      ensures StatesOf(segs) == old(StatesOf(segs))[|segs| - 1 := StateOf(segs[|segs| - 1])]
    {
    }

    /** The body of the loop in smp_alloc, up to the decision: what is not an object may be cut down to what is left,
        but not too far. */
    method Try(size: nat, oc: bool) returns (ok: bool, at: nat, space: nat)
      requires Valid()
      modifies this`objreserv, cur`nextAddr, cur`nalloc, cur`nalloc1, cur`allocs
      ensures Valid() && (ok <==> old(Whole(size, oc, objreserv, SpaceLeft(cur), cur.nalloc1) ||
                                     (!oc && Part(objreserv, SpaceLeft(cur)))))
      ensures !ok ==> unchanged(this) && unchanged(cur)
      ensures ok ==> at == old(cur.nextAddr) && space % 16 == 0 && Granted(at, CAlign(storage) + space)
      ensures ok ==> cur.allocs == old(cur.allocs) + [Range(at, at + CAlign(storage) + space)]
      ensures ok ==> cur.nalloc1 == old(cur.nalloc1) + if oc then 1 else 0
      ensures ok && old(Whole(size, oc, objreserv, SpaceLeft(cur), cur.nalloc1)) ==> space == CAlign(size)
      ensures ok && !old(Whole(size, oc, objreserv, SpaceLeft(cur), cur.nalloc1)) ==> CutToFit(size, space)
      ensures segs != [] && (ok ==> Takes(old(Now()), Now(), size, oc))
    {
      hide Order, ClosedOk, NoRepeats, Packed, Within, Fixed, CAlign, StatesOf;
      space := CAlign(size);
      var overhead := CAlign(storage) + 2 * SEG_SPACE;
      overhead := overhead + if oc then CAlign(SMP_OBJECT + objreserv) else CAlign(objreserv);
      var needed, left := overhead + space, SpaceLeft(cur);
      if !oc && needed > left && overhead + 4096 < left {
        space := left - overhead;
        needed := overhead + space;
        space := space / 16 * 16;
      }
      at := cur.nextAddr;
      ok := needed <= left && (!oc || cur.nalloc1 < aimNobj);
      if ok {
        OthersDiffer();
        Bump(space, oc);
        LastChanged();
      }
    }

    /** Space cut down to what was left, of which fewer than sixteen bytes are left now. */
    ghost predicate CutToFit(size: nat, space: nat)
      requires Valid()
      reads this, segs
    {
      4096 <= space < CAlign(size) && SpaceLeft(cur) < CAlign(objreserv) + 2 * SEG_SPACE + 16
    }

    /** Where the index of the open segment will end. */
    function ClosedEnd(): nat
      requires cur != null
      reads this`cur, this`objreserv, cur
    {
      cur.nextAddr + 8 + 2 * SEG_SPACE + CAlign(objreserv)
    }

    /** The segments that closing the open one leaves: an empty one goes itself; else those go that are before the
        first one with objects. */
    ghost function Left(s: State): seq<SegState>
      requires s.segs != []
    {
      if s.segs[|s.segs| - 1].nalloc == 0 then s.segs[..|s.segs| - 1] else s.segs[Leading(s.segs)..]
    }

    /** Where the next segment would begin: behind the index, which an empty segment has none of. */
    ghost function FreeAfter(s: State): nat
      requires s.segs != []
    {
      var last := s.segs[|s.segs| - 1];
      if last.nalloc == 0 then s.free else s.next + 8 + 2 * SEG_SPACE + CAlign(last.nalloc1 * SMP_OBJECT)
    }

    ghost function Anew(l: seq<SegState>, free: nat): Option<State> {
      match Place(if l == [] then [] else [Range(l[0].offset, 0)], free, Len(), spc, media)
      case None => None
      case Some(o) => Some(State(l + [SegState(o, 0, 0, 0, 0)], o + SEG_SPACE, o + Len()))
    }

    /** A new segment instead of the open one; none if the index ends outside the silo, unless its segment is one of
        those that go, or if there is no place for the new segment. */
    ghost function Renewed(s: State): (t: Option<State>)
      requires s.segs != []
      ensures t.Some? ==> t.value.segs != []
    {
      if s.segs[|s.segs| - 1].nalloc > 0 && Left(s) != [] && FreeAfter(s) > media then None
      else Anew(Left(s), FreeAfter(s))
    }

    lemma FirstPlace(free: nat)
      ensures Place(SpansOf(segs, Len()), free, Len(), spc, media) ==
        Place(if segs == [] then [] else [Range(segs[0].offset, 0)], free, Len(), spc, media)
    {
    }

    /** The open segment has been closed, and the first `k` have left the list. */
    twostate lemma LeftIs(k: nat)
      requires old(segs) != [] && old(cur) == old(segs)[|old(segs)| - 1]
      requires if old(cur.nalloc) == 0 then segs == old(segs)[..|old(segs)| - 1] else Dropped(k)
      requires forall i :: 0 <= i < |old(segs)| - (if old(cur.nalloc) == 0 then 1 else 0) ==>
        StateOf(old(segs)[i]) == old(StateOf(segs[i]))
      ensures StatesOf(segs) == Left(old(Now()))
    {
      hide StatesOf, NoRepeats;
      ghost var s := old(StatesOf(segs));
      if old(cur.nalloc) > 0 {
        LeadingIs(s, k);
        assert StatesOf(segs) == s[k..];
      } else {
        assert StatesOf(segs) == s[..|s| - 1];
      }
    }

    /** Close the open segment and open another; that fails exactly if there is no place for one, or the assertion on
        the end of the silo fails. */
    method Renew() returns (alive: bool)
      requires Valid()
      modifies this, cur
      ensures old(Now()).segs != [] && (if alive then Some(Now()) else None) == Renewed(old(Now()))
      ensures alive ==> Valid() && Blank() && fresh(cur)
      ensures alive ==> forall j :: 0 <= j < |segs| ==> segs[j] in old(segs) || segs[j] == cur
    {
      hide Order, ClosedOk, NoRepeats, Packed, CAlign, Within, SpansOf, Place, Orderly, Left, Anew, FreeAfter;
      alive := Shut();
      if alive {
        alive := Next();
      }
    }

    method Shut() returns (alive: bool)
      requires Valid()
      modifies this, cur
      ensures alive ==> Idle() && forall j :: 0 <= j < |segs| ==> segs[j] in old(segs)
      ensures StatesOf(segs) == Left(old(Now())) && freeOffset == FreeAfter(old(Now()))
      ensures alive <==> old(cur.nalloc) == 0 || segs == [] || freeOffset <= media
    {
      hide Order, ClosedOk, NoRepeats, Packed, CAlign, Within, SpansOf, DroppedOnes, Left;
      ghost var k;
      OthersDiffer();
      alive, k := CloseSeg();
      LeftIs(k);
      assert old(cur.nalloc) > 0 && segs != [] ==> segs[|segs| - 1] == old(cur);
    }

    method Next() returns (alive: bool)
      requires Idle()
      modifies this
      ensures (if alive then Some(Now()) else None) == Anew(old(StatesOf(segs)), old(freeOffset))
      ensures alive ==> Valid() && Blank() && fresh(cur) && segs == old(segs) + [cur]
    {
      hide Order, ClosedOk, NoRepeats, Packed, CAlign, Within, SpansOf, Place, Orderly;
      FirstPlace(freeOffset);
      alive := NewSeg();
      assert alive ==> StatesOf(segs) == old(StatesOf(segs)) + [StateOf(cur)];
    }

    /** What smp_alloc comes to within `tries` tries: the first segment that has room gives the space, and nothing but
        new segments come of it if none has. None if the process gave up. */
    ghost predicate Allocates(s: State, t: Option<State>, size: nat, oc: bool, tries: nat)
      requires s.segs != []
      decreases tries
    {
      var last := s.segs[|s.segs| - 1];
      var reserv, left := last.nalloc1 * SMP_OBJECT, s.free - s.next;
      if tries == 0 then t == Some(s)
      else if Whole(size, oc, reserv, left, last.nalloc1) || (!oc && Part(reserv, left)) then
        t.Some? && Takes(s, t.value, size, oc)
      else match Renewed(s)
           case None => t == None
           case Some(u) => Allocates(u, t, size, oc, tries - 1)
    }

    lemma TriedAgain(s: State, size: nat, oc: bool, tries: nat)
      requires s.segs != [] && tries > 0
      ensures var last := s.segs[|s.segs| - 1];
              var reserv, left := last.nalloc1 * SMP_OBJECT, s.free - s.next;
              !Whole(size, oc, reserv, left, last.nalloc1) && (oc || !Part(reserv, left)) ==>
                match Renewed(s)
                case None => Allocates(s, None, size, oc, tries)
                case Some(u) => forall t :: Allocates(u, t, size, oc, tries - 1) ==> Allocates(s, t, size, oc, tries)
    {
    }

    lemma TakenNow(s: State, t: State, size: nat, oc: bool, tries: nat)
      requires s.segs != [] && tries > 0 && Takes(s, t, size, oc)
      requires var last := s.segs[|s.segs| - 1];
               var reserv, left := last.nalloc1 * SMP_OBJECT, s.free - s.next;
               Whole(size, oc, reserv, left, last.nalloc1) || (!oc && Part(reserv, left))
      ensures Allocates(s, Some(t), size, oc, tries)
    {
    }

    lemma OutOfTries(s: State, size: nat, oc: bool)
      requires s.segs != []
      ensures Allocates(s, Some(s), size, oc, 0)
    {
    }

    /** What the state says of the open segment. */
    lemma Last()
      requires Valid()
      ensures var s := Now(); s.segs != [] && s.segs[|s.segs| - 1].nalloc1 == cur.nalloc1 &&
                              s.free - s.next == SpaceLeft(cur) && objreserv == cur.nalloc1 * SMP_OBJECT
    {
    }

    /** smp_alloc: three tries, each in a new segment. False if the process gave up. */
    method Alloc(size: nat, oc: bool) returns (alive: bool, sg: Seg?, at: nat, space: nat)
      requires Valid()
      modifies this, cur
      ensures alive ==> Valid()
      ensures old(Now()).segs != [] && Allocates(old(Now()), if alive then Some(Now()) else None, size, oc, 3)
      ensures alive && sg != null ==> sg == cur && Granted(at, CAlign(storage) + space) && space % 16 == 0
      ensures alive && sg != null ==> space == CAlign(size) || (!oc && CutToFit(size, space))
      ensures alive && sg == null ==>
        !Whole(size, oc, 0, Len() - SEG_SPACE, 0) && (oc || !Part(0, Len() - SEG_SPACE))
      ensures Whole(size, oc, 0, Len() - SEG_SPACE, 0) || (!oc && Part(0, Len() - SEG_SPACE)) ==>
        (alive <==> || old(Whole(size, oc, objreserv, SpaceLeft(cur), cur.nalloc1))
                    || (!oc && old(Part(objreserv, SpaceLeft(cur)))) || Renewed(old(Now())).Some?)
      ensures old(Whole(size, oc, objreserv, SpaceLeft(cur), cur.nalloc1)) ==>
        alive && sg == old(cur) && space == CAlign(size)
      ensures !oc && old(Part(objreserv, SpaceLeft(cur))) ==> alive && sg == old(cur)
      ensures alive && sg == old(cur) ==>
        && old(Whole(size, oc, objreserv, SpaceLeft(cur), cur.nalloc1) || (!oc && Part(objreserv, SpaceLeft(cur))))
        && at == old(cur.nextAddr) && cur.allocs == old(cur.allocs) + [Range(at, at + CAlign(storage) + space)]
        && cur.nalloc1 == old(cur.nalloc1) + (if oc then 1 else 0) && cur.nalloc2 == old(cur.nalloc2)
        && cur.nobj == old(cur.nobj) && segs == old(segs) && freeOffset == old(freeOffset)
      ensures alive ==> forall j :: 0 <= j < |segs| ==> segs[j] in old(segs) || fresh(segs[j])
    {
      hide Order, ClosedOk, NoRepeats, Packed, CAlign, Within, Fixed, Seg.Counts, Whole, Part, CutToFit, Renewed, Takes,
        Allocates, Now, StatesOf;
      var tries := 0;
      Last();
      ghost var first := cur;
      ghost var was := Now();
      ghost var s, left := was, 3;
      while tries < 3
        invariant tries <= 3 && Valid() && (tries == 0 || (Blank() && fresh(cur)))
        invariant tries == 0 ==> cur == first && unchanged(this) && unchanged(first)
        invariant tries > 0 ==> !old(Whole(size, oc, objreserv, SpaceLeft(cur), cur.nalloc1))
        invariant tries > 0 ==> oc || !old(Part(objreserv, SpaceLeft(cur)))
        invariant tries > 0 ==> Renewed(was).Some?
        invariant s == Now() && s.segs != [] && left == 3 - tries
        invariant forall t :: Allocates(s, t, size, oc, left) ==> Allocates(was, t, size, oc, 3)
        invariant tries > 1 ==> !Whole(size, oc, 0, Len() - SEG_SPACE, 0) && (oc || !Part(0, Len() - SEG_SPACE))
        invariant forall j :: 0 <= j < |segs| ==> segs[j] in old(segs) || fresh(segs[j])
      {
        Last();
        TriedAgain(s, size, oc, left);
        var ok;
        ok, at, space := Try(size, oc);
        if ok {
          TakenNow(s, Now(), size, oc, left);
          return true, cur, at, space;
        }
        alive := Renew();
        if !alive {
          return false, null, 0, 0;
        }
        tries := tries + 1;
        s, left := Now(), left - 1;
      }
      OutOfTries(s, size, oc);
      return true, null, 0, 0;
    }

    /** `n` bytes at `at` are the last allocation of the open segment. */
    ghost predicate Granted(at: nat, n: nat)
      reads this`cur, cur
    {
      cur != null && |cur.allocs| > 0 && cur.allocs[|cur.allocs| - 1] == Range(at, at + n) && cur.nextAddr == at + n
    }

    /** The grabbing of space, the count of objects and the reserve for the index. */
    method Bump(space: nat, oc: bool)
      requires Valid() && space % 16 == 0
      requires CAlign(storage) + space + CAlign(objreserv + if oc then SMP_OBJECT else 0) + 2 * SEG_SPACE <=
        SpaceLeft(cur)
      requires oc ==> cur.nalloc1 < aimNobj
      modifies this`objreserv, cur`nextAddr, cur`nalloc, cur`nalloc1, cur`allocs
      ensures Valid() && Granted(old(cur.nextAddr), CAlign(storage) + space)
      ensures cur.nalloc1 == old(cur.nalloc1) + if oc then 1 else 0
      ensures objreserv == old(objreserv) + if oc then 56 else 0
      ensures cur.allocs == old(cur.allocs) + [Range(old(cur.nextAddr), old(cur.nextAddr) + CAlign(storage) + space)]
    {
      hide Order, ClosedOk, NoRepeats, CAlign, Packed;
      OthersDiffer();
      cur.Grab(CAlign(storage), space, oc, Len(), if oc then CAlign(SMP_OBJECT + objreserv) else CAlign(objreserv));
      if oc {
        objreserv := objreserv + SMP_OBJECT;
        assert objreserv <= SpaceLeft(cur);
      }
    }

    /** smp_object: the next descriptor of the segment the object was allocated in. */
    method Object(sg: Seg) returns (index: nat)
      requires Valid() && sg in segs && sg.nalloc2 < sg.nalloc1
      modifies sg`nalloc2, sg`nobj
      ensures Valid() && index == old(sg.nalloc2) < sg.nalloc1 && sg.nalloc2 == index + 1
      ensures sg.nobj == old(sg.nobj) + 1
    {
      hide Order, NoRepeats, Packed, CAlign, Within, Fixed, SpaceLeft;
      index := sg.nalloc2;
      sg.nalloc2 := sg.nalloc2 + 1;
      sg.nobj := sg.nobj + 1;
    }

    /** SMP_FreeObj: only the count of objects goes down. */
    method FreeObj(sg: Seg)
      requires Valid() && sg in segs && sg.nobj > 0
      modifies sg`nobj
      ensures Valid() && sg.nobj == old(sg.nobj) - 1
    {
      hide Order, NoRepeats, Packed, CAlign;
      sg.nobj := sg.nobj - 1;
    }

    /** The open segment is closed and another one opened at `o`; the first `k` segments have no objects any more, the
        next one has. */
    method Turn(ghost k: nat, ghost o: nat)
      requires Valid() && cur.nalloc > 0 && ClosedEnd() <= media
      requires k < |segs| && segs[k].nobj > 0 && forall i :: 0 <= i < k ==> segs[i].nobj == 0
      requires Place([Range(segs[k].offset, 0)], ClosedEnd(), Len(), spc, media) == Some(o)
      modifies this, cur
      ensures Valid() && Blank() && fresh(cur) && segs == old(segs)[k..] + [cur] && cur.offset == o
      ensures Filed(old(cur), old(objreserv))
    {
      hide Order, ClosedOk, NoRepeats, Packed, CAlign, Within, Orderly, Place, DroppedOnes;
      var alive, n := CloseSeg();
      assert n == k;
      FirstDecides(SpansOf(segs, Len()), segs[0].offset, freeOffset);
      alive := NewSeg();
    }

    /** The steps of smp_alloc for an object that the open segment has no room for and an empty one has. */
    method AllocNext(size: nat, ghost k: nat, ghost o: nat) returns (at: nat)
      requires Valid() && cur.nalloc > 0 && !Whole(size, true, objreserv, SpaceLeft(cur), cur.nalloc1)
      requires Whole(size, true, 0, Len() - SEG_SPACE, 0) && ClosedEnd() <= media
      requires k < |segs| && segs[k].nobj > 0 && forall i :: 0 <= i < k ==> segs[i].nobj == 0
      requires Place([Range(segs[k].offset, 0)], ClosedEnd(), Len(), spc, media) == Some(o)
      modifies this, cur
      ensures Valid() && fresh(cur) && segs == old(segs)[k..] + [cur] && cur.offset == o && at == o + SEG_SPACE
      ensures cur.allocs == [Range(at, at + CAlign(storage) + CAlign(size))] && cur.nalloc1 == 1 && cur.nalloc2 == 0
      ensures cur.nobj == 0 && objreserv == SMP_OBJECT && cur.nextAddr == at + CAlign(storage) + CAlign(size)
      ensures Filed(old(cur), old(objreserv))
    {
      hide Order, ClosedOk, NoRepeats, Packed, CAlign, Within, Orderly, Place, Filed, Allocates, Renewed, Now;
      Turn(k, o);
      var alive, sg, space;
      alive, sg, at, space := Alloc(size, true);
    }

    lemma FirstDecides(l: seq<Range>, lo: nat, free: nat)
      requires l != [] && l[0].lo == lo
      ensures Place(l, free, Len(), spc, media) == Place([Range(lo, 0)], free, Len(), spc, media)
    {
    }

    /** What an operation comes to; a registration that awaits no object, and a free of no object, do nothing. None if
        the process gave up. */
    ghost predicate Step(op: Op, s: State, t: Option<State>)
      requires s.segs != []
    {
      match op
      case Allocate(size, oc) => Allocates(s, t, size, oc, 3)
      case Register(k) =>
        if k < |s.segs| && s.segs[k].nalloc2 < s.segs[k].nalloc1 then
          t == Some(s.(segs := s.segs[k := s.segs[k].(nalloc2 := s.segs[k].nalloc2 + 1, nobj := s.segs[k].nobj + 1)]))
        else t == Some(s)
      case Free(k) =>
        if k < |s.segs| && s.segs[k].nobj > 0 then
          t == Some(s.(segs := s.segs[k := s.segs[k].(nobj := s.segs[k].nobj - 1)]))
        else t == Some(s)
    }

    /** Any run of allocations, object registrations and frees, step by step, up to where the process gives up. */
    method Run(ops: seq<Op>) returns (alive: bool, ghost states: seq<State>)
      requires Valid()
      modifies this, segs
      ensures alive ==> Valid() && |states| == |ops| + 1 && states[|ops|] == Now()
      ensures 0 < |states| <= |ops| + 1 && states[0] == old(Now())
      ensures forall n :: 0 <= n < |states| ==> states[n].segs != []
      ensures forall n :: 0 <= n < |states| - 1 ==> Step(ops[n], states[n], Some(states[n + 1]))
      ensures !alive ==> |states| <= |ops| && Step(ops[|states| - 1], states[|states| - 1], None)
    {
      hide Valid, Step, Now;
      alive, states := true, [Now()];
      Last();
      for n := 0 to |ops|
        invariant Valid() && alive && |states| == n + 1 && states[0] == old(Now()) && states[n] == Now()
        invariant forall m :: 0 <= m <= n ==> states[m].segs != []
        invariant forall m :: 0 <= m < n ==> Step(ops[m], states[m], Some(states[m + 1]))
        invariant forall j :: 0 <= j < |segs| ==> segs[j] in old(segs) || fresh(segs[j])
      {
        alive := Do(ops[n]);
        if !alive {
          return;
        }
        Last();
        states := states + [Now()];
      }
    }

    method Do(op: Op) returns (alive: bool)
      requires Valid()
      modifies this, segs
      ensures alive ==> Valid()
      ensures alive ==> forall j :: 0 <= j < |segs| ==> segs[j] in old(segs) || fresh(segs[j])
      ensures old(Now()).segs != [] && Step(op, old(Now()), if alive then Some(Now()) else None)
    {
      hide Order, ClosedOk, NoRepeats, Packed, CAlign, Allocates, Seg.Counts;
      alive := true;
      match op
      case Allocate(size, oc) =>
        var sg, at, space;
        alive, sg, at, space := Alloc(size, oc);
      case Register(k) => DoRegister(k);
      case Free(k) => DoFree(k);
    }

    method DoRegister(k: nat)
      requires Valid()
      modifies segs
      ensures Valid() && segs == old(segs) && Step(Register(k), old(Now()), Some(Now()))
    {
      hide Order, ClosedOk, NoRepeats, Packed, CAlign, Within, Fixed, Allocates, Seg.Counts;
      if k < |segs| && segs[k].nalloc2 < segs[k].nalloc1 {
        Apart(k);
        var index := Object(segs[k]);
        OneChanged(k);
      }
    }

    method DoFree(k: nat)
      requires Valid()
      modifies segs
      ensures Valid() && segs == old(segs) && Step(Free(k), old(Now()), Some(Now()))
    {
      hide Order, ClosedOk, NoRepeats, Packed, CAlign, Within, Fixed, Allocates, Seg.Counts;
      if k < |segs| && segs[k].nobj > 0 {
        Apart(k);
        FreeObj(segs[k]);
        OneChanged(k);
      }
    }

    lemma Apart(k: nat)
      requires NoRepeats(segs) && k < |segs|
      ensures forall i :: 0 <= i < |segs| && i != k ==> segs[i] != segs[k]
    {
    }

    twostate lemma OneChanged(k: nat)
      requires segs == old(segs) && k < |segs| && forall i :: 0 <= i < |segs| && i != k ==> unchanged(segs[i])
      ensures StatesOf(segs) == old(StatesOf(segs))[k := StateOf(segs[k])]
    {
    }

    /** No two allocations overlap, in one listed segment or in two, as long as every segment was placed in order. */
    lemma AllocsApart(i: nat, a: nat, j: nat, b: nat)
      requires Valid() && i < |segs| && j < |segs| && a < |segs[i].allocs| && b < |segs[j].allocs|
      requires (i == j && a < b) || (i < j && orderly)
      ensures Disjoint(segs[i].allocs[a], segs[j].allocs[b])
    {
      hide NoRepeats, CAlign, SpansOf;
      if i < j {
        var l := SpansOf(segs, Len());
        LaidApart(l, upper, freeOffset, spc);
        hide Laid;
        Inside(i, a);
        Inside(j, b);
        assert Disjoint(l[i], l[j]);
      } else {
        assert i < |segs| - 1 ==> segs[i] == segs[..|segs| - 1][i];
      }
    }

    lemma Inside(i: nat, a: nat)
      requires Valid() && i < |segs| && a < |segs[i].allocs|
      ensures var r, s := segs[i].allocs[a], Span(segs[i], Len()); s.lo <= r.lo <= r.hi <= s.hi
    {
      hide NoRepeats, Order;
      assert i < |segs| - 1 ==> segs[i] == segs[..|segs| - 1][i];
    }
  }

  datatype Op = Allocate(size: nat, oc: bool) | Register(k: nat) | Free(k: nat)
}
