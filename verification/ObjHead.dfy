/** The objhead of bin/varnishd/hash_slinger.h, with the branch node the crit-bit tree embeds in it. */
module ObjHeads {
  import opened Digests

  /** A tagged tree pointer: no pointer, a leaf objhead, or the branch node embedded in an objhead. */
  datatype Ptr = Null | Node(oh: ObjHead) | Y(at: ObjHead)

  /** A crit-bit, with the byte and the mask that select it. */
  datatype BitPos = BitPos(critbit: nat, ptr: nat, bitmask: bv8)
  {
    predicate Ok() {
      critbit < 256 && ptr == critbit / 8 && bitmask == Mask(critbit % 8)
    }
  }

  /** `struct hcb_y`. */
  datatype HcbY = HcbY(pos: BitPos, leaf0: Ptr, leaf1: Ptr)
  {
    function Leaf(s: bool): Ptr {
      if s then leaf1 else leaf0
    }

    function SetLeaf(s: bool, p: Ptr): HcbY {
      if s then this.(leaf1 := p) else this.(leaf0 := p)
    }

    predicate Unused() {
      leaf0 == Null && leaf1 == Null
    }
  }

  const ZERO_Y := HcbY(BitPos(0, 0, 0), Null, Null)

  class ObjHead {
    /** Names the allocation, so that two indexes over different memory can be compared. */
    const id: nat
    var refcnt: nat
    var digest: Digest
    var y: HcbY

    /** What HSH_Prealloc hands to a worker. */
    constructor (id: nat)
      ensures this.id == id && refcnt == 1 && y == ZERO_Y
    {
      this.id := id;
      refcnt := 1;
      y := ZERO_Y;
      digest := seq(DIGEST_LEN, i => 0);
    }
  }

  /** What a caller sees of an indexed objhead: which allocation it is, and its references. */
  datatype Entry = Entry(id: nat, refcnt: nat)
}
