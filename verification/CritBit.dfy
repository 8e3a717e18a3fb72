/** The crit-bit hash slinger: bin/varnishd/hash_critbit.c over the embedded nodes, in place. */
module HashCritBit {
  import opened Digests
  import opened ObjHeads
  import opened CritBitTree
  import opened IndexSpec
  import opened Lists

  datatype Root = Empty | Full(t: Tree)

  const COOL_DURATION: bv8 := 60

  /** The embedded node `y` holds the cell `c` of the trie. */
  predicate Holds(y: HcbY, c: Cell) {
    && y.pos.Ok() && y.pos.critbit == c.critbit
    && y.leaf0 == c.leaf0 && y.leaf1 == c.leaf1
  }

  ghost predicate HoldAll(cells: map<ObjHead, Cell>)
    reads cells.Keys`y
  {
    forall o {:trigger cells[o]} :: o in cells ==> Holds(o.y, cells[o])
  }

  /** `sub` is a subtree of `t`, with the same embedded nodes. */
  ghost predicate Sub(sub: Tree, t: Tree) {
    && WellFormed(sub) && Distinct(sub)
    && Owners(sub) <= Owners(t)
    && forall o :: o in Owners(sub) ==> Nodes(sub)[o] == Nodes(t)[o]
  }

  lemma SubChild(t: Tree, cur: Tree, s: bool)
    requires Sub(cur, t) && cur.Branch?
    ensures Sub(cur.Child(s), t)
    ensures cur.owner in Owners(t) && Nodes(t)[cur.owner] == NodeOf(cur)
  {
    NodesSplit(cur, s);
    assert Nodes(cur)[cur.owner] == NodeOf(cur);
  }

  lemma {:induction false} BothLeaves(t: Tree)
    ensures forall o :: o in Owners(t) ==> Nodes(t)[o].leaf0 != Null && Nodes(t)[o].leaf1 != Null
    decreases t
  {
    if t.Branch? {
      BothLeaves(t.zero);
      BothLeaves(t.one);
    }
  }

  lemma Tails(s: seq<ObjHead>, i: nat, t: seq<ObjHead>, j: nat)
    requires i < |s| && j < |t| && s[i..] == t[j..]
    ensures s[i + 1..] == t[j + 1..]
  {
    assert s[i + 1..] == s[i..][1..];
    assert t[j + 1..] == t[j..][1..];
  }

  /** The seconds an objhead on laylow has cooled, in the first byte of its digest. */
  function Clock(d: Digest): nat {
    d[0] as nat
  }

  lemma Ticks(d: Digest)
    requires d[0] <= COOL_DURATION
    ensures d[0] == COOL_DURATION <==> Clock(d) >= 60
    ensures d[0] < COOL_DURATION ==> Clock(d[0 := d[0] + 1]) == Clock(d) + 1 <= 60
  {
  }

  class HashCritBit {
    var origo: Ptr
    var laylow: seq<ObjHead>
    const bittbl: array<nat>

    ghost var root: Root
    /** The objheads in which a branch node of the tree is embedded. */
    ghost var owners: set<ObjHead>
    /** The indexed objheads, also by the bits of their digest. */
    ghost var heads: set<ObjHead>
    ghost var index: map<Key, ObjHead>

    ghost function Repr(): set<ObjHead>
      reads this`heads, this`laylow
    {
      heads + set o | o in laylow
    }

    ghost predicate Table()
      reads bittbl
    {
      bittbl.Length == 256 && forall i :: 0 <= i < 256 ==> bittbl[i] == LeadingZeros(i)
    }

    /** The tree is the trie of the indexed digests, held by the embedded nodes. */
    ghost predicate TreeOk()
      reads this`origo, this`root, this`index, this`owners, owners`y
    {
      match root
      case Empty => origo == Null && index == map[] && owners == {}
      case Full(t) =>
        && origo == PtrOf(t) && WellFormed(t) && Distinct(t)
        && owners == Owners(t) && HoldAll(Nodes(t))
        && index == Leaves(t)
    }

    /** Indexed objheads carry the digest they are indexed by, and are referenced. */
    ghost predicate HeadsOk()
      reads this`index, this`heads, heads`digest, heads`refcnt
    {
      && (forall k :: k in index ==> index[k] in heads && Bits(index[k].digest) == k)
      && (forall o :: o in heads ==> Bits(o.digest) in index && index[Bits(o.digest)] == o && o.refcnt > 0)
    }

    lemma Referenced(o: ObjHead)
      requires HeadsOk() && o in heads
      ensures Bits(o.digest) in index && index[Bits(o.digest)] == o && o.refcnt > 0
    {
    }

    lemma IndexedBy(k: Key)
      requires HeadsOk() && k in index
      ensures index[k] in heads && Bits(index[k].digest) == k
    {
    }

    /** Objheads on laylow are distinct, out of the index, unreferenced, and not yet cold. */
    ghost predicate LaylowOk()
      reads this`laylow, this`heads, laylow`digest, laylow`refcnt
    {
      && NoRepeats(laylow)
      && (forall o :: o in laylow ==> o !in heads && o.refcnt == 0 && o.digest[0] <= COOL_DURATION)
    }

    /** Branch nodes are embedded in objheads that still exist; the other embedded nodes are zero. */
    ghost predicate NodesOk(extra: set<ObjHead>)
      reads this`owners, this`heads, this`laylow, Repr()`y, extra`y
    {
      && owners <= Repr() + extra
      && (forall o :: o in Repr() + extra && o !in owners ==> o.y.Unused())
    }

    lemma OwnersExist()
      requires NodesOk({})
      ensures owners <= Repr()
    {
    }

    /** The invariant, where `extra` are objheads on their way from the tree to laylow. */
    ghost predicate Inv(extra: set<ObjHead>)
      reads this, bittbl, Repr(), owners, extra
    {
      Table() && TreeOk() && HeadsOk() && LaylowOk() && NodesOk(extra)
    }

    ghost predicate Valid()
      reads this, bittbl, Repr(), owners
    {
      Inv({})
    }

    ghost function View(): View
      requires HeadsOk()
      reads this, heads
    {
      map k | k in index :: Entry(index[k].id, index[k].refcnt)
    }

    /** hcb_start with hcb_build_bittbl. */
    constructor ()
      ensures Valid() && fresh(bittbl) && View() == map[] && laylow == [] && index == map[] && heads == {}
    {
      var tbl := new nat[256](i => 0);
      bittbl := tbl;
      origo := Null;
      laylow := [];
      root := Empty;
      owners := {};
      heads := {};
      index := map[];
      new;
      BuildBitTable(tbl);
    }

    /** hcb_crit_bit: the first bit in which two digests differ. */
    method CritBit(d1: Digest, d2: Digest) returns (y: HcbY)
      requires Table() && d1 != d2
      ensures y.pos.Ok() && y.Unused()
      ensures FirstDifference(Bits(d1), Bits(d2), y.pos.critbit)
    {
      hide CommonBits, Bits, Table, FirstDifference;
      var u := 0;
      while u < DIGEST_LEN && d1[u] == d2[u]
        invariant u <= DIGEST_LEN
        invariant d1[..u] == d2[..u]
      {
        u := u + 1;
      }
      assert u < DIGEST_LEN;
      var r := CommonBits(d1[u], d2[u]);
      SplitAt(d1, d2, u, r);
      y := HcbY(BitPos(u * 8 + r, u, Mask(r)), Null, Null);
    }

    /** `*p`. */
    function Load(p: Slot): Ptr
      reads this, if p.LeafOf? then {p.owner} else {}
    {
      match p
      case Origo => origo
      case LeafOf(owner, s) => owner.y.Leaf(s)
    }

    /** `*p = v`. */
    method Store(p: Slot, v: Ptr, ghost cells: map<ObjHead, Cell>)
      requires HoldAll(cells) && (p.LeafOf? ==> p.owner in cells)
      modifies if p.Origo? then {this} else {}`origo, if p.LeafOf? then {p.owner} else {}`y
      ensures p.Origo? ==> origo == v
      ensures HoldAll(Overwrite(cells, p, v))
    {
      match p
      case Origo => origo := v;
      case LeafOf(owner, s) => owner.y := owner.y.SetLeaf(s, v);
    }

    /** `oh->u` becomes a branch node. */
    method StoreNode(oh: ObjHead, y: HcbY, ghost cells: map<ObjHead, Cell>, ghost n: Cell)
      requires HoldAll(cells) && oh !in cells && Holds(y, n)
      modifies oh`y
      ensures HoldAll(WithNode(cells, oh, n))
    {
      oh.y := y;
    }

    /** The slot `p` is where the tree `t` hangs its subtree `cur`. */
    ghost predicate Hangs(p: Slot, cur: Tree)
      reads this, if p.LeafOf? then {p.owner} else {}
    {
      && root.Full? && Sub(cur, root.t)
      && (p.Origo? ==> cur == root.t)
      && (p.LeafOf? ==> p.owner in owners && p.owner !in Owners(cur))
      && Load(p) == PtrOf(cur)
    }

    /** One step of a descent. */
    lemma Down(p: Slot, cur: Tree, s: bool)
      requires TreeOk() && Hangs(p, cur) && cur.Branch?
      ensures Hangs(LeafOf(cur.owner, s), cur.Child(s))
      ensures Holds(cur.owner.y, NodeOf(cur)) && cur.owner in owners
    {
      SubChild(root.t, cur, s);
      assert Holds(cur.owner.y, Nodes(root.t)[cur.owner]);
    }

    /** The bit of the digest the node tells a descent to look at. */
    method BitFor(oh: ObjHead, pos: BitPos) returns (s: bool)
      requires pos.Ok()
      ensures pos.critbit < 256 && s == Bits(oh.digest)[pos.critbit]
    {
      BitAt(oh.digest, pos.critbit / 8, pos.critbit % 8);
      s := TestBit(oh.digest, pos.ptr, pos.bitmask);
    }

    /** One step of a descent: `p = &y->leaf[s]`. */
    method Follow(oh: ObjHead, p: Slot, at: ObjHead, ghost cur: Tree) returns (p': Slot)
      requires TreeOk() && Hangs(p, cur) && Y(at) == PtrOf(cur)
      ensures p' == LeafOf(cur.owner, Bits(oh.digest)[|cur.pre|])
      ensures Hangs(p', cur.Child(Bits(oh.digest)[|cur.pre|]))
    {
      Down(p, cur, Bits(oh.digest)[|cur.pre|]);
      var s := BitFor(oh, at.y.pos);
      p' := LeafOf(at, s);
    }

    /** The first descent of hcb_insert. */
    method FindLeaf(oh: ObjHead) returns (p: Slot, oh2: ObjHead)
      requires TreeOk() && root.Full?
      ensures Search(root.t, Bits(oh.digest)).oh == oh2
      ensures Load(p) == Node(oh2)
    {
      var key := Bits(oh.digest);
      p := Origo;
      var pp := Load(p);
      ghost var cur := root.t;
      while pp.Y?
        invariant TreeOk() && Hangs(p, cur) && pp == PtrOf(cur)
        invariant Search(cur, key) == Search(root.t, key)
        decreases cur
      {
        p := Follow(oh, p, pp.at, cur);
        pp := Load(p);
        cur := cur.Child(key[|cur.pre|]);
      }
      oh2 := pp.oh;
    }

    /** The second descent of hcb_insert. */
    method FindSlot(oh: ObjHead, critbit: nat) returns (p: Slot, ghost cur: Tree)
      requires TreeOk() && root.Full? && critbit < 256
      ensures (p, cur) == InsertSlot(root.t, Origo, Bits(oh.digest), critbit)
      ensures Load(p) == PtrOf(cur)
      ensures p.LeafOf? ==> p.owner in owners
    {
      ghost var key := Bits(oh.digest);
      p := Origo;
      cur := root.t;
      while Load(p).Y? && Load(p).at.y.pos.critbit <= critbit
        invariant TreeOk() && Hangs(p, cur)
        invariant InsertSlot(root.t, Origo, key, critbit) == InsertSlot(cur, p, key, critbit)
        decreases cur
      {
        Down(p, cur, false);
        p := Follow(oh, p, Load(p).at, cur);
        cur := cur.Child(key[|cur.pre|]);
      }
      if cur.Branch? {
        Down(p, cur, false);
      }
    }

    /** The last part of hcb_insert: fill in the node embedded in `oh` and link it. */
    method Link(oh: ObjHead, y: HcbY) returns (ghost p: Slot, ghost cur: Tree)
      requires TreeOk() && root.Full?
      requires oh !in owners && y.pos.Ok() && y.Unused()
      modifies this`origo, owners`y, oh`y
      ensures (p, cur) == InsertSlot(root.t, Origo, Bits(oh.digest), y.pos.critbit)
      ensures origo == if p.Origo? then Y(oh) else old(origo)
      ensures HoldAll(
        Overwrite(WithNode(Nodes(root.t), oh, NewNode(oh, Bits(oh.digest), y.pos.critbit, cur)), p, Y(oh)))
    {
      hide Owners, Distinct, WellFormed, Leaves, Nodes, InsertSlot, HoldAll, Bits, Search, Overwrite;
      var s2 := BitFor(oh, y.pos);
      var q;
      q, cur := FindSlot(oh, y.pos.critbit);
      p := q;
      ghost var cells, n := Nodes(root.t), NewNode(oh, Bits(oh.digest), y.pos.critbit, cur);
      StoreNode(oh, y.SetLeaf(s2, Node(oh)).SetLeaf(!s2, Load(q)), cells, n);
      Store(q, Y(oh), WithNode(cells, oh, n));
    }

    /** The tree with `oh` linked is the trie with its digest added. */
    method Graft(oh: ObjHead, y: HcbY)
      requires TreeOk() && root.Full? && oh !in owners && y.pos.Ok() && y.Unused()
      requires FirstDifference(Bits(oh.digest), Search(root.t, Bits(oh.digest)).key, y.pos.critbit)
      modifies this`origo, this`root, this`owners, this`index, this`heads, owners`y, oh`y
      ensures TreeOk() && heads == old(heads) + {oh}
      ensures index == old(index)[Bits(oh.digest) := oh]
      ensures owners == old(owners) + {oh}
    {
      hide Owners, Distinct, WellFormed, Leaves, Nodes, InsertSlot, CritBitTree.Insert, PtrOf, HoldAll, Holds, Bits,
        Overwrite, WithNode, NewNode, Search, FirstDifference;
      ghost var key, t, c := Bits(oh.digest), root.t, y.pos.critbit;
      ghost var p, cur := Link(oh, y);
      root := Full(CritBitTree.Insert(t, oh, key, c));
      owners := owners + {oh};
      index := index[key := oh];
      heads := heads + {oh};
      InsertWrites(t, oh, key, c);
      InsertOwners(t, oh, key, c);
      InsertExact([], t, oh, key, c);
    }

    lemma RootOk()
      requires TreeOk()
      ensures origo == Null <==> root.Empty?
      ensures origo == Null ==> index == map[]
    {
    }

    /** A search of the tree finds a digest iff it is indexed. */
    lemma SearchIndex(d: Digest)
      requires TreeOk() && root.Full?
      ensures WellFormed(root.t)
      ensures var f := Search(root.t, Bits(d));
              f.key in index && index[f.key] == f.oh && (Bits(d) in index <==> f.key == Bits(d))
    {
      SearchExact(root.t, Bits(d));
    }

    /** The first objhead becomes the root. */
    method Plant(oh: ObjHead)
      requires TreeOk() && root.Empty?
      modifies this`origo, this`root, this`index, this`heads
      ensures TreeOk() && heads == old(heads) + {oh}
      ensures index == old(index)[Bits(oh.digest) := oh]
    {
      hide Bits;
      origo := Node(oh);
      root := Full(Leaf(oh, Bits(oh.digest)));
      index := map[Bits(oh.digest) := oh];
      heads := heads + {oh};
    }

    /** The rest of the invariant survives the indexing of a new objhead. */
    twostate lemma Adopted(oh: ObjHead)
      requires old(HeadsOk() && LaylowOk() && NodesOk({}) && oh !in Repr() && Bits(oh.digest) !in index)
      requires oh.refcnt > 0 && oh.digest == old(oh.digest) && laylow == old(laylow)
      requires forall o :: o in old(Repr()) ==> o.digest == old(o.digest) && o.refcnt == old(o.refcnt)
      requires forall o :: o in old(Repr()) && o !in old(owners) ==> o.y == old(o.y)
      requires index == old(index)[Bits(oh.digest) := oh] && heads == old(heads) + {oh}
      requires owners == old(owners) + {oh} || (owners == old(owners) && oh.y.Unused())
      ensures HeadsOk() && LaylowOk() && NodesOk({})
    {
      hide Bits;
    }

    /** hcb_insert: finds the objhead of the digest, or adds `oh` if the caller holds the lock. */
    method Insert(oh: ObjHead, hasLock: bool) returns (r: ObjHead?)
      requires Inv({}) && oh !in Repr() && oh.refcnt > 0 && oh.y.Unused()
      modifies this`origo, this`root, this`owners, this`index, this`heads, owners`y, oh`y
      ensures Inv({})
      ensures Bits(oh.digest) in old(index) ==> r == old(index[Bits(oh.digest)])
      ensures Bits(oh.digest) !in old(index) ==> r == if hasLock then oh else null
      ensures index == if r == oh then old(index)[Bits(oh.digest) := oh] else old(index)
      ensures heads == if r == oh then old(heads) + {oh} else old(heads)
      ensures r != oh ==> unchanged(this) && unchanged(owners) && unchanged(oh)
    {
      hide TreeOk, Bits, Search, FirstDifference, Table, LaylowOk;
      RootOk();
      if origo == Null {
        if !hasLock {
          return null;
        }
        Plant(oh);
        Adopted(oh);
        return oh;
      }
      var _, oh2 := FindLeaf(oh);
      SearchIndex(oh.digest);
      if oh2.digest == oh.digest {
        return oh2;
      }
      assert Bits(oh.digest) !in index by {
        if Bits(oh.digest) in index {
          BitsInjective(oh.digest, oh2.digest);
        }
      }
      if !hasLock {
        return null;
      }
      AddBeside(oh, oh2);
      return oh;
    }

    /** The second half of hcb_insert: a branch on the first bit in which `oh` and its neighbour `oh2` differ. */
    method AddBeside(oh: ObjHead, oh2: ObjHead)
      requires Inv({}) && root.Full? && oh !in Repr() && oh.refcnt > 0 && oh.y.Unused()
      requires Search(root.t, Bits(oh.digest)).oh == oh2 && oh2.digest != oh.digest && Bits(oh.digest) !in index
      modifies this`origo, this`root, this`owners, this`index, this`heads, owners`y, oh`y
      ensures Inv({}) && index == old(index)[Bits(oh.digest) := oh] && heads == old(heads) + {oh}
    {
      hide TreeOk, Bits, Search, FirstDifference, Table, LaylowOk;
      SearchIndex(oh.digest);
      var y := CritBit(oh.digest, oh2.digest);
      Graft(oh, y);
      Adopted(oh);
    }

    /** The loop of hcb_delete: the branch one of whose sides is the leaf `oh`. */
    method FindBranch(oh: ObjHead, ghost key: Key) returns (p: Slot, y: ObjHead, s: bool, ghost cur: Tree)
      requires TreeOk() && root.Full? && root.t.Branch? && |key| == 256
      requires key == Bits(oh.digest) && key in index && index[key] == oh
      ensures (p, cur) == DeleteSlot(root.t, Origo, key)
      ensures cur.owner == y && |cur.pre| < 256 && s == key[|cur.pre|]
      ensures y in owners && Holds(y.y, NodeOf(cur))
      ensures p.LeafOf? ==> p.owner in owners && p.owner != y
    {
      hide Bits;
      p := Origo;
      cur := root.t;
      while true
        invariant Hangs(p, cur) && cur.Branch? && key in Leaves(cur) && Leaves(cur)[key] == oh
        invariant DeleteSlot(root.t, Origo, key) == DeleteSlot(cur, p, key)
        decreases cur
      {
        y := Load(p).at;
        Down(p, cur, key[|cur.pre|]);
        s := BitFor(oh, y.y.pos);
        StopsAtLeaf(cur, key, oh);
        if y.y.Leaf(s) == Node(oh) {
          return;
        }
        p := LeafOf(y, s);
        cur := cur.Child(s);
      }
    }

    /** Overwrite the slot that points to the branch `y` with its other side, and zero the branch. */
    method Bypass(p: Slot, y: ObjHead, s: bool, ghost cells: map<ObjHead, Cell>)
      requires HoldAll(cells) && y in cells && (p.LeafOf? ==> p.owner in cells && p.owner != y)
      modifies if p.Origo? then {this} else {}`origo, if p.LeafOf? then {p.owner} else {}`y, y`y
      ensures p.Origo? ==> origo == old(y.y.Leaf(!s))
      ensures HoldAll(Overwrite(cells, p, old(y.y.Leaf(!s))) - {y}) && y.y.Unused()
    {
      Store(p, y.y.Leaf(!s), cells);
      y.y := y.y.SetLeaf(false, Null).SetLeaf(true, Null);
    }

    /** The tree with the leaf `oh` cut is the trie with its digest removed. */
    method Prune(oh: ObjHead, ghost key: Key) returns (ghost y: ObjHead)
      requires TreeOk() && root.Full? && root.t.Branch? && |key| == 256
      requires key == Bits(oh.digest) && key in index && index[key] == oh
      modifies this`origo, this`root, this`owners, this`index, this`heads, owners`y
      ensures TreeOk() && heads == old(heads) - {oh}
      ensures index == old(index) - {key}
      ensures y in old(owners) && owners == old(owners) - {y} && y.y.Unused()
    {
      hide Owners, Distinct, WellFormed, Leaves, Nodes, DeleteSlot, CritBitTree.Delete, HoldAll, Bits, Overwrite;
      ghost var t := root.t;
      var p, at, s, cur := FindBranch(oh, key);
      y := at;
      Bypass(p, at, s, Nodes(t));
      root := Full(CritBitTree.Delete(t, key));
      owners := owners - {y};
      index := index - {key};
      heads := heads - {oh};
      DeleteWrites(t, key);
      DeleteOwners(t, key);
      DeleteExact([], t, key);
    }

    lemma LeafRoot(oh: ObjHead, key: Key)
      requires TreeOk() && key in index && index[key] == oh
      ensures root.Full? && (origo == Node(oh) <==> root.t.Leaf?)
      ensures root.t.Leaf? ==> index == map[key := oh] && owners == {}
    {
    }

    /** The rest of the invariant survives the removal of an objhead. */
    twostate lemma Released(oh: ObjHead)
      requires old(HeadsOk() && LaylowOk() && NodesOk({}) && oh in heads)
      requires laylow == old(laylow)
      requires forall o :: o in old(Repr()) ==> o.digest == old(o.digest) && o.refcnt == old(o.refcnt)
      requires forall o :: o in old(Repr()) && o !in old(owners) ==> o.y == old(o.y)
      requires index == old(index) - {Bits(oh.digest)} && heads == old(heads) - {oh}
      requires owners <= old(owners) && forall o :: o in old(owners) && o !in owners ==> o.y.Unused()
      ensures HeadsOk() && LaylowOk() && NodesOk({oh})
    {
      hide Bits;
    }

    /** hcb_delete: takes an indexed objhead out of the tree. */
    method Delete(oh: ObjHead)
      requires Inv({}) && oh in heads
      modifies this`origo, this`root, this`owners, this`index, this`heads, owners`y
      ensures Inv({oh})
      ensures index == old(index) - {Bits(oh.digest)} && heads == old(heads) - {oh}
    {
      hide TreeOk, Bits, Table, LaylowOk, NodesOk;
      LeafRoot(oh, Bits(oh.digest));
      if origo == Node(oh) {
        Uproot(oh);
      } else {
        ghost var y := Prune(oh, Bits(oh.digest));
      }
      Released(oh);
    }

    method Uproot(oh: ObjHead)
      requires TreeOk() && root.Full? && root.t.Leaf?
      modifies this`origo, this`root, this`index, this`heads
      ensures TreeOk() && index == map[] && heads == old(heads) - {oh}
    {
      origo := Null;
      root := Empty;
      index := map[];
      heads := heads - {oh};
    }

    twostate lemma ViewCounted(oh: ObjHead)
      requires old(HeadsOk()) && HeadsOk() && oh in heads
      requires index == old(index)[Bits(oh.digest) := oh]
      requires forall o :: o in heads && o != oh ==> o in old(heads) && o.refcnt == old(o.refcnt)
      ensures View() == old(View())[Bits(oh.digest) := Entry(oh.id, oh.refcnt)]
    {
      hide Bits;
      var key := Bits(oh.digest);
      forall k | k in index && k != key
        ensures View()[k] == old(View())[k]
      {
        assert index[k] == old(index)[k];
      }
    }

    twostate lemma ViewRemoved(key: Key)
      requires old(HeadsOk()) && HeadsOk()
      requires index == old(index) - {key}
      requires forall o :: o in heads ==> o in old(heads) && o.refcnt == old(o.refcnt)
      ensures View() == old(View()) - {key}
    {
      hide Bits;
    }

    /** hcb_deref of the last reference: out of the tree before the count is decremented to zero. */
    method Retire(oh: ObjHead)
      requires Valid() && oh in heads
      modifies this`origo, this`root, this`owners, this`index, this`heads, this`laylow
      modifies owners`y, oh`digest, oh`refcnt
      ensures Valid() && oh.refcnt == 0 && oh.digest == old(oh.digest)[0 := 0]
      ensures index == old(index) - {old(Bits(oh.digest))}
      ensures heads == old(heads) - {oh} && laylow == old(laylow) + [oh]
    {
      hide TreeOk, Bits, Table, HeadsOk;
      Referenced(oh);
      Delete(oh);
      oh.digest := oh.digest[0 := 0];
      laylow := laylow + [oh];
      oh.refcnt := 0;
    }

    /** hcb_deref: the last reference takes the objhead out of the tree and puts it on laylow. */
    method Deref(oh: ObjHead) returns (r: int)
      requires Valid() && oh in heads
      modifies this`origo, this`root, this`owners, this`index, this`heads, this`laylow
      modifies owners`y, oh`digest, oh`refcnt
      ensures Valid() && r == 1
      ensures View() == Dereffed(old(View()), old(Bits(oh.digest)))
      ensures index == if oh.refcnt == 0 then old(index) - {old(Bits(oh.digest))} else old(index)
      ensures oh.refcnt == old(oh.refcnt) - 1
      ensures heads == if oh.refcnt == 0 then old(heads) - {oh} else old(heads)
      ensures laylow == if oh.refcnt == 0 then old(laylow) + [oh] else old(laylow)
      ensures oh.digest == if oh.refcnt == 0 then old(oh.digest)[0 := 0] else old(oh.digest)
    {
      hide TreeOk, Bits, Table, NodesOk;
      ghost var key := Bits(oh.digest);
      r := 1;
      if oh.refcnt > 1 {
        oh.refcnt := oh.refcnt - 1;
        ViewCounted(oh);
        return;
      }
      Retire(oh);
      ViewRemoved(key);
    }

    /** hcb_lookup on a tree nobody else is changing: a first pass without the lock, then one with it. */
    method Lookup(noh: ObjHead) returns (oh: ObjHead)
      requires Valid() && noh !in Repr() && noh.refcnt == 1 && noh.y.Unused()
      modifies this`origo, this`root, this`owners, this`index, this`heads
      modifies owners`y, noh`y, heads`refcnt
      ensures Valid() && laylow == old(laylow)
      ensures View() == LookedUp(old(View()), Bits(noh.digest), noh.id)
      ensures index == old(index)[Bits(noh.digest) := oh]
      ensures oh in heads && Bits(oh.digest) == Bits(noh.digest)
      ensures heads == if oh == noh then old(heads) + {noh} else old(heads)
      ensures oh == noh <==> Bits(noh.digest) !in old(index)
      ensures oh != noh ==> noh.y == old(noh.y)
    {
      hide TreeOk, Bits, Table, NodesOk;
      var found := Insert(noh, false);
      if found != null {
        oh := found;
        var u := oh.refcnt;
        if u != 0 {
          Count(oh);
            return;
        }
      }
      oh := InsertLocked(noh);
    }

    /** The second pass of hcb_lookup. */
    method InsertLocked(noh: ObjHead) returns (oh: ObjHead)
      requires Valid() && noh !in Repr() && noh.refcnt == 1 && noh.y.Unused()
      modifies this`origo, this`root, this`owners, this`index, this`heads
      modifies owners`y, noh`y, heads`refcnt
      ensures Valid()
      ensures View() == LookedUp(old(View()), Bits(noh.digest), noh.id)
      ensures index == old(index)[Bits(noh.digest) := oh]
      ensures oh in heads && Bits(oh.digest) == Bits(noh.digest)
      ensures heads == if oh == noh then old(heads) + {noh} else old(heads)
      ensures oh == noh <==> Bits(noh.digest) !in old(index)
      ensures oh != noh ==> noh.y == old(noh.y)
    {
      hide TreeOk, Bits, Table, NodesOk;
      var got := Insert(noh, true);
      oh := got;
      if oh != noh {
        Count(oh);
      } else {
        ViewCounted(oh);
      }
    }

    /** One more reference on an indexed objhead. */
    method Count(oh: ObjHead)
      requires Valid() && oh in heads
      modifies oh`refcnt
      ensures Valid() && oh.refcnt == old(oh.refcnt) + 1 && Bits(oh.digest) in old(View())
      ensures View() == old(View())[Bits(oh.digest) := Entry(oh.id, old(View())[Bits(oh.digest)].refcnt + 1)]
      ensures index == old(index)[Bits(oh.digest) := oh]
    {
      hide TreeOk, Bits, Table, NodesOk;
      oh.refcnt := oh.refcnt + 1;
      ViewCounted(oh);
    }

    /** A branch node of the tree has two non-zero leaves. */
    lemma OwnersUsed()
      requires TreeOk()
      ensures forall o :: o in owners ==> o.y.leaf0 != Null && o.y.leaf1 != Null
    {
      if root.Full? {
        BothLeaves(root.t);
      }
    }

    /** No objhead on laylow is indexed, and the tree uses no node there that is zero. */
    lemma LaylowApart()
      requires Valid()
      ensures forall o :: o in laylow ==> o !in heads && (o.y.Unused() ==> o !in owners)
    {
      hide NodesOk, HeadsOk, Table, TreeOk;
      OwnersUsed();
    }

    /** Every branch node of the tree is embedded in exactly one objhead, which is in the tree or on
        laylow, and has two non-zero leaves; there is one fewer than there are indexed digests; and an
        objhead whose embedded node is not in use has a zero one, so the cleaner can free it. */
    lemma BranchNodesLive()
      requires Valid() && root.Full?
      ensures Distinct(root.t) && Owners(root.t) == owners <= heads + set o | o in laylow
      ensures |owners| + 1 == |index|
      ensures forall o :: o in owners ==> o.y.leaf0 != Null && o.y.leaf1 != Null
      ensures forall o :: (o in heads || o in laylow) && o !in owners ==> o.y.Unused()
    {
      hide Owners, Distinct, WellFormed, Leaves, Nodes, HeadsOk, LaylowOk, Table;
      OwnersUsed();
      CountNodes(root.t);
    }

    /** Objheads the next sweep of the cleaner deletes. */
    ghost function Cold(): set<ObjHead>
      reads this`laylow, laylow`y, laylow`digest
    {
      set o | o in laylow && o.y.Unused() && o.digest[0] == COOL_DURATION
    }

    /** The clock of a cooling objhead: it ticks unless its embedded node is still in use. */
    function Aged(d: Digest, y: HcbY): Digest {
      if y.Unused() then d[0 := d[0] + 1] else d
    }

    /** One sweep of hcb_cleaner: `freed` are the objheads it deletes. */
    method CleanerSweep() returns (ghost freed: set<ObjHead>)
      requires Valid()
      modifies this`laylow, laylow`digest
      ensures Valid() && View() == old(View()) && Chilled(old(laylow))
      ensures freed == old(Cold()) && freed !! owners && freed !! heads
      ensures (set o | o in laylow) == (set o | o in old(laylow)) - freed
      ensures forall o :: o in old(laylow) && o !in freed ==> o.digest == old(Aged(o.digest, o.y))
    {
      hide TreeOk, Bits, Table, HeadsOk, LaylowOk, Aged, NoRepeats, Cold;
      OwnersUsed();
      LaylowDistinct();
      ColdApart();
      freed := SweepAll();
      ChilledBy(freed);
    }

    /** The cleaner has left an objhead of laylow alone if its node is in use; else it has freed it if its clock was
        at 60, and advanced the clock if not. */
    twostate predicate Chilled(was: seq<ObjHead>)
      reads this`laylow, was`digest
    {
      forall o :: o in was ==>
        if !old(o.y.Unused()) then o in laylow && o.digest == old(o.digest)
        else if Clock(old(o.digest)) >= 60 then o !in laylow
        else o in laylow && Clock(o.digest) == Clock(old(o.digest)) + 1
    }

    twostate lemma ChilledBy(freed: set<ObjHead>)
      requires old(LaylowOk()) && freed == old(Cold())
      requires forall o :: o in laylow <==> o in old(laylow) && o !in freed
      requires forall o :: o in old(laylow) && o !in freed ==> o.digest == old(Aged(o.digest, o.y))
      ensures Chilled(old(laylow))
    {
      forall o | o in old(laylow)
        ensures old(o.digest[0]) <= COOL_DURATION
        ensures old(o.digest[0]) < COOL_DURATION ==>
          Clock(old(o.digest)[0 := old(o.digest[0]) + 1]) == Clock(old(o.digest)) + 1 <= 60
        ensures old(o.digest[0]) == COOL_DURATION <==> Clock(old(o.digest)) >= 60
      {
        Ticks(old(o.digest));
      }
    }

    /** What is cold is neither indexed nor in use. */
    lemma ColdApart()
      requires LaylowOk() && forall o :: o in owners ==> o.y.leaf0 != Null && o.y.leaf1 != Null
      ensures Cold() !! owners && Cold() !! heads
    {
    }

    /** The loop of the sweep. */
    method SweepAll() returns (ghost freed: set<ObjHead>)
      requires LaylowOk()
      modifies this`laylow, laylow`digest
      ensures LaylowOk() && freed == old(Cold())
      ensures forall o :: o in laylow <==> o in old(laylow) && o !in freed
      ensures forall o :: o in old(laylow) && o !in freed ==> o.digest == old(Aged(o.digest, o.y))
    {
      hide LaylowOk, Aged, NoRepeats;
      LaylowDistinct();
      ghost var all, cold, j := laylow, Cold(), 0;
      freed := {};
      var i := 0;
      while i < |laylow|
        invariant 0 <= i <= |laylow| && 0 <= j <= |all| && laylow[i..] == all[j..]
        invariant LaylowOk()
        invariant forall o :: o in laylow <==> o in all && o !in freed
        invariant forall m :: 0 <= m < j ==> (all[m] in freed <==> all[m] in cold)
        invariant forall o :: o in freed ==> o in cold && o in all[..j]
        invariant forall m :: 0 <= m < j && all[m] !in freed ==> all[m].digest == old(Aged(all[m].digest, all[m].y))
        invariant forall m :: j <= m < |all| ==> all[m].digest == old(all[m].digest)
        decreases |laylow| - i
      {
        ghost var oh := laylow[i];
        assert oh == laylow[i..][0] == all[j..][0] == all[j];
        Tails(laylow, i, all, j);
        i := SweepAt(i);
        freed := if oh in cold then freed + {oh} else freed;
        j := j + 1;
      }
    }

    lemma LaylowDistinct()
      requires LaylowOk()
      ensures forall j :: 0 <= j < |laylow| ==> laylow[j] !in laylow[..j]
      ensures forall o :: o in laylow ==> o !in heads
    {
    }

    /** The body of the sweep for the objhead at position `i` of laylow, and the next position. */
    method SweepAt(i: nat) returns (next: nat)
      requires LaylowOk() && i < |laylow|
      modifies this`laylow, {laylow[i]}`digest
      ensures LaylowOk()
      ensures var oh: ObjHead := old(laylow[i]);
              var cold := old(laylow[i].y.Unused() && laylow[i].digest[0] == COOL_DURATION);
              && i <= next == (if cold then i else i + 1) <= |laylow|
              && laylow[next..] == old(laylow)[i + 1..]
              && (forall o: ObjHead :: o in laylow <==> o in old(laylow) && (cold ==> o != oh))
              && (!cold ==> oh.digest == old(Aged(laylow[i].digest, laylow[i].y)))
    {
      hide Aged;
      var oh := laylow[i];
      var cold := Tick(oh);
      if cold {
        RemoveCool(i);
        next := i;
      } else {
        next := i + 1;
      }
    }

    /** VTAILQ_REMOVE of the objhead at position `i` of laylow. */
    method RemoveCool(i: nat)
      requires NoRepeats(laylow) && i < |laylow|
      modifies this`laylow
      ensures NoRepeats(laylow) && laylow == old(laylow)[..i] + old(laylow)[i + 1..]
      ensures laylow[i..] == old(laylow)[i + 1..]
      ensures forall o :: o in laylow <==> o in old(laylow) && o != old(laylow)[i]
    {
      laylow := laylow[..i] + laylow[i + 1..];
    }

    /** The body of the sweep for one objhead: is it cold enough? */
    method Tick(oh: ObjHead) returns (cold: bool)
      requires oh.digest[0] <= COOL_DURATION
      modifies oh`digest
      ensures oh.digest == old(Aged(oh.digest, oh.y))
      ensures cold <==> oh.y.Unused() && old(oh.digest[0]) == COOL_DURATION
      ensures !cold ==> oh.digest[0] <= COOL_DURATION
    {
      if !oh.y.Unused() {
        return false;
      }
      oh.digest := oh.digest[0 := oh.digest[0] + 1];
      cold := oh.digest[0] > COOL_DURATION;
    }

    /** hcb_bits. */
    function CommonBits(x: bv8, y: bv8): (r: nat)
      requires Table()
      reads bittbl
      ensures r == 8 <==> x == y
      ensures r <= 8
      ensures r < 8 ==> (x & Mask(r) != 0) != (y & Mask(r) != 0)
      ensures forall j :: 0 <= j < r ==> (x & Mask(j) != 0) == (y & Mask(j) != 0)
    {
      BytesDifferAt(x, y);
      bittbl[(x ^ y) as int]
    }
  }

  /** hcb_build_bittbl over a zeroed table. */
  method BuildBitTable(tbl: array<nat>)
    requires tbl.Length == 256 && forall i :: 0 <= i < 256 ==> tbl[i] == 0
    modifies tbl
    ensures forall i :: 0 <= i < 256 ==> tbl[i] == LeadingZeros(i)
  {
    var y := 0;
    var x := 0;
    while x < 8
      invariant 0 <= x <= 8
      invariant y == if x == 0 then 0 else Power(x - 1)
      invariant forall i :: 0 <= i < y ==> tbl[i] == LeadingZeros(i)
      invariant forall i :: y <= i < 256 ==> tbl[i] == 0
    {
      var below := y;
      while y < Power(x)
        invariant below <= y <= Power(x)
        invariant forall i :: 0 <= i < y ==> tbl[i] == LeadingZeros(i)
        invariant forall i :: y <= i < 256 ==> tbl[i] == 0
      {
        tbl[y] := 8 - x;
        y := y + 1;
      }
      x := x + 1;
    }
  }

  /** `1U << x`. */
  function Power(x: nat): nat
    requires x < 8
  {
    [1, 2, 4, 8, 16, 32, 64, 128][x]
  }

  lemma SplitAt(d1: Digest, d2: Digest, u: nat, r: nat)
    requires u < DIGEST_LEN && r < 8 && d1[..u] == d2[..u]
    requires (d1[u] & Mask(r) != 0) != (d2[u] & Mask(r) != 0)
    requires forall j :: 0 <= j < r ==> (d1[u] & Mask(j) != 0) == (d2[u] & Mask(j) != 0)
    ensures FirstDifference(Bits(d1), Bits(d2), u * 8 + r)
  {
    BitAt(d1, u, r);
    BitAt(d2, u, r);
    forall i | 0 <= i < u * 8 + r
      ensures Bits(d1)[i] == Bits(d2)[i]
    {
      if i / 8 < u {
        assert d1[i / 8] == d1[..u][i / 8] == d2[i / 8];
      } else {
        assert i / 8 == u;
      }
    }
  }
}
