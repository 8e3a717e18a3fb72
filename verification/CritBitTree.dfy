/** The tree of bin/varnishd/hash_critbit.c as a mathematical trie: where every branch node is
    embedded, the bits shared by all digests below it, and what the embedded nodes must hold. */
module CritBitTree {
  import opened Digests
  import opened ObjHeads

  /** A branch is embedded in `owner`; `pre` is the string of bits every key below it starts with,
      so its crit-bit is `|pre|`. */
  datatype Tree =
    | Leaf(oh: ObjHead, key: Key)
    | Branch(owner: ObjHead, pre: Key, zero: Tree, one: Tree)
  {
    function Child(s: bool): Tree
      requires Branch?
    {
      if s then one else zero
    }
  }

  function PtrOf(t: Tree): Ptr {
    match t
    case Leaf(oh, _) => Node(oh)
    case Branch(owner, _, _, _) => Y(owner)
  }

  /** The objhead found at each key. */
  ghost function Leaves(t: Tree): map<Key, ObjHead> {
    match t
    case Leaf(oh, key) => map[key := oh]
    case Branch(_, _, zero, one) => Leaves(zero) + Leaves(one)
  }

  ghost function Owners(t: Tree): set<ObjHead> {
    match t
    case Leaf(_, _) => {}
    case Branch(owner, _, zero, one) => Owners(zero) + Owners(one) + {owner}
  }

  /** No objhead holds two branch nodes of the tree. */
  ghost predicate Distinct(t: Tree) {
    match t
    case Leaf(_, _) => true
    case Branch(owner, _, zero, one) =>
      && Distinct(zero) && Distinct(one)
      && Owners(zero) !! Owners(one)
      && owner !in Owners(zero) && owner !in Owners(one)
  }

  ghost predicate Under(p: Key, t: Tree) {
    match t
    case Leaf(_, key) => p <= key
    case Branch(_, pre, _, _) => p <= pre
  }

  /** The crit-bit invariant, stated locally. */
  ghost predicate WellFormed(t: Tree) {
    match t
    case Leaf(_, key) => |key| == 256
    case Branch(_, pre, zero, one) =>
      && |pre| < 256
      && Under(pre + [false], zero) && WellFormed(zero)
      && Under(pre + [true], one) && WellFormed(one)
  }

  /** The part of an embedded node the tree determines; its byte index and mask follow from the
      crit-bit. */
  datatype Cell = Cell(critbit: nat, leaf0: Ptr, leaf1: Ptr)
  {
    function SetLeaf(s: bool, p: Ptr): Cell {
      if s then this.(leaf1 := p) else this.(leaf0 := p)
    }
  }

  function NodeOf(t: Tree): Cell
    requires t.Branch?
  {
    Cell(|t.pre|, PtrOf(t.zero), PtrOf(t.one))
  }

  /** What every embedded node in use holds. */
  ghost function Nodes(t: Tree): (m: map<ObjHead, Cell>)
    ensures m.Keys == Owners(t)
  {
    match t
    case Leaf(_, _) => map[]
    case Branch(owner, _, zero, one) => (Nodes(zero) + Nodes(one))[owner := NodeOf(t)]
  }

  /* ---- the crit-bit invariant, stated globally ---- */

  lemma {:induction false} KeysUnder(p: Key, t: Tree)
    requires WellFormed(t) && Under(p, t)
    ensures forall k :: k in Leaves(t) ==> |k| == 256 && p <= k
    ensures Leaves(t) != map[]
    decreases t
  {
    match t
    case Leaf(_, _) =>
    case Branch(_, pre, zero, one) =>
      KeysUnder(pre + [false], zero);
      KeysUnder(pre + [true], one);
      forall k | k in Leaves(t)
        ensures |k| == 256 && p <= k
      {
        if k in Leaves(one) {
          assert pre + [true] <= k && pre <= pre + [true];
        } else {
          assert pre + [false] <= k && pre <= pre + [false];
        }
      }
      var k :| k in Leaves(zero);
      assert k in Leaves(t) && Leaves(t) != map[];
  }

  /** All keys below a branch agree before its crit-bit and split on it, and crit-bits strictly
      increase downwards. */
  lemma {:induction false} CritBitInvariant(t: Tree, s: bool)
    requires WellFormed(t) && t.Branch?
    ensures forall k :: k in Leaves(t) ==> |k| == 256 && k[..|t.pre|] == t.pre
    ensures forall k :: k in Leaves(t.Child(s)) ==> |k| == 256 && k[|t.pre|] == s
    ensures t.Child(s).Branch? ==> |t.pre| < |t.Child(s).pre|
  {
    KeysUnder(t.pre, t);
    KeysUnder(t.pre + [s], t.Child(s));
  }

  function WithChild(t: Tree, s: bool, u: Tree): Tree
    requires t.Branch?
  {
    if s then t.(one := u) else t.(zero := u)
  }

  /* ---- search ---- */

  function Search(t: Tree, key: Key): Tree
    requires |key| == 256 && WellFormed(t)
    ensures Search(t, key).Leaf?
  {
    match t
    case Leaf(_, _) => t
    case Branch(_, pre, zero, one) => Search(t.Child(key[|pre|]), key)
  }

  /** A search ends at a leaf of the tree, and finds every key that is there. */
  lemma {:induction false} SearchExact(t: Tree, key: Key)
    requires |key| == 256 && WellFormed(t)
    ensures var f := Search(t, key); f.key in Leaves(t) && (key in Leaves(t) <==> f.key == key)
    ensures var f := Search(t, key); Leaves(t)[f.key] == f.oh
  {
    match t
    case Leaf(_, _) =>
    case Branch(_, pre, zero, one) =>
      var s := key[|pre|];
      SearchExact(t.Child(s), key);
      CritBitInvariant(t, false);
      CritBitInvariant(t, true);
      var f := Search(t.Child(s), key);
      assert f.key[|pre|] == s;
      if key in Leaves(t.Child(!s)) {
        assert false;
      }
  }

  lemma {:induction false} SearchUnder(p: Key, t: Tree, key: Key)
    requires |key| == 256 && WellFormed(t) && Under(p, t)
    ensures p <= Search(t, key).key
  {
    SearchExact(t, key);
    KeysUnder(p, t);
  }

  /* ---- insert ---- */

  /** `c` is the first bit in which the keys differ. */
  predicate FirstDifference(a: Key, b: Key, c: nat) {
    |a| == 256 && |b| == 256 && c < 256 && a[..c] == b[..c] && a[c] != b[c]
  }

  ghost function Insert(t: Tree, oh: ObjHead, key: Key, c: nat): Tree
    requires |key| == 256 && c < 256 && WellFormed(t)
  {
    if t.Branch? && |t.pre| <= c then
      var s := key[|t.pre|];
      WithChild(t, s, Insert(t.Child(s), oh, key, c))
    else if key[c]
    then Branch(oh, key[..c], t, Leaf(oh, key))
    else Branch(oh, key[..c], Leaf(oh, key), t)
  }

  /** Inserting a new key keeps the invariant, adds exactly that key, and embeds the one new branch
      in the new objhead. */
  lemma {:induction false} InsertExact(p: Key, t: Tree, oh: ObjHead, key: Key, c: nat)
    requires WellFormed(t) && Under(p, t) && p <= key
    requires |key| == 256 && FirstDifference(key, Search(t, key).key, c)
    ensures var r := Insert(t, oh, key, c);
            WellFormed(r) && Under(p, r) && Leaves(r) == Leaves(t)[key := oh]
    decreases t
  {
    if t.Branch? && |t.pre| <= c {
      var s := InsertGoesOn(t, key, c);
      InsertExact(t.pre + [s], t.Child(s), oh, key, c);
      InsertLeaves(t, s, Insert(t.Child(s), oh, key, c), key, oh);
    } else {
      InsertStops(p, t, key, c);
    }
  }

  /** A branch the descent passes agrees with the new key up to and including its crit-bit. */
  lemma InsertGoesOn(t: Tree, key: Key, c: nat) returns (s: bool)
    requires WellFormed(t) && t.Branch? && |t.pre| <= c
    requires |key| == 256 && FirstDifference(key, Search(t, key).key, c)
    ensures s == key[|t.pre|] && t.pre + [s] <= key
    ensures Search(t, key) == Search(t.Child(s), key)
    ensures key !in Leaves(t.Child(!s))
  {
    var f := Search(t, key).key;
    s := key[|t.pre|];
    SearchUnder(t.pre + [s], t.Child(s), key);
    assert f[|t.pre|] == s;
    assert |t.pre| < c;
    assert t.pre == f[..|t.pre|] == f[..c][..|t.pre|] == key[..|t.pre|];
    CritBitInvariant(t, !s);
  }

  lemma InsertLeaves(t: Tree, s: bool, u: Tree, key: Key, oh: ObjHead)
    requires t.Branch? && Leaves(u) == Leaves(t.Child(s))[key := oh]
    requires key !in Leaves(t.Child(!s))
    ensures Leaves(WithChild(t, s, u)) == Leaves(t)[key := oh]
  {
  }

  /** The subtree the descent stops at lies wholly on the other side of the new crit-bit. */
  lemma InsertStops(p: Key, t: Tree, key: Key, c: nat)
    requires WellFormed(t) && Under(p, t) && p <= key
    requires |key| == 256 && FirstDifference(key, Search(t, key).key, c)
    requires t.Leaf? || c < |t.pre|
    ensures Under(key[..c] + [!key[c]], t) && key[..c] + [key[c]] <= key && p <= key[..c]
    ensures key !in Leaves(t)
  {
    var f := Search(t, key).key;
    var q := key[..c] + [!key[c]];
    assert q == f[..c + 1];
    UnderCut(t, f, c, key);
    KeysUnder(q, t);
    SearchUnder(p, t, key);
    PrefixCut(p, f, key, c);
    if key in Leaves(t) {
      PrefixAt(q, key, c);
      assert false;
    }
  }

  /** The new branch is embedded in the new objhead, the others stay where they are. */
  lemma {:induction false} InsertOwners(t: Tree, oh: ObjHead, key: Key, c: nat)
    requires |key| == 256 && c < 256 && WellFormed(t) && Distinct(t) && oh !in Owners(t)
    ensures var r := Insert(t, oh, key, c); Distinct(r) && Owners(r) == Owners(t) + {oh}
    decreases t
  {
    if t.Branch? && |t.pre| <= c {
      InsertOwners(t.Child(key[|t.pre|]), oh, key, c);
    }
  }

  /** A subtree the descent stops at lies wholly on the other side of the new crit-bit. */
  lemma UnderCut(t: Tree, f: Key, c: nat, key: Key)
    requires WellFormed(t) && |key| == 256 && Search(t, key).key == f
    requires c < 256 && |f| == 256
    requires t.Leaf? || c < |t.pre|
    ensures Under(f[..c + 1], t)
  {
    match t
    case Leaf(_, _) =>
    case Branch(_, pre, _, _) =>
      SearchUnder(pre, t, key);
  }

  lemma PrefixAt(p: Key, key: Key, i: nat)
    requires p <= key && i < |p|
    ensures p[i] == key[i]
  {
  }

  lemma PrefixCut(p: Key, f: Key, key: Key, c: nat)
    requires FirstDifference(key, f, c) && p <= key && p <= f
    ensures p <= key[..c]
  {
    if |p| > c {
      PrefixAt(p, key, c);
      PrefixAt(p, f, c);
      assert false;
    }
  }

  /** The slot an update overwrites: the root, or a leaf slot of the node embedded in `owner`. */
  datatype Slot = Origo | LeafOf(owner: ObjHead, s: bool)

  /** Where the second descent of an insert stops: the slot and the subtree it points to. */
  ghost function InsertSlot(t: Tree, slot: Slot, key: Key, c: nat): (Slot, Tree)
    requires |key| == 256 && c < 256 && WellFormed(t)
  {
    if t.Branch? && |t.pre| <= c then
      InsertSlot(t.Child(key[|t.pre|]), LeafOf(t.owner, key[|t.pre|]), key, c)
    else
      (slot, t)
  }

  /** The nodes with one slot overwritten. */
  ghost function Overwrite(m: map<ObjHead, Cell>, slot: Slot, p: Ptr): map<ObjHead, Cell> {
    if slot.LeafOf? && slot.owner in m
    then m[slot.owner := m[slot.owner].SetLeaf(slot.s, p)]
    else m
  }

  /** The nodes of a branch: its own, and those of its two sides. */
  lemma NodesSplit(t: Tree, s: bool)
    requires t.Branch? && Distinct(t)
    ensures Nodes(t) == map[t.owner := NodeOf(t)] + Nodes(t.Child(s)) + Nodes(t.Child(!s))
    ensures Owners(t.Child(s)) !! Owners(t.Child(!s))
  {
  }

  lemma SplitInPlace(owner: ObjHead, n: Cell, n': Cell, side: map<ObjHead, Cell>, rest: map<ObjHead, Cell>,
                     at: Slot, p: Ptr, add: map<ObjHead, Cell>, drop: set<ObjHead>)
    requires owner !in side && owner !in rest && side.Keys !! rest.Keys
    requires owner !in add && add.Keys !! side.Keys && add.Keys !! rest.Keys && drop <= side.Keys
    requires at.LeafOf?
    requires if at.owner == owner then n' == n.SetLeaf(at.s, p) else at.owner in side && n' == n
    ensures map[owner := n'] + (Overwrite(side, at, p) + add - drop) + rest
            == Overwrite(map[owner := n] + side + rest, at, p) + add - drop
  {
  }

  /** Changing a slot below one child is changing that slot of the whole tree. */
  lemma ChildInPlace(t: Tree, s: bool, u: Tree, at: Slot, p: Ptr, add: map<ObjHead, Cell>, drop: set<ObjHead>)
    requires t.Branch? && Distinct(t) && Distinct(WithChild(t, s, u))
    requires add.Keys !! Owners(t) && drop <= Owners(t.Child(s))
    requires at == LeafOf(t.owner, s) || (at.LeafOf? && at.owner in Owners(t.Child(s)))
    requires PtrOf(u) == (if at == LeafOf(t.owner, s) then p else PtrOf(t.Child(s)))
    requires Nodes(u) == Overwrite(Nodes(t.Child(s)), at, p) + add - drop
    ensures Nodes(WithChild(t, s, u)) == Overwrite(Nodes(t), at, p) + add - drop
  {
    var r := WithChild(t, s, u);
    NodesSplit(t, s);
    NodesSplit(r, s);
    var n' := NodeOf(r);
    assert if at.owner == t.owner then n' == NodeOf(t).SetLeaf(at.s, p) else n' == NodeOf(t);
    SplitInPlace(t.owner, NodeOf(t), n', Nodes(t.Child(s)), Nodes(t.Child(!s)), at, p, add, drop);
    assert r.owner == t.owner && r.Child(s) == u && r.Child(!s) == t.Child(!s);
  }

  lemma FreshNode(t: Tree, slot: Slot, oh: ObjHead, key: Key, c: nat)
    requires WellFormed(t) && Distinct(t) && oh !in Owners(t) && |key| == 256 && c < 256
    requires t.Leaf? || c < |t.pre|
    requires slot.LeafOf? ==> slot.owner !in Owners(t)
    ensures Nodes(Insert(t, oh, key, c)) == Overwrite(Nodes(t), slot, Y(oh)) + map[oh := NewNode(oh, key, c, t)] - {}
  {
    var r := Insert(t, oh, key, c);
    InsertOwners(t, oh, key, c);
    NodesSplit(r, key[c]);
    assert Nodes(Leaf(oh, key)) == map[];
    assert NodeOf(r) == NewNode(oh, key, c, t);
  }

  /** Inserting overwrites one slot and fills in the new objhead's node; nothing else moves. */
  lemma {:induction false} InsertInPlace(t: Tree, slot: Slot, oh: ObjHead, key: Key, c: nat)
    requires WellFormed(t) && Distinct(t) && oh !in Owners(t)
    requires |key| == 256 && c < 256
    requires slot.LeafOf? ==> slot.owner !in Owners(t)
    ensures var (at, sub) := InsertSlot(t, slot, key, c);
            var r := Insert(t, oh, key, c);
            && (at == slot || (at.LeafOf? && at.owner in Owners(t)))
            && PtrOf(r) == (if at == slot then Y(oh) else PtrOf(t))
            && Nodes(r) == Overwrite(Nodes(t), at, Y(oh)) + map[oh := NewNode(oh, key, c, sub)] - {}
    decreases t
  {
    if t.Branch? && |t.pre| <= c {
      var s := key[|t.pre|];
      var next := LeafOf(t.owner, s);
      InsertInPlace(t.Child(s), next, oh, key, c);
      InsertOwners(t, oh, key, c);
      var (at, sub) := InsertSlot(t.Child(s), next, key, c);
      var u := Insert(t.Child(s), oh, key, c);
      ChildInPlace(t, s, u, at, Y(oh), map[oh := NewNode(oh, key, c, sub)], {});
    } else {
      FreshNode(t, slot, oh, key, c);
    }
  }

  /** The node an insert writes into the new objhead. */
  function NewNode(oh: ObjHead, key: Key, c: nat, sub: Tree): Cell
    requires c < 256 && |key| == 256
  {
    Cell(c, Null, Null).SetLeaf(key[c], Node(oh)).SetLeaf(!key[c], PtrOf(sub))
  }

  lemma OverwriteSum(m: map<ObjHead, Cell>, add: map<ObjHead, Cell>, at: Slot, p: Ptr)
    requires m.Keys !! add.Keys && (at.LeafOf? ==> at.owner in m)
    ensures Overwrite(m, at, p) + add - {} == Overwrite(m + add, at, p)
  {
  }

  ghost function WithNode(m: map<ObjHead, Cell>, oh: ObjHead, n: Cell): map<ObjHead, Cell> {
    m + map[oh := n]
  }

  /** The whole insert, as writes: the new objhead's node, then the one slot. */
  lemma InsertWrites(t: Tree, oh: ObjHead, key: Key, c: nat)
    requires WellFormed(t) && Distinct(t) && oh !in Owners(t) && |key| == 256 && c < 256
    ensures var (at, sub) := InsertSlot(t, Origo, key, c);
            var r := Insert(t, oh, key, c);
            && Owners(r) == Owners(t) + {oh}
            && PtrOf(r) == (if at.Origo? then Y(oh) else PtrOf(t))
            && Nodes(r) == Overwrite(WithNode(Nodes(t), oh, NewNode(oh, key, c, sub)), at, Y(oh))
  {
    var (at, sub) := InsertSlot(t, Origo, key, c);
    InsertInPlace(t, Origo, oh, key, c);
    InsertOwners(t, oh, key, c);
    OverwriteSum(Nodes(t), map[oh := NewNode(oh, key, c, sub)], at, Y(oh));
  }

  /* ---- delete ---- */

  ghost function Delete(t: Tree, key: Key): Tree
    requires |key| == 256 && WellFormed(t) && t.Branch?
  {
    var s := key[|t.pre|];
    if t.Child(s).Leaf? then t.Child(!s)
    else WithChild(t, s, Delete(t.Child(s), key))
  }

  /** The branch node a delete unlinks. */
  ghost function Unlinked(t: Tree, key: Key): ObjHead
    requires |key| == 256 && WellFormed(t) && t.Branch?
  {
    var s := key[|t.pre|];
    if t.Child(s).Leaf? then t.owner else Unlinked(t.Child(s), key)
  }

  /** Deleting a key keeps the invariant and removes exactly that key. */
  lemma {:induction false} DeleteExact(p: Key, t: Tree, key: Key)
    requires WellFormed(t) && t.Branch? && key in Leaves(t) && |key| == 256
    requires Under(p, t)
    ensures var r := Delete(t, key);
            WellFormed(r) && Under(p, r) && Leaves(r) == Leaves(t) - {key}
    decreases t
  {
    var s := key[|t.pre|];
    Side(t, key);
    if t.Child(s).Leaf? {
      assert p <= t.pre <= t.pre + [!s];
      SiblingLeaves(t, s, key);
    } else {
      DeleteExact(t.pre + [s], t.Child(s), key);
      DeleteLeaves(t, s, Delete(t.Child(s), key), key);
    }
  }

  /** A key of the tree is on the side its crit-bit says, and only there. */
  lemma Side(t: Tree, key: Key)
    requires WellFormed(t) && t.Branch? && |key| == 256 && key in Leaves(t)
    ensures key in Leaves(t.Child(key[|t.pre|])) && key !in Leaves(t.Child(!key[|t.pre|]))
    ensures Leaves(t.Child(false)).Keys !! Leaves(t.Child(true)).Keys
  {
    CritBitInvariant(t, false);
    CritBitInvariant(t, true);
  }

  lemma SiblingLeaves(t: Tree, s: bool, key: Key)
    requires t.Branch? && t.Child(s).Leaf?
    requires key in Leaves(t.Child(s)) && key !in Leaves(t.Child(!s))
    ensures Leaves(t.Child(!s)) == Leaves(t) - {key}
  {
  }

  lemma DeleteLeaves(t: Tree, s: bool, u: Tree, key: Key)
    requires t.Branch? && Leaves(u) == Leaves(t.Child(s)) - {key}
    requires key !in Leaves(t.Child(!s))
    requires Leaves(t.Child(false)).Keys !! Leaves(t.Child(true)).Keys
    ensures Leaves(WithChild(t, s, u)) == Leaves(t) - {key}
  {
  }

  /** A delete drops one branch node, the others stay where they are. */
  lemma {:induction false} DeleteOwners(t: Tree, key: Key)
    requires |key| == 256 && WellFormed(t) && Distinct(t) && t.Branch?
    ensures var r := Delete(t, key);
            && Unlinked(t, key) in Owners(t)
            && Distinct(r) && Owners(r) == Owners(t) - {Unlinked(t, key)}
    decreases t
  {
    var s := key[|t.pre|];
    if t.Child(s).Branch? {
      DeleteOwners(t.Child(s), key);
    }
  }

  /** Where the descent of a delete stops: the slot that pointed to the unlinked branch. */
  ghost function DeleteSlot(t: Tree, slot: Slot, key: Key): (Slot, Tree)
    requires |key| == 256 && WellFormed(t) && t.Branch?
    ensures DeleteSlot(t, slot, key).1.Branch?
  {
    var s := key[|t.pre|];
    if t.Child(s).Leaf? then (slot, t) else DeleteSlot(t.Child(s), LeafOf(t.owner, s), key)
  }

  /** Deleting overwrites one slot with the sibling and drops one node; nothing else moves. */
  lemma {:induction false} DeleteInPlace(t: Tree, slot: Slot, key: Key)
    requires |key| == 256 && WellFormed(t) && Distinct(t) && t.Branch?
    requires slot.LeafOf? ==> slot.owner !in Owners(t)
    ensures var (at, sub) := DeleteSlot(t, slot, key);
            var r := Delete(t, key);
            && |sub.pre| < 256
            && sub.owner == Unlinked(t, key) && sub.owner in Owners(t)
            && (at == slot || (at.LeafOf? && at.owner in Owners(t) && at.owner != sub.owner))
            && PtrOf(r) == (if at == slot then PtrOf(sub.Child(!key[|sub.pre|])) else PtrOf(t))
            && Nodes(r) == Overwrite(Nodes(t), at, PtrOf(sub.Child(!key[|sub.pre|]))) + map[] - {sub.owner}
    decreases t
  {
    var s := key[|t.pre|];
    if t.Child(s).Branch? {
      var next := LeafOf(t.owner, s);
      DeleteInPlace(t.Child(s), next, key);
      DeleteOwners(t, key);
      var (at, sub) := DeleteSlot(t.Child(s), next, key);
      var u := Delete(t.Child(s), key);
      ChildInPlace(t, s, u, at, PtrOf(sub.Child(!key[|sub.pre|])), map[], {sub.owner});
    }
  }

  /** The descent of a delete stops exactly where the side it would take is the leaf it looks for. */
  lemma StopsAtLeaf(t: Tree, key: Key, oh: ObjHead)
    requires WellFormed(t) && t.Branch? && |key| == 256 && key in Leaves(t) && Leaves(t)[key] == oh
    ensures var u := t.Child(key[|t.pre|]);
            && (PtrOf(u) == Node(oh) <==> u.Leaf?)
            && (u.Branch? ==> key in Leaves(u) && Leaves(u)[key] == oh)
  {
    Side(t, key);
  }

  /** The whole delete, as writes: the one slot, then the unlinked node. */
  lemma {:induction false} DeleteWrites(t: Tree, key: Key)
    requires WellFormed(t) && Distinct(t) && t.Branch? && |key| == 256
    ensures var (at, sub) := DeleteSlot(t, Origo, key);
            var r := Delete(t, key);
            && |sub.pre| < 256
            && var sibling := PtrOf(sub.Child(!key[|sub.pre|]));
            && sub.owner in Owners(t) && Owners(r) == Owners(t) - {sub.owner}
            && PtrOf(r) == (if at.Origo? then sibling else PtrOf(t))
            && (at.LeafOf? ==> at.owner in Owners(t) && at.owner != sub.owner)
            && Nodes(r) == Overwrite(Nodes(t), at, sibling) - {sub.owner}
  {
    hide WellFormed, Distinct, Delete, DeleteSlot, Unlinked, Nodes, Owners, Overwrite;
    DeleteInPlace(t, Origo, key);
    DeleteOwners(t, key);
  }

  /** A tree of n digests uses exactly n - 1 embedded nodes. */
  lemma {:induction false} CountNodes(t: Tree)
    requires WellFormed(t) && Distinct(t)
    ensures |Owners(t)| + 1 == |Leaves(t)|
    decreases t
  {
    if t.Branch? {
      CountNodes(t.zero);
      CountNodes(t.one);
      CritBitInvariant(t, false);
      CritBitInvariant(t, true);
      assert Leaves(t.zero).Keys !! Leaves(t.one).Keys;
      assert Leaves(t).Keys == Leaves(t.zero).Keys + Leaves(t.one).Keys;
      assert |Leaves(t)| == |Leaves(t).Keys|;
      assert |Leaves(t.zero)| == |Leaves(t.zero).Keys| && |Leaves(t.one)| == |Leaves(t.one).Keys|;
    }
  }
}
