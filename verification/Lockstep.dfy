/** Every run of the crit-bit hash slinger against the same run of the reference list. */
module Lockstep {
  import opened Digests
  import opened ObjHeads
  import opened IndexSpec
  import CB = HashCritBit
  import SL = HashSimpleList

  /** A worker looks a digest up, a holder of the objhead of a digest drops it, or the cleaner runs. */
  datatype Op = Look(d: Digest) | Drop(d: Digest) | Sweep

  /** The index, the name of the next objhead a worker preallocates, and the objheads lookups chose. */
  datatype State = State(view: View, next: nat, picks: seq<nat>)

  function Step(st: State, op: Op): State {
    match op
    case Look(d) =>
      var view := LookedUp(st.view, Bits(d), st.next);
      State(view, if Bits(d) in st.view then st.next else st.next + 1, st.picks + [view[Bits(d)].id])
    case Drop(d) => if Bits(d) in st.view then st.(view := Dereffed(st.view, Bits(d))) else st
    case Sweep => st
  }

  function Run(ops: seq<Op>): State {
    if ops == [] then State(map[], 0, []) else Step(Run(ops[..|ops| - 1]), ops[|ops| - 1])
  }

  /** The crit-bit index with the objhead its worker preallocated, if any, and the objheads its
      callers hold. */
  class CritBitWorker {
    const hash: CB.HashCritBit
    var nobjhead: ObjHead?
    var next: nat
    var held: map<Key, ObjHead>

    ghost predicate Valid()
      reads this, hash, hash.bittbl, hash.Repr(), hash.owners, nobjhead
    {
      && hash.Valid() && held == hash.index
      && (nobjhead != null ==>
            nobjhead !in hash.Repr() && nobjhead.refcnt == 1 && nobjhead.y.Unused() && nobjhead.id == next)
    }

    /** All the memory of the index and its worker. */
    ghost function Memory(): set<object>
      reads this, hash
    {
      {this, hash} + hash.Repr() + {hash.bittbl} + (if nobjhead == null then {} else {nobjhead})
    }

    ghost function Abs(picks: seq<nat>): State
      requires hash.HeadsOk()
      reads this, hash, hash.heads
    {
      State(hash.View(), next, picks)
    }

    constructor ()
      ensures Valid() && fresh(Memory()) && Abs([]) == Run([])
    {
      hide CB.HashCritBit.TreeOk, CB.HashCritBit.HeadsOk;
      hash := new CB.HashCritBit();
      nobjhead := null;
      next := 0;
      held := map[];
    }

    /** The objheads `was` are on laylow with the clocks they had, and their nodes as they were unless in use. */
    twostate predicate Kept(was: seq<ObjHead>, owned: set<ObjHead>)
      reads hash`laylow, was
    {
      forall o :: o in was ==> o in hash.laylow && o.digest == old(o.digest) && (o !in owned ==> o.y == old(o.y))
    }

    /** HSH_Prealloc, and the digest of the request. */
    method Prealloc(d: Digest)
      requires Valid()
      modifies this`nobjhead, if nobjhead == null then {} else {nobjhead}
      ensures Valid() && nobjhead != null && nobjhead.digest == d && fresh(Memory() - old(Memory()))
      ensures hash.View() == old(hash.View())
      ensures old(nobjhead) == null ==> fresh(nobjhead)
      ensures old(nobjhead) != null ==> nobjhead == old(nobjhead)
    {
      hide Bits, CB.HashCritBit.TreeOk, CB.HashCritBit.Table, CB.HashCritBit.HeadsOk, CB.HashCritBit.LaylowOk,
        LookedUp, Dereffed;
      if nobjhead == null {
        nobjhead := new ObjHead(next);
      }
      nobjhead.digest := d;
    }

    /** The call of hash->lookup in HSH_Lookup: the worker gives its objhead away if the index takes it. */
    method LookUp() returns (oh: ObjHead)
      requires Valid() && nobjhead != null
      modifies this, hash, hash.heads, hash.owners, nobjhead
      ensures Valid() && nobjhead in {null, old(nobjhead)}
      ensures hash.heads <= old(hash.heads + {nobjhead}) && hash.laylow == old(hash.laylow)
      ensures hash.View() == LookedUp(old(hash.View()), Bits(old(nobjhead.digest)), old(next))
      ensures next == if Bits(old(nobjhead.digest)) in old(held) then old(next) else old(next) + 1
      ensures held == old(held)[Bits(old(nobjhead.digest)) := oh]
      ensures Kept(old(hash.laylow), old(hash.owners))
    {
      hide Bits, CB.HashCritBit.TreeOk, CB.HashCritBit.Table, CB.HashCritBit.HeadsOk, CB.HashCritBit.LaylowOk,
        CB.HashCritBit.NodesOk, LookedUp, Dereffed;
      oh := hash.Lookup(nobjhead);
      held := held[Bits(nobjhead.digest) := oh];
      if oh == nobjhead {
        nobjhead := null;
        next := next + 1;
      }
    }

    /** HSH_Prealloc and the call of hash->lookup in HSH_Lookup. */
    method Look(d: Digest) returns (oh: ObjHead)
      requires Valid()
      modifies Memory()
      ensures Valid() && fresh(Memory() - old(Memory()))
      ensures hash.View() == LookedUp(old(hash.View()), Bits(d), old(next))
      ensures next == if Bits(d) in old(held) then old(next) else old(next) + 1
      ensures held == old(held)[Bits(d) := oh]
      ensures Kept(old(hash.laylow), old(hash.owners))
    {
      hide Bits, CB.HashCritBit.TreeOk, CB.HashCritBit.Table, CB.HashCritBit.HeadsOk, CB.HashCritBit.LaylowOk,
        CB.HashCritBit.NodesOk, CB.HashCritBit.View, LookedUp, Dereffed;
      hash.OwnersExist();
      Prealloc(d);
      hash.OwnersExist();
      oh := LookUp();
    }

    /** The call of hash->deref; nobody holds the objhead any more if that was the last reference. */
    method Deref(oh: ObjHead) returns (ret: int)
      requires Valid() && oh in hash.heads
      modifies this`held, hash, hash.owners, oh
      ensures Valid() && hash.Repr() <= old(hash.Repr())
      ensures hash.View() == Dereffed(old(hash.View()), old(Bits(oh.digest)))
      ensures Kept(old(hash.laylow), old(hash.owners))
      ensures old(oh.refcnt) == 1 ==> oh in hash.laylow && oh.digest[0] == 0
    {
      hide Bits, CB.HashCritBit.TreeOk, CB.HashCritBit.Table, CB.HashCritBit.HeadsOk, CB.HashCritBit.LaylowOk,
        CB.HashCritBit.NodesOk, LookedUp, Dereffed;
      hash.LaylowApart();
      hash.OwnersExist();
      var key := Bits(oh.digest);
      ret := hash.Deref(oh);
      held := if oh.refcnt == 0 then held - {key} else held;
    }

    /** hash->deref of an objhead somebody holds. */
    method Drop(d: Digest) returns (ret: int)
      requires Valid() && Bits(d) in held
      modifies Memory()
      ensures Valid() && fresh(Memory() - old(Memory()))
      ensures hash.View() == Dereffed(old(hash.View()), Bits(d))
      ensures next == old(next)
      ensures Kept(old(hash.laylow), old(hash.owners))
      ensures old(held[Bits(d)].refcnt) == 1 ==> old(held[Bits(d)]) in hash.laylow && old(held[Bits(d)]).digest[0] == 0
    {
      hide Bits, CB.HashCritBit.TreeOk, CB.HashCritBit.Table, CB.HashCritBit.HeadsOk, CB.HashCritBit.LaylowOk,
        CB.HashCritBit.NodesOk, CB.HashCritBit.View, LookedUp, Dereffed;
      hash.OwnersExist();
      hash.IndexedBy(Bits(d));
      ret := Deref(held[Bits(d)]);
    }

    /** A sweep of the cleaner. */
    method Sweep()
      requires Valid()
      modifies hash`laylow, hash.laylow`digest
      ensures Valid() && held == old(held) && nobjhead == old(nobjhead)
      ensures hash.Repr() <= old(hash.Repr())
      ensures hash.View() == old(hash.View()) && next == old(next)
      ensures hash.Chilled(old(hash.laylow))
    {
      ghost var freed := hash.CleanerSweep();
    }

    /** What an operation does to the objheads `was` that cool on laylow. Only a sweep touches them: one whose node the
        tree uses is left alone; another one is a second cooler, or, if it has cooled for sixty, freed. A node that is
        not in use is not taken into use again. */
    twostate predicate Cooled(op: Op, was: seq<ObjHead>)
      reads this, hash, was
    {
      forall o :: o in was ==>
        && (old(o.y.Unused()) ==> o.y.Unused())
        && if !op.Sweep? || !old(o.y.Unused()) then o in hash.laylow && o.digest == old(o.digest)
           else if old(o.digest[0]) as nat >= 60 then o !in hash.Repr() && o != nobjhead
           else o in hash.laylow && o.digest[0] as nat == old(o.digest[0]) as nat + 1
    }

    twostate lemma CooledByOther(op: Op)
      requires !op.Sweep? && Kept(old(hash.laylow), old(hash.owners))
      requires forall o :: o in old(hash.laylow) && old(o.y.Unused()) ==> o !in old(hash.owners)
      ensures Cooled(op, old(hash.laylow))
    {
    }

    twostate lemma Untouched()
      requires hash.laylow == old(hash.laylow) && forall o :: o in old(hash.laylow) ==> unchanged(o)
      ensures Kept(old(hash.laylow), old(hash.owners))
    {
    }

    twostate lemma CooledBySweep()
      requires hash.Chilled(old(hash.laylow)) && forall o :: o in old(hash.laylow) ==> o.y == old(o.y)
      requires forall o :: o in old(hash.laylow) ==> o !in hash.heads && o != nobjhead
      ensures Cooled(Op.Sweep, old(hash.laylow))
    {
    }

    /** One operation of a run; `pick` names the objhead a lookup chose. */
    method Do(op: Op, ghost picks: seq<nat>) returns (pick: seq<nat>)
      requires Valid()
      modifies Memory()
      ensures Valid() && fresh(Memory() - old(Memory()))
      ensures Abs(picks + pick) == Step(old(Abs(picks)), op)
      ensures Cooled(op, old(hash.laylow))
    {
      hide Bits, CB.HashCritBit.TreeOk, CB.HashCritBit.Table, CB.HashCritBit.HeadsOk, CB.HashCritBit.LaylowOk,
        CB.HashCritBit.NodesOk, LookedUp, Dereffed, Kept, Cooled, CB.HashCritBit.Chilled;
      hash.LaylowApart();
      assert hash.View().Keys == held.Keys;
      match op
      case Look(d) =>
        var oh := Look(d);
        CooledByOther(op);
        assert hash.View()[Bits(d)].id == oh.id;
        pick := [oh.id];
      case Drop(d) =>
        if Bits(d) in held {
          var _ := Drop(d);
        } else {
          Untouched();
        }
        CooledByOther(op);
        pick := [];
        assert picks + [] == picks;
      case Sweep =>
        Sweep();
        CooledBySweep();
        pick := [];
        assert picks + [] == picks;
    }
  }

  /** The reference list with the objhead its worker preallocated, if any, and the objheads its
      callers hold. */
  class SimpleWorker {
    const hash: SL.HashSimpleList
    var nobjhead: ObjHead?
    var next: nat
    var held: map<Key, ObjHead>

    ghost predicate Valid()
      reads this, hash, hash.heads, nobjhead
    {
      && hash.Valid() && held == hash.index
      && (nobjhead != null ==>
            nobjhead !in hash.heads && nobjhead.refcnt == 1 && nobjhead.id == next)
    }

    /** All the memory of the index and its worker. */
    ghost function Memory(): set<object>
      reads this, hash
    {
      {this, hash} + hash.heads + (if nobjhead == null then {} else {nobjhead})
    }

    ghost function Abs(picks: seq<nat>): State
      requires hash.HeadsOk()
      reads this, hash, hash.heads
    {
      State(hash.View(), next, picks)
    }

    constructor ()
      ensures Valid() && fresh(Memory()) && Abs([]) == Run([])
    {
      hash := new SL.HashSimpleList();
      nobjhead := null;
      next := 0;
      held := map[];
    }

    /** HSH_Prealloc, and the digest of the request. */
    method Prealloc(d: Digest)
      requires Valid()
      modifies this`nobjhead, if nobjhead == null then {} else {nobjhead}
      ensures Valid() && nobjhead != null && nobjhead.digest == d
      ensures old(nobjhead) == null ==> fresh(nobjhead)
      ensures old(nobjhead) != null ==> nobjhead == old(nobjhead)
    {
      hide Bits, SL.HashSimpleList.ListOk, SL.HashSimpleList.HeadsOk, LookedUp, Dereffed;
      if nobjhead == null {
        nobjhead := new ObjHead(next);
      }
      nobjhead.digest := d;
    }

    /** HSH_Prealloc and the call of hash->lookup in HSH_Lookup. */
    method Look(d: Digest) returns (oh: ObjHead)
      requires Valid()
      modifies Memory()
      ensures Valid() && fresh(Memory() - old(Memory()))
      ensures hash.View() == LookedUp(old(hash.View()), Bits(d), old(next))
      ensures next == if Bits(d) in old(held) then old(next) else old(next) + 1
      ensures held == old(held)[Bits(d) := oh]
    {
      hide Bits, SL.HashSimpleList.ListOk, SL.HashSimpleList.HeadsOk, LookedUp, Dereffed;
      Prealloc(d);
      oh := hash.Lookup(nobjhead);
      if oh == nobjhead {
        nobjhead := null;
        next := next + 1;
      }
      held := held[Bits(d) := oh];
    }

    /** hash->deref of an objhead somebody holds. */
    method Drop(d: Digest) returns (ret: int)
      requires Valid() && Bits(d) in held
      modifies Memory()
      ensures Valid() && fresh(Memory() - old(Memory()))
      ensures hash.View() == Dereffed(old(hash.View()), Bits(d))
      ensures next == old(next)
    {
      hide Bits, SL.HashSimpleList.ListOk, SL.HashSimpleList.HeadsOk, LookedUp, Dereffed;
      hash.IndexedBy(Bits(d));
      var oh := held[Bits(d)];
      ret := hash.Deref(oh);
      if oh.refcnt == 0 {
        held := held - {Bits(d)};
      }
    }

    /** One operation of a run; `pick` names the objhead a lookup chose. */
    method Do(op: Op, ghost picks: seq<nat>) returns (pick: seq<nat>)
      requires Valid()
      modifies Memory()
      ensures Valid() && fresh(Memory() - old(Memory()))
      ensures Abs(picks + pick) == Step(old(Abs(picks)), op)
    {
      hide Bits, SL.HashSimpleList.ListOk, SL.HashSimpleList.HeadsOk, LookedUp, Dereffed;
      assert hash.View().Keys == held.Keys;
      match op
      case Look(d) =>
        var oh := Look(d);
        assert hash.View()[Bits(d)].id == oh.id;
        pick := [oh.id];
      case Drop(d) =>
        if Bits(d) in held {
          var _ := Drop(d);
        }
        pick := [];
        assert picks + [] == picks;
      case Sweep =>
        pick := [];
        assert picks + [] == picks;
    }
  }

  /** A run over the crit-bit index. */
  method RunCritBit(ops: seq<Op>) returns (w: CritBitWorker, picks: seq<nat>)
    ensures w.Valid() && w.Abs(picks) == Run(ops) && fresh(w.Memory())
  {
    hide Step, CB.HashCritBit.TreeOk, CB.HashCritBit.Table, CB.HashCritBit.HeadsOk, CB.HashCritBit.LaylowOk,
      CB.HashCritBit.NodesOk, CB.HashCritBit.View;
    w := new CritBitWorker();
    picks := [];
    for i := 0 to |ops|
      invariant w.Valid() && fresh(w.Memory())
      invariant w.Abs(picks) == Run(ops[..i])
    {
      assert ops[..i + 1][..i] == ops[..i];
      var pick := w.Do(ops[i], picks);
      picks := picks + pick;
    }
    assert ops[..|ops|] == ops;
  }

  function Sweeps(ops: seq<Op>): nat {
    if ops == [] then 0 else Sweeps(ops[..|ops| - 1]) + if ops[|ops| - 1].Sweep? then 1 else 0
  }

  /** After `n` sweeps the objhead is still on laylow if there were up to sixty. It has cooled at each of them if its
      node was free, and is gone after more. */
  ghost predicate CoolOrGone(w: CritBitWorker, oh: ObjHead, free: bool, n: nat)
    reads w, w.hash, oh
  {
    && (n <= 60 ==> oh in w.hash.laylow && oh.digest[0] as nat <= n)
    && (n <= 60 && free ==> oh.digest[0] as nat == n && oh.y.Unused())
    && (n > 60 && free ==> oh !in w.hash.Repr() && oh != w.nobjhead)
  }

  method CoolOnce(w: CritBitWorker, op: Op, ghost oh: ObjHead, ghost free: bool, ghost n: nat)
    requires w.Valid() && CoolOrGone(w, oh, free, n)
    modifies w.Memory()
    ensures w.Valid() && fresh(w.Memory() - old(w.Memory()))
    ensures CoolOrGone(w, oh, free, n + if op.Sweep? then 1 else 0)
  {
    hide Step, CB.HashCritBit.TreeOk, CB.HashCritBit.Table, CB.HashCritBit.HeadsOk, CB.HashCritBit.LaylowOk,
      CB.HashCritBit.NodesOk, CB.HashCritBit.View;
    var pick := w.Do(op, []);
  }

  /** An objhead on laylow that has cooled for so long is still there after sixty sweeps in all, whatever else happens
      between them; and if the tree does not use its node, it is freed by the next one. */
  method CoolFor(w: CritBitWorker, ops: seq<Op>, ghost oh: ObjHead)
    requires w.Valid() && oh in w.hash.laylow && oh.digest[0] as nat <= 60
    modifies w.Memory()
    ensures w.Valid() && fresh(w.Memory() - old(w.Memory()))
    ensures old(oh.digest[0]) as nat + Sweeps(ops) <= 60 ==> oh in w.hash.laylow
    ensures old(oh.y.Unused()) ==> (oh in w.hash.laylow <==> old(oh.digest[0]) as nat + Sweeps(ops) <= 60)
  {
    hide CritBitWorker.Valid;
    ghost var c, free := oh.digest[0] as nat, oh.y.Unused();
    for i := 0 to |ops|
      invariant w.Valid() && fresh(w.Memory() - old(w.Memory()))
      invariant CoolOrGone(w, oh, free, c + Sweeps(ops[..i]))
    {
      assert ops[..i + 1][..i] == ops[..i];
      CoolOnce(w, ops[i], oh, free, c + Sweeps(ops[..i]));
    }
    assert ops[..|ops|] == ops;
  }

  /** After any run, the objhead of a digest whose last reference is dropped stays in memory for sixty sweeps, among
      any other operations, for those that still read it without the lock; and no longer, unless its node was in use. */
  method CoolOff(before: seq<Op>, d: Digest, after: seq<Op>)
    returns (w: CritBitWorker, ghost oh: ObjHead?, ghost free: bool)
    ensures w.Valid() && (oh != null <==> Bits(d) in Run(before).view && Run(before).view[Bits(d)].refcnt == 1)
    ensures oh != null && Sweeps(after) <= 60 ==> oh in w.hash.laylow
    ensures oh != null && free ==> (oh in w.hash.laylow <==> Sweeps(after) <= 60)
  {
    hide Run, Bits, CB.HashCritBit.TreeOk, CB.HashCritBit.Table, CB.HashCritBit.HeadsOk, CB.HashCritBit.LaylowOk,
      CB.HashCritBit.NodesOk;
    var picks;
    w, picks := RunCritBit(before);
    oh, free := null, false;
    if Bits(d) in w.held && w.held[Bits(d)].refcnt == 1 {
      ghost var last := w.held[Bits(d)];
      var _ := w.Drop(d);
      oh, free := last, last.y.Unused();
      CoolFor(w, after, last);
    }
  }

  /** A run over the reference list. */
  method RunSimple(ops: seq<Op>) returns (w: SimpleWorker, picks: seq<nat>)
    ensures w.Valid() && w.Abs(picks) == Run(ops)
  {
    hide Step, SL.HashSimpleList.ListOk, SL.HashSimpleList.HeadsOk, SL.HashSimpleList.View;
    w := new SimpleWorker();
    picks := [];
    for i := 0 to |ops|
      invariant w.Valid() && fresh(w.Memory())
      invariant w.Abs(picks) == Run(ops[..i])
    {
      assert ops[..i + 1][..i] == ops[..i];
      var pick := w.Do(ops[i], picks);
      picks := picks + pick;
    }
    assert ops[..|ops|] == ops;
  }

  /** The crit-bit index refines the reference list: whatever the run, both choose the same objheads
      and end with the same objheads indexed under the same digests with the same reference counts. */
  method Lockstep(ops: seq<Op>)
    returns (cb: CritBitWorker, sl: SimpleWorker, cbPicks: seq<nat>, slPicks: seq<nat>)
    ensures cb.Valid() && sl.Valid()
    ensures cbPicks == slPicks
    ensures cb.hash.View() == sl.hash.View()
  {
    hide Run, CB.HashCritBit.TreeOk, CB.HashCritBit.Table, CB.HashCritBit.HeadsOk, CB.HashCritBit.LaylowOk,
      SL.HashSimpleList.ListOk, SL.HashSimpleList.HeadsOk;
    cb, cbPicks := RunCritBit(ops);
    sl, slPicks := RunSimple(ops);
  }
}
