/** The object lookup and busy protocol of bin/varnishd/cache_hash.c around one objhead. Each section under the
    objhead's mutex, and each call of the hash slinger, is one step; any number of sessions interleave. */
module HashProtocol {
  import opened Lists

  class ObjCore {
    var refcnt: int
    var busy: bool
    var persistent: bool

    constructor (busy: bool, persistent: bool)
      ensures refcnt == 1 && this.busy == busy && this.persistent == persistent
    {
      this.refcnt, this.busy, this.persistent := 1, busy, persistent;
    }
  }

  /** Where a session stands with respect to the objhead. */
  datatype Phase =
    | Out                    // refers to nothing
    | Entering               // the slinger gave it the objhead, or it kept it while parked
    | Inserting              // the same, on its way to HSH_Insert
    | Hit(oc: ObjCore)       // took an objcore, and has not yet let go of the objhead
    | Holds(oc: ObjCore)     // refers to an objcore
    | Parked                 // on the waiting list
    | Polling                // an ESI session that lost to a busy object and will be back
    | Queued                 // taken off the waiting list and given to a worker pool
    | Dropped                // taken off the waiting list and killed
    | Leaving                // took an objcore off the list, and has not yet let go of the objhead

  /** The references a session has on the objhead, and on an objcore. */
  function RefOf(p: Phase): nat {
    if p.Out? || p.Holds? then 0 else 1
  }

  predicate On(p: Phase, oc: ObjCore) {
    (p.Hit? || p.Holds?) && p.oc == oc
  }

  function Refs(s: seq<Phase>): nat {
    if s == [] then 0 else Refs(s[..|s| - 1]) + RefOf(s[|s| - 1])
  }

  function Holders(s: seq<Phase>, oc: ObjCore): nat {
    if s == [] then 0 else Holders(s[..|s| - 1], oc) + if On(s[|s| - 1], oc) then 1 else 0
  }

  lemma {:induction false} RefsMoved(s: seq<Phase>, i: nat, p: Phase)
    requires i < |s|
    ensures Refs(s[i := p]) == Refs(s) - RefOf(s[i]) + RefOf(p)
  {
    var n := |s| - 1;
    if i < n {
      RefsMoved(s[..n], i, p);
      assert s[i := p][..n] == s[..n][i := p];
    } else {
      assert s[i := p][..n] == s[..n];
    }
  }

  lemma {:induction false} HoldersMoved(s: seq<Phase>, i: nat, p: Phase, oc: ObjCore)
    requires i < |s|
    ensures Holders(s[i := p], oc) == Holders(s, oc) - (if On(s[i], oc) then 1 else 0) + if On(p, oc) then 1 else 0
  {
    var n := |s| - 1;
    if i < n {
      HoldersMoved(s[..n], i, p, oc);
      assert s[i := p][..n] == s[..n][i := p];
    } else {
      assert s[i := p][..n] == s[..n];
    }
  }

  lemma {:induction false} RefsPositive(s: seq<Phase>, i: nat)
    requires i < |s|
    ensures Refs(s) >= RefOf(s[i])
  {
    if i < |s| - 1 {
      RefsPositive(s[..|s| - 1], i);
    }
  }

  lemma {:induction false} SomeHolder(s: seq<Phase>, oc: ObjCore)
    ensures Holders(s, oc) > 0 <==> exists i :: 0 <= i < |s| && On(s[i], oc)
  {
    if s != [] {
      var n := |s| - 1;
      SomeHolder(s[..n], oc);
      if i :| 0 <= i < |s| && On(s[i], oc) {
        if i < n {
          assert On(s[..n][i], oc);
        }
      }
      if i :| 0 <= i < n && On(s[..n][i], oc) {
        assert On(s[i], oc);
      }
    }
  }

  /** The references of sessions that are still there: at the objhead, parked, queued, or on their way out. */
  function LiveRefs(s: seq<Phase>): nat {
    if s == [] then 0 else LiveRefs(s[..|s| - 1]) + if s[|s| - 1].Dropped? then 0 else RefOf(s[|s| - 1])
  }

  function Killed(s: seq<Phase>): nat {
    if s == [] then 0 else Killed(s[..|s| - 1]) + if s[|s| - 1].Dropped? then 1 else 0
  }

  lemma {:induction false} RefsSplit(s: seq<Phase>)
    ensures Refs(s) == LiveRefs(s) + Killed(s)
    ensures Killed(s) == 0 <==> forall i :: 0 <= i < |s| ==> !s[i].Dropped?
  {
    if s != [] {
      var n := |s| - 1;
      RefsSplit(s[..n]);
      assert s == s[..n] + [s[n]];
    }
  }

  /** What the lookup sees of an object: HSH_Grace of a NaN is the default grace. */
  datatype Attr = Attr(cacheable: bool, ttl: real, banned: bool, varies: bool, grace: Option<real>)

  datatype Request = Request(now: real, grace: Option<real>, healthy: bool, esis: nat)

  function Grace(g: Option<real>, default: real): real {
    if g.None? then default else g.value
  }

  /** What the pass over the objcores found: a live object, a busy one, one in grace. */
  datatype Found = Found(live: Option<nat>, busy: bool, graced: Option<nat>)

  /** How many sessions a rush takes off the waiting list from position `u` on: up to `n`, and none after one
      that the worker pool does not accept. */
  function Rushed(w: seq<nat>, u: nat, n: nat, pool: nat -> bool): (k: nat)
    requires u <= |w|
    ensures k <= n && u + k <= |w| && (k == 0 <==> n == 0 || u == |w|)
    ensures forall j :: u <= j < u + k - 1 ==> pool(w[j])
    ensures k < n && u + k < |w| ==> k > 0 && !pool(w[u + k - 1])
    decreases n
  {
    if n == 0 || u == |w| then 0 else if !pool(w[u]) then 1 else 1 + Rushed(w, u + 1, n - 1, pool)
  }

  /** The first `u` of the parked sessions `w` have been given to the worker pools. */
  predicate RushedTo(w: seq<nat>, before: seq<Phase>, after: seq<Phase>, u: nat, pool: nat -> bool) {
    && u <= |w| && |after| == |before|
    && (forall j :: 0 <= j < u && w[j] < |after| ==> after[w[j]] == if pool(w[j]) then Queued else Dropped)
    && (forall k :: 0 <= k < |after| && k !in w[..u] ==> after[k] == before[k])
  }

  /** Sessions have been killed only if the worker pool did not take them. */
  predicate KilledRefused(before: seq<Phase>, after: seq<Phase>, pool: nat -> bool) {
    |after| == |before| && forall k :: 0 <= k < |after| && after[k].Dropped? ==> before[k].Dropped? || !pool(k)
  }

  lemma KilledSince(before: seq<Phase>, i: nat, p: Phase, after: seq<Phase>, pool: nat -> bool)
    requires i < |before| && !p.Dropped? && KilledRefused(before[i := p], after, pool)
    ensures KilledRefused(before, after, pool)
  {
  }

  lemma RushedNone(w: seq<nat>, before: seq<Phase>, pool: nat -> bool)
    ensures RushedTo(w, before, before, 0, pool)
  {
  }

  lemma RushedNext(w: seq<nat>, before: seq<Phase>, after: seq<Phase>, u: nat, pool: nat -> bool)
    requires NoRepeats(w) && RushedTo(w, before, after, u, pool) && u < |w| && w[u] < |after|
    ensures RushedTo(w, before, after[w[u] := if pool(w[u]) then Queued else Dropped], u + 1, pool)
  {
    assert w[..u + 1] == w[..u] + [w[u]];
  }

  lemma RushedStep(w: seq<nat>, u: nat, n: nat, pool: nat -> bool)
    requires u < |w| && n > 0
    ensures Rushed(w, u, n, pool) == if !pool(w[u]) then 1 else 1 + Rushed(w, u + 1, n - 1, pool)
  {
  }

  class ObjHead {
    const rush: nat
    const defaultGrace: real
    var refcnt: int
    var objcs: seq<ObjCore>
    var waitinglist: seq<nat>
    var phase: seq<Phase>
    var deleted: bool

    /** The reference count is the objcores plus the sessions that refer to the objhead; it is zero exactly
        when the objhead has been deleted. */
    ghost predicate Balanced()
      reads this`refcnt, this`objcs, this`phase, this`deleted
    {
      refcnt == |objcs| + Refs(phase) && (deleted <==> refcnt == 0)
    }

    /** The reference count of an objcore is the number of sessions that hold it; a persistent one is held once,
        since every other reference fixes it up first. */
    ghost predicate Counted()
      reads this`objcs, this`phase, objcs
    {
      NoRepeats(objcs) && forall oc :: oc in objcs ==>
        oc.refcnt == Holders(phase, oc) && oc.refcnt > 0 && (oc.persistent ==> !oc.busy && oc.refcnt == 1)
    }

    ghost predicate OneBusy()
      reads this`objcs, objcs`busy
    {
      forall j, k :: 0 <= j < |objcs| && 0 <= k < |objcs| && objcs[j].busy && objcs[k].busy ==> j == k
    }

    /** Sessions hold only objcores of the list. */
    ghost predicate Known()
      reads this`objcs, this`phase, objcs`persistent
    {
      forall i :: 0 <= i < |phase| && (phase[i].Hit? || phase[i].Holds?) ==>
        phase[i].oc in objcs && (phase[i].Hit? ==> !phase[i].oc.persistent)
    }

    ghost predicate Waiting()
      reads this`waitinglist, this`phase
    {
      && NoRepeats(waitinglist)
      && (forall i :: i in waitinglist ==> i < |phase|)
      && forall i :: 0 <= i < |phase| ==> (phase[i] == Parked <==> i in waitinglist)
    }

    /** Session `i` will look at the waiting list again, or has been killed. */
    ghost predicate Waker(i: int)
      reads this`phase, this`objcs, objcs`persistent
    {
      && 0 <= i < |phase|
      && match phase[i]
         case Entering | Hit(_) | Polling | Queued | Dropped => true
         case Holds(oc) => oc in objcs && !oc.persistent
         case _ => false
    }

    /** While sessions are parked, another one is left to wake them. */
    ghost predicate Awake()
      reads this`waitinglist, this`phase, this`objcs, objcs`persistent
    {
      waitinglist == [] || exists i :: Waker(i)
    }

    /** Session `i` will look at the waiting list again; one that has been killed will not. */
    ghost predicate RealWaker(i: int)
      reads this`phase, this`objcs, objcs`persistent
    {
      Waker(i) && !phase[i].Dropped?
    }

    ghost predicate SomeWaker(but: int)
      reads this`phase, this`objcs, objcs`persistent
    {
      exists i :: i != but && RealWaker(i)
    }

    /** Nobody is parked, or somebody who has not been killed will wake them. */
    ghost predicate Attended()
      reads this`waitinglist, this`phase, this`objcs, objcs`persistent
    {
      waitinglist == [] || SomeWaker(-1)
    }

    /** A rush will strand sessions once session `i` is no waker any more: the worker pool refuses the first parked
        session, others wait behind it, and nobody else is left to wake them. */
    ghost predicate Strands(i: int, pool: nat -> bool)
      reads this`waitinglist, this`phase, this`objcs, objcs`persistent
    {
      |waitinglist| > 1 && !pool(waitinglist[0]) && !SomeWaker(i)
    }

    /** The same for two rushes in a row. */
    ghost predicate StrandsTwice(i: int, pool: nat -> bool, pool': nat -> bool)
      reads this`waitinglist, this`phase, this`objcs, objcs`persistent
    {
      |waitinglist| > 2 && !pool(waitinglist[0]) && !pool'(waitinglist[1]) && !SomeWaker(i)
    }

    ghost predicate Base()
      reads this, objcs
    {
      Balanced() && Counted() && OneBusy() && Known() && Waiting() && rush > 0
    }

    ghost predicate Valid()
      reads this, objcs
    {
      Base() && Awake()
    }

    /** The objhead that HSH_Prealloc made, once the slinger has put it in the index for session `i`. */
    constructor (sessions: nat, rush: nat, defaultGrace: real, i: nat)
      requires rush > 0 && i < sessions
      ensures Valid() && Attended() && objcs == [] && waitinglist == [] && refcnt == 1 && this.rush == rush
      ensures |phase| == sessions && phase[i] == Entering && forall j :: 0 <= j < sessions && j != i ==> phase[j] == Out
    {
      this.rush, this.defaultGrace, refcnt, objcs, waitinglist, deleted := rush, defaultGrace, 1, [], [], false;
      phase := seq(sessions, j => if j == i then Entering else Out);
      new;
      var s := seq(sessions, j => Out);
      assert phase == s[i := Entering];
      RefsMoved(s, i, Entering);
      NoRefs(sessions);
    }

    static lemma {:induction false} NoRefs(n: nat)
      ensures Refs(seq(n, j => Out)) == 0
    {
      if n > 0 {
        var s := seq(n, j => Out);
        assert s[..n - 1] == seq(n - 1, j => Out);
        NoRefs(n - 1);
      }
    }

    /* ---- one session moves ---- */

    /** Session `i` goes on to `p`, which holds what it held before. */
    method Move(i: nat, p: Phase, n: int)
      requires Base() && i < |phase| && !phase[i].Parked? && !p.Parked? && !deleted
      requires n == refcnt - RefOf(phase[i]) + RefOf(p) && n > 0
      requires forall oc :: oc in objcs ==> (On(p, oc) <==> On(phase[i], oc))
      requires p.Hit? || p.Holds? ==> p.oc in objcs && (p.Hit? ==> !p.oc.persistent)
      modifies this`phase, this`refcnt
      ensures Base() && !deleted && phase == old(phase)[i := p] && refcnt == n
    {
      hide NoRepeats, OneBusy, Holders, Refs;
      RefsMoved(phase, i, p);
      SameHolders(i, p);
      phase := phase[i := p];
      refcnt := n;
    }

    lemma SameHolders(i: nat, p: Phase)
      requires i < |phase| && forall oc :: oc in objcs ==> (On(p, oc) <==> On(phase[i], oc))
      ensures forall oc :: oc in objcs ==> Holders(phase[i := p], oc) == Holders(phase, oc)
    {
      forall oc | oc in objcs
        ensures Holders(phase[i := p], oc) == Holders(phase, oc)
      {
        HoldersMoved(phase, i, p, oc);
      }
    }

    /** The slinger's lookup gives session `i` the objhead. */
    method Arrive(i: nat, inserting: bool)
      requires Valid() && !deleted && i < |phase| && phase[i] == Out
      modifies this`phase, this`refcnt
      ensures Valid() && refcnt == old(refcnt) + 1
      ensures phase == old(phase)[i := if inserting then Inserting else Entering]
      ensures StillAttended()
    {
      hide Balanced, Counted, OneBusy, Known, Waiting;
      Present();
      Move(i, if inserting then Inserting else Entering, refcnt + 1);
      StillAwake(i);
    }

    lemma Present()
      requires Base() && !deleted
      ensures refcnt > 0
    {
    }

    /** Who was a waker still is, session `i` aside. */
    twostate lemma StillAwake(i: nat)
      requires old(Awake()) && i < |old(phase)| && |phase| == |old(phase)|
      requires forall k :: 0 <= k < |phase| && k != i ==> phase[k] == old(phase)[k]
      requires waitinglist == old(waitinglist) || Waker(i)
      requires old(Waker(i)) ==> Waker(i)
      requires forall k :: 0 <= k < |phase| && k != i && old(Waker(k)) && phase[k].Holds? ==>
        phase[k].oc in objcs && (phase[k].oc.persistent ==> old(phase[k].oc.persistent))
      requires !phase[i].Dropped?
      ensures Awake() && StillAttended()
    {
      if waitinglist != [] && waitinglist == old(waitinglist) {
        var k :| old(Waker(k));
        assert Waker(k);
        if n :| old(RealWaker(n)) {
          assert RealWaker(n);
        }
      } else if waitinglist != [] {
        assert RealWaker(i);
      }
    }

    /** The step has stranded nobody. */
    twostate predicate StillAttended()
      reads this`waitinglist, this`phase, this`objcs, objcs`persistent
    {
      old(Attended()) ==> Attended()
    }

    /** A session that was queued or polls comes back with the reference it kept. */
    method Resume(i: nat)
      requires Valid() && !deleted && i < |phase| && (phase[i].Queued? || phase[i].Polling?)
      modifies this`phase, this`refcnt
      ensures Valid() && refcnt == old(refcnt) && phase == old(phase)[i := Entering]
      ensures StillAttended()
    {
      hide Balanced, Counted, OneBusy, Known, Waiting;
      Present();
      Move(i, Entering, refcnt);
      StillAwake(i);
    }

    /** The slinger's deref after a hit: it is never the last reference. */
    method Release(i: nat)
      requires Valid() && i < |phase| && phase[i].Hit?
      modifies this`phase, this`refcnt
      ensures Valid() && refcnt == old(refcnt) - 1 > 0
      ensures phase == old(phase)[i := Holds(old(phase)[i].oc)]
      ensures StillAttended()
    {
      hide Counted, OneBusy, Waiting, Known;
      var oc := phase[i].oc;
      RefsPositive(phase, i);
      HitIsKnown(i);
      Move(i, Holds(oc), refcnt - 1);
      StillAwake(i);
    }

    lemma HitIsKnown(i: nat)
      requires Known() && i < |phase| && phase[i].Hit?
      ensures phase[i].oc in objcs && !phase[i].oc.persistent && |objcs| > 0
    {
    }

    /* ---- HSH_Lookup ---- */

    /** The objcore at `j` has an object that the request may get: cacheable, not expired for good, neither banned
        nor of another variant, and not too old. */
    ghost predicate LiveAt(j: nat, r: Request, see: ObjCore -> Attr)
      reads this`objcs, objcs`busy
    {
      && j < |objcs| && !objcs[j].busy
      && var a := see(objcs[j]);
         a.cacheable && a.ttl != 0.0 && !a.banned && !a.varies && a.ttl >= r.now
    }

    ghost predicate FirstLive(j: nat, r: Request, see: ObjCore -> Attr)
      reads this`objcs, objcs`busy
    {
      LiveAt(j, r, see) && forall k :: 0 <= k < j ==> !LiveAt(k, r, see)
    }

    /** One that would be, but for its age, which is within its own grace. */
    ghost predicate GracedAt(j: nat, r: Request, see: ObjCore -> Attr)
      reads this`objcs, objcs`busy
    {
      && j < |objcs| && !objcs[j].busy
      && var a := see(objcs[j]);
         a.cacheable && a.ttl != 0.0 && !a.banned && !a.varies &&
         a.ttl < r.now <= a.ttl + if a.grace.Some? then a.grace.value else defaultGrace
    }

    ghost predicate AnyBusy()
      reads this`objcs, objcs`busy
    {
      exists j :: 0 <= j < |objcs| && objcs[j].busy
    }

    /** The objcore at `j` must serve the request: it is the first live one; or there is none, it is the last one
        in grace, the request accepts its grace, and a fetch is under way or impossible. */
    ghost predicate Serves(j: nat, r: Request, see: ObjCore -> Attr)
      reads this`objcs, objcs`busy
    {
      || FirstLive(j, r, see)
      || (&& GracedAt(j, r, see) && (forall k :: 0 <= k < |objcs| ==> !LiveAt(k, r, see))
          && (forall k :: j < k < |objcs| ==> !GracedAt(k, r, see))
          && (AnyBusy() || !r.healthy)
          && r.now <= see(objcs[j]).ttl + if r.grace.Some? then r.grace.value else defaultGrace)
    }

    /** The answer is an object the request may get, and no older than both graces allow; older than its time to live
        only if a fetch is under way or impossible. */
    ghost predicate Suits(oc: ObjCore, r: Request, see: ObjCore -> Attr)
      reads this`objcs, objcs`busy, oc`busy
    {
      && var a := see(oc);
         && !oc.busy && a.cacheable && a.ttl != 0.0 && !a.banned && !a.varies
         && (r.now <= a.ttl
             || (&& (AnyBusy() || !r.healthy)
                 && r.now <= a.ttl + (if a.grace.Some? then a.grace.value else defaultGrace)
                 && r.now <= a.ttl + (if r.grace.Some? then r.grace.value else defaultGrace)))
    }

    /** The locked section of HSH_Lookup. */
    method Lookup(i: nat, r: Request, see: ObjCore -> Attr) returns (oc: ObjCore?)
      requires Valid() && i < |phase| && phase[i] == Entering
      modifies this`objcs, this`waitinglist, this`phase, objcs`refcnt, objcs`persistent
      ensures Valid() && refcnt == old(refcnt)
      ensures forall j :: 0 <= j < |old(objcs)| && old(Serves(j, r, see)) ==>
        oc == old(objcs)[j] && Took(i, oc)
      ensures (forall j :: 0 <= j < |old(objcs)| ==> !old(Serves(j, r, see))) && old(AnyBusy()) ==>
        oc == null && Waits(i, r.esis)
      ensures (forall j :: 0 <= j < |old(objcs)| ==> !old(Serves(j, r, see))) && !old(AnyBusy()) ==>
        oc != null && fresh(oc) && oc.busy && Inserted(i, oc)
      ensures oc != null && oc in old(objcs) ==> old(Suits(oc, r, see))
      ensures forall j :: 0 <= j < |old(objcs)| && old(FirstLive(j, r, see)) ==> oc == old(objcs)[j]
      ensures forall c :: c in old(objcs) && c != oc ==> c.refcnt == old(c.refcnt)
      ensures StillAttended()
    {
      hide Base, Valid, Serves, Suits, FirstLive, AnyBusy;
      Served(r, see);
      var at, busy := Choose(i, r, see);
      assert forall j :: 0 <= j < |objcs| ==> Serves(j, r, see) == old(Serves(j, r, see));
      if at.Some? {
        oc := Take(i, at.value);
      } else if busy {
        Park(i, r.esis);
        oc := null;
      } else {
        oc := Add(i, true);
      }
    }

    /** What HSH_Lookup makes of the pass over the objcores. */
    method Choose(i: nat, r: Request, see: ObjCore -> Attr) returns (at: Option<nat>, busy: bool)
      requires Valid() && i < |phase| && phase[i] == Entering
      modifies objcs`persistent
      ensures Valid() && (at.None? ==> busy == AnyBusy()) && StillAttended()
      ensures at.Some? ==> at.value < |objcs| && !objcs[at.value].persistent
      ensures forall j :: 0 <= j < |objcs| ==> (Serves(j, r, see) <==> at == Some(j))
    {
      hide Base, Valid, Serves;
      var f := Pass(i, r, see);
      Decide(f, r, see);
      at, busy := f.live, f.busy;
      if at.None? && f.graced.Some? && (f.busy || !r.healthy) {
        if see(objcs[f.graced.value]).ttl + Grace(r.grace, defaultGrace) >= r.now {
          at := f.graced;
        }
      }
    }

    /** Who must serve suits, and the first live one must. */
    lemma Served(r: Request, see: ObjCore -> Attr)
      ensures forall j :: 0 <= j < |objcs| && Serves(j, r, see) ==> Suits(objcs[j], r, see)
      ensures forall j :: 0 <= j < |objcs| && FirstLive(j, r, see) ==> Serves(j, r, see)
    {
    }

    /** Session `i` took a reference on `oc`; it still has the one on the objhead. */
    twostate predicate Took(i: nat, oc: ObjCore)
      reads this`phase, this`objcs, this`waitinglist, oc
    {
      i < |old(phase)| && phase == old(phase)[i := Hit(oc)] && objcs == old(objcs) &&
        waitinglist == old(waitinglist) && oc.refcnt == old(oc.refcnt) + 1
    }

    /** Session `i` waits; an ESI session does not go on the waiting list. */
    twostate predicate Waits(i: nat, esis: nat)
      reads this`phase, this`objcs, this`waitinglist
    {
      && i < |old(phase)| && objcs == old(objcs)
      && phase == old(phase)[i := if esis == 0 then Parked else Polling]
      && waitinglist == if esis == 0 then old(waitinglist) + [i] else old(waitinglist)
    }

    /** A new objcore has taken over the reference of session `i` on the objhead, and session `i` holds it. */
    twostate predicate Inserted(i: nat, new oc: ObjCore)
      reads this`phase, this`objcs, this`waitinglist, oc
    {
      i < |old(phase)| && phase == old(phase)[i := Holds(oc)] && objcs == old(objcs) + [oc] &&
        waitinglist == old(waitinglist) && oc.refcnt == 1
    }

    /** The pass says what it should. */
    ghost predicate Sees(f: Found, n: nat, r: Request, see: ObjCore -> Attr)
      reads this`objcs, objcs`busy
    {
      && n <= |objcs|
      && (f.live.Some? ==> LiveAt(f.live.value, r, see) && forall k :: 0 <= k < f.live.value ==> !LiveAt(k, r, see))
      && (f.live.None? ==> forall k :: 0 <= k < n ==> !LiveAt(k, r, see))
      && (f.live.None? ==> (f.busy <==> exists k :: 0 <= k < n && objcs[k].busy))
      && (f.graced.Some? ==> f.graced.value < n && GracedAt(f.graced.value, r, see))
      && (forall k :: 0 <= k < n && GracedAt(k, r, see) ==> f.live.Some? || (f.graced.Some? && k <= f.graced.value))
    }

    /** The pass over the objcores; it fixes up persistent ones as it meets them. */
    method Pass(i: nat, r: Request, see: ObjCore -> Attr) returns (f: Found)
      requires Valid() && i < |phase| && phase[i] == Entering
      modifies objcs`persistent
      ensures Valid() && Sees(f, |objcs|, r, see)
      ensures f.live.Some? ==> !objcs[f.live.value].persistent
      ensures f.graced.Some? ==> !objcs[f.graced.value].persistent
      ensures StillAttended()
    {
      hide Known, Waiting, OneBusy, NoRepeats, Valid, Attended;
      f := Found(None, false, None);
      Crowd(i);
      for j := 0 to |objcs|
        invariant Valid() && f.live.None? && Sees(f, j, r, see) && StillAttended()
        invariant f.graced.Some? ==> !objcs[f.graced.value].persistent
      {
        assert refcnt > 1;
        var oc := objcs[j];
        FixUp(oc);
        if oc.busy {
          f := f.(busy := true);
          continue;
        }
        var a := see(oc);
        if !a.cacheable || a.ttl == 0.0 || a.banned || a.varies {
          continue;
        }
        if a.ttl >= r.now {
          f := f.(live := Some(j));
          return;
        }
        if a.ttl + Grace(a.grace, defaultGrace) >= r.now {
          f := f.(graced := Some(j));
        }
      }
    }

    /** A session at the objhead is one reference more than the objcores. */
    lemma Crowd(i: nat)
      requires Valid() && i < |phase| && phase[i] == Entering
      ensures refcnt > |objcs|
    {
      RefsPositive(phase, i);
    }

    /** SMP_Fixup. */
    method FixUp(oc: ObjCore)
      requires Valid() && oc in objcs
      modifies {oc}`persistent
      ensures Valid() && !oc.persistent
      ensures StillAttended()
    {
      hide NoRepeats, Waiting, OneBusy;
      oc.persistent := false;
      StayAwake();
    }

    twostate lemma StayAwake()
      requires old(Awake()) && phase == old(phase) && objcs == old(objcs) && waitinglist == old(waitinglist)
      requires forall oc :: oc in objcs ==> (oc.persistent ==> old(oc.persistent))
      ensures Awake() && StillAttended()
    {
      if waitinglist != [] {
        var k :| old(Waker(k));
        assert Waker(k);
        if n :| old(RealWaker(n)) {
          assert RealWaker(n);
        }
      }
    }

    /** What the pass found decides. */
    lemma Decide(f: Found, r: Request, see: ObjCore -> Attr)
      requires Sees(f, |objcs|, r, see)
      ensures f.live.None? ==> f.busy == AnyBusy()
      ensures f.live.Some? ==> forall j :: 0 <= j < |objcs| ==> (Serves(j, r, see) <==> j == f.live.value)
      ensures f.live.None? ==> forall j :: 0 <= j < |objcs| ==> (Serves(j, r, see) <==>
        f.graced == Some(j) && (f.busy || !r.healthy) && see(objcs[j]).ttl + Grace(r.grace, defaultGrace) >= r.now)
    {
    }

    /** A hit: take a reference on the objcore. */
    method Take(i: nat, j: nat) returns (oc: ObjCore)
      requires Valid() && i < |phase| && phase[i] == Entering && j < |objcs| && !objcs[j].persistent
      modifies this`phase, {objcs[j]}`refcnt
      ensures Valid() && oc == objcs[j] && Took(i, oc)
      ensures StillAttended()
    {
      hide Base, Awake;
      oc := objcs[j];
      Grab(i, oc, Hit(oc));
    }

    /** Session `i` gets a reference on `oc`. */
    method Grab(i: nat, oc: ObjCore, p: Phase)
      requires Valid() && i < |phase| && oc in objcs && !oc.persistent
      requires (phase[i] == Entering && p == Hit(oc)) || (phase[i] == Out && p == Holds(oc))
      modifies this`phase, {oc}`refcnt
      ensures Valid() && phase == old(phase)[i := p] && oc.refcnt == old(oc.refcnt) + 1
      ensures StillAttended()
    {
      hide NoRepeats, OneBusy, Awake;
      RefsMoved(phase, i, p);
      Moved(i, p);
      phase := phase[i := p];
      oc.refcnt := oc.refcnt + 1;
      StillAwake(i);
    }

    lemma Moved(i: nat, p: Phase)
      requires i < |phase|
      ensures forall oc :: oc in objcs ==>
        Holders(phase[i := p], oc) == Holders(phase, oc) - (if On(phase[i], oc) then 1 else 0) +
          if On(p, oc) then 1 else 0
    {
      forall oc | oc in objcs
        ensures Holders(phase[i := p], oc) == Holders(phase, oc) - (if On(phase[i], oc) then 1 else 0) +
          if On(p, oc) then 1 else 0
      {
        HoldersMoved(phase, i, p, oc);
      }
    }

    /** A busy object is there: wait for it. The reference on the objhead goes with the session. */
    method Park(i: nat, esis: nat)
      requires Valid() && i < |phase| && phase[i] == Entering && AnyBusy()
      modifies this`phase, this`waitinglist
      ensures Valid() && Waits(i, esis)
      ensures StillAttended()
    {
      hide NoRepeats, OneBusy;
      var p := if esis == 0 then Parked else Polling;
      RefsMoved(phase, i, p);
      Moved(i, p);
      ghost var k := Fetcher();
      if esis == 0 {
        NoRepeatsInsert(waitinglist, |waitinglist|, i);
        assert waitinglist[..|waitinglist|] + [i] + waitinglist[|waitinglist|..] == waitinglist + [i];
        waitinglist := waitinglist + [i];
      }
      phase := phase[i := p];
      assert RealWaker(k);
    }

    /** A busy objcore is held by a session, which will wake others when it lets go. */
    lemma Fetcher() returns (k: nat)
      requires Base() && AnyBusy()
      ensures RealWaker(k) && phase[k] != Entering
    {
      var j :| 0 <= j < |objcs| && objcs[j].busy;
      assert objcs[j] in objcs;
      SomeHolder(phase, objcs[j]);
      k :| 0 <= k < |phase| && On(phase[k], objcs[j]);
    }

    /** The session's objcore goes on the list; it takes over the session's reference on the objhead. */
    method Add(i: nat, busy: bool) returns (oc: ObjCore)
      requires Valid() && i < |phase| && phase[i] == (if busy then Entering else Inserting) && (busy ==> !AnyBusy())
      modifies this`phase, this`objcs
      ensures Valid() && fresh(oc) && oc.busy == busy && oc.persistent == !busy && Inserted(i, oc)
      ensures StillAttended()
    {
      hide NoRepeats, Waker;
      oc := new ObjCore(busy, !busy);
      Unheld(oc);
      RefsMoved(phase, i, Holds(oc));
      Moved(i, Holds(oc));
      HoldersMoved(phase, i, Holds(oc), oc);
      NoRepeatsInsert(objcs, |objcs|, oc);
      assert objcs[..|objcs|] + [oc] + objcs[|objcs|..] == objcs + [oc];
      phase := phase[i := Holds(oc)];
      objcs := objcs + [oc];
      Renewed(i);
    }

    twostate lemma Renewed(i: nat)
      requires old(Awake()) && i < |old(phase)| && |objcs| > 0 && objcs == old(objcs) + [objcs[|objcs| - 1]]
      requires phase == old(phase)[i := Holds(objcs[|objcs| - 1])]
      requires old(phase)[i] == Entering ==> !objcs[|objcs| - 1].persistent
      requires old(phase)[i] == Entering || old(phase)[i] == Inserting
      requires waitinglist == old(waitinglist) && unchanged(old(objcs)`persistent)
      ensures Awake() && StillAttended()
    {
      assert objcs[|objcs| - 1] in objcs;
      StillAwake(i);
    }

    lemma Unheld(oc: ObjCore)
      requires Known() && oc !in objcs
      ensures Holders(phase, oc) == 0
    {
      SomeHolder(phase, oc);
    }

    /** HSH_Insert: an objcore from a persistent silo. */
    method Insert(i: nat) returns (oc: ObjCore)
      requires Valid() && i < |phase| && phase[i] == Inserting
      modifies this`phase, this`objcs
      ensures Valid() && fresh(oc) && !oc.busy && Inserted(i, oc) && refcnt == old(refcnt)
      ensures StillAttended()
    {
      hide Base, Awake;
      oc := Add(i, false);
    }

    /* ---- waking the parked ---- */

    ghost function Now(): View
      reads this`phase, this`waitinglist, this`objcs, this`refcnt
    {
      View(StagesOf(phase), waitinglist, |objcs|, refcnt)
    }

    lemma Restaged(s: seq<Phase>, i: nat, p: Phase)
      requires i < |s|
      ensures StagesOf(s[i := p]) == StagesOf(s)[i := StageOf(p)]
    {
    }

    /** hsh_rush in those terms. */
    lemma RushStages(v: View, before: seq<Phase>, pool: nat -> bool)
      requires v.stages == StagesOf(before) && v.cores == |objcs| && v.refs == refcnt
      requires var k := Rushed(v.waiting, 0, rush, pool);
               waitinglist == v.waiting[k..] && RushedTo(v.waiting, before, phase, k, pool)
      requires forall j :: 0 <= j < |v.waiting| ==> v.waiting[j] < |before|
      ensures Rushes(v, Now(), rush, pool)
    {
      hide Rushed;
      var k := Rushed(v.waiting, 0, rush, pool);
      forall j | 0 <= j < |before|
        ensures StagesOf(phase)[j] ==
          if j in v.waiting[..k] then (if pool(j) then Called else Lost) else v.stages[j]
      {
        if j in v.waiting[..k] {
          var u :| 0 <= u < k && v.waiting[..k][u] == j;
          assert v.waiting[u] == j;
        }
      }
    }

    /** hsh_rush: take sessions off the waiting list and give them to the worker pools. */
    method Rush(pool: nat -> bool)
      requires Base()
      modifies this`phase, this`waitinglist
      ensures Valid() && Woken(pool)
      ensures OthersStay()
      ensures Attended() <==> !old(Strands(-1, pool))
      ensures WakersLeft(pool)
      ensures KillsRefused(pool)
    {
      hide Base, RushedTo, NoRepeats, Rushed, Awake, Attended, Strands, KillsRefused;
      ghost var w, before := waitinglist, phase;
      ParkedOnce();
      ghost var u := RushAll(pool);
      FirstAwake(w, before, u, pool);
      OnlyParked(w, before, u, pool);
      WhoIsLeft(pool);
      WhoIsKilled(pool);
    }

    twostate lemma WhoIsKilled(pool: nat -> bool)
      requires Woken(pool)
      ensures KillsRefused(pool)
    {
      hide Rushed;
      var w := old(waitinglist);
      ghost var u := Rushed(w, 0, rush, pool);
      forall k | 0 <= k < |phase| && phase[k].Dropped?
        ensures old(phase)[k].Dropped? || !pool(k)
      {
        if k in w[..u] {
          var j :| 0 <= j < u && w[..u][j] == k;
          assert w[j] == k;
        }
      }
    }

    /** Session `i`, if there is one, was not on the waiting list. */
    twostate predicate NotParked(i: int) {
      0 <= i < |old(phase)| ==> !old(phase)[i].Parked?
    }

    /** Besides any session that was not parked, the wakers are those there were, and one more if the worker pool
        takes the first parked session. */
    twostate predicate WakersLeft(pool: nat -> bool)
      reads this`phase, this`objcs, objcs`persistent
    {
      forall i {:trigger SomeWaker(i)} :: NotParked(i) ==> (SomeWaker(i) <==> old(SomeWaker(i)) || Rescues(pool))
    }

    /** The worker pool takes the first parked session. */
    twostate predicate Rescues(pool: nat -> bool) {
      old(waitinglist) != [] && pool(old(waitinglist)[0])
    }

    /** A rush leaves a waker unless it kills the only session it takes off the list. */
    twostate lemma WhoIsLeft(pool: nat -> bool)
      requires old(NoRepeats(waitinglist)) && rush > 0 && objcs == old(objcs) && unchanged(old(objcs)`persistent)
      requires old(forall j :: 0 <= j < |waitinglist| ==> waitinglist[j] < |phase| && phase[waitinglist[j]].Parked?)
      requires Woken(pool) && OthersStay()
      ensures Attended() <==> !old(Strands(-1, pool))
      ensures WakersLeft(pool)
    {
      var w := old(waitinglist);
      if w == [] {
        assert phase == old(phase);
        SameWakers();
      } else {
        RushedStep(w, 0, rush, pool);
        if pool(w[0]) {
          assert RealWaker(w[0]);
        } else {
          SameWakers();
        }
      }
    }

    /** At most one parked session has been taken off the list, and killed. */
    twostate lemma SameWakers()
      requires |phase| == |old(phase)| && objcs == old(objcs) && unchanged(old(objcs)`persistent)
      requires forall k :: 0 <= k < |phase| ==>
        phase[k] == old(phase)[k] || (old(phase)[k].Parked? && phase[k].Dropped?)
      ensures forall i :: SomeWaker(i) <==> old(SomeWaker(i))
    {
      forall i
        ensures SomeWaker(i) <==> old(SomeWaker(i))
      {
        if k :| k != i && old(RealWaker(k)) {
          assert RealWaker(k);
        }
        if k :| k != i && RealWaker(k) {
          assert old(RealWaker(k));
        }
      }
    }

    /** The loop of hsh_rush, which has taken `n` sessions off when it ends. */
    method RushAll(pool: nat -> bool) returns (ghost n: nat)
      requires Base()
      modifies this`phase, this`waitinglist
      ensures Base() && n == Rushed(old(waitinglist), 0, rush, pool) && waitinglist == old(waitinglist)[n..]
      ensures (waitinglist == [] || n > 0) && |phase| == |old(phase)|
      ensures RushedTo(old(waitinglist), old(phase), phase, n, pool)
    {
      hide Base, RushedTo, NoRepeats, Rushed;
      ghost var w := waitinglist;
      ParkedOnce();
      RushedNone(w, phase, pool);
      var u := 0;
      while u < rush && waitinglist != []
        invariant Base() && u <= rush && u <= |w| && waitinglist == w[u..]
        invariant Rushed(w, 0, rush, pool) == u + Rushed(w, u, rush - u, pool)
        invariant |phase| == |old(phase)|
        invariant RushedTo(w, old(phase), phase, u, pool)
      {
        RushedStep(w, u, rush - u, pool);
        var accepted := RushOne(w, old(phase), u, pool);
        u := u + 1;
        if !accepted {
          break;
        }
      }
      n := u;
    }

    /** The body of the loop: the first session leaves the waiting list. */
    method RushOne(ghost w: seq<nat>, ghost before: seq<Phase>, ghost u: nat, pool: nat -> bool)
      returns (accepted: bool)
      requires Base() && u < |w| && waitinglist == w[u..] && NoRepeats(w) && RushedTo(w, before, phase, u, pool)
      modifies this`phase, this`waitinglist
      ensures Base() && waitinglist == w[u + 1..] && accepted == pool(w[u])
      ensures RushedTo(w, before, phase, u + 1, pool) && |phase| == |old(phase)|
    {
      hide Base, RushedTo, NoRepeats;
      var s := waitinglist[0];
      accepted := pool(s);
      Unpark(if accepted then Queued else Dropped);
      RushedNext(w, before, old(phase), u, pool);
      assert w[u..][1..] == w[u + 1..];
    }

    /** Only sessions that were parked have been taken off the waiting list. */
    lemma OnlyParked(w: seq<nat>, before: seq<Phase>, u: nat, pool: nat -> bool)
      requires RushedTo(w, before, phase, u, pool)
      requires forall j :: 0 <= j < |w| ==> w[j] < |before| && before[w[j]].Parked?
      ensures |phase| == |before| && forall j :: 0 <= j < |phase| && !before[j].Parked? ==> phase[j] == before[j]
    {
    }

    /** What hsh_rush does. */
    twostate predicate Woken(pool: nat -> bool)
      reads this`phase, this`waitinglist
    {
      var k := Rushed(old(waitinglist), 0, rush, pool);
      waitinglist == old(waitinglist)[k..] && RushedTo(old(waitinglist), old(phase), phase, k, pool)
    }

    /** A session has been killed only if the worker pool did not take it. */
    twostate predicate KillsRefused(pool: nat -> bool)
      reads this`phase
    {
      KilledRefused(old(phase), phase, pool)
    }

    twostate predicate KillsOnly(op: Op)
      reads this`phase
    {
      |phase| == |old(phase)| &&
        forall k :: 0 <= k < |phase| && phase[k].Dropped? ==> old(phase)[k].Dropped? || Refuses(op, k)
    }

    /** Nobody but the parked is woken. */
    twostate predicate OthersStay()
      reads this`phase
    {
      |phase| == |old(phase)| && forall j :: 0 <= j < |phase| && !old(phase)[j].Parked? ==> phase[j] == old(phase)[j]
    }

    twostate predicate OthersStayBut(i: nat)
      reads this`phase
    {
      |phase| == |old(phase)| && forall j :: 0 <= j < |phase| && j != i && !old(phase)[j].Parked? ==>
        phase[j] == old(phase)[j]
    }

    /** Session `i` has gone on to `p`, and hsh_rush has run. */
    twostate predicate WokenAfter(i: nat, p: Phase, pool: nat -> bool)
      reads this`phase, this`waitinglist
    {
      var k := Rushed(old(waitinglist), 0, rush, pool);
      && i < |old(phase)| && waitinglist == old(waitinglist)[k..]
      && RushedTo(old(waitinglist), old(phase)[i := p], phase, k, pool)
    }

    lemma ParkedOnce()
      requires Base()
      ensures NoRepeats(waitinglist) && rush > 0
      ensures forall j :: 0 <= j < |waitinglist| ==> waitinglist[j] < |phase| && phase[waitinglist[j]].Parked?
    {
      assert forall j :: 0 <= j < |waitinglist| ==> waitinglist[j] in waitinglist;
    }

    lemma FirstAwake(w: seq<nat>, before: seq<Phase>, u: nat, pool: nat -> bool)
      requires RushedTo(w, before, phase, u, pool) && (waitinglist == [] || (u > 0 && w[0] < |phase|))
      ensures Awake()
    {
      assert waitinglist == [] || Waker(w[0]);
    }

    /** The first parked session goes on to `p`. */
    method Unpark(p: Phase)
      requires Base() && waitinglist != [] && (p.Queued? || p.Dropped?)
      modifies this`phase, this`waitinglist
      ensures Base() && waitinglist == old(waitinglist)[1..]
      ensures old(waitinglist)[0] < |old(phase)| && old(phase)[old(waitinglist)[0]] == Parked
      ensures phase == old(phase)[old(waitinglist)[0] := p]
    {
      hide OneBusy, Holders, Refs;
      var i := waitinglist[0];
      assert i in waitinglist;
      RefsMoved(phase, i, p);
      Moved(i, p);
      WithoutOk(waitinglist, i);
      assert waitinglist[1..] == Without(waitinglist, i);
      phase := phase[i := p];
      waitinglist := waitinglist[1..];
    }

    /** HSH_Unbusy. */
    method Unbusy(i: nat, pool: nat -> bool)
      requires Valid() && i < |phase| && phase[i].Holds? && phase[i].oc.busy
      modifies this`phase, this`waitinglist, {phase[i].oc}`busy
      ensures Valid() && !old(phase)[i].oc.busy && Woken(pool) && OthersStay()
      ensures RealWaker(i) && Attended()
      ensures SomeWaker(i) <==> old(SomeWaker(i)) || Rescues(pool)
      ensures KillsRefused(pool)
      ensures objcs == old(objcs) && Rushes(old(Now()), Now(), rush, pool)
    {
      hide Awake, Waiting, NoRepeats, Rushes, Rushed, RushedTo;
      var oc := phase[i].oc;
      assert oc in objcs;
      ParkedOnce();
      oc.busy := false;
      Rush(pool);
      RushStages(old(Now()), old(phase), pool);
      assert RealWaker(i);
    }

    /* ---- references on objcores ---- */

    /** HSH_Ref, and HSH_FindBan of an objcore that is on the list: session `i` gets a reference. */
    method RefCore(i: nat, oc: ObjCore)
      requires Valid() && i < |phase| && phase[i] == Out && oc in objcs
      modifies this`phase, {oc}`refcnt, {oc}`persistent
      ensures Valid() && phase == old(phase)[i := Holds(oc)] && oc.refcnt == old(oc.refcnt) + 1 && !oc.persistent
      ensures StillAttended()
    {
      hide Base, Awake;
      FixUp(oc);
      Grab(i, oc, Holds(oc));
    }

    /** HSH_FindBan: an objcore that has left the list is not found. */
    method FindBan(i: nat, oc: ObjCore) returns (found: bool)
      requires Valid() && i < |phase| && phase[i] == Out
      modifies this`phase, objcs`refcnt, objcs`persistent
      ensures Valid() && (found <==> oc in objcs)
      ensures phase == if found then old(phase)[i := Holds(oc)] else old(phase)
      ensures StillAttended()
    {
      hide Base, Awake;
      found := oc in objcs;
      if found {
        RefCore(i, oc);
      }
    }

    /** The locked section of HSH_Deref. The last reference takes the objcore off the list, and keeps its
        reference on the objhead. */
    method Deref(i: nat, pool: nat -> bool) returns (last: bool)
      requires Valid() && i < |phase| && phase[i].Holds? && !phase[i].oc.persistent
      modifies this`phase, this`objcs, this`waitinglist, {phase[i].oc}`refcnt
      ensures Valid() && (last <==> old(phase[i].oc.refcnt) == 1)
      ensures objcs == if last then Without(old(objcs), old(phase)[i].oc) else old(objcs)
      ensures i < |phase| && phase[i] == (if last then Leaving else Out) && refcnt == old(refcnt)
      ensures !last ==> old(phase)[i].oc.refcnt == old(phase[i].oc.refcnt) - 1
      ensures OthersStayBut(i) && WokenAfter(i, if last then Leaving else Out, pool)
      ensures Attended() <==> !old(Strands(i, pool))
      ensures KillsRefused(pool) && LetsGo(old(Now()), Now(), i, rush, pool)
    {
      hide Base, Awake, NoRepeats, Rushed, RushedTo, Attended, SomeWaker, KilledRefused, WakersLeft, Rushes;
      var oc := phase[i].oc;
      ParkedOnce();
      if oc.refcnt == 1 {
        RemoveCounts(i);
        Remove(i);
        last := true;
      } else {
        Unref(i);
        last := false;
      }
      Rush(pool);
      KilledSince(old(phase), i, if last then Leaving else Out, phase, pool);
      Restaged(old(phase), i, if last then Leaving else Out);
      RushStages(View(StagesOf(old(phase)[i := if last then Leaving else Out]), old(waitinglist), |objcs|, refcnt),
                 old(phase)[i := if last then Leaving else Out], pool);
    }

    /** Session `i` has let go of its objcore, and is no waker any more. */
    twostate lemma OthersWake(i: nat)
      requires old(Base()) && Base() && i < |old(phase)| && old(phase)[i].Holds?
      requires phase == old(phase)[i := if i < |phase| && phase[i].Out? then Out else Leaving]
      requires objcs == old(objcs) || objcs == Without(old(objcs), old(phase)[i].oc)
      requires unchanged(old(objcs)`persistent)
      ensures SomeWaker(-1) <==> old(SomeWaker(i))
    {
      hide Counted, Balanced, OneBusy, Waiting;
      WithoutIn(old(objcs), old(phase)[i].oc);
      if k :| k != i && old(RealWaker(k)) {
        assert RealWaker(k);
      }
      if k :| RealWaker(k) {
        assert k != i && old(RealWaker(k));
      }
    }

    method Unref(i: nat)
      requires Base() && i < |phase| && phase[i].Holds? && phase[i].oc.refcnt != 1
      modifies this`phase, {phase[i].oc}`refcnt
      ensures Base() && phase == old(phase)[i := Out] && old(phase)[i].oc.refcnt == old(phase[i].oc.refcnt) - 1
      ensures SomeWaker(-1) <==> old(SomeWaker(i))
    {
      hide NoRepeats, OneBusy, SomeWaker;
      var oc := phase[i].oc;
      RefsMoved(phase, i, Out);
      Moved(i, Out);
      phase := phase[i := Out];
      oc.refcnt := oc.refcnt - 1;
      OthersWake(i);
    }

    /** The last holder of an objcore takes it off the list. */
    method Remove(i: nat)
      requires Base() && i < |phase| && phase[i].Holds? && phase[i].oc.refcnt == 1
      modifies this`phase, this`objcs
      ensures Base() && phase == old(phase)[i := Leaving] && objcs == Without(old(objcs), old(phase)[i].oc)
      ensures SomeWaker(-1) <==> old(SomeWaker(i))
    {
      hide NoRepeats, SomeWaker;
      var oc := phase[i].oc;
      RemoveCounts(i);
      RefsMoved(phase, i, Leaving);
      WithoutBusy(oc);
      hide Counted;
      phase := phase[i := Leaving];
      objcs := Without(objcs, oc);
      StillCounted(i);
      OthersWake(i);
    }

    /** The objcore of session `i` can leave the list. */
    lemma RemoveCounts(i: nat)
      requires Base() && i < |phase| && phase[i].Holds? && phase[i].oc.refcnt == 1
      ensures NoRepeats(objcs)
      ensures var l := Without(objcs, phase[i].oc);
              |l| == |objcs| - 1 && forall k :: 0 <= k < |phase| && k != i && (phase[k].Hit? || phase[k].Holds?) ==>
                phase[k].oc in l
    {
      var oc := phase[i].oc;
      assert oc in objcs;
      WithoutOk(objcs, oc);
      SoleHolder(i);
      forall k | 0 <= k < |phase| && k != i && (phase[k].Hit? || phase[k].Holds?)
        ensures phase[k].oc in Without(objcs, oc)
      {
        assert !On(phase[k], oc);
      }
    }

    twostate lemma StillCounted(i: nat)
      requires old(Counted()) && i < |old(phase)| && old(phase)[i].Holds?
      requires phase == old(phase)[i := Leaving] && objcs == Without(old(objcs), old(phase)[i].oc)
      requires unchanged(old(objcs))
      ensures Counted()
    {
      var oc := old(phase)[i].oc;
      WithoutOk(old(objcs), oc);
      forall c | c in objcs
        ensures c.refcnt == Holders(phase, c) && c.refcnt > 0 && (c.persistent ==> !c.busy && c.refcnt == 1)
      {
        HoldersMoved(old(phase), i, Leaving, c);
      }
    }

    lemma HeldIsKnown(i: nat)
      requires Base() && i < |phase| && phase[i].Holds?
      ensures phase[i].oc in objcs && (phase[i].oc.persistent ==> !phase[i].oc.busy && phase[i].oc.refcnt == 1)
      ensures NoRepeats(objcs)
    {
    }

    lemma HeldIn(i: nat)
      requires Base() && i < |phase| && phase[i].Holds?
      ensures phase[i].oc in objcs
    {
    }

    lemma WithoutBusy(oc: ObjCore)
      requires OneBusy() && NoRepeats(objcs)
      ensures var l := Without(objcs, oc);
              forall j, k :: 0 <= j < |l| && 0 <= k < |l| && l[j].busy && l[k].busy ==> j == k
    {
      WithoutOk(objcs, oc);
      var l := Without(objcs, oc);
      forall j, k | 0 <= j < |l| && 0 <= k < |l| && l[j].busy && l[k].busy
        ensures j == k
      {
        assert l[j] in objcs && l[k] in objcs;
      }
    }

    lemma SoleHolder(i: nat)
      requires Base() && i < |phase| && phase[i].Holds? && phase[i].oc.refcnt == 1
      ensures forall k :: 0 <= k < |phase| && k != i ==> !On(phase[k], phase[i].oc)
    {
      var oc := phase[i].oc;
      assert oc in objcs;
      forall k | 0 <= k < |phase| && k != i
        ensures !On(phase[k], oc)
      {
        HoldersMoved(phase, i, Out, oc);
        SomeHolder(phase[i := Out], oc);
        assert !On(phase[i := Out][k], oc);
      }
    }

    /** The locked section of HSH_DerefObjCore, of a persistent objcore or of a busy one that nobody else holds. */
    method DerefObjCore(i: nat, pool: nat -> bool)
      requires Valid() && i < |phase| && phase[i].Holds?
      requires phase[i].oc.persistent || (phase[i].oc.busy && phase[i].oc.refcnt == 1)
      modifies this`phase, this`objcs, this`waitinglist
      ensures Valid() && refcnt == old(refcnt)
      ensures i < |phase| && phase[i] == Leaving && objcs == Without(old(objcs), old(phase)[i].oc)
      ensures OthersStayBut(i)
      ensures Attended() <==> if old(phase[i].oc.busy) then !old(Strands(i, pool)) else old(Attended())
      ensures KillsRefused(pool) && |old(objcs)| > 0
      ensures var u := old(Now()).To(i, Parting).(cores := |old(objcs)| - 1);
              if old(phase[i].oc.busy) then Rushes(u, Now(), rush, pool) else Now() == u
    {
      hide Base, Awake, NoRepeats, RushedTo, Rushed, SomeWaker, Rushes;
      HeldIsKnown(i);
      var busy := phase[i].oc.busy;
      ParkedOnce();
      RemoveCounts(i);
      Remove(i);
      Restaged(old(phase), i, Leaving);
      if busy {
        Rush(pool);
        RushStages(old(Now()).To(i, Parting).(cores := |objcs|), old(phase)[i := Leaving], pool);
      } else {
        StayAwakeWithout(i);
        NotOneself(i);
      }
    }

    /** Who holds a persistent objcore is no waker. */
    twostate lemma NotOneself(i: nat)
      requires i < |old(phase)| && old(phase)[i].Holds? && old(phase[i].oc.persistent)
      ensures old(SomeWaker(i)) <==> old(SomeWaker(-1))
    {
      if k :| old(RealWaker(k)) {
        assert k != i;
      }
    }

    /** Session `i` held a persistent objcore, and so was no waker. */
    twostate lemma StayAwakeWithout(i: nat)
      requires old(Awake()) && i < |old(phase)| && old(phase)[i].Holds? && old(phase[i].oc.persistent)
      requires phase == old(phase)[i := Leaving] && waitinglist == old(waitinglist) && unchanged(old(objcs)`persistent)
      requires NoRepeats(old(objcs)) && objcs == Without(old(objcs), old(phase)[i].oc)
      ensures Awake()
    {
      WithoutOk(old(objcs), old(phase)[i].oc);
      StillAwake(i);
    }

    /** The slinger's deref after an objcore has left the list, and HSH_DeleteObjHead after the last one. */
    method Leave(i: nat)
      requires Valid() && i < |phase| && phase[i] == Leaving
      modifies this`phase, this`refcnt, this`deleted
      ensures Valid() && phase == old(phase)[i := Out] && refcnt == old(refcnt) - 1
      ensures deleted ==> Unused()
      ensures StillAttended()
    {
      hide NoRepeats, OneBusy, Awake, Attended, Holders, Refs;
      RefsPositive(phase, i);
      RefsMoved(phase, i, Out);
      SameHolders(i, Out);
      phase := phase[i := Out];
      refcnt := refcnt - 1;
      deleted := refcnt == 0;
      StillAwake(i);
      if deleted {
        Vacant();
      }
    }

    /** Nothing refers to the objhead. */
    ghost predicate Unused()
      reads this`objcs, this`waitinglist, this`phase
    {
      objcs == [] && waitinglist == [] && forall i :: 0 <= i < |phase| ==> phase[i] == Out
    }

    lemma Vacant()
      requires Balanced() && Known() && Waiting() && refcnt == 0
      ensures Unused()
    {
      assert |waitinglist| > 0 ==> waitinglist[0] in waitinglist;
      forall i | 0 <= i < |phase|
        ensures phase[i] == Out
      {
        RefsPositive(phase, i);
      }
    }

    /** HSH_Drop of a busy object: nobody will get it. */
    method Drop(i: nat, pool: nat -> bool, pool': nat -> bool) returns (last: bool)
      requires Valid() && i < |phase| && phase[i].Holds? && phase[i].oc.busy
      modifies this`phase, this`objcs, this`waitinglist, {phase[i].oc}`busy, {phase[i].oc}`refcnt
      ensures Valid() && !old(phase)[i].oc.busy && (last <==> old(phase[i].oc.refcnt) == 1)
      ensures objcs == if last then Without(old(objcs), old(phase)[i].oc) else old(objcs)
      ensures i < |phase| && phase[i] == (if last then Leaving else Out) && refcnt == old(refcnt)
      ensures OthersStayBut(i)
      ensures Attended() <==> !old(StrandsTwice(i, pool, pool'))
      ensures KillsRefused((k: nat) => pool(k) && pool'(k))
      ensures exists u :: Rushes(old(Now()), u, rush, pool) && LetsGo(u, Now(), i, rush, pool')
    {
      hide Base, Awake, NoRepeats, WokenAfter, Rushed, RushedTo, SomeWaker, Attended, Rushes, LetsGo, Now;
      HeldIsKnown(i);
      ParkedOnce();
      if waitinglist != [] {
        RushedStep(waitinglist, 0, rush, pool);
      }
      Unbusy(i, pool);
      last := Deref(i, pool');
    }

    /* ---- runs ---- */

    /** A session that was killed keeps its reference for good: the objhead is never deleted. */
    lemma DroppedPins(i: nat)
      requires Valid() && i < |phase| && phase[i] == Dropped
      ensures !deleted && refcnt > |objcs|
    {
      RefsPositive(phase, i);
    }

    /** The reference count is what refers to the objhead, as long as no session has been killed; each one that has
        been killed is one reference that nobody will give back. */
    lemma Leaked()
      requires Valid()
      ensures refcnt == |objcs| + LiveRefs(phase) + Killed(phase)
      ensures refcnt == |objcs| + LiveRefs(phase) <==> forall i :: 0 <= i < |phase| ==> !phase[i].Dropped?
    {
      RefsSplit(phase);
    }

    /** Nothing refers to a deleted objhead. */
    lemma DeletedUnused()
      requires Valid() && deleted
      ensures Unused()
    {
      Vacant();
    }

    /** The steps that strand sessions: the end of the last reference that could have woken them. */
    ghost predicate StrandsBy(op: Op)
      reads this`waitinglist, this`phase, this`objcs, objcs
    {
      && op.i < |phase| && phase[op.i].Holds? && phase[op.i].oc in objcs
      && var oc := phase[op.i].oc;
         match op
         case Deref(i, pool) => !oc.persistent && Strands(i, pool)
         case DerefObjCore(i, pool) => oc.refcnt == 1 && oc.busy && Strands(i, pool)
         case Drop(i, pool, pool') => oc.busy && StrandsTwice(i, pool, pool')
         case _ => false
    }

    /** What a lookup comes to: the objcore that must serve, or a place among those who wait, or a new busy objcore. */
    twostate predicate Answered(i: nat, r: Request, see: ObjCore -> Attr)
      reads this`phase, this`objcs, objcs`busy
    {
      && i < |phase|
      && (forall j :: 0 <= j < |old(objcs)| && old(Serves(j, r, see)) ==> phase[i] == Hit(old(objcs)[j]))
      && ((forall j :: 0 <= j < |old(objcs)| ==> !old(Serves(j, r, see))) ==>
            if old(AnyBusy()) then phase[i] == (if r.esis == 0 then Parked else Polling)
            else phase[i].Holds? && phase[i].oc in objcs && phase[i].oc !in old(objcs) && phase[i].oc.busy)
    }

    /** What a step comes to that depends on the objcores. */
    twostate predicate Does(op: Op)
      reads this`phase, this`waitinglist, this`objcs, objcs`busy
    {
      op.i < |phase| == |old(phase)| ==>
        var p, q := old(phase)[op.i], phase[op.i];
        match op
        case Lookup(i, r, see) => p == Entering ==> Answered(i, r, see)
        case FindBan(i, oc) => p == Out ==> q == if oc in old(objcs) then Holds(oc) else Out
        case Unbusy(_, pool) =>
          p.Holds? && old(p.oc.busy) ==> q == p && p.oc in objcs && !p.oc.busy && Woken(pool)
        case Deref(i, pool) =>
          p.Holds? && !old(p.oc.persistent) ==>
            q == (if old(p.oc.refcnt) == 1 then Leaving else Out) && WokenAfter(i, q, pool)
        case DerefObjCore(_, _) =>
          p.Holds? && (old(p.oc.persistent) || (old(p.oc.busy) && old(p.oc.refcnt) == 1)) ==>
            q == Leaving && p.oc !in objcs
        case Drop(_, _, _) => p.Holds? && old(p.oc.busy) ==> q == if old(p.oc.refcnt) == 1 then Leaving else Out
        case _ => true
    }

    /** One step of any session; one that its code could not take does nothing. It strands sessions exactly when
        `StrandsBy` says so. */
    method Do(op: Op)
      requires Valid()
      modifies this, objcs
      ensures Valid() && OneWay(old(objcs))
      ensures old(Attended()) ==> (Attended() <==> !old(StrandsBy(op)))
      ensures KillsOnly(op)
      ensures forall j :: 0 <= j < |objcs| ==> objcs[j] in old(objcs) || fresh(objcs[j])
      ensures Step(op, old(Now()), Now(), rush) && Does(op)
    {
      hide Base, Awake, Attended, Now, Does;
      if op.i < |phase| {
        hide Step, StrandsBy;
        match op {
          case Arrive(_, _) | Resume(_) | Leave(_) => DoPassing(op);
          case Insert(_) => DoInsert(op);
          case Ref(_, _) | FindBan(_, _) => DoTaking(op);
          case Lookup(_, _, _) => DoLookup(op);
          case Release(_) | Unbusy(_, _) | Deref(_, _) => DoWaking(op);
          case DerefObjCore(_, _) | Drop(_, _, _) => DoGivingUp(op);
        }
      } else {
        NoSession(op);
      }
    }

    twostate lemma NoSession(op: Op)
      requires op.i >= |phase| && unchanged(this)
      ensures Step(op, old(Now()), Now(), rush) && Does(op)
    {
    }

    /** A step that involves no objcore. */
    method DoPassing(op: Op)
      requires Valid() && op.i < |phase| && (op.Arrive? || op.Resume? || op.Leave?)
      modifies this, objcs
      ensures Valid() && OneWay(old(objcs)) && StillAttended() && KillsOnly(op)
      ensures !old(StrandsBy(op))
      ensures forall j :: 0 <= j < |objcs| ==> objcs[j] in old(objcs) || fresh(objcs[j])
      ensures Step(op, old(Now()), Now(), rush) && Does(op)
    {
      hide Base, Awake, Attended, Unused;
      var i, p := op.i, phase[op.i];
      Counting();
      match op {
        case Arrive(_, inserting) =>
          if p.Out? && !deleted {
            Arrive(i, inserting);
          }
        case Resume(_) =>
          if (p.Queued? || p.Polling?) && !deleted {
            Resume(i);
          }
        case Leave(_) =>
          if p.Leaving? {
            Leave(i);
          }
      }
      assert phase == old(phase)[i := phase[i]];
      Restaged(old(phase), i, phase[i]);
    }

    /** A step that inserts an objcore of a silo. */
    method DoInsert(op: Op)
      requires Valid() && op.i < |phase| && op.Insert?
      modifies this, objcs
      ensures Valid() && OneWay(old(objcs)) && StillAttended() && KillsOnly(op)
      ensures !old(StrandsBy(op))
      ensures forall j :: 0 <= j < |objcs| ==> objcs[j] in old(objcs) || fresh(objcs[j])
      ensures Step(op, old(Now()), Now(), rush) && Does(op)
    {
      hide Base, Awake, Attended;
      var i, p := op.i, phase[op.i];
      if p.Inserting? {
        var oc := Insert(i);
      }
      assert phase == old(phase)[i := phase[i]];
      Restaged(old(phase), i, phase[i]);
    }

    /** A step by which a session gets a reference on an objcore, without a lookup. */
    method DoTaking(op: Op)
      requires Valid() && op.i < |phase| && (op.Ref? || op.FindBan?)
      modifies this, objcs
      ensures Valid() && OneWay(old(objcs)) && StillAttended() && KillsOnly(op)
      ensures !old(StrandsBy(op))
      ensures forall j :: 0 <= j < |objcs| ==> objcs[j] in old(objcs) || fresh(objcs[j])
      ensures Step(op, old(Now()), Now(), rush) && Does(op)
    {
      hide Base, Awake, Attended;
      var i, p := op.i, phase[op.i];
      match op {
        case Ref(_, k) =>
          if p.Out? && 0 <= k < |phase| && phase[k].Holds? {
            HeldIn(k);
            RefCore(i, phase[k].oc);
          }
        case FindBan(_, oc) =>
          if p.Out? {
            var found := FindBan(i, oc);
          }
      }
      assert phase == old(phase)[i := phase[i]];
      Restaged(old(phase), i, phase[i]);
    }

    method DoLookup(op: Op)
      requires Valid() && op.i < |phase| && op.Lookup?
      modifies this, objcs
      ensures Valid() && OneWay(old(objcs)) && StillAttended() && KillsOnly(op)
      ensures !old(StrandsBy(op))
      ensures forall j :: 0 <= j < |objcs| ==> objcs[j] in old(objcs) || fresh(objcs[j])
      ensures Step(op, old(Now()), Now(), rush) && Does(op)
    {
      hide Base, Awake, Serves, Attended, Suits, FirstLive;
      var i := op.i;
      if phase[i].Entering? {
        var oc := Lookup(i, op.r, op.see);
      }
      assert phase == old(phase)[i := phase[i]];
      Restaged(old(phase), i, phase[i]);
    }

    /** A session that has been here has a reference on the objhead, and it is not deleted. */
    lemma Counting()
      requires Base()
      ensures deleted <==> refcnt == 0
      ensures forall i :: 0 <= i < |phase| && RefOf(phase[i]) > 0 ==> !deleted
      ensures refcnt >= 0
    {
      forall i | 0 <= i < |phase| && RefOf(phase[i]) > 0
        ensures !deleted
      {
        RefsPositive(phase, i);
      }
    }

    /** A step of a session that lets go of the objhead or wakes the parked. */
    method DoWaking(op: Op)
      requires Valid() && op.i < |phase| && (op.Release? || op.Unbusy? || op.Deref?)
      modifies this, objcs
      ensures Valid() && OneWay(old(objcs)) && KillsOnly(op)
      ensures old(Attended()) ==> (Attended() <==> !old(StrandsBy(op)))
      ensures forall j :: 0 <= j < |objcs| ==> objcs[j] in old(objcs) || fresh(objcs[j])
      ensures Step(op, old(Now()), Now(), rush) && Does(op)
    {
      hide Base, Awake, Woken, WokenAfter, Attended, Strands, Rushes, LetsGo, RushedTo, NoRepeats, SomeWaker;
      var i, p := op.i, phase[op.i];
      match op {
        case Release(_) =>
          if p.Hit? {
            Release(i);
            Restaged(old(phase), i, phase[i]);
          }
        case Unbusy(_, pool) =>
          if p.Holds? && p.oc.busy {
            HeldIsKnown(i);
            Unbusy(i, pool);
          }
        case Deref(_, pool) =>
          if p.Holds? && !p.oc.persistent {
            HeldIsKnown(i);
            WithoutIn(objcs, p.oc);
            var last := Deref(i, pool);
          }
      }
    }

    /** A step of a session that takes an objcore off the list, or gives up its fetch. */
    method DoGivingUp(op: Op)
      requires Valid() && op.i < |phase| && (op.DerefObjCore? || op.Drop?)
      modifies this, objcs
      ensures Valid() && OneWay(old(objcs)) && KillsOnly(op)
      ensures old(Attended()) ==> (Attended() <==> !old(StrandsBy(op)))
      ensures forall j :: 0 <= j < |objcs| ==> objcs[j] in old(objcs) || fresh(objcs[j])
      ensures Step(op, old(Now()), Now(), rush) && Does(op)
    {
      hide Base, Awake, Attended, Strands, StrandsTwice, Rushes, LetsGo, RushedTo, NoRepeats, SomeWaker;
      var i, p := op.i, phase[op.i];
      if p.Holds? {
        HeldIsKnown(i);
        WithoutIn(objcs, p.oc);
        match op {
          case DerefObjCore(_, pool) =>
            if p.oc.persistent || (p.oc.busy && p.oc.refcnt == 1) {
              WithoutOk(objcs, p.oc);
              DerefObjCore(i, pool);
            }
          case Drop(_, pool, pool') =>
            if p.oc.busy {
              var last := Drop(i, pool, pool');
            }
        }
      }
    }

    /** No objcore of `l` has become busy, and no killed session comes back. */
    twostate predicate OneWay(l: seq<ObjCore>)
      reads this`phase, l`busy
    {
      && (forall oc :: oc in l && oc.busy ==> old(oc.busy))
      && |phase| == |old(phase)|
      && (forall k :: 0 <= k < |phase| && old(phase)[k] == Dropped ==> phase[k] == Dropped)
    }

    /** Where the worker pools take every session nobody is stranded. */
    lemma NeverStrands(op: Op)
      requires forall k :: !Refuses(op, k)
      ensures !StrandsBy(op)
    {
      hide SomeWaker;
      assert waitinglist != [] ==> !Refuses(op, waitinglist[0]);
    }

    /** No session has been killed. */
    twostate predicate NoneKilled()
      reads this`phase
    {
      |phase| == |old(phase)| && forall k :: 0 <= k < |phase| && phase[k].Dropped? ==> old(phase)[k].Dropped?
    }

    /** The same over any run, step by step: as long as the worker pools take every session, no reference leaks, and the
        parked have somebody to wake them. */
    method Run(ops: seq<Op>) returns (ghost views: seq<View>)
      requires Valid()
      modifies this, objcs
      ensures Valid() && OneWay(old(objcs))
      ensures (forall n, k :: 0 <= n < |ops| ==> !Refuses(ops[n], k)) ==> StillAttended() && NoneKilled()
      ensures |views| == |ops| + 1 && views[0] == old(Now()) && views[|ops|] == Now()
      ensures forall n :: 0 <= n < |ops| ==> Step(ops[n], views[n], views[n + 1], rush)
    {
      hide Valid, Attended, StrandsBy, Step, Now, Does;
      ghost var accepting := forall n, k :: 0 <= n < |ops| ==> !Refuses(ops[n], k);
      views := [Now()];
      for n := 0 to |ops|
        invariant Valid() && OneWay(old(objcs))
        invariant accepting ==> StillAttended() && NoneKilled()
        invariant forall j :: 0 <= j < |objcs| ==> objcs[j] in old(objcs) || fresh(objcs[j])
        invariant |views| == n + 1 && views[0] == old(Now()) && views[n] == Now()
        invariant forall m :: 0 <= m < n ==> Step(ops[m], views[m], views[m + 1], rush)
      {
        if accepting {
          NeverStrands(ops[n]);
        }
        Do(ops[n]);
        views := views + [Now()];
      }
    }
  }

  /** Where a session stands, without saying which objcore it refers to. */
  datatype Stage = AtRest | Arriving | Filing | Served | Keeping | Asleep | Returning | Called | Lost | Parting

  function StageOf(p: Phase): Stage {
    match p
    case Out => AtRest
    case Entering => Arriving
    case Inserting => Filing
    case Hit(_) => Served
    case Holds(_) => Keeping
    case Parked => Asleep
    case Polling => Returning
    case Queued => Called
    case Dropped => Lost
    case Leaving => Parting
  }

  function StagesOf(s: seq<Phase>): (t: seq<Stage>)
    ensures |t| == |s| && forall i :: 0 <= i < |s| ==> t[i] == StageOf(s[i])
  {
    seq(|s|, i requires 0 <= i < |s| => StageOf(s[i]))
  }

  /** The sessions, who waits in which order, the number of objcores, and the references on the objhead. */
  datatype View = View(stages: seq<Stage>, waiting: seq<nat>, cores: nat, refs: int)
  {
    /** Session `i` goes on. */
    function To(i: nat, s: Stage): View
      requires i < |stages|
    {
      this.(stages := stages[i := s])
    }
  }

  /** The first of the parked are called, in order, or killed if the worker pool refuses them. */
  ghost predicate Rushes(v: View, w: View, rush: nat, pool: nat -> bool) {
    var k := Rushed(v.waiting, 0, rush, pool);
    && w.waiting == v.waiting[k..] && w.cores == v.cores && w.refs == v.refs && |w.stages| == |v.stages|
    && forall j :: 0 <= j < |v.stages| ==>
      w.stages[j] == if j in v.waiting[..k] then (if pool(j) then Called else Lost) else v.stages[j]
  }

  /** What an operation comes to; one that its code could not take does nothing. Whether an objcore fits, is busy or has
      other references is not said here. */
  ghost predicate Step(op: Op, v: View, w: View, rush: nat) {
    var i := op.i;
    if i >= |v.stages| then w == v else
    match op
    case Arrive(_, inserting) =>
      w == if v.stages[i] == AtRest && v.refs > 0 then
             v.To(i, if inserting then Filing else Arriving).(refs := v.refs + 1)
           else v
    case Resume(_) => w == if v.stages[i] == Called || v.stages[i] == Returning then v.To(i, Arriving) else v
    case Lookup(_, r, _) =>
      if v.stages[i] == Arriving then
        || (v.cores > 0 && w == v.To(i, Served))
        || (v.cores > 0 && r.esis == 0 && w == v.To(i, Asleep).(waiting := v.waiting + [i]))
        || (v.cores > 0 && r.esis != 0 && w == v.To(i, Returning))
        || w == v.To(i, Keeping).(cores := v.cores + 1)
      else w == v
    case Release(_) => w == if v.stages[i] == Served then v.To(i, Keeping).(refs := v.refs - 1) else v
    case Insert(_) => w == if v.stages[i] == Filing then v.To(i, Keeping).(cores := v.cores + 1) else v
    case Unbusy(_, pool) => w == v || (v.stages[i] == Keeping && Rushes(v, w, rush, pool))
    case Ref(_, k) =>
      w == if v.stages[i] == AtRest && k < |v.stages| && v.stages[k] == Keeping then v.To(i, Keeping) else v
    case FindBan(_, _) => w == v || (v.stages[i] == AtRest && v.cores > 0 && w == v.To(i, Keeping))
    case Deref(_, pool) => w == v || (v.stages[i] == Keeping && LetsGo(v, w, i, rush, pool))
    case DerefObjCore(_, pool) =>
      w == v || (v.stages[i] == Keeping && v.cores > 0 && var u := v.To(i, Parting).(cores := v.cores - 1);
                 w == u || Rushes(u, w, rush, pool))
    case Leave(_) => w == if v.stages[i] == Parting then v.To(i, AtRest).(refs := v.refs - 1) else v
    case Drop(_, pool, pool') =>
      w == v || (v.stages[i] == Keeping && exists u :: Rushes(v, u, rush, pool) && LetsGo(u, w, i, rush, pool'))
  }

  /** Session `i` lets go of its objcore, which may leave the list, and parked sessions are woken. */
  ghost predicate LetsGo(v: View, w: View, i: nat, rush: nat, pool: nat -> bool) {
    && i < |v.stages|
    && (|| Rushes(v.To(i, AtRest), w, rush, pool)
        || (v.cores > 0 && Rushes(v.To(i, Parting).(cores := v.cores - 1), w, rush, pool)))
  }

  datatype Op =
    | Arrive(i: nat, inserting: bool)
    | Resume(i: nat)
    | Lookup(i: nat, r: Request, see: ObjCore -> Attr)
    | Release(i: nat)
    | Insert(i: nat)
    | Unbusy(i: nat, pool: nat -> bool)
    | Ref(i: nat, k: nat)
    | FindBan(i: nat, oc: ObjCore)
    | Deref(i: nat, pool: nat -> bool)
    | DerefObjCore(i: nat, pool: nat -> bool)
    | Leave(i: nat)
    | Drop(i: nat, pool: nat -> bool, pool': nat -> bool)

  /** The worker pools do not take session `k` from the operation. */
  ghost predicate Refuses(op: Op, k: nat) {
    match op
    case Unbusy(_, pool) => !pool(k)
    case Deref(_, pool) => !pool(k)
    case DerefObjCore(_, pool) => !pool(k)
    case Drop(_, pool, pool') => !pool(k) || !pool'(k)
    case _ => false
  }

  /** Killed sessions are the only way to be stranded, and they are one: a fetch is given up while three sessions
      are parked, the worker pool refuses the first two, and nobody is left to wake the third. */
  method Stranded() returns (h: ObjHead)
    ensures h.Valid() && h.waitinglist == [3] && h.phase == [Out, Dropped, Dropped, Parked] && h.refcnt == 3
    ensures !h.Attended() && h.objcs == []
  {
    hide ObjHead.Base, ObjHead.Awake;
    h := new ObjHead(4, 3, 10.0, 0);
    var unfit := (oc: ObjCore) => Attr(false, 0.0, false, false, None);
    var r := Request(1.0, None, true, 0);
    var oc := h.Lookup(0, r, unfit);
    assert h.phase == [Holds(oc), Out, Out, Out] && h.objcs == [oc] && h.waitinglist == [];
    ParkNext(h, oc, 1, unfit);
    ParkNext(h, oc, 2, unfit);
    ParkNext(h, oc, 3, unfit);
    assert h.phase == [Holds(oc), Parked, Parked, Parked] && h.waitinglist == [1, 2, 3];
    GiveUp(h, oc);
    assert forall i :: 0 <= i < 4 ==> !h.RealWaker(i);
  }

  /** Session `i` finds nothing fit but a busy object. */
  method ParkNext(h: ObjHead, oc: ObjCore, i: nat, unfit: ObjCore -> Attr)
    requires h.Valid() && h.objcs == [oc] && oc.busy && i < |h.phase| && h.phase[i] == Out &&
      forall c :: !unfit(c).cacheable
    modifies h`phase, h`refcnt, h`waitinglist, h`objcs, {oc}`refcnt, {oc}`persistent
    ensures h.Valid() && h.objcs == [oc] && oc.busy && oc.refcnt == old(oc.refcnt) && h.refcnt == old(h.refcnt) + 1
    ensures h.phase == old(h.phase)[i := Parked] && h.waitinglist == old(h.waitinglist) + [i]
  {
    h.Arrive(i, false);
    var c := h.Lookup(i, Request(1.0, None, true, 0), unfit);
  }

  /** The fetch is given up, and the worker pools are full. */
  method GiveUp(h: ObjHead, oc: ObjCore)
    requires h.Valid() && h.objcs == [oc] && oc.busy && oc.refcnt == 1 && h.refcnt == 4
    requires h.phase == [Holds(oc), Parked, Parked, Parked] && h.waitinglist == [1, 2, 3]
    modifies h, {oc}
    ensures h.Valid() && h.waitinglist == [3] && h.phase == [Out, Dropped, Dropped, Parked] && h.refcnt == 3
    ensures h.objcs == []
  {
    var full := (k: nat) => false;
    hide ObjHead.Balanced, ObjHead.Counted, ObjHead.Known, ObjHead.Waiting, ObjHead.OneBusy, ObjHead.Awake,
      ObjHead.Attended, ObjHead.Strands, ObjHead.SomeWaker, ObjHead.WakersLeft, KilledRefused;
    h.HeldIsKnown(0);
    h.Unbusy(0, full);
    assert h.waitinglist == [2, 3] && full(1) == false;
    assert h.phase == [Holds(oc), Dropped, Parked, Parked] && h.waitinglist == [2, 3];
    var last := h.Deref(0, full);
    assert h.phase == [Leaving, Dropped, Dropped, Parked] && h.waitinglist == [3];
    h.Leave(0);
  }
}
