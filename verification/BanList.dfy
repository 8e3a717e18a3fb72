/** The ban list of bin/varnishd/cache_ban.c: bans newest first, objects that remember the newest ban
    they were checked against, duplicates marked GONE, and a tail collected by reference count. */
module BanLists {
  import opened Lists

  /** The headers of a cached object and of a request. */
  type Headers = string
  type Request = string

  /** One condition of a ban: on the request, or on the headers of the object alone. */
  datatype Test = ReqTest(onReq: Request -> bool) | ObjTest(onObj: Headers -> bool)

  predicate HasReq(tests: seq<Test>) {
    exists i :: 0 <= i < |tests| && tests[i].ReqTest?
  }

  predicate Holds(t: Test, hdr: Headers, req: Request) {
    match t
    case ReqTest(f) => f(req)
    case ObjTest(f) => f(hdr)
  }

  /** A ban bans what meets all its conditions. */
  predicate Bans(tests: seq<Test>, hdr: Headers, req: Request) {
    forall i :: 0 <= i < |tests| ==> Holds(tests[i], hdr, req)
  }

  /** A ban that does not look at the request bans an object for all requests or for none. */
  lemma ObjectTests(tests: seq<Test>, hdr: Headers, req: Request, req': Request)
    requires !HasReq(tests)
    ensures Bans(tests, hdr, req) <==> Bans(tests, hdr, req')
  {
    forall i | 0 <= i < |tests|
      ensures Holds(tests[i], hdr, req) <==> Holds(tests[i], hdr, req')
    {
      assert !tests[i].ReqTest?;
    }
  }

  /** What one walk over the bans newer than the object's comes to. */
  datatype Verdict = Accepted | Banned | Deferred

  class Ban {
    const text: string
    var refcount: nat
    var gone: bool
    var pending: bool
    var req: bool
    var tests: seq<Test>
    var objcore: seq<Object>
    var t0: real
    /** The newer ban with the same text that made this one GONE. */
    ghost var newer: Ban
    /** Position in the history of all bans. */
    ghost var no: nat

    /** BAN_New, with the text the conditions were parsed from. */
    constructor (text: string, tests: seq<Test>)
      ensures this.text == text && this.tests == tests && req == HasReq(tests)
      ensures refcount == 0 && objcore == [] && !gone && !pending
    {
      this.text := text;
      this.tests := tests;
      refcount, gone, pending, objcore, t0, no := 0, false, false, [], 0.0, 0;
      req := exists i :: 0 <= i < |tests| && tests[i].ReqTest?;
      newer := this;
    }
  }

  class Object {
    const hdr: Headers
    var ban: Ban?
    var banT: real
    var ttl: real
    var cacheable: bool
    /** The ban the object was first attached to, as a position in the history. */
    ghost var birth: nat

    constructor (hdr: Headers, ttl: real)
      ensures this.hdr == hdr && ban == null && this.ttl == ttl && cacheable
    {
      this.hdr := hdr;
      this.ttl := ttl;
      ban, banT, cacheable, birth := null, 0.0, true, 0;
    }
  }

  /** What a thread is in the middle of: nothing; the walk of BAN_Insert, without the lock, from its ban `b` to the
      tail `be` it holds, with `bi` how far it has come; or the load of a silo, which holds the tail `be`. */
  datatype Thread = Idle | Hunting(b: Ban, be: Ban, bi: Ban) | Holding(be: Ban)

  class BanList {
    /** The conditions a ban text stands for. */
    const parse: string -> seq<Test>
    /** ban_head, newest first, and ban_start. */
    var list: seq<Ban>
    var start: Ban
    ghost var magic: Ban
    /** References held by walks and silos, not by objects. */
    ghost var holds: multiset<Ban>
    ghost var objs: set<Object>
    /** The texts of all bans there have been, oldest first. */
    ghost var hist: seq<string>

    ghost predicate Shape()
      reads this`list, this`start, list`t0
    {
      && list != [] && NoRepeats(list) && start in list
      && forall i, j :: 0 <= i < j < |list| ==> list[i].t0 >= list[j].t0
    }

    /** Each reference count is the objects on the ban plus the temporary holds. */
    ghost predicate Counts()
      reads this`list, this`holds, this`objs, list`refcount, list`objcore, objs`ban
    {
      && (forall b :: b in list ==> b.refcount == |b.objcore| + holds[b] && NoRepeats(b.objcore))
      && (forall b, o :: b in list && o in b.objcore ==> o in objs && o.ban == b)
      && (forall b :: b in holds ==> b in list)
      && (forall o :: o in objs ==> o.ban != null && o.ban in list && o in o.ban.objcore)
    }

    /** A GONE ban has a strictly newer ban with the same text. */
    ghost predicate GoneOk()
      reads this`list, list`gone, list`newer, list`t0
    {
      forall b {:trigger b.newer} :: b in list && b.gone && b.text != "" ==>
        b.newer in list && b.newer.text == b.text && b.newer.t0 > b.t0
    }

    ghost predicate Base()
      reads this, list, objs
    {
      Shape() && Counts() && GoneOk()
    }

    /** Live bans are compiled; only empty texts, which ban nothing, may be GONE for good. */
    ghost predicate Compiled()
      reads this`list, list`gone, list`tests, list`req
    {
      && (forall b :: b in list && !b.gone ==> b.tests == parse(b.text) && b.req == HasReq(parse(b.text)))
      && (forall b :: b in list && b.text == "" ==> b.gone)
    }

    /** The list is the newest part of the history. */
    ghost predicate Newest()
      reads this`list, this`start, this`hist, list`no
    {
      && list != [] && start == list[0] && |list| <= |hist|
      && forall i :: 0 <= i < |list| ==> list[i].no == |hist| - 1 - i && hist[|hist| - 1 - i] == list[i].text
    }

    /** A ban text whose conditions look at the object alone. */
    ghost predicate ObjectOnly(text: string) {
      text != "" && !HasReq(parse(text))
    }

    /** No object-only ban inserted since the object was attached, up to its ban, matches the object. */
    ghost predicate Clean(o: Object)
      reads this`hist, this`list, o`ban, o`birth, list`no
    {
      o.ban != null && o.ban in list && o.birth <= o.ban.no < |hist|
      && forall n, req :: o.birth < n <= o.ban.no && ObjectOnly(hist[n]) ==> !Bans(parse(hist[n]), o.hdr, req)
    }

    /** The invariant once the bans are compiled. */
    ghost predicate Valid()
      reads this, list, objs
    {
      && Base() && Compiled() && Newest()
      && forall o :: o in objs ==> Clean(o)
    }

    /** BAN_Init: the list holds ban_magic alone, which is GONE and has no conditions. */
    constructor (parse: string -> seq<Test>, now: real)
      ensures Covered([]) && Valid() && Loading() && fresh(start) && list == [start] && start.text == "" &&
        start.t0 == now
      ensures magic == start && this.parse == parse && objs == {} && holds == multiset{}
    {
      var b := new Ban("", []);
      b.gone := true;
      b.t0, b.no := now, 0;
      this.parse := parse;
      list, start, magic, holds, objs, hist := [b], b, b, multiset{}, {}, [""];
    }

    /* ---- adding a ban ---- */

    /** A held ban is in the list and referenced. */
    lemma HeldCounts(b: Ban)
      requires Counts() && b in holds
      ensures b in list && b.refcount > 0
    {
    }

    twostate lemma Recounted(b: Ban)
      requires old(Counts()) && b in list && list == old(list) && objs == old(objs)
      requires unchanged(list`objcore) && unchanged(objs)
      requires forall c :: c in list && c != b ==> c.refcount == old(c.refcount)
      requires holds[b] - b.refcount == old(holds[b] - b.refcount)
      requires holds - multiset{b} <= old(holds) && forall c :: c != b ==> holds[c] == old(holds)[c]
      ensures Counts()
    {
    }

    /** A temporary hold on a ban of the list. */
    method Hold(b: Ban)
      requires Base() && b in list
      modifies this`holds, {b}`refcount
      ensures Base() && (old(Valid()) ==> Valid())
      ensures holds == old(holds) + multiset{b}
    {
      hide Shape, Counts, GoneOk, Compiled, Newest, Clean;
      b.refcount := b.refcount + 1;
      holds := holds + multiset{b};
      Recounted(b);
    }

    /** BAN_Deref, and the end of every other temporary hold. */
    method Deref(b: Ban)
      requires Base() && b in holds
      modifies this`holds, {b}`refcount
      ensures Base() && (old(Valid()) ==> Valid())
      ensures holds == old(holds) - multiset{b}
    {
      hide Shape, Counts, GoneOk, Compiled, Newest, Clean;
      HeldCounts(b);
      b.refcount := b.refcount - 1;
      holds := holds - multiset{b};
      Recounted(b);
    }

    /** The new ban goes to the front of the list and of the history. */
    method Prepend(b: Ban, now: real)
      requires Valid() && b !in list && b.text != "" && now > list[0].t0
      requires b.refcount == 0 && b.objcore == [] && !b.gone && !b.pending
      requires b.tests == parse(b.text) && b.req == HasReq(b.tests)
      modifies this`list, this`start, this`hist, b`t0, b`no
      ensures Valid()
      ensures list == [b] + old(list) && hist == old(hist) + [b.text] && b.t0 == now
    {
      hide Counts, GoneOk, Compiled, Newest, Clean;
      assert list[0] in list;
      b.t0 := now;
      b.no := |hist|;
      hist := hist + [b.text];
      list := [b] + list;
      start := b;
      Prepended(b);
    }

    twostate lemma PrependedShape(b: Ban)
      requires old(Shape()) && b !in old(list) && b.t0 > old(list)[0].t0
      requires list == [b] + old(list) && start == b && unchanged(old(list)`t0)
      ensures Shape()
    {
    }

    twostate lemma PrependedCounts(b: Ban)
      requires old(Counts()) && b !in old(list) && b.refcount == 0 && b.objcore == []
      requires list == [b] + old(list) && unchanged(old(list)) && objs == old(objs) && unchanged(old(objs)) &&
        holds == old(holds)
      ensures Counts()
    {
    }

    twostate lemma PrependedRest(b: Ban)
      requires old(GoneOk() && Compiled() && Newest()) && old(forall o :: o in objs ==> Clean(o))
      requires b !in old(list) && b.text != "" && !b.gone
      requires b.tests == parse(b.text) && b.req == HasReq(b.tests)
      requires list == [b] + old(list) && start == b && hist == old(hist) + [b.text] && b.no == |old(hist)|
      requires unchanged(old(list)) && objs == old(objs) && unchanged(old(objs))
      ensures GoneOk() && Compiled() && Newest() && forall o :: o in objs ==> Clean(o)
    {
    }

    twostate lemma Prepended(b: Ban)
      requires old(Valid()) && b !in old(list) && b.text != "" && b.t0 > old(list)[0].t0
      requires b.refcount == 0 && b.objcore == [] && !b.gone
      requires b.tests == parse(b.text) && b.req == HasReq(b.tests)
      requires list == [b] + old(list) && start == b && hist == old(hist) + [b.text] && b.no == |old(hist)|
      requires unchanged(old(list)) && objs == old(objs) && unchanged(old(objs)) && holds == old(holds)
      ensures Valid()
    {
      PrependedShape(b);
      PrependedCounts(b);
      PrependedRest(b);
      hide Base, Shape, Counts, GoneOk, Compiled, Newest, Clean;
    }

    /** The locked part of BAN_Insert: `be`, if any, is the tail the walk will stop at. */
    method Publish(b: Ban, now: real, dups: bool) returns (be: Ban?)
      requires Valid() && b !in list && b.text != "" && now > list[0].t0
      requires b.refcount == 0 && b.objcore == [] && !b.gone && !b.pending
      requires b.tests == parse(b.text) && b.req == HasReq(b.tests)
      modifies this`list, this`start, this`holds, this`hist, b`t0, b`no, list`refcount
      ensures Valid()
      ensures list == [b] + old(list) && hist == old(hist) + [b.text] && b.t0 == now > list[1].t0
      ensures be == if dups then list[|list| - 1] else null
      ensures holds == old(holds) + if dups then multiset{list[|list| - 1]} else multiset{}
    {
      hide Counts, GoneOk, Compiled, Newest, Clean;
      Prepend(b, now);
      be := list[|list| - 1];
      if dups && be != b {
        Hold(be);
      } else {
        be := null;
      }
    }

    lemma ShapeHolds()
      requires Shape()
      ensures list != [] && NoRepeats(list)
    {
    }

    /** Marking a ban that has a strictly newer one with its text keeps the invariant. */
    twostate lemma Marked(c: Ban)
      requires old(GoneOk() && Compiled()) && list == old(list) && c in list
      requires unchanged(list`t0) && unchanged(list`tests) && unchanged(list`req)
      requires forall d :: d in list && d != c ==> d.gone == old(d.gone) && d.newer == old(d.newer)
      requires (c.gone == old(c.gone) && c.newer == old(c.newer))
               || (c.gone && c.newer in list && c.newer.text == c.text != "" && c.newer.t0 > c.t0)
      ensures GoneOk() && Compiled()
    {
    }

    /** One round of the walk of BAN_Insert, without the lock: mark the next ban if it is a duplicate. */
    method Hunt(b: Ban, be: Ban, bi: Ban) returns (next: Ban)
      requires Valid() && b in list && b.text != "" && StrictlyNewer(b) && be in holds && bi in list
      requires Index(b) <= Index(bi) < Index(be)
      modifies list`gone, list`newer
      ensures Valid()
      ensures next in list && Index(next) == Index(bi) + 1
      ensures forall c :: c in list ==> c.gone == (old(c.gone) || (c == next && c.text == b.text))
    {
      hide Shape, Counts, GoneOk, Compiled, Newest, Clean;
      ShapeHolds();
      next := list[Index(bi) + 1];
      assert next.t0 < b.t0;
      if !next.gone && next.text == b.text {
        next.gone := true;
        next.newer := b;
      }
      Marked(next);
    }

    /** All bans after `b` in the list are older than it. */
    ghost predicate StrictlyNewer(b: Ban)
      reads this`list, list`t0
    {
      forall i, j :: 0 <= i < j < |list| && list[i] == b ==> list[j].t0 < b.t0
    }

    function Index(b: Ban): (i: nat)
      requires b in list && NoRepeats(list)
      reads this`list
      ensures i < |list| && list[i] == b
    {
      var i :| 0 <= i < |list| && list[i] == b;
      i
    }

    lemma HeldIsListed(be: Ban)
      requires Valid() && be in holds
      ensures NoRepeats(list) && be in list
    {
    }

    /* ---- objects ---- */

    /** BAN_NewObj: a new object starts at the newest ban. */
    method NewObj(o: Object)
      requires Valid() && o.ban == null && o !in objs
      modifies this`objs, o`ban, o`banT, o`birth, list`refcount, list`objcore
      ensures Valid() && objs == old(objs) + {o} && o.ban == start && o.birth == start.no
      ensures o.banT == start.t0
    {
      hide Counts, GoneOk, Compiled, Newest, Clean;
      Attach(o, start);
    }

    /** Counting an object in keeps the counts right. */
    twostate lemma Attached(o: Object)
      requires old(Counts()) && o !in old(objs) && objs == old(objs) + {o}
      requires list == old(list) && holds == old(holds) && o.ban != null && o.ban in list
      requires forall p :: p in old(objs) ==> p.ban == old(p.ban)
      requires forall c :: c in list && c != o.ban ==> c.refcount == old(c.refcount) && c.objcore == old(c.objcore)
      requires forall c :: c in list && c == o.ban ==>
        c.refcount == old(c.refcount) + 1 && c.objcore == old(c.objcore) + [o]
      ensures Counts()
    {
    }

    lemma Numbered(b: Ban)
      requires Newest() && b in list
      ensures b.no < |hist| && hist[b.no] == b.text
    {
    }

    /** Put an object that is on no ban on ban `b`. */
    method Attach(o: Object, b: Ban)
      requires Valid() && o.ban == null && o !in objs && b in list
      modifies this`objs, o`ban, o`banT, o`birth, {b}`refcount, {b}`objcore
      ensures Valid() && objs == old(objs) + {o} && o.ban == b && o.birth == b.no && o.banT == b.t0
    {
      hide Shape, Counts, GoneOk, Compiled, Newest, Clean, NoRepeats;
      Numbered(b);
      Link(o, b);
      CleanAtBirth(o);
    }

    method Link(o: Object, b: Ban)
      requires Counts() && o.ban == null && o !in objs && b in list
      modifies this`objs, o`ban, o`banT, o`birth, {b}`refcount, {b}`objcore
      ensures Counts() && objs == old(objs) + {o} && o.ban == b && o.birth == b.no && o.banT == b.t0
    {
      hide Counts, NoRepeats;
      o.ban := b;
      o.birth := b.no;
      b.refcount := b.refcount + 1;
      b.objcore := b.objcore + [o];
      o.banT := b.t0;
      objs := objs + {o};
      Attached(o);
    }

    lemma CleanAtBirth(o: Object)
      requires o.ban != null && o.ban in list && o.birth == o.ban.no < |hist|
      ensures Clean(o)
    {
    }

    twostate lemma Detached(o: Object)
      requires old(Counts()) && o in old(objs) && objs == old(objs) - {o}
      requires list == old(list) && holds == old(holds)
      requires forall p :: p in objs ==> p.ban == old(p.ban)
      requires forall c :: c in list && c != old(o.ban) ==> c.refcount == old(c.refcount) && c.objcore == old(c.objcore)
      requires forall c :: c in list && c == old(o.ban) ==>
        c.refcount == old(c.refcount) - 1 && c.objcore == Without(old(c.objcore), o)
      ensures Counts()
    {
      WithoutOk(old(o.ban.objcore), o);
    }

    lemma ObjectCounts(o: Object)
      requires Counts() && o in objs
      ensures o.ban != null && o.ban in list && o in o.ban.objcore && o.ban.refcount > 0
    {
    }

    /** VTAILQ_REMOVE of an object from its ban, with its reference. */
    method Detach(o: Object)
      requires Valid() && o in objs
      modifies this`objs, o`ban, list`refcount, list`objcore
      ensures Valid() && objs == old(objs) - {o} && o.ban == null
      ensures forall b :: b in list ==> b.refcount == old(b.refcount) - if b == old(o.ban) then 1 else 0
    {
      hide Shape, Counts, GoneOk, Compiled, Newest, Clean;
      ObjectCounts(o);
      o.ban.refcount := o.ban.refcount - 1;
      o.ban.objcore := Without(o.ban.objcore, o);
      o.ban := null;
      objs := objs - {o};
      Detached(o);
    }

    /** BAN_CheckLast: retire the tail if nothing refers to it and it is not also the head. */
    method CheckLast() returns (b: Ban?)
      requires Valid()
      modifies this`list
      ensures Valid()
      ensures var tail := old(list[|list| - 1]);
              if |old(list)| > 1 && tail.refcount == 0
              then b == tail && list == old(list)[..|old(list)| - 1]
              else b == null && list == old(list)
    {
      hide Shape, Counts, GoneOk, Compiled, Newest, Clean;
      ShapeHolds();
      b := list[|list| - 1];
      if b != list[0] && b.refcount == 0 {
        list := list[..|list| - 1];
        Retired(b);
      } else {
        b := null;
      }
    }

    /** Retiring an unreferenced tail keeps the invariant. */
    twostate lemma Retired(b: Ban)
      requires old(Valid()) && |old(list)| > 1 && b == old(list)[|old(list)| - 1] && b.refcount == 0
      requires list == old(list)[..|old(list)| - 1] && start == old(start) && objs == old(objs)
      requires holds == old(holds) && hist == old(hist) && unchanged(old(list)) && unchanged(old(objs))
      ensures Valid()
    {
      RetiredCounts(b);
      RetiredGone(b);
      hide Counts, GoneOk, Clean;
      assert forall i :: 0 <= i < |list| ==> list[i] == old(list)[i];
    }

    twostate lemma RetiredCounts(b: Ban)
      requires old(Counts() && Shape()) && |old(list)| > 1 && b == old(list)[|old(list)| - 1] && b.refcount == 0
      requires list == old(list)[..|old(list)| - 1] && objs == old(objs) && holds == old(holds)
      requires unchanged(old(list)) && unchanged(old(objs))
      ensures Counts()
    {
    }

    twostate lemma RetiredGone(b: Ban)
      requires old(GoneOk() && Shape()) && |old(list)| > 1 && b == old(list)[|old(list)| - 1]
      requires list == old(list)[..|old(list)| - 1] && unchanged(old(list))
      ensures GoneOk()
    {
    }

    /** Without the object, nothing refers to the tail, and it is not alone. */
    ghost predicate Expires(o: Object)
      requires list != []
      reads this`list, o`ban, list`refcount
    {
      |list| > 1 && list[|list| - 1].refcount == if o.ban == list[|list| - 1] then 1 else 0
    }

    /** BAN_DestroyObj: the tail goes if nothing else refers to it. */
    method DestroyObj(o: Object) returns (freed: Ban?)
      requires Valid() && (o.ban == null <==> o !in objs)
      modifies this`objs, this`list, o`ban, list`refcount, list`objcore
      ensures Valid() && objs == old(objs) - {o} && o.ban == null
      ensures freed != null <==> old(o.ban != null && Expires(o))
      ensures freed != null ==> freed == old(list[|list| - 1])
      ensures list == if freed == null then old(list) else old(list)[..|old(list)| - 1]
    {
      hide Shape, Counts, GoneOk, Compiled, Newest, Clean, NoRepeats;
      freed := null;
      ShapeHolds();
      if o.ban == null {
        return;
      }
      Detach(o);
      freed := CheckLast();
    }

    /* ---- checking an object ---- */

    /** A ban with conditions has a live twin, itself or a newer ban with the same text. */
    lemma LiveTwin(i: nat) returns (j: nat)
      requires Shape() && GoneOk() && i < |list| && list[i].text != ""
      ensures j <= i && !list[j].gone && list[j].text == list[i].text
      decreases i
    {
      if list[i].gone {
        assert list[i] in list && list[i].newer in list;
        var k := Index(list[i].newer);
        j := LiveTwin(k);
      } else {
        j := i;
      }
    }

    /** Some ban among the first `n` of the list bans the object for the request. */
    ghost predicate BannedBy(n: nat, hdr: Headers, req: Request)
      requires n <= |list|
      reads this`list
    {
      exists i :: 0 <= i < n && BannedAt(i, hdr, req)
    }

    /** Some ban among the first `n` of the list bans the object whatever the request. */
    ghost predicate BannedAlways(n: nat, hdr: Headers)
      requires n <= |list|
      reads this`list
    {
      forall req :: BannedBy(n, hdr, req)
    }

    ghost predicate BannedAt(i: nat, hdr: Headers, req: Request)
      requires i < |list|
      reads this`list
    {
      list[i].text != "" && Bans(parse(list[i].text), hdr, req)
    }

    /** The conditions of one ban, tested until one fails. */
    method TestAll(tests: seq<Test>, hdr: Headers, req: Request) returns (all: bool)
      ensures all <==> Bans(tests, hdr, req)
    {
      for i := 0 to |tests|
        invariant forall j :: 0 <= j < i ==> Holds(tests[j], hdr, req)
      {
        if !Holds(tests[i], hdr, req) {
          return false;
        }
      }
      return true;
    }

    /** Whether live bans decide it: no ban among the first `n` bans the object if no live one does. */
    lemma GoneNeverDecides(n: nat, hdr: Headers, req: Request)
      requires Base() && Compiled() && n <= |list|
      requires forall i :: 0 <= i < n && !list[i].gone ==> !Bans(list[i].tests, hdr, req)
      ensures !BannedBy(n, hdr, req)
    {
      hide Counts, GoneOk, Shape, Bans;
      forall i | 0 <= i < n && list[i].text != ""
        ensures !Bans(parse(list[i].text), hdr, req)
      {
        var j := LiveTwin(i);
        assert list[j] in list;
      }
    }

    /** No ban among the first `n` looks at the request if no live one does. */
    lemma GoneNeverDefers(n: nat)
      requires Base() && Compiled() && n <= |list|
      requires forall i :: 0 <= i < n && !list[i].gone ==> !list[i].req
      ensures forall i :: 0 <= i < n && list[i].text != "" ==> ObjectOnly(list[i].text)
    {
      hide Counts, GoneOk, Shape, HasReq;
      forall i | 0 <= i < n && list[i].text != ""
        ensures ObjectOnly(list[i].text)
      {
        var j := LiveTwin(i);
        assert list[j] in list;
      }
    }

    /** A live ban that looks at the request, and no live ban before it bans the object. */
    ghost predicate GivesUpAt(i: nat, hdr: Headers)
      requires i < |list|
      reads this`list, list`gone
    {
      && !list[i].gone && HasReq(parse(list[i].text))
      && forall j, req :: 0 <= j < i && !list[j].gone ==> !BannedAt(j, hdr, req)
    }

    /** A walk of the lurker over the first `n` bans gives up. */
    ghost predicate GivesUp(n: nat, hdr: Headers)
      requires n <= |list|
      reads this`list, list`gone
    {
      exists i :: 0 <= i < n && GivesUpAt(i, hdr)
    }

    /** The walk of ban_check_object: GONE bans are skipped, and without a request the walk gives up at
        the first ban that needs one. */
    method Scan(o: Object, req: Option<Request>) returns (v: Verdict)
      requires Valid() && o in objs
      ensures o.ban in list && NoRepeats(list)
      ensures req.Some? ==> (v == Banned <==> BannedBy(Index(o.ban), o.hdr, req.value)) && v != Deferred
      ensures req.None? && v == Accepted ==> forall i :: 0 <= i < Index(o.ban) && list[i].text != "" ==>
        ObjectOnly(list[i].text) && forall r :: !BannedAt(i, o.hdr, r)
      ensures req.None? && v == Banned ==> BannedAlways(Index(o.ban), o.hdr)
      ensures req.None? ==> (v == Deferred <==> GivesUp(Index(o.ban), o.hdr))
    {
      hide Shape, Counts, GoneOk, Newest, Clean, Bans, HasReq, GivesUpAt;
      ObjectCounts(o);
      ShapeHolds();
      ghost var n := Index(o.ban);
      var r := match req case Some(r) => r case None => "";
      var i := 0;
      while list[i] != o.ban
        invariant 0 <= i <= n
        invariant forall j :: 0 <= j < i && !list[j].gone ==> !Bans(list[j].tests, o.hdr, r)
        invariant req.None? ==> forall j :: 0 <= j < i && !list[j].gone ==> !list[j].req
        decreases n - i
      {
        var b := list[i];
        assert b in list;
        if !b.gone {
          if req.None? && b.req {
            StopsHere(i, n, o.hdr, r);
            return Deferred;
          }
          var all := TestAll(b.tests, o.hdr, r);
          if all {
            BannedHere(i, n, o.hdr, r);
            if req.None? {
              GoesOn(i, n, o.hdr, r);
            }
            return Banned;
          }
        }
        i := i + 1;
      }
      GoneNeverDecides(n, o.hdr, r);
      if req.None? {
        GoesThrough(n, o.hdr);
        GoneNeverDefers(n);
        AcceptedForAll(n, o.hdr, r);
      }
      v := Accepted;
    }

    lemma BannedHere(i: nat, n: nat, hdr: Headers, req: Request)
      requires Compiled() && i < n <= |list| && !list[i].gone && Bans(list[i].tests, hdr, req)
      ensures BannedBy(n, hdr, req)
      ensures !list[i].req ==> BannedAlways(n, hdr)
    {
      hide Bans, HasReq;
      assert list[i] in list && BannedAt(i, hdr, req);
      if !list[i].req {
        forall r
          ensures BannedBy(n, hdr, r)
        {
          ObjectTests(list[i].tests, hdr, req, r);
          assert BannedAt(i, hdr, r);
        }
      }
    }

    /** The walk gives up at `i`. */
    lemma StopsHere(i: nat, n: nat, hdr: Headers, req: Request)
      requires Compiled() && i < n <= |list| && !list[i].gone && list[i].req
      requires forall j :: 0 <= j < i && !list[j].gone ==> !Bans(list[j].tests, hdr, req) && !list[j].req
      ensures GivesUp(n, hdr)
    {
      hide Bans, HasReq;
      forall j, r | 0 <= j < i && !list[j].gone
        ensures !BannedAt(j, hdr, r)
      {
        assert list[j] in list;
        ObjectTests(list[j].tests, hdr, req, r);
      }
      assert list[i] in list && GivesUpAt(i, hdr);
    }

    /** It does not give up before or at `i`, where it finds the object banned, nor behind that. */
    lemma GoesOn(i: nat, n: nat, hdr: Headers, req: Request)
      requires Compiled() && i < n <= |list| && !list[i].gone && !list[i].req && Bans(list[i].tests, hdr, req)
      requires forall j :: 0 <= j < i && !list[j].gone ==> !list[j].req
      ensures !GivesUp(n, hdr)
    {
      hide Bans, HasReq;
      assert list[i] in list && BannedAt(i, hdr, req);
      forall k | 0 <= k < n
        ensures !GivesUpAt(k, hdr)
      {
        assert list[k] in list;
      }
    }

    lemma GoesThrough(n: nat, hdr: Headers)
      requires Compiled() && n <= |list| && forall j :: 0 <= j < n && !list[j].gone ==> !list[j].req
      ensures !GivesUp(n, hdr)
    {
      hide HasReq;
      forall k | 0 <= k < n
        ensures !GivesUpAt(k, hdr)
      {
        assert list[k] in list;
      }
    }

    lemma AcceptedForAll(n: nat, hdr: Headers, req: Request)
      requires n <= |list| && !BannedBy(n, hdr, req)
      requires forall i :: 0 <= i < n && list[i].text != "" ==> ObjectOnly(list[i].text)
      ensures forall i, r :: 0 <= i < n && list[i].text != "" ==> !BannedAt(i, hdr, r)
    {
      hide Bans, HasReq;
      forall i, r | 0 <= i < n && list[i].text != ""
        ensures !BannedAt(i, hdr, r)
      {
        assert !BannedAt(i, hdr, req);
        ObjectTests(parse(list[i].text), hdr, req, r);
      }
    }

    twostate lemma Moved(o: Object)
      requires old(Counts() && Shape()) && o in objs && objs == old(objs) && list == old(list) && holds == old(holds)
      requires start == old(start) && start in list && o.ban == start != old(o.ban)
      requires forall p :: p in objs && p != o ==> p.ban == old(p.ban)
      requires forall c :: c in list && c != old(o.ban) && c != start ==>
        c.refcount == old(c.refcount) && c.objcore == old(c.objcore)
      requires forall c :: c in list && c == old(o.ban) ==>
        c.refcount == old(c.refcount) - 1 && c.objcore == Without(old(c.objcore), o)
      requires start.refcount == old(start.refcount) + 1 && start.objcore == old(start.objcore) + [o]
      ensures Counts()
    {
      WithoutOk(old(o.ban.objcore), o);
    }

    /** Clean up to a newer ban, if no object-only ban on the way matches. */
    lemma CleanTo(o: Object, no: nat)
      requires Newest() && Shape() && o.ban == start && o.birth <= no < |hist| && |hist| - |list| <= no
      requires forall n, req :: o.birth < n <= no && ObjectOnly(hist[n]) ==> !Bans(parse(hist[n]), o.hdr, req)
      requires forall i, req :: 0 <= i < |hist| - 1 - no && ObjectOnly(list[i].text) ==> !BannedAt(i, o.hdr, req)
      ensures Clean(o)
    {
      hide Bans, HasReq;
      assert o.ban == list[0] && list[0].no == |hist| - 1;
      forall n, req | o.birth < n <= o.ban.no && ObjectOnly(hist[n])
        ensures !Bans(parse(hist[n]), o.hdr, req)
      {
        if n > no {
          assert list[|hist| - 1 - n].text == hist[n];
          assert !BannedAt(|hist| - 1 - n, o.hdr, req);
        }
      }
    }

    lemma CleanNow(o: Object)
      requires Valid() && o in objs
      ensures o.ban != null && o.ban in list && NoRepeats(list) && o.birth <= o.ban.no
      ensures |hist| - |list| <= o.ban.no < |hist| && Index(o.ban) == |hist| - 1 - o.ban.no
      ensures forall n, req :: o.birth < n <= o.ban.no && ObjectOnly(hist[n]) ==> !Bans(parse(hist[n]), o.hdr, req)
    {
      hide Bans, HasReq, Counts, GoneOk;
      assert Clean(o);
      assert list[Index(o.ban)] == o.ban;
    }

    /** The locked part of ban_check_object for an object that is not banned. */
    method MoveToStart(o: Object)
      requires Valid() && o in objs && o.ban != start && o.ban in list && NoRepeats(list)
      requires forall i, req :: 0 <= i < Index(o.ban) && ObjectOnly(list[i].text) ==> !BannedAt(i, o.hdr, req)
      modifies o`ban, o`banT, list`refcount, list`objcore
      ensures Valid() && o.ban == start && o.banT == start.t0
    {
      hide Counts, GoneOk, Compiled, Newest, Clean, Bans, HasReq, NoRepeats;
      CleanNow(o);
      ObjectCounts(o);
      ghost var no := o.ban.no;
      Rehang(o);
      CleanTo(o, no);
    }

    /** The object, and its reference, go from its ban to ban_start. */
    method Rehang(o: Object)
      requires Shape() && Counts() && o in objs && o.ban != start
      modifies o`ban, o`banT, list`refcount, list`objcore
      ensures Counts() && o.ban == start && o.banT == start.t0
    {
      hide Counts, NoRepeats;
      ObjectCounts(o);
      o.ban.refcount := o.ban.refcount - 1;
      o.ban.objcore := Without(o.ban.objcore, o);
      start.objcore := start.objcore + [o];
      start.refcount := start.refcount + 1;
      o.ban := start;
      o.banT := start.t0;
      Moved(o);
    }

    /** Object-only bans that do not ban an object for one request ban it for none. */
    lemma NoneMatches(n: nat, hdr: Headers, req: Request)
      requires n <= |list| && !BannedBy(n, hdr, req)
      ensures forall i, r :: 0 <= i < n && ObjectOnly(list[i].text) ==> !BannedAt(i, hdr, r)
    {
      hide Bans, HasReq;
      forall i, r | 0 <= i < n && ObjectOnly(list[i].text)
        ensures !BannedAt(i, hdr, r)
      {
        assert !BannedAt(i, hdr, req);
        ObjectTests(parse(list[i].text), hdr, req, r);
      }
    }

    lemma StartIsFirst()
      requires Valid()
      ensures NoRepeats(list) && start in list && Index(start) == 0
    {
    }

    /** ban_check_object, as one step: with a request it is BAN_CheckObject, without one the lurker's. */
    method CheckObject(o: Object, req: Option<Request>) returns (banned: bool)
      requires Valid() && o in objs
      modifies this`objs, o, list`refcount, list`objcore
      ensures Valid()
      ensures old(o.ban in list && NoRepeats(list))
      ensures req.Some? ==> (banned <==> old(BannedBy(Index(o.ban), o.hdr, req.value)))
      ensures req.None? && banned ==> old(BannedAlways(Index(o.ban), o.hdr))
      ensures banned ==> o.ban == null && o.ttl == 0.0 && !o.cacheable && objs == old(objs) - {o}
      ensures !banned ==> objs == old(objs) && o.ttl == old(o.ttl) && o.cacheable == old(o.cacheable)
      ensures !banned && o.ban != old(o.ban) ==> o.ban == start && o.banT == start.t0
      ensures !banned && req.Some? ==> o.ban == start
      ensures !banned && req.None? && o.ban != old(o.ban) ==>
        forall i :: 0 <= i < old(Index(o.ban)) && list[i].text != "" ==> ObjectOnly(list[i].text)
      ensures req.None? && old(o.ban) != start ==>
        (!banned && o.ban == old(o.ban) <==> old(GivesUp(Index(o.ban), o.hdr)))
      ensures o.birth == old(o.birth)
    {
      hide Shape, Counts, GoneOk, Compiled, Newest, Clean, Bans, HasReq, NoRepeats, GivesUp, GivesUpAt;
      ObjectCounts(o);
      StartIsFirst();
      if start == o.ban {
        return false;
      }
      var v := Scan(o, req);
      match v
      case Deferred =>
        return false;
      case Banned =>
        Detach(o);
        o.ttl := 0.0;
        o.cacheable := false;
        return true;
      case Accepted =>
        if req.Some? {
          NoneMatches(Index(o.ban), o.hdr, req.value);
        }
        assert forall i, r :: 0 <= i < Index(o.ban) && ObjectOnly(list[i].text) ==> !BannedAt(i, o.hdr, r);
        MoveToStart(o);
        return false;
    }

    /** Whole-run safety: an object that was just accepted meets none of the object-only bans inserted
        since it was attached. */
    lemma AcceptedIsClean(o: Object)
      requires Valid() && o in objs && o.ban == start
      ensures forall n, req :: o.birth < n < |hist| && ObjectOnly(hist[n]) ==> !Bans(parse(hist[n]), o.hdr, req)
    {
      hide Bans, HasReq, Counts, GoneOk;
      CleanNow(o);
      assert list[0].no == |hist| - 1;
    }

    /** One round of ban_lurker; `found` is whether HSH_FindBan still finds the object. The tail is retired if nothing
        refers to it and it is not alone; else its first object, if it has any and is not ban_start, is checked. */
    method Lurk(found: bool) returns (o: Object?, banned: bool)
      requires Valid()
      modifies this`list, this`objs, objs, list`refcount, list`objcore
      ensures Valid()
      ensures var n := |old(list)| - 1;
              list == if n > 0 && old(list[|list| - 1].refcount) == 0 then old(list)[..n] else old(list)
      ensures o != null <==>
        list == old(list) && found && list[|list| - 1] != start && old(list[|list| - 1].objcore) != []
      ensures o != null ==> o == old(list[|list| - 1].objcore)[0]
      ensures forall p :: p in old(objs) ==> p.birth == old(p.birth) && (p != o ==> unchanged(p))
      ensures !banned ==> objs == old(objs)
      ensures o == null ==> !banned
      ensures o != null ==> o in old(objs) && old(o.ban) == list[|list| - 1] != start && NoRepeats(list)
      ensures o != null && banned ==> o.ban == null && objs == old(objs) - {o} && BannedAlways(|list| - 1, o.hdr)
      ensures o != null && !banned && o.ban != old(o.ban) ==>
        o.ban == start && (forall i :: 0 <= i < |list| - 1 && list[i].text != "" ==> ObjectOnly(list[i].text))
      ensures o != null ==> (!banned && o.ban == old(o.ban) <==> GivesUp(|list| - 1, o.hdr))
    {
      hide Shape, Counts, GoneOk, Compiled, Newest, Clean, Bans, HasReq, GivesUp, GivesUpAt;
      o, banned := null, false;
      var bf := CheckLast();
      if bf != null {
        return;
      }
      ShapeHolds();
      var b := list[|list| - 1];
      if b == start || b.objcore == [] || !found {
        return;
      }
      OnBan(b, b.objcore[0]);
      assert Index(b) == |list| - 1;
      o := b.objcore[0];
      banned := CheckObject(o, None);
    }

    /** The objects that are not on ban_start. */
    ghost function Away(): set<Object>
      reads this`objs, this`start, objs`ban
    {
      set o | o in objs && o.ban != start
    }

    /** No live ban looks at the request. */
    ghost predicate NoneAsks()
      reads this`list, list`gone, list`req
    {
      forall b :: b in list && !b.gone ==> !b.req
    }

    lemma NeverGivesUp(n: nat, hdr: Headers)
      requires Compiled() && NoneAsks() && n <= |list|
      ensures !GivesUp(n, hdr)
    {
      GoesThrough(n, hdr);
    }

    /** A tail that nothing holds, and that cannot be retired, has an object. */
    lemma TailHasObject()
      requires Valid() && holds == multiset{} && |list| > 1 && list[|list| - 1].refcount > 0
      ensures list[|list| - 1] != start && list[|list| - 1].objcore != []
    {
    }

    /** The object `o`, if any, is no longer away; the others are where they were. */
    twostate lemma OneLess(o: Object?)
      requires start == old(start) && (objs == old(objs) || (o != null && objs == old(objs) - {o}))
      requires forall p :: p in old(objs) && p != o ==> p.ban == old(p.ban)
      requires o != null ==> o in old(objs) && old(o.ban) != start && (o !in objs || o.ban == start)
      ensures Away() <= old(Away()) && |Away()| <= |old(Away())|
      ensures o != null ==> |Away()| < |old(Away())|
    {
      Fewer(Away(), old(Away()));
      if o != null {
        assert o in old(Away()) && o !in Away();
      }
    }

    /** A round of the lurker comes nearer to the end: a list of one ban. */
    method LurkOn()
      requires Valid() && holds == multiset{} && NoneAsks()
      modifies this`list, this`objs, objs, list`refcount, list`objcore
      ensures Valid() && NoneAsks() && list != [] && list <= old(list) && objs <= old(objs)
      ensures |Away()| <= |old(Away())|
      ensures |old(list)| > 1 ==> |list| + |Away()| < |old(list)| + |old(Away())|
    {
      hide Compiled, Newest, Clean, Counts, GoneOk, GivesUp, Away, NoRepeats;
      if |list| > 1 && list[|list| - 1].refcount > 0 {
        TailHasObject();
      }
      var o, banned := Lurk(true);
      if o != null {
        NeverGivesUp(|list| - 1, o.hdr);
      }
      OneLess(o);
    }

    /** If nothing is held and no live ban looks at the request, enough rounds of the lurker leave the newest ban alone
        in the list, with all objects that are left on it. */
    method LurkAll(rounds: nat)
      requires Valid() && holds == multiset{} && NoneAsks()
      modifies this`list, this`objs, objs, list`refcount, list`objcore
      ensures Valid() && objs <= old(objs)
      ensures rounds >= |old(list)| - 1 + |old(Away())| ==>
        list == [old(list[0])] && forall o :: o in objs ==> o.ban == list[0]
    {
      hide Compiled, Newest, Clean, Counts, GoneOk, NoneAsks, Away, NoRepeats;
      ghost var first := list[0];
      for i := 0 to rounds
        invariant Valid() && NoneAsks() && list <= old(list) && objs <= old(objs) && list != [] && list[0] == first
        invariant |Away()| <= |old(Away())| && (|list| == 1 || |list| + |Away()| + i <= |old(list)| + |old(Away())|)
      {
        LurkOn();
      }
      if |list| == 1 {
        OnlyHead();
      }
    }

    lemma OnlyHead()
      requires Valid() && |list| == 1
      ensures forall o :: o in objs ==> o.ban == list[0]
    {
    }

    /* ---- the objects of a silo ---- */

    /** BAN_TailRef. */
    method TailRef() returns (b: Ban)
      requires Base()
      modifies this`holds, list`refcount
      ensures Base() && (old(Valid()) ==> Valid())
      ensures b == list[|list| - 1] && holds == old(holds) + multiset{b}
    {
      hide Counts, GoneOk, Compiled, Newest, Clean;
      b := list[|list| - 1];
      Hold(b);
    }

    /** BAN_RefBan: put a loaded object on the ban with its timestamp, not past the held tail. */
    method RefBan(o: Object, t0: real, tail: Ban) returns (b: Ban)
      requires Valid() && o.ban == null && o !in objs && tail in holds
      requires exists i :: 0 <= i < |list| && list[i].t0 == t0 && t0 >= tail.t0
      modifies this`objs, o`ban, o`banT, o`birth, list`refcount, list`objcore
      ensures Valid() && objs == old(objs) + {o} && o.ban == b && b in list && b.t0 == t0
      ensures forall c :: c in list && c.no > b.no ==> c.t0 > t0
    {
      hide Counts, GoneOk, Compiled, Clean;
      HeldCounts(tail);
      var i := 0;
      while list[i] != tail && list[i].t0 > t0
        invariant 0 <= i < |list|
        invariant forall j :: 0 <= j < i ==> list[j].t0 > t0
        invariant forall j :: 0 <= j < i ==> list[j] != tail
        decreases |list| - i
      {
        i := i + 1;
      }
      b := list[i];
      assert forall c :: c in list && c.no > b.no ==> c.t0 > t0;
      Attach(o, b);
    }

    /** `pool` holds all attached objects, and the others in it refer to no ban. */
    ghost predicate Pooled(pool: seq<Object>)
      reads this`objs, pool`ban
    {
      (forall o :: o in objs ==> o in pool) && forall i :: 0 <= i < |pool| && pool[i] !in objs ==> pool[i].ban == null
    }

    /* ---- walks in flight ---- */

    /** Every older ban with the text of `b` is GONE. */
    ghost predicate Swept(b: Ban)
      reads this`list, list`gone
    {
      forall i, j :: 0 <= i < j < |list| && list[i] == b && list[j].text == b.text ==> list[j].gone
    }

    /** What a thread can rely on: the ban it holds is still the tail; and in a walk its ban is listed and newer than
        all behind it, it is between the two, and the duplicates it has passed are GONE. */
    ghost predicate OnTheWay(w: Thread)
      reads this`list, list`t0, list`gone
    {
      && (w.Idle? || (list != [] && w.be == list[|list| - 1]))
      && (w.Hunting? ==>
            && NoRepeats(list) && w.b in list && w.bi in list && w.b.text != "" && StrictlyNewer(w.b)
            && Index(w.b) <= Index(w.bi) && Passed(w.b, w.bi))
    }

    /** The bans with the text of `b` behind it and up to `bi` are GONE. */
    ghost predicate Passed(b: Ban, bi: Ban)
      requires NoRepeats(list) && b in list && bi in list
      reads this`list, list`gone
    {
      forall i :: Index(b) < i <= Index(bi) && list[i].text == b.text ==> list[i].gone
    }

    /** The rounds a walk still has to go. */
    ghost function Left(w: Thread): nat
      reads this`list
    {
      if w.Hunting? && NoRepeats(list) && w.bi in list then |list| - 1 - Index(w.bi) else 0
    }

    /** The tails held by the threads. */
    ghost function Ends(threads: seq<Thread>): multiset<Ban> {
      if threads == [] then multiset{}
      else EndOf(threads[0]) + Ends(threads[1..])
    }

    ghost function EndOf(w: Thread): multiset<Ban> {
      if w.Idle? then multiset{} else multiset{w.be}
    }

    lemma {:induction false} EndsAt(threads: seq<Thread>, t: nat, w: Thread)
      requires t < |threads|
      ensures EndOf(threads[t]) <= Ends(threads)
      ensures Ends(threads[t := w]) + EndOf(threads[t]) == Ends(threads) + EndOf(w)
    {
      hide EndOf;
      var s := threads[t := w];
      if t == 0 {
        assert s[1..] == threads[1..];
      } else {
        assert s[1..] == threads[1..][t - 1 := w] && threads[1..][t - 1] == threads[t];
        EndsAt(threads[1..], t - 1, w);
        assert Ends(s) + EndOf(threads[t]) == EndOf(threads[0]) + (Ends(s[1..]) + EndOf(threads[t]));
      }
    }

    /** All walks are on their way, and hold their tails. */
    ghost predicate InFlight(threads: seq<Thread>)
      reads this`list, this`holds, list`t0, list`gone
    {
      Ends(threads) <= holds && AllOnTheWay(threads)
    }

    ghost predicate AllOnTheWay(threads: seq<Thread>)
      reads this`list, list`t0, list`gone
    {
      forall t :: 0 <= t < |threads| ==> OnTheWay(threads[t])
    }

    /** Thread `t` takes hold of a tail, or lets go of it; the holds of others stay. */
    lemma Redirected(threads: seq<Thread>, t: nat, w: Thread, was: multiset<Ban>)
      requires t < |threads| && AllOnTheWay(threads[t := Idle]) && OnTheWay(w)
      requires Ends(threads) <= was && holds == was - EndOf(threads[t]) + EndOf(w)
      ensures InFlight(threads[t := w]) && holds - Ends(threads[t := w]) == was - Ends(threads)
    {
      hide OnTheWay, Ends, EndOf;
      EndsAt(threads, t, w);
      Regrouped(Ends(threads), Ends(threads[t := w]), EndOf(threads[t]), EndOf(w), was);
      ghost var after := threads[t := w];
      forall s | 0 <= s < |threads|
        ensures OnTheWay(after[s])
      {
        if s != t {
          assert after[s] == threads[t := Idle][s];
        }
      }
    }

    /** Holds `e` of the part `m` of all holds become `f`. */
    lemma Regrouped(m: multiset<Ban>, m': multiset<Ban>, e: multiset<Ban>, f: multiset<Ban>, all: multiset<Ban>)
      requires e <= m <= all && m' + e == m + f
      ensures m' <= all - e + f && (all - e + f) - m' == all - m
    {
      forall b: Ban
        ensures m'[b] == m[b] - e[b] + f[b] && m'[b] <= (all - e + f)[b]
      {
        assert (m' + e)[b] == (m + f)[b] && e[b] <= m[b] <= all[b];
      }
    }

    /** Every ban of the list has marked its duplicates, or a walk for it is in flight. */
    ghost predicate Covered(threads: seq<Thread>)
      reads this`list, list`gone
    {
      forall i :: 0 <= i < |list| ==> Swept(list[i]) || HuntedBy(threads, list[i])
    }

    static ghost predicate HuntedBy(threads: seq<Thread>, b: Ban) {
      exists t :: 0 <= t < |threads| && threads[t].Hunting? && threads[t].b == b
    }

    /** With no walk in flight, the bans that are GONE are exactly those with a newer duplicate. */
    lemma GoneIffSuperseded(threads: seq<Thread>)
      requires Valid() && Covered(threads) && forall t :: 0 <= t < |threads| ==> !threads[t].Hunting?
      ensures forall c :: c in list && c.text != "" ==> (c.gone <==> Superseded(c))
    {
      hide Counts, Compiled, Newest, Clean, OnTheWay;
      forall c | c in list && c.text != ""
        ensures c.gone <==> Superseded(c)
      {
        if c.gone {
          assert list[Index(c.newer)].text == c.text;
        }
        if Superseded(c) {
          var i :| 0 <= i < |list| && list[i].text == c.text && list[i].t0 > c.t0;
          assert Swept(list[i]) && list[Index(c)] == c && i < Index(c);
        }
      }
    }

    /** What one step of any thread may do to the list. */
    twostate predicate Reshaped()
      reads this`list, list
    {
      && old(list) != []
      && (list == old(list) || (list != [] && list[1..] == old(list)) || list == old(list)[..|old(list)| - 1])
    }

    /** The bans that stay keep their time, and stay GONE if they are. */
    twostate predicate Aged()
      reads this`list, list
    {
      forall c {:trigger c.gone} {:trigger c.t0} :: c in old(list) && c in list ==>
        c.t0 == old(c.t0) && (old(c.gone) ==> c.gone)
    }

    twostate predicate Mild()
      reads this`list, list
    {
      Reshaped() && Aged()
    }

    twostate predicate AllStay(threads: seq<Thread>)
      reads this`list
    {
      forall t :: 0 <= t < |threads| ==> Stays(threads[t])
    }

    twostate predicate SweptStay()
      reads this`list, list`gone
    {
      forall b {:trigger Swept(b)} :: b in old(list) && old(Swept(b)) ==> Swept(b)
    }

    /** Where a ban that stays is afterwards. */
    twostate lemma Shifted(k: nat)
      requires Reshaped() && k < |old(list)| && old(list)[k] in list && NoRepeats(list) && old(NoRepeats(list))
      ensures |list| - |old(list)| <= 1
      ensures var d := if |list| > |old(list)| then 1 else 0;
              k + d < |list| && list[k + d] == old(list)[k]
              && forall j :: k <= j < |list| - d ==> j < |old(list)| && list[j + d] == old(list)[j]
    {
      if |list| > |old(list)| {
        assert forall j :: 0 <= j < |old(list)| ==> list[1..][j] == list[j + 1];
      }
    }

    /** A ban that has marked its duplicates stays so. */
    twostate lemma StaysSwept(b: Ban)
      requires Reshaped() && Aged() && NoRepeats(list) && old(NoRepeats(list)) && b in old(list) && old(Swept(b))
      ensures Swept(b)
    {
      if b in list {
        var k := old(Index(b));
        Shifted(k);
        hide Reshaped;
        var d := if |list| > |old(list)| then 1 else 0;
        forall i, j | 0 <= i < j < |list| && list[i] == b && list[j].text == b.text
          ensures list[j].gone
        {
          assert i == k + d && list[j] == old(list)[j - d];
        }
      }
    }

    /** No step of others moves a walk: its ban and its tail stay listed, and as many rounds are left. */
    twostate lemma WalkSurvives(w: Thread)
      requires old(OnTheWay(w)) && Reshaped() && Aged() && NoRepeats(list) && old(NoRepeats(list))
      requires w.Idle? || w.be in list
      ensures OnTheWay(w) && Stays(w)
    {
      if w.Idle? {
        return;
      }
      TailKept(w.be);
      if w.Holding? {
        return;
      }
      InPlace(w.b);
      InPlace(w.bi);
      OrderKept(w.b);
      PassedKept(w);
      hide Reshaped, Aged, StrictlyNewer, Passed, Kept;
    }

    /** The list is as it was, but for a new head. */
    twostate predicate Kept()
      reads this`list
    {
      NoRepeats(list) && old(NoRepeats(list)) && (list == old(list) || (list != [] && list[1..] == old(list)))
    }

    /** If the tail stays, all others do. */
    twostate lemma TailKept(be: Ban)
      requires Reshaped() && be == old(list)[|old(list)| - 1] && be in list && NoRepeats(list) && old(NoRepeats(list))
      ensures Kept() && be == list[|list| - 1]
    {
      if |list| > |old(list)| {
        assert list[1..][|old(list)| - 1] == be;
      }
    }

    twostate lemma InPlace(b: Ban)
      requires Kept() && b in old(list)
      ensures b in list && Index(b) == old(Index(b)) + |list| - |old(list)|
    {
      var k := old(Index(b));
      assert list != old(list) ==> list[1..][k] == list[k + 1];
      assert list[k + |list| - |old(list)|] == b;
    }

    twostate lemma OrderKept(b: Ban)
      requires Kept() && Aged() && b in old(list) && old(StrictlyNewer(b))
      ensures StrictlyNewer(b)
    {
      var d := |list| - |old(list)|;
      InPlace(b);
      forall i, j | 0 <= i < j < |list| && list[i] == b
        ensures list[j].t0 < b.t0
      {
        assert i == Index(b) && list[j] == old(list)[j - d];
      }
    }

    twostate lemma PassedKept(w: Thread)
      requires Kept() && Aged() && w.Hunting? && w.b in old(list) && w.bi in old(list)
      requires old(Passed(w.b, w.bi)) && w.b in list && w.bi in list
      ensures Passed(w.b, w.bi)
    {
      var d := |list| - |old(list)|;
      InPlace(w.b);
      InPlace(w.bi);
      forall i | Index(w.b) < i <= Index(w.bi) && list[i].text == w.b.text
        ensures list[i].gone
      {
        assert list[i] == old(list)[i - d];
      }
    }

    /** What a step that is not part of a walk does to all walks. */
    twostate lemma Undisturbed(threads: seq<Thread>)
      requires Valid() && old(Valid()) && Mild() && Ends(threads) <= holds && old(InFlight(threads))
      ensures InFlight(threads) && AllStay(threads) && SweptStay()
    {
      hide Counts, GoneOk, Compiled, Newest, Clean, Reshaped, Aged, OnTheWay, Swept, StrictlyNewer;
      forall t | 0 <= t < |threads|
        ensures OnTheWay(threads[t]) && Stays(threads[t])
      {
        EndsAt(threads, t, Idle);
        if !threads[t].Idle? {
          HeldIsListed(threads[t].be);
        }
        WalkSurvives(threads[t]);
      }
      forall b | b in old(list) && old(Swept(b))
        ensures Swept(b)
      {
        StaysSwept(b);
      }
    }

    /** The thread has as many rounds of its walk to go as before. */
    twostate predicate Stays(w: Thread)
      reads this`list
    {
      w.Hunting? ==> NoRepeats(list) && w.bi in list && old(NoRepeats(list) && w.bi in list) && Left(w) == old(Left(w))
    }

    /** The thread has one round less to go, or has ended its walk and marked all duplicates of its ban. */
    twostate predicate Advances(w: Thread, new after: Thread)
      requires w.Hunting? && old(NoRepeats(list) && w.bi in list)
      reads this`list, list`gone
    {
      if old(Left(w)) == 0 then after == Idle && w.b in list && Swept(w.b)
      else
        && after.Hunting? && after.b == w.b && after.be == w.be
        && NoRepeats(list) && after.bi in list && Left(after) == old(Left(w)) - 1
    }

    /** A step of a walk marks at most the ban it comes to, if it has the text of its ban. */
    twostate predicate MarksNext(w: Thread, new after: Thread)
      requires w.Hunting?
      reads this`list, list`gone
    {
      forall c :: c in list ==>
        c in old(list) && c.gone == (old(c.gone) || (after.Hunting? && c == after.bi && c.text == w.b.text))
    }

    /** The walk has come to `c`, or is over. */
    ghost predicate HasMet(w: Thread, c: Ban)
      reads this`list
    {
      w.Hunting? ==> NoRepeats(list) && c in list && w.bi in list && Index(c) <= Index(w.bi)
    }

    /** A step of a walk meets one ban more. */
    ghost predicate MeetsNext(w: Thread, after: Thread)
      reads this`list
    {
      && (forall c :: c in list ==> (HasMet(after, c) <==> HasMet(w, c) || (after.Hunting? && c == after.bi)))
      && (after.Hunting? ==> !HasMet(w, after.bi))
    }

    lemma MetNext(w: Thread, next: Ban)
      requires w.Hunting? && NoRepeats(list) && w.bi in list && next in list && Index(next) == Index(w.bi) + 1
      ensures MeetsNext(w, Hunting(w.b, w.be, next))
    {
      forall c | c in list
        ensures HasMet(Hunting(w.b, w.be, next), c) <==> HasMet(w, c) || c == next
      {
        assert list[Index(c)] == c;
      }
    }

    lemma MetAll(w: Thread)
      requires w.Hunting? && OnTheWay(w) && w.bi == w.be
      ensures MeetsNext(w, Idle)
    {
      assert Index(w.be) == |list| - 1;
    }

    /** The next step of a walk: one round without the lock, or the locked end when the held tail is reached. */
    method Advance(w: Thread) returns (after: Thread)
      requires Valid() && w.Hunting? && OnTheWay(w) && w.be in holds
      modifies this`holds, list`gone, list`newer, list`refcount
      ensures Valid() && holds == old(holds) - EndOf(w) + EndOf(after)
      ensures OnTheWay(after) && Advances(w, after) && MarksNext(w, after)
      ensures if after.Hunting? then after.b == w.b else after.Idle? && Swept(w.b)
      ensures MeetsNext(w, after)
    {
      hide Shape, Counts, GoneOk, Compiled, Newest, Clean, Swept, StrictlyNewer, NoRepeats, OnTheWay, Left, Advances,
        MarksNext, MeetsNext;
      if w.bi == w.be {
        Leave(w);
        after := Idle;
      } else {
        after := Round(w);
      }
    }

    /** The locked end of the walk. */
    method Leave(w: Thread)
      requires Valid() && w.Hunting? && OnTheWay(w) && w.be in holds && w.bi == w.be
      modifies this`holds, list`refcount
      ensures Valid() && holds == old(holds) - EndOf(w)
      ensures OnTheWay(Idle) && Advances(w, Idle) && MarksNext(w, Idle) && MeetsNext(w, Idle) && Swept(w.b)
    {
      hide Shape, Counts, GoneOk, Compiled, Newest, Clean, Swept, StrictlyNewer, NoRepeats, OnTheWay, Left, Advances,
        MarksNext, MeetsNext;
      HeldIsListed(w.be);
      AtTheTail(w);
      MetAll(w);
      Deref(w.be);
      Ended(w);
    }

    /** One round of the walk. */
    method Round(w: Thread) returns (after: Thread)
      requires Valid() && w.Hunting? && OnTheWay(w) && w.be in holds && w.bi != w.be
      modifies list`gone, list`newer
      ensures Valid() && after.Hunting? && after.b == w.b && after.be == w.be
      ensures OnTheWay(after) && Advances(w, after) && MarksNext(w, after) && MeetsNext(w, after)
    {
      hide Shape, Counts, GoneOk, Compiled, Newest, Clean, StrictlyNewer, NoRepeats, OnTheWay, Left, Advances,
        MeetsNext;
      Ahead(w);
      var next := Hunt(w.b, w.be, w.bi);
      MetNext(w, next);
      after := Hunting(w.b, w.be, next);
      RoundDone(w);
    }

    lemma Ahead(w: Thread)
      requires w.Hunting? && OnTheWay(w)
      ensures NoRepeats(list) && w.b in list && w.bi in list && w.be in list && w.b.text != "" && StrictlyNewer(w.b)
      ensures Index(w.b) <= Index(w.bi) && (w.bi != w.be ==> Index(w.bi) < Index(w.be))
    {
    }

    /** The end of a walk changes nothing but a count. */
    twostate lemma Ended(w: Thread)
      requires w.Hunting? && old(OnTheWay(w)) && w.bi == w.be && list == old(list) && unchanged(list`gone)
      requires old(Left(w)) == 0 && Swept(w.b)
      ensures OnTheWay(Idle) && Advances(w, Idle) && MarksNext(w, Idle)
    {
    }

    /** One round more of a walk. */
    twostate lemma RoundDone(w: Thread)
      requires w.Hunting? && old(OnTheWay(w)) && w.bi != w.be && list == old(list) && Aged()
      requires forall c :: c in list && NoRepeats(list) && Index(c) == Index(w.bi) + 1 && c.text == w.b.text ==> c.gone
      ensures Index(w.bi) + 1 < |list|
      ensures var after := Hunting(w.b, w.be, list[Index(w.bi) + 1]); OnTheWay(after) && Advances(w, after)
    {
      var m := Index(w.bi);
      assert list[m] == w.bi && m < |list| - 1;
      var next := list[m + 1];
      assert Index(next) == m + 1;
      hide Counts, GoneOk;
    }

    lemma AtTheTail(w: Thread)
      requires w.Hunting? && OnTheWay(w) && w.bi == w.be
      ensures Left(w) == 0 && Swept(w.b)
    {
      forall i, j | 0 <= i < j < |list| && list[i] == w.b && list[j].text == w.b.text
        ensures list[j].gone
      {
        assert i == Index(w.b) && Index(w.bi) == |list| - 1;
      }
    }

    /** BAN_Insert up to the end of its locked part, for thread `t`. */
    method Enter(t: nat, b: Ban, now: real, dups: bool, threads: seq<Thread>) returns (after: seq<Thread>)
      requires Valid() && InFlight(threads) && t < |threads| && threads[t].Idle?
      requires b !in list && b.text != "" && now > list[0].t0
      requires b.refcount == 0 && b.objcore == [] && !b.gone && !b.pending
      requires b.tests == parse(b.text) && b.req == HasReq(b.tests)
      modifies this`list, this`start, this`holds, this`hist, b`t0, b`no, list`refcount
      ensures Valid() && InFlight(after) && holds - Ends(after) == old(holds) - Ends(threads)
      ensures list == [b] + old(list) && hist == old(hist) + [b.text] && b.t0 == now
      ensures after == threads[t := if dups then Hunting(b, list[|list| - 1], b) else Idle]
      ensures AllStay(threads) && SweptStay()
    {
      hide Shape, Counts, GoneOk, Compiled, Newest, Clean, OnTheWay, AllOnTheWay, AllStay, SweptStay, StrictlyNewer,
        Ends;
      ShapeHolds();
      var be := Publish(b, now, dups);
      var w := if be == null then Idle else Hunting(b, be, b);
      after := threads[t := w];
      assert list[1..] == old(list);
      assert Ends(threads) <= holds;
      assert Reshaped();
      assert Aged();
      Undisturbed(threads);
      Entered(b);
      assert threads[t := Idle] == threads;
      Redirected(threads, t, w, old(holds));
    }

    /** The same with the new ban of BAN_New. */
    method Announce(t: nat, text: string, now: real, dups: bool, threads: seq<Thread>) returns (after: seq<Thread>)
      requires Valid() && InFlight(threads) && t < |threads| && threads[t].Idle? && text != "" && now > list[0].t0
      modifies this`list, this`start, this`holds, this`hist, list`refcount
      ensures Valid() && InFlight(after) && holds - Ends(after) == old(holds) - Ends(threads)
      ensures list != [] && fresh(list[0]) && list[1..] == old(list) && list[0].text == text && !list[0].gone
      ensures hist == old(hist) + [text] && list[0].t0 == now
      ensures after == threads[t := if dups then Hunting(list[0], list[|list| - 1], list[0]) else Idle]
      ensures AllStay(threads) && SweptStay() && (old(Covered(threads)) && dups ==> Covered(after))
    {
      hide Shape, Counts, GoneOk, Compiled, Newest, Clean, OnTheWay, AllOnTheWay, StrictlyNewer, Ends, Swept, Left,
        HasReq;
      ShapeHolds();
      var b := new Ban(text, parse(text));
      after := Enter(t, b, now, dups, threads);
      if old(Covered(threads)) && dups {
        forall i | 0 <= i < |list|
          ensures Swept(list[i]) || HuntedBy(after, list[i])
        {
          if i == 0 {
            assert after[t].b == list[i];
          } else {
            assert list[i] == old(list)[i - 1];
            StillHunted(threads, t, after[t], list[i]);
          }
        }
      }
    }

    /** A change of thread `t` leaves the walks of the others, and its own if it goes on. */
    static lemma StillHunted(threads: seq<Thread>, t: nat, w: Thread, b: Ban)
      requires t < |threads| && (threads[t].Hunting? && threads[t].b == b ==> w.Hunting? && w.b == b)
      ensures HuntedBy(threads, b) ==> HuntedBy(threads[t := w], b)
    {
      if s :| 0 <= s < |threads| && threads[s].Hunting? && threads[s].b == b {
        assert threads[t := w][s] == if s == t then w else threads[s];
      }
    }

    /** Marking only goes on. */
    twostate lemma CoveredStays(threads: seq<Thread>)
      requires old(Covered(threads)) && SweptStay() && forall c :: c in list ==> c in old(list)
      ensures Covered(threads)
    {
      hide Swept;
      forall i | 0 <= i < |list|
        ensures Swept(list[i]) || HuntedBy(threads, list[i])
      {
        assert list[i] in old(list);
      }
    }

    /** The walk of a ban that was just put in front starts on its way. */
    lemma Entered(b: Ban)
      requires Shape() && |list| > 1 && list[0] == b && b.text != "" && list[1].t0 < b.t0
      ensures OnTheWay(Idle) && OnTheWay(Hunting(b, list[|list| - 1], b))
    {
      assert Index(b) == 0;
    }

    lemma StandsBack(threads: seq<Thread>, t: nat)
      requires InFlight(threads) && t < |threads|
      ensures InFlight(threads[t := Idle]) && OnTheWay(threads[t]) && EndOf(threads[t]) <= holds
      ensures Ends(threads[t := Idle]) <= holds - EndOf(threads[t])
    {
      EndsAt(threads, t, Idle);
      hide Ends;
      assert EndOf(Idle) == multiset{};
      Regrouped(Ends(threads), Ends(threads[t := Idle]), EndOf(threads[t]), EndOf(Idle), holds);
      ghost var others := threads[t := Idle];
      forall s | 0 <= s < |threads|
        ensures OnTheWay(others[s])
      {
        assert s != t ==> others[s] == threads[s];
      }
    }

    /** The next step of thread `t` in its walk. */
    method StepOf(t: nat, threads: seq<Thread>) returns (after: seq<Thread>)
      requires Valid() && InFlight(threads) && t < |threads| && threads[t].Hunting?
      modifies this`holds, list`gone, list`newer, list`refcount
      ensures Valid() && InFlight(after) && holds - Ends(after) == old(holds) - Ends(threads)
      ensures |after| == |threads| && after == threads[t := after[t]] && Advances(threads[t], after[t])
      ensures SweptStay() && forall s :: 0 <= s < |threads| && s != t ==> Stays(threads[s])
      ensures MarksNext(threads[t], after[t]) && MeetsNext(threads[t], after[t])
      ensures old(Covered(threads)) ==> Covered(after)
      ensures after[t] == Idle || (after[t].Hunting? && after[t].b == threads[t].b)
    {
      hide Shape, Counts, GoneOk, Compiled, Newest, Clean, OnTheWay, AllOnTheWay, SweptStay, StrictlyNewer, Ends, Stays,
        Advances, MeetsNext;
      ShapeHolds();
      StandsBack(threads, t);
      var w := Advance(threads[t]);
      after := threads[t := w];
      assert Ends(threads[t := Idle]) <= holds;
      assert Reshaped();
      assert Aged();
      ghost var others := threads[t := Idle];
      Undisturbed(others);
      assert forall s :: 0 <= s < |threads| && s != t ==> others[s] == threads[s];
      Redirected(threads, t, w, old(holds));
      if old(Covered(threads)) {
        forall i | 0 <= i < |list|
          ensures Swept(list[i]) || HuntedBy(after, list[i])
        {
          if w.Hunting? || list[i] != threads[t].b {
            StillHunted(threads, t, w, list[i]);
          }
        }
      }
    }

    /** BAN_TailRef, for a silo that thread `t` is about to load. */
    method HoldTail(t: nat, threads: seq<Thread>) returns (after: seq<Thread>)
      requires Valid() && InFlight(threads) && t < |threads| && threads[t].Idle?
      modifies this`holds, list`refcount
      ensures Valid() && InFlight(after) && holds - Ends(after) == old(holds) - Ends(threads)
      ensures list != [] && after == threads[t := Holding(list[|list| - 1])] && AllStay(threads) && SweptStay()
      ensures old(Covered(threads)) ==> Covered(after)
    {
      hide Shape, Counts, GoneOk, Compiled, Newest, Clean, OnTheWay, AllOnTheWay, AllStay, SweptStay, Ends;
      ShapeHolds();
      var be := TailRef();
      after := threads[t := Holding(be)];
      assert Ends(threads) <= holds;
      assert Reshaped() && Aged();
      Undisturbed(threads);
      assert threads[t := Idle] == threads;
      AtTail(be);
      Redirected(threads, t, Holding(be), old(holds));
      if old(Covered(threads)) {
        CoveredStays(threads);
        NotHunted(threads, t, Holding(be));
      }
    }

    /** BAN_Deref, when the silo of thread `t` is loaded. */
    method LetGo(t: nat, threads: seq<Thread>) returns (after: seq<Thread>)
      requires Valid() && InFlight(threads) && t < |threads| && threads[t].Holding?
      modifies this`holds, list`refcount
      ensures Valid() && InFlight(after) && holds - Ends(after) == old(holds) - Ends(threads)
      ensures after == threads[t := Idle] && AllStay(after) && SweptStay()
      ensures old(Covered(threads)) ==> Covered(after)
    {
      hide Shape, Counts, GoneOk, Compiled, Newest, Clean, OnTheWay, AllOnTheWay, AllStay, SweptStay, Ends;
      ShapeHolds();
      StandsBack(threads, t);
      HeldIsListed(threads[t].be);
      Deref(threads[t].be);
      after := threads[t := Idle];
      assert Ends(after) <= holds;
      assert Reshaped() && Aged();
      Undisturbed(after);
      AtTail(threads[t].be);
      Redirected(threads, t, Idle, old(holds));
      if old(Covered(threads)) {
        CoveredStays(threads);
        NotHunted(threads, t, Idle);
      }
    }

    lemma AtTail(be: Ban)
      ensures OnTheWay(Idle) && (list != [] && be == list[|list| - 1] ==> OnTheWay(Holding(be)))
    {
    }

    /** A thread that starts or ends a load was in no walk. */
    lemma NotHunted(threads: seq<Thread>, t: nat, w: Thread)
      requires t < |threads| && !threads[t].Hunting? && Covered(threads)
      ensures Covered(threads[t := w])
    {
      hide Swept;
      forall i | 0 <= i < |list|
        ensures Swept(list[i]) || HuntedBy(threads[t := w], list[i])
      {
        StillHunted(threads, t, w, list[i]);
      }
    }

    /** BAN_RefBan of an object of the silo that thread `t` loads. */
    method Adopt(t: nat, o: Object, t0: real, pool: seq<Object>, threads: seq<Thread>)
      requires Valid() && Pooled(pool) && InFlight(threads) && t < |threads| && threads[t].Holding?
      requires o in pool && o.ban == null && o !in objs
      requires exists i :: 0 <= i < |list| && list[i].t0 == t0 && t0 >= threads[t].be.t0
      modifies this`objs, o`ban, o`banT, o`birth, list`refcount, list`objcore
      ensures Valid() && Pooled(pool) && InFlight(threads) && AllStay(threads) && SweptStay()
      ensures objs == old(objs) + {o} && o.ban != null && o.ban in list && o.ban.t0 == t0
      ensures forall c :: c in list && c.no > o.ban.no ==> c.t0 > t0
      ensures old(Covered(threads)) ==> Covered(threads)
    {
      hide Shape, Counts, GoneOk, Compiled, Newest, Clean, OnTheWay, AllOnTheWay, Ends, AllStay, SweptStay;
      ShapeHolds();
      StandsBack(threads, t);
      var b := RefBan(o, t0, threads[t].be);
      assert Reshaped() && Aged();
      Undisturbed(threads);
      if old(Covered(threads)) {
        CoveredStays(threads);
      }
    }

    /* ---- the bans as a book ---- */

    ghost predicate IsOn(o: Object, n: Option<nat>)
      reads this`list, o`ban, list`no
    {
      if o.ban == null then n == None else o.ban in list && n == Some(o.ban.no)
    }

    ghost predicate Keeps(b: Book, pool: seq<Object>)
      reads this`list, this`hist, list`t0, list`no, pool`ban
    {
      && b.hist == hist && |b.times| == |list| && |b.at| == |pool|
      && (forall i :: 0 <= i < |list| ==> b.times[i] == list[i].t0)
      && forall k :: 0 <= k < |pool| ==> IsOn(pool[k], b.at[k])
    }

    /** Some ban after the `n`th one bans the object, whether it is live, GONE, or no longer listed. */
    ghost predicate Meets(texts: seq<string>, n: nat, hdr: Headers, req: Request) {
      exists m :: n < m < |texts| && texts[m] != "" && Bans(parse(texts[m]), hdr, req)
    }

    /** The bans that decide are those that came since. */
    lemma MeetsIs(n: nat, hdr: Headers, req: Request)
      requires Newest() && n < |list|
      ensures BannedBy(n, hdr, req) <==> Meets(hist, |hist| - 1 - n, hdr, req)
    {
      hide Bans;
      if i :| 0 <= i < n && BannedAt(i, hdr, req) {
        assert hist[|hist| - 1 - i] == list[i].text;
      }
      if m :| |hist| - 1 - n < m < |hist| && hist[m] != "" && Bans(parse(hist[m]), hdr, req) {
        assert list[|hist| - 1 - m].text == hist[m] && BannedAt(|hist| - 1 - m, hdr, req);
      }
    }

    /** The object `pool[k]`, wherever it is in the pool, is now on ban `v`, and the others where they were. */
    ghost predicate Puts(b: Book, c: Book, pool: seq<Object>, k: nat, v: Option<nat>) {
      && k < |pool| == |b.at| == |c.at| && c.hist == b.hist && c.ways == b.ways
      && forall j :: 0 <= j < |pool| ==> c.at[j] == if pool[j] == pool[k] then v else b.at[j]
    }

    ghost function Put(b: Book, pool: seq<Object>, k: nat, v: Option<nat>): (c: Book)
      requires k < |pool| == |b.at|
      ensures Puts(b, c, pool, k, v) && c.times == b.times
    {
      b.(at := seq(|pool|, j requires 0 <= j < |pool| => if pool[j] == pool[k] then v else b.at[j]))
    }

    /** No object is on the oldest ban of the list. */
    ghost predicate TailBare(b: Book) {
      forall k :: 0 <= k < |b.at| ==> b.at[k] != Some(|b.hist| - |b.times|)
    }

    /** The lurker has looked at an object on the oldest ban of the list: it is banned whatever the request, moved past
        bans that do not look at the request and do not ban it, or left where it is because some ban looks at the
        request. */
    ghost predicate Pokes(b: Book, c: Book, pool: seq<Object>, k: nat)
      requires |b.times| <= |b.hist| && b.hist != []
    {
      var n := |b.hist| - |b.times|;
      && k < |pool| == |b.at| && b.at[k] == Some(n) && c.times == b.times
      && (|| (Puts(b, c, pool, k, None) && forall req :: Meets(b.hist, n, pool[k].hdr, req))
          || (Puts(b, c, pool, k, Some(|b.hist| - 1)) && forall m, req :: n < m < |b.hist| && b.hist[m] != "" ==>
               ObjectOnly(b.hist[m]) && !Bans(parse(b.hist[m]), pool[k].hdr, req))
          || (c == b && exists m :: n < m < |b.hist| && HasReq(parse(b.hist[m]))))
    }

    /** A round of the lurker, with the tail held or not. */
    ghost predicate Lurks(b: Book, c: Book, pool: seq<Object>, found: bool, held: bool)
      requires |b.times| <= |b.hist| && b.hist != []
    {
      if |b.times| > 1 && TailBare(b) && !held then c == b.(times := b.times[..|b.times| - 1])
      else if |b.times| > 1 && !TailBare(b) && found then exists k: nat :: Pokes(b, c, pool, k)
      else c == b
    }

    /** What the sections that are no part of a walk or a load come to; one that its callers may not ask for does
        nothing. A check looks at the bans that came after that of the object, and at no flags or counts. */
    ghost predicate Served(op: Op, b: Book, c: Book, pool: seq<Object>, held: bool)
      requires |b.times| <= |b.hist| && b.hist != [] && |b.at| == |pool|
    {
      match op
      case New(k) =>
        if k < |pool| && b.at[k] == None then Puts(b, c, pool, k, Some(|b.hist| - 1)) && c.times == b.times else c == b
      case Check(k, req) =>
        if k < |pool| && b.at[k].Some? then
          && c.times == b.times
          && Puts(b, c, pool, k,
                  if Meets(b.hist, b.at[k].value, pool[k].hdr, req) then None else Some(|b.hist| - 1))
        else c == b
      case Destroy(k) =>
        if k < |pool| && b.at[k].Some? then
          && Puts(b, c, pool, k, None)
          && (if |b.times| > 1 && TailBare(c.(times := b.times)) && !held then c.times == b.times[..|b.times| - 1]
              else c.times == b.times)
        else c == b
      case Lurk(found) => Lurks(b, c, pool, found, held)
      case _ => c == b
    }

    lemma BookFits(b: Book, pool: seq<Object>)
      requires Newest() && Keeps(b, pool)
      ensures 0 < |b.times| == |list| && |list| <= |b.hist| == |hist| && |b.at| == |pool|
    {
    }

    /** Of the tail: whether anything refers to it. */
    lemma TailRefers(b: Book, pool: seq<Object>)
      requires Valid() && Pooled(pool) && Keeps(b, pool)
      ensures var tail := list[|list| - 1];
              && tail.no == |hist| - |list| && (tail.objcore == [] <==> TailBare(b))
              && (tail.refcount == 0 <==> TailBare(b) && tail !in holds)
    {
      hide GoneOk, Compiled, Clean;
      var tail := list[|list| - 1];
      if tail.objcore != [] {
        var o := tail.objcore[0];
        assert o in tail.objcore && o in pool;
        var k :| 0 <= k < |pool| && pool[k] == o;
        assert IsOn(pool[k], b.at[k]);
      }
      forall k | 0 <= k < |pool| && b.at[k] == Some(|hist| - |list|)
        ensures tail.objcore != []
      {
        assert IsOn(pool[k], b.at[k]) && pool[k].ban in list;
        assert pool[k].ban == list[Index(pool[k].ban)] && pool[k] in objs;
      }
    }

    method DoNew(k: nat, pool: seq<Object>, ghost b: Book) returns (ghost c: Book)
      requires Valid() && Pooled(pool) && Keeps(b, pool)
      modifies this`objs, pool, list`refcount, list`objcore
      ensures Valid() && Pooled(pool) && Keeps(c, pool)
      ensures |b.times| <= |b.hist| && b.hist != [] && Served(Op.New(k), b, c, pool, false) && c.ways == b.ways
    {
      hide Shape, Counts, GoneOk, Compiled, Newest, Clean, NoRepeats;
      BookFits(b, pool);
      c := b;
      if k < |pool| && pool[k].ban == null {
        InPool(pool, k);
        NewObj(pool[k]);
        StartIsLast();
        c := Put(b, pool, k, Some(|hist| - 1));
      }
    }

    lemma StartIsLast()
      requires Valid()
      ensures start in list && start.no == |hist| - 1
    {
    }

    method DoCheck(k: nat, req: Request, pool: seq<Object>, ghost b: Book) returns (ghost c: Book)
      requires Valid() && Pooled(pool) && Keeps(b, pool)
      modifies this`objs, pool, list`refcount, list`objcore
      ensures Valid() && Pooled(pool) && Keeps(c, pool)
      ensures |b.times| <= |b.hist| && b.hist != [] && Served(Op.Check(k, req), b, c, pool, false) && c.ways == b.ways
    {
      hide Shape, Counts, GoneOk, Compiled, Newest, Clean, NoRepeats, BannedBy, Meets;
      BookFits(b, pool);
      c := b;
      if k < |pool| && pool[k].ban != null {
        InPool(pool, k);
        var o := pool[k];
        CleanNow(o);
        MeetsIs(Index(o.ban), o.hdr, req);
        assert IsOn(o, b.at[k]);
        var banned := CheckObject(o, Some(req));
        StartIsLast();
        c := Put(b, pool, k, if banned then None else Some(|hist| - 1));
      }
    }

    /** Every ban that an object is on is listed. */
    lemma AllListed(pool: seq<Object>)
      requires Valid() && Pooled(pool)
      ensures forall k :: 0 <= k < |pool| && pool[k].ban != null ==>
        pool[k].ban in list && pool[k] in pool[k].ban.objcore
    {
      hide Shape, GoneOk, Compiled, Newest;
    }

    lemma CountOf(b: Ban)
      requires Counts() && b in list
      ensures b.refcount == |b.objcore| + holds[b] && NoRepeats(b.objcore)
      ensures forall o :: o in b.objcore ==> o in objs && o.ban == b
    {
    }

    /** Whether the tail goes with the object. */
    lemma Alone(b: Book, pool: seq<Object>, k: nat)
      requires Valid() && Pooled(pool) && Keeps(b, pool) && k < |pool| && pool[k].ban != null
      ensures |list| <= |hist| && |b.times| == |list| && b.hist == hist
      ensures Expires(pool[k]) <==> |list| > 1 && TailBare(Put(b, pool, k, None)) && list[|list| - 1] !in holds
    {
      hide Shape, GoneOk, Compiled, Clean, Put, Counts, NoRepeats, TailBare;
      var tail, c, o := list[|list| - 1], Put(b, pool, k, None), pool[k];
      AllListed(pool);
      assert IsOn(o, b.at[k]) && tail in list;
      CountOf(tail);
      if TailBare(c) {
        NoOther(b, pool, k);
        assert tail.objcore != [] ==> tail.objcore[0] in tail.objcore;
        if |tail.objcore| > 1 {
          NotBoth(tail.objcore, o);
        }
      } else {
        SomeOther(b, pool, k);
      }
    }

    lemma NoOther(b: Book, pool: seq<Object>, k: nat)
      requires Newest() && Counts() && Pooled(pool) && Keeps(b, pool) && k < |pool| && TailBare(Put(b, pool, k, None))
      ensures var l := list[|list| - 1].objcore; forall i :: 0 <= i < |l| ==> l[i] == pool[k]
    {
      hide Put;
      var tail, c := list[|list| - 1], Put(b, pool, k, None);
      assert tail in list;
      forall i | 0 <= i < |tail.objcore|
        ensures tail.objcore[i] == pool[k]
      {
        var p := tail.objcore[i];
        assert p in tail.objcore && p in pool;
        var j :| 0 <= j < |pool| && pool[j] == p;
        assert IsOn(pool[j], b.at[j]) && c.at[j] != Some(|hist| - |list|);
      }
    }

    lemma SomeOther(b: Book, pool: seq<Object>, k: nat)
      requires Valid() && Pooled(pool) && Keeps(b, pool) && k < |pool| && !TailBare(Put(b, pool, k, None))
      ensures |list[|list| - 1].objcore| > if pool[k] in list[|list| - 1].objcore then 1 else 0
    {
      hide GoneOk, Compiled, Clean, Put, Counts;
      var tail, c := list[|list| - 1], Put(b, pool, k, None);
      AllListed(pool);
      CountOf(tail);
      var j :| 0 <= j < |pool| && c.at[j] == Some(|hist| - |list|);
      assert IsOn(pool[j], b.at[j]);
      assert pool[j].ban == list[Index(pool[j].ban)] == tail;
      Two(tail.objcore, pool[k], pool[j]);
    }

    lemma NotBoth(s: seq<Object>, o: Object)
      requires NoRepeats(s) && |s| > 1
      ensures s[0] != o || s[1] != o
    {
    }

    lemma Two(s: seq<Object>, o: Object, p: Object)
      requires NoRepeats(s) && p in s && p != o
      ensures |s| > if o in s then 1 else 0
    {
    }

    method DoDestroy(k: nat, pool: seq<Object>, ghost b: Book) returns (ghost c: Book)
      requires Valid() && Pooled(pool) && Keeps(b, pool)
      modifies this`objs, this`list, pool, list`refcount, list`objcore
      ensures Valid() && Pooled(pool) && Keeps(c, pool)
      ensures list == old(list) || list == old(list)[..|old(list)| - 1]
      ensures |b.times| <= |b.hist| && b.hist != [] && list != [] &&
        c.ways == b.ways && Served(Op.Destroy(k), b, c, pool, old(list != [] && list[|list| - 1] in holds))
    {
      hide Shape, Counts, GoneOk, Compiled, Newest, Clean, NoRepeats, GivesUp, GivesUpAt, Meets, ObjectOnly, Bans,
        HasReq, BannedBy, BannedAlways;
      BookFits(b, pool);
      c := b;
      if k < |pool| {
        InPool(pool, k);
        var o := pool[k];
        assert IsOn(o, b.at[k]);
        if o.ban != null {
          Alone(b, pool, k);
        }
        var freed := DestroyObj(o);
        if b.at[k].Some? {
          c := Put(b, pool, k, None);
          c := c.(times := b.times[..|list|]);
          AllListed(pool);
        }
      }
    }

    /** An object has one place in the book, however often it is in the pool, born no later than its ban. */
    lemma OnePlace(b: Book, pool: seq<Object>)
      requires Valid() && Pooled(pool) && Keeps(b, pool)
      ensures forall j, k :: 0 <= j < |pool| && 0 <= k < |pool| && pool[j] == pool[k] ==> b.at[j] == b.at[k]
      ensures forall k :: 0 <= k < |pool| && b.at[k].Some? ==>
        pool[k] in objs && pool[k].ban != null && pool[k].ban.no == b.at[k].value && pool[k].birth <= b.at[k].value
    {
      hide Shape, Counts, GoneOk, Compiled, Newest;
      forall j, k | 0 <= j < |pool| && 0 <= k < |pool| && pool[j] == pool[k]
        ensures b.at[j] == b.at[k]
      {
        assert IsOn(pool[j], b.at[j]) && IsOn(pool[k], b.at[k]);
      }
      forall k | 0 <= k < |pool| && b.at[k].Some?
        ensures pool[k] in objs && pool[k].ban != null && pool[k].ban.no == b.at[k].value
        ensures pool[k].birth <= b.at[k].value
      {
        assert IsOn(pool[k], b.at[k]);
        InPool(pool, k);
        assert Clean(pool[k]);
      }
    }

    lemma HeadTail()
      requires Valid()
      ensures list != [] && start == list[0] && (list[|list| - 1] == start <==> |list| == 1)
    {
    }

    method DoLurk(found: bool, pool: seq<Object>, ghost b: Book) returns (ghost c: Book)
      requires Valid() && Pooled(pool) && Keeps(b, pool)
      modifies this`objs, this`list, pool, list`refcount, list`objcore
      ensures Valid() && Pooled(pool) && Keeps(c, pool)
      ensures list == old(list) || list == old(list)[..|old(list)| - 1]
      ensures |b.times| <= |b.hist| && b.hist != [] && list != [] &&
        c.ways == b.ways && Served(Op.Lurk(found), b, c, pool, old(list != [] && list[|list| - 1] in holds))
    {
      hide Shape, Counts, GoneOk, Compiled, Newest, Clean, NoRepeats, GivesUp, GivesUpAt, Meets, ObjectOnly, Bans,
        HasReq, TailBare, BannedBy, BannedAlways;
      BookFits(b, pool);
      TailRefers(b, pool);
      OnePlace(b, pool);
      HeadTail();
      ghost var o;
      o, c := LurkKept(found, pool, b);
      if o != null {
        ghost var k := At(o, pool);
        Poked(b, c, pool, k);
      }
    }

    /** One round, with the object it has looked at. */
    method LurkKept(found: bool, pool: seq<Object>, ghost b: Book) returns (ghost o: Object?, ghost c: Book)
      requires Valid() && Pooled(pool) && Keeps(b, pool)
      modifies this`objs, this`list, pool, list`refcount, list`objcore
      ensures Valid() && Pooled(pool) && Keeps(c, pool)
      ensures forall k :: 0 <= k < |pool| ==> pool[k].birth == old(pool[k].birth)
      ensures var n := |old(list)| - 1;
              list == if n > 0 && old(list[|list| - 1].refcount) == 0 then old(list)[..n] else old(list)
      ensures o != null <==>
        list == old(list) && found && list[|list| - 1] != start && old(list[|list| - 1].objcore) != []
      ensures o == null ==> c == b.(times := b.times[..|list|])
      ensures o != null ==>
        o in pool && old(o.ban) == list[|list| - 1] && (o.ban == null || o.ban == start || o.ban == old(o.ban))
      ensures o != null ==> c == Put(b, pool, At(o, pool), if o.ban == null then None else Some(o.ban.no))
      ensures o != null && o.ban == null ==> BannedAlways(|list| - 1, o.hdr)
      ensures o != null && o.ban == start ==> forall i :: 0 <= i < |list| - 1 && list[i].text != "" ==>
        ObjectOnly(list[i].text)
      ensures o != null && o.ban == list[|list| - 1] ==> GivesUp(|list| - 1, o.hdr)
    {
      hide Shape, Counts, GoneOk, Compiled, Newest, Clean, NoRepeats, GivesUp, GivesUpAt, Meets, ObjectOnly, Bans,
        HasReq, BannedBy, BannedAlways, At;
      BookFits(b, pool);
      var p, banned := Lurk(found);
      AllListed(pool);
      o, c := p, b.(times := b.times[..|list|]);
      if o != null {
        c := Put(b, pool, At(o, pool), if o.ban == null then None else Some(o.ban.no));
      }
      forall k | 0 <= k < |pool| && pool[k] != o
        ensures pool[k].ban == old(pool[k].ban)
      {
        assert pool[k] !in old(objs) ==> pool[k].ban == old(pool[k].ban);
      }
    }

    /** Where an attached object is in the pool. */
    ghost function At(o: Object, pool: seq<Object>): (k: nat)
      requires o in pool
      ensures k < |pool| && pool[k] == o
    {
      var k :| 0 <= k < |pool| && pool[k] == o;
      k
    }

    /** What has become of the object that the lurker has looked at. */
    lemma Poked(b: Book, c: Book, pool: seq<Object>, k: nat)
      requires Valid() && BookFits0(b, pool) && k < |pool| && b.at[k] == Some(|hist| - |list|) && |list| > 1
      requires forall j :: 0 <= j < |pool| && pool[j] == pool[k] ==> b.at[j] == b.at[k]
      requires var o := pool[k];
               && c == Put(b, pool, k, if o.ban == null then None else Some(o.ban.no))
               && (o.ban == null ==> BannedAlways(|list| - 1, o.hdr))
               && (o.ban != null ==>
                 o in objs && o.birth <= |hist| - |list| && (o.ban == start || o.ban == list[|list| - 1]))
               && (o.ban == start ==> forall i :: 0 <= i < |list| - 1 && list[i].text != "" ==>
                 ObjectOnly(list[i].text))
               && (o.ban == list[|list| - 1] ==> GivesUp(|list| - 1, o.hdr))
      ensures Pokes(b, c, pool, k)
    {
      hide Shape, Counts, GoneOk, Compiled, Clean, Meets, ObjectOnly, Bans, HasReq, BannedBy, Put;
      var o := pool[k];
      HeadTail();
      StartIsLast();
      var n := |hist| - |list|;
      if o.ban == null {
        forall req
          ensures Meets(b.hist, n, o.hdr, req)
        {
          MeetsIs(|list| - 1, o.hdr, req);
        }
      } else if o.ban == start {
        AcceptedIsClean(o);
        forall m | |hist| - |list| < m < |hist| && hist[m] != ""
          ensures ObjectOnly(hist[m])
        {
          assert list[|hist| - 1 - m].text == hist[m];
        }
      } else {
        assert c.at == b.at;
        var i :| 0 <= i < |list| - 1 && GivesUpAt(i, o.hdr);
        assert hist[|hist| - 1 - i] == list[i].text;
      }
    }

    ghost predicate BookFits0(b: Book, pool: seq<Object>)
      reads this`list, this`hist
    {
      b.hist == hist && |b.times| == |list| <= |hist| && |b.at| == |pool| && list != []
    }

    /** The sections that are no part of a walk; one that its callers may not ask for does nothing. */
    method Serve(op: Op, pool: seq<Object>, ghost b: Book) returns (ghost c: Book)
      requires Valid() && Pooled(pool) && Keeps(b, pool)
      modifies this`list, this`objs, pool, list`refcount, list`objcore
      ensures Valid() && Pooled(pool) && Keeps(c, pool) && Reshaped()
      ensures list == old(list) || list == old(list)[..|old(list)| - 1]
      ensures |b.times| <= |b.hist| && b.hist != [] && list != [] &&
        c.ways == b.ways && Served(op, b, c, pool, old(list != [] && list[|list| - 1] in holds))
    {
      hide Shape, Counts, GoneOk, Compiled, Newest, Clean, Bans, HasReq, Keeps, Puts, Lurks, TailBare;
      ShapeHolds();
      BookFits(b, pool);
      match op
      case New(k) =>
        c := DoNew(k, pool, b);
      case Check(k, req) =>
        c := DoCheck(k, req, pool, b);
      case Destroy(k) =>
        c := DoDestroy(k, pool, b);
      case Lurk(found) =>
        c := DoLurk(found, pool, b);
      case _ =>
        c := b;
    }

    /** The thread whose state an operation changes. */
    ghost predicate Acts(op: Op, t: nat, w: Thread) {
      || op == Step(t) || (op.Publish? && op.t == t && w.Idle?)
      || (op == Load(t) && w.Idle?) || (op == Loaded(t) && w.Holding?)
    }

    /** One step of the threads: what it does to its own walk, and that it disturbs no other one. */
    ghost predicate WalksOn(op: Op, threads: seq<Thread>, after: seq<Thread>)
    {
      |after| == |threads| && forall t :: 0 <= t < |threads| && !Acts(op, t, threads[t]) ==> after[t] == threads[t]
    }

    /** The object `pool[k]` of a silo goes on the newest ban of its time. */
    ghost predicate Loads(b: Book, c: Book, pool: seq<Object>, k: nat, t0: real, i: nat) {
      && i < |b.times| <= |b.hist| && b.times[i] == t0 && c.times == b.times
      && (forall j :: 0 <= j < i ==> b.times[j] > t0) && Puts(b, c, pool, k, Some(|b.hist| - 1 - i))
    }

    /** Thread `t` goes on to `w`; nothing else has changed. */
    ghost predicate Turns(b: Book, c: Book, t: nat, w: Way) {
      t < |b.ways| && c == b.(ways := b.ways[t := w])
    }

    /** What an operation of a thread comes to, with the oldest ban of the list held or not. */
    ghost predicate Turned(op: Op, b: Book, c: Book, pool: seq<Object>, held: bool)
      requires |b.times| <= |b.hist| && b.times != [] && |b.at| == |pool|
    {
      match op
      case Publish(t, text, now, dups) =>
        if t < |b.ways| && b.ways[t] == Free && text != "" && now > b.times[0] then
          Turns(Book(b.hist + [text], [now] + b.times, b.at, b.ways), c, t, if dups then Seeking(text) else Free)
        else c == b
      case Step(t) =>
        if t < |b.ways| && b.ways[t].Seeking? then c == b || Turns(b, c, t, Free) else c == b
      case Load(t) => if t < |b.ways| && b.ways[t] == Free then Turns(b, c, t, Filling) else c == b
      case Loaded(t) => if t < |b.ways| && b.ways[t] == Filling then Turns(b, c, t, Free) else c == b
      case LoadObject(t, k, t0) =>
        if t < |b.ways| && b.ways[t] == Filling && k < |pool| && b.at[k] == None && t0 in b.times then
          exists i: nat :: Loads(b, c, pool, k, t0, i)
        else c == b
      case _ => Served(op, b, c, pool, held)
    }

    /** What a load finds: the times of the bans that are listed are those of the book. */
    lemma TimesAre(b: Book, pool: seq<Object>, threads: seq<Thread>, t: nat, t0: real)
      requires Valid() && Keeps(b, pool) && InFlight(threads) && t < |threads| && threads[t].Holding?
      ensures t0 in b.times <==> exists i :: 0 <= i < |list| && list[i].t0 == t0 && t0 >= threads[t].be.t0
    {
      hide Counts, GoneOk, Compiled, Newest, Clean;
      assert OnTheWay(threads[t]);
      if i :| 0 <= i < |list| && list[i].t0 == t0 && t0 >= threads[t].be.t0 {
        assert b.times[i] == t0;
      }
      if t0 in b.times {
        var i :| 0 <= i < |b.times| && b.times[i] == t0;
        assert list[i].t0 == t0 && list[i].t0 >= list[|list| - 1].t0;
      }
    }

    lemma LoadedAt(b: Book, pool: seq<Object>, k: nat, t0: real) returns (i: nat)
      requires Newest() && NoRepeats(list) && k < |pool| && pool[k].ban != null && pool[k].ban in list
      requires |b.times| == |list| && forall j :: 0 <= j < |list| ==> b.times[j] == list[j].t0
      requires pool[k].ban.t0 == t0 && forall c :: c in list && c.no > pool[k].ban.no ==> c.t0 > t0
      ensures i < |list| <= |hist| && b.times[i] == t0 && pool[k].ban.no == |hist| - 1 - i
      ensures forall j :: 0 <= j < i ==> b.times[j] > t0
    {
      i := Index(pool[k].ban);
      assert forall j :: 0 <= j < i ==> list[j] in list && list[j].no > list[i].no;
    }

    /** An operation that is no step of a walk. */
    method Aside(op: Op, pool: seq<Object>, threads: seq<Thread>, ghost b: Book) returns (ghost c: Book)
      requires Valid() && Pooled(pool) && InFlight(threads) && Keeps(b, pool) && b.ways == WaysOf(threads)
      modifies this`list, this`objs, pool, list`refcount, list`objcore
      ensures Valid() && Pooled(pool) && InFlight(threads) && AllStay(threads) && SweptStay()
      ensures list == old(list) || list == old(list)[..|old(list)| - 1]
      ensures old(Covered(threads)) ==> Covered(threads)
      ensures Keeps(c, pool) && c.ways == WaysOf(threads) && |b.times| <= |b.hist| && b.hist != [] && list != []
      ensures Served(op, b, c, pool, old(list != [] && list[|list| - 1] in holds))
    {
      hide Shape, Counts, GoneOk, Compiled, Newest, Clean, OnTheWay, AllOnTheWay, Ends, AllStay, SweptStay, Keeps,
        Served;
      ShapeHolds();
      BookFits(b, pool);
      c := Serve(op, pool, b);
      assert Reshaped() && Aged();
      Undisturbed(threads);
      if old(Covered(threads)) {
        CoveredStays(threads);
      }
    }

    /** An object of a silo, if it may be loaded. */
    method TakeIn(t: nat, k: nat, t0: real, pool: seq<Object>, threads: seq<Thread>, ghost b: Book)
      returns (ghost c: Book)
      requires Valid() && Pooled(pool) && InFlight(threads) && Keeps(b, pool) && b.ways == WaysOf(threads)
      requires t < |threads| && threads[t].Holding? && k < |pool| && pool[k].ban == null
      modifies this`objs, pool, list`refcount, list`objcore
      ensures Valid() && Pooled(pool) && InFlight(threads) && AllStay(threads) && SweptStay()
      ensures old(Covered(threads)) ==> Covered(threads)
      ensures Keeps(c, pool) && c.ways == WaysOf(threads)
      ensures if t0 in b.times then exists i: nat :: Loads(b, c, pool, k, t0, i) else c == b
    {
      hide Shape, Counts, GoneOk, Compiled, Newest, Clean, OnTheWay, AllOnTheWay, Ends, AllStay, SweptStay, Covered;
      ShapeHolds();
      c := b;
      TimesAre(b, pool, threads, t, t0);
      if exists i :: 0 <= i < |list| && list[i].t0 == t0 && t0 >= threads[t].be.t0 {
        InPool(pool, k);
        Adopt(t, pool[k], t0, pool, threads);
        ghost var i := LoadedAt(b, pool, k, t0);
        c := Put(b, pool, k, Some(|hist| - 1 - i));
        assert Loads(b, c, pool, k, t0, i);
      } else {
        assert Reshaped() && Aged();
        Undisturbed(threads);
        if old(Covered(threads)) {
          CoveredStays(threads);
        }
      }
    }

    /** Announce, and the entry in the book. */
    method Enlist(t: nat, text: string, now: real, dups: bool, pool: seq<Object>, threads: seq<Thread>, ghost b: Book)
      returns (after: seq<Thread>, ghost c: Book)
      requires Valid() && InFlight(threads) && t < |threads| && threads[t].Idle? && text != "" && now > list[0].t0
      requires Keeps(b, pool)
      modifies this`list, this`start, this`holds, this`hist, list`refcount
      ensures Valid() && InFlight(after) && holds - Ends(after) == old(holds) - Ends(threads)
      ensures list != [] && fresh(list[0]) && list[1..] == old(list) && list[0].text == text && !list[0].gone
      ensures after == threads[t := if dups then Hunting(list[0], list[|list| - 1], list[0]) else Idle]
      ensures AllStay(threads) && SweptStay() && (old(Covered(threads)) && dups ==> Covered(after))
      ensures c == Book(b.hist + [text], [now] + b.times, b.at, WaysOf(after)) && Keeps(c, pool)
    {
      hide Shape, Counts, GoneOk, Compiled, Newest, Clean, OnTheWay, AllOnTheWay, Ends, AllStay, SweptStay, Covered;
      after := Announce(t, text, now, dups, threads);
      c := Book(b.hist + [text], [now] + b.times, b.at, WaysOf(after));
      assert forall i :: 0 < i < |list| ==> list[i] == list[1..][i - 1] == old(list)[i - 1];
      forall k | 0 <= k < |pool|
        ensures IsOn(pool[k], b.at[k])
      {
        assert old(IsOn(pool[k], b.at[k]));
        if pool[k].ban != null {
          assert pool[k].ban in list[1..];
        }
      }
    }

    /** In the book a thread is in the middle of what it is in the middle of. */
    lemma WaysGo(threads: seq<Thread>, t: nat, w: Thread)
      requires t < |threads|
      ensures WaysOf(threads[t := w]) == WaysOf(threads)[t := WayOf(w)]
    {
    }

    lemma OnlyWays(b: Book, c: Book, pool: seq<Object>)
      requires Keeps(b, pool) && c == b.(ways := c.ways)
      ensures Keeps(c, pool)
    {
    }

    lemma Readings(b: Book, pool: seq<Object>)
      requires Keeps(b, pool) && list != []
      ensures b.times != [] && b.times[0] == list[0].t0 && |b.at| == |pool|
      ensures forall k :: 0 <= k < |pool| ==> (b.at[k] == None <==> pool[k].ban == null)
    {
      assert forall k :: 0 <= k < |pool| ==> IsOn(pool[k], b.at[k]);
    }

    /** The operations that change what a thread is in the middle of. */
    predicate Turning(op: Op, threads: seq<Thread>) {
      match op
      case Publish(t, _, _, _) => t < |threads| && threads[t].Idle?
      case Step(t) => t < |threads| && threads[t].Hunting?
      case Load(t) => t < |threads| && threads[t].Idle?
      case Loaded(t) => t < |threads| && threads[t].Holding?
      case _ => false
    }

    method Turn(op: Op, pool: seq<Object>, threads: seq<Thread>, ghost b: Book)
      returns (after: seq<Thread>, ghost c: Book)
      requires Valid() && Pooled(pool) && InFlight(threads) && Keeps(b, pool) && b.ways == WaysOf(threads)
      requires Turning(op, threads) && (op.Publish? ==> op.text != "" && op.now > list[0].t0)
      modifies this`list, this`start, this`holds, this`hist, list`refcount, list`gone, list`newer
      ensures Valid() && Pooled(pool) && InFlight(after) && holds - Ends(after) == old(holds) - Ends(threads)
      ensures forall j :: 0 <= j < |list| ==> list[j] in old(list) || fresh(list[j])
      ensures WalksOn(op, threads, after) && SweptStay()
      ensures forall t :: 0 <= t < |threads| && !Acts(op, t, threads[t]) ==> Stays(threads[t])
      ensures op.Step? && op.t < |threads| && threads[op.t].Hunting? ==>
        Advances(threads[op.t], after[op.t]) && MarksNext(threads[op.t], after[op.t])
      ensures !op.Step? ==> forall c :: c in list ==> c.gone == (c in old(list) && old(c.gone))
      ensures old(Covered(threads)) && (op.Publish? ==> op.dups) ==> Covered(after)
      ensures Keeps(c, pool) && c.ways == WaysOf(after) && |b.times| <= |b.hist| && b.times != [] && list != []
      ensures |b.at| == |pool| && forall held :: Turned(op, b, c, pool, held)
    {
      hide Shape, Counts, GoneOk, Compiled, Newest, Clean, OnTheWay, AllOnTheWay, Ends, Stays, Advances, MarksNext,
        SweptStay, Covered, Keeps;
      ShapeHolds();
      BookFits(b, pool);
      Readings(b, pool);
      match op
      case Publish(t, text, now, dups) =>
        after, c := Enlist(t, text, now, dups, pool, threads, b);
        WaysGo(threads, t, after[t]);
      case Step(t) =>
        after := StepOf(t, threads);
        c := b.(ways := WaysOf(after));
        OnlyWays(b, c, pool);
        WaysGo(threads, t, after[t]);
      case Load(t) =>
        after := HoldTail(t, threads);
        c := b.(ways := WaysOf(after));
        OnlyWays(b, c, pool);
        WaysGo(threads, t, after[t]);
      case Loaded(t) =>
        after := LetGo(t, threads);
        c := b.(ways := WaysOf(after));
        OnlyWays(b, c, pool);
        WaysGo(threads, t, after[t]);
    }

    /** One operation of any thread, and what it comes to in the book. */
    method Do(op: Op, pool: seq<Object>, threads: seq<Thread>, ghost b: Book)
      returns (after: seq<Thread>, ghost c: Book)
      requires Valid() && Pooled(pool) && InFlight(threads) && Keeps(b, pool) && b.ways == WaysOf(threads)
      modifies this`list, this`start, this`holds, this`hist, this`objs, list, pool
      ensures Valid() && Pooled(pool) && InFlight(after) && holds - Ends(after) == old(holds) - Ends(threads)
      ensures forall j :: 0 <= j < |list| ==> list[j] in old(list) || fresh(list[j])
      ensures WalksOn(op, threads, after) && SweptStay()
      ensures forall t :: 0 <= t < |threads| && !Acts(op, t, threads[t]) ==> Stays(threads[t])
      ensures op.Step? && op.t < |threads| && threads[op.t].Hunting? ==>
        Advances(threads[op.t], after[op.t]) && MarksNext(threads[op.t], after[op.t])
      ensures !op.Step? ==> forall c :: c in list ==> c.gone == (c in old(list) && old(c.gone))
      ensures old(Covered(threads)) && (op.Publish? ==> op.dups) ==> Covered(after)
      ensures Keeps(c, pool) && c.ways == WaysOf(after) && |b.times| <= |b.hist| && b.times != [] && list != []
      ensures |b.at| == |pool| && Turned(op, b, c, pool, old(list != [] && list[|list| - 1] in holds))
    {
      hide Shape, Counts, GoneOk, Compiled, Newest, Clean, OnTheWay, AllOnTheWay, Ends, Stays, Advances, MarksNext,
        SweptStay, Covered, Served, Keeps, Loads;
      ShapeHolds();
      BookFits(b, pool);
      Readings(b, pool);
      if Turning(op, threads) && (op.Publish? ==> op.text != "" && op.now > list[0].t0) {
        after, c := Turn(op, pool, threads, b);
      } else if op.LoadObject? && op.t < |threads| && threads[op.t].Holding? && op.k < |pool| &&
        pool[op.k].ban == null {
        c := TakeIn(op.t, op.k, op.t0, pool, threads, b);
        after := threads;
      } else {
        c := Aside(op, pool, threads, b);
        NotServed(op, b, c, pool);
        after := threads;
      }
    }

    /** An operation that its callers may not ask for now. */
    lemma NotServed(op: Op, b: Book, c: Book, pool: seq<Object>)
      requires |b.times| <= |b.hist| && b.hist != [] && |b.at| == |pool|
      ensures op.Publish? || op.Step? || op.Load? || op.Loaded? || op.LoadObject? ==>
        forall held :: Served(op, b, c, pool, held) ==> c == b
    {
    }

    /** The steps thread `t` takes in a run. */
    ghost function Steps(ops: seq<Op>, t: nat): nat {
      if ops == [] then 0
      else Steps(ops[..|ops| - 1], t) + if ops[|ops| - 1] == Step(t) then 1 else 0
    }

    /** Where `s` steps of its own bring a thread that has `d` rounds to go, whatever the others do: on in the same
        walk, or past its end, with all duplicates of its ban marked. */
    ghost predicate Brought(w: Thread, d: nat, s: nat, after: Thread)
      reads this`list, list`gone
    {
      w.Hunting? ==>
        if s <= d then
          && after.Hunting? && after.b == w.b && after.be == w.be && (s == 0 ==> after.bi == w.bi)
          && NoRepeats(list) && after.bi in list && Left(after) == d - s
        else Swept(w.b)
    }

    lemma RetiredSwept(b: Ban)
      ensures b !in list ==> Swept(b)
    {
    }

    lemma AllSetOut(threads: seq<Thread>)
      requires AllOnTheWay(threads)
      ensures forall t :: 0 <= t < |threads| ==> Brought(threads[t], Left(threads[t]), Steps([], t), threads[t])
    {
      hide Swept;
    }

    /** Some thread holds the oldest ban of the list. */
    ghost predicate Busy(ways: seq<Way>) {
      exists t :: 0 <= t < |ways| && ways[t] != Free
    }

    lemma HeldBy(threads: seq<Thread>)
      requires InFlight(threads) && holds == Ends(threads) && list != []
      ensures list[|list| - 1] in holds <==> Busy(WaysOf(threads))
    {
      hide Ends;
      if t :| 0 <= t < |threads| && WaysOf(threads)[t] != Free {
        EndsAt(threads, t, threads[t]);
        assert OnTheWay(threads[t]);
      }
      NoneHeld(threads);
    }

    lemma {:induction false} NoneHeld(threads: seq<Thread>)
      ensures !Busy(WaysOf(threads)) ==> Ends(threads) == multiset{}
    {
      if threads != [] {
        NoneHeld(threads[1..]);
        if !Busy(WaysOf(threads)) {
          assert WaysOf(threads)[0] == Free;
          assert forall t :: 0 <= t < |threads| - 1 ==> WaysOf(threads[1..])[t] == WaysOf(threads)[t + 1];
        }
      }
    }

    lemma SoleHeld(threads: seq<Thread>, sole: bool, rest: multiset<Ban>)
      requires Valid() && InFlight(threads) && holds - Ends(threads) == rest && (sole ==> rest == multiset{})
      ensures sole ==> (list != [] && list[|list| - 1] in holds <==> Busy(WaysOf(threads)))
    {
      hide Counts, GoneOk, Compiled, Newest, Clean, AllOnTheWay, Ends, Busy;
      if sole {
        assert holds == Ends(threads) + rest;
        HeldBy(threads);
      }
    }

    /** The operation turns one book into the other; `sole` is whether only the threads hold bans. */
    ghost predicate Follows(op: Op, b: Book, c: Book, pool: seq<Object>, sole: bool) {
      && |b.times| <= |b.hist| && b.times != [] && |b.at| == |pool|
      && exists held :: Turned(op, b, c, pool, held) && (sole ==> (held <==> Busy(b.ways)))
    }

    lemma Followed(op: Op, b: Book, c: Book, pool: seq<Object>, sole: bool, held: bool)
      requires |b.times| <= |b.hist| && b.times != [] && |b.at| == |pool| && Turned(op, b, c, pool, held)
      requires sole ==> (held <==> Busy(b.ways))
      ensures Follows(op, b, c, pool, sole)
    {
    }

    lemma Opened(pool: seq<Object>, threads: seq<Thread>) returns (b: Book)
      requires Valid() && Pooled(pool)
      ensures Keeps(b, pool) && b.ways == WaysOf(threads)
    {
      var times: seq<real> := [];
      for i := 0 to |list|
        invariant |times| == i && forall j :: 0 <= j < i ==> times[j] == list[j].t0
      {
        times := times + [list[i].t0];
      }
      var at: seq<Option<nat>> := [];
      AllListed(pool);
      for k := 0 to |pool|
        invariant |at| == k && forall j :: 0 <= j < k ==> IsOn(pool[j], at[j])
      {
        at := at + [if pool[k].ban == null then None else Some(pool[k].ban.no)];
      }
      b := Book(hist, times, at, WaysOf(threads));
    }

    /** One more operation of a run that began with `threads` and has done `done`. */
    method DoNext(op: Op, pool: seq<Object>, was: seq<Thread>, ghost b: Book, ghost sole: bool,
                  ghost threads: seq<Thread>, ghost left: seq<nat>, ghost done: seq<Op>)
      returns (after: seq<Thread>, ghost c: Book)
      requires Valid() && Pooled(pool) && InFlight(was) && Keeps(b, pool) && b.ways == WaysOf(was)
      requires |threads| == |left| == |was| && (sole ==> holds - Ends(was) == multiset{})
      requires forall t :: 0 <= t < |threads| ==> Brought(threads[t], left[t], Steps(done, t), was[t])
      modifies this`list, this`start, this`holds, this`hist, this`objs, list, pool
      ensures Valid() && Pooled(pool) && InFlight(after) && holds - Ends(after) == old(holds) - Ends(was)
      ensures |after| == |was| && forall j :: 0 <= j < |list| ==> list[j] in old(list) || fresh(list[j])
      ensures forall t :: 0 <= t < |threads| ==> Brought(threads[t], left[t], Steps(done + [op], t), after[t])
      ensures old(Covered(was)) && (op.Publish? ==> op.dups) ==> Covered(after)
      ensures Keeps(c, pool) && c.ways == WaysOf(after) && Follows(op, b, c, pool, sole)
    {
      hide Valid, Pooled, AllOnTheWay, Covered, Ends, Swept, Left, Keeps, Turned, Follows, WaysOf, Busy;
      ghost var held := list != [] && list[|list| - 1] in holds;
      SoleHeld(was, sole, holds - Ends(was));
      after, c := Do(op, pool, was, b);
      Followed(op, b, c, pool, sole, held);
      assert (done + [op])[..|done|] == done;
      forall t | 0 <= t < |threads|
        ensures Brought(threads[t], left[t], Steps(done + [op], t), after[t])
      {
        if threads[t].Hunting? && left[t] < Steps(done, t) {
          RetiredSwept(threads[t].b);
        }
      }
    }

    /** Any run of all threads, walks in flight included, keeps the invariant, and so every claim it stands for. It
        keeps the book, in which nothing is said of duplicates, flags and counts: a check bans an object exactly if any
        ban since its own does. A walk comes to its end after as many steps of its own as it had bans before it, and one
        more. */
    method Run(ops: seq<Op>, pool: seq<Object>, threads: seq<Thread>)
      returns (after: seq<Thread>, ghost books: seq<Book>)
      requires Valid() && Pooled(pool) && InFlight(threads)
      modifies this`list, this`start, this`holds, this`hist, this`objs, list, pool
      ensures Valid() && Pooled(pool) && InFlight(after) && holds - Ends(after) == old(holds) - Ends(threads)
      ensures |after| == |threads| && forall j :: 0 <= j < |list| ==> list[j] in old(list) || fresh(list[j])
      ensures forall t :: 0 <= t < |threads| ==> Brought(threads[t], old(Left(threads[t])), Steps(ops, t), after[t])
      ensures old(Covered(threads)) && (forall n :: 0 <= n < |ops| && ops[n].Publish? ==> ops[n].dups) ==>
        Covered(after)
      ensures |books| == |ops| + 1 && old(Keeps(books[0], pool)) && Keeps(books[|ops|], pool)
      ensures books[0].ways == WaysOf(threads) && books[|ops|].ways == WaysOf(after)
      ensures forall n :: 0 <= n < |ops| ==> Follows(ops[n], books[n], books[n + 1], pool, old(holds) == Ends(threads))
    {
      hide Valid, Pooled, AllOnTheWay, Covered, Ends, Swept, Left, Keeps, Follows, WaysOf, Brought, Steps;
      ghost var dups := forall n :: 0 <= n < |ops| && ops[n].Publish? ==> ops[n].dups;
      ghost var left := seq(|threads|, t requires 0 <= t < |threads| => old(Left(threads[t])));
      ghost var sole := holds == Ends(threads);
      after := threads;
      AllSetOut(threads);
      ghost var book := Opened(pool, threads);
      books := [book];
      for n := 0 to |ops|
        invariant Valid() && Pooled(pool) && InFlight(after) && holds - Ends(after) == old(holds) - Ends(threads)
        invariant |after| == |threads| && forall j :: 0 <= j < |list| ==> list[j] in old(list) || fresh(list[j])
        invariant forall t :: 0 <= t < |threads| ==> Brought(threads[t], left[t], Steps(ops[..n], t), after[t])
        invariant old(Covered(threads)) && dups ==> Covered(after)
        invariant |books| == n + 1 && old(Keeps(books[0], pool)) && Keeps(books[n], pool)
        invariant books[0].ways == WaysOf(threads) && books[n].ways == WaysOf(after)
        invariant forall m :: 0 <= m < n ==> Follows(ops[m], books[m], books[m + 1], pool, sole)
      {
        ghost var c;
        after, c := DoNext(ops[n], pool, after, books[n], sole, threads, left, ops[..n]);
        books := books + [c];
        assert ops[..n] + [ops[n]] == ops[..n + 1];
      }
      assert ops[..|ops|] == ops;
    }

    lemma AllMet()
      ensures forall c :: HasMet(Idle, c)
    {
    }

    /** A walk starts at the head. */
    lemma NoneMet(b: Ban)
      requires Shape() && list[0] == b
      ensures forall c, be :: c in list ==> (HasMet(Hunting(b, be, b), c) <==> c == b)
    {
      assert Index(b) == 0;
      forall c | c in list && c != b
        ensures Index(c) > 0
      {
        assert list[Index(c)] == c;
      }
    }

    /** The walk of thread `t` to its end, with any run of the other threads before each of its rounds, as given by
        `others`: every older duplicate is marked then. If nobody interferes, exactly those not met before are. */
    method Walk(t: nat, others: seq<seq<Op>>, pool: seq<Object>, threads: seq<Thread>) returns (after: seq<Thread>)
      requires Valid() && Pooled(pool) && InFlight(threads) && t < |threads| && threads[t].Hunting?
      requires forall n :: 0 <= n < |others| ==> Steps(others[n], t) == 0
      modifies this`list, this`start, this`holds, this`hist, this`objs, list, pool
      ensures Valid() && Pooled(pool) && InFlight(after) && holds - Ends(after) == old(holds) - Ends(threads)
      ensures |after| == |threads| && after[t].Idle? && threads[t].b in list && Swept(threads[t].b)
      ensures others == [] ==> list == old(list) && hist == old(hist) && unchanged(list`t0)
      ensures others == [] ==> forall c :: c in list ==>
        c.gone == (old(c.gone) || (c.text == threads[t].b.text && !old(HasMet(threads[t], c))))
    {
      hide Valid, OnTheWay, AllOnTheWay, Ends, Swept, Pooled, HasMet, Left, Covered, SweptStay, Stays;
      after := threads;
      ghost var b := threads[t].b;
      var k := 0;
      while after[t].Hunting?
        invariant Valid() && Pooled(pool) && InFlight(after) && holds - Ends(after) == old(holds) - Ends(threads)
        invariant |after| == |threads| && !after[t].Holding?
        invariant if after[t].Hunting? then after[t].b == b else b in list && Swept(b)
        invariant forall j :: 0 <= j < |list| ==> list[j] in old(list) || fresh(list[j])
        invariant others == [] ==> list == old(list) && hist == old(hist) && unchanged(list`t0)
        invariant others == [] ==> forall c :: c in list ==>
          c.gone == (old(c.gone) || (c.text == b.text && HasMet(after[t], c) && !old(HasMet(threads[t], c))))
        invariant others == [] ==> forall c :: c in list && old(HasMet(threads[t], c)) ==> HasMet(after[t], c)
        decreases if after[t].Hunting? then Left(after[t]) + 1 else 0
      {
        if k < |others| {
          ghost var books;
          after, books := Run(others[k], pool, after);
          k := k + 1;
        }
        after := StepOf(t, after);
      }
      AllMet();
    }

    /** BAN_Insert in thread `t`, with any run of the other threads between its sections and between the rounds of its
        walk. */
    method Insert(t: nat, b: Ban, now: real, dups: bool, others: seq<seq<Op>>, pool: seq<Object>, threads: seq<Thread>)
      returns (after: seq<Thread>)
      requires Valid() && Pooled(pool) && InFlight(threads) && t < |threads| && threads[t].Idle?
      requires b !in list && b.text != "" && now > list[0].t0
      requires b.refcount == 0 && b.objcore == [] && !b.gone && !b.pending
      requires b.tests == parse(b.text) && b.req == HasReq(b.tests)
      requires forall n :: 0 <= n < |others| ==> Steps(others[n], t) == 0
      modifies this`list, this`start, this`holds, this`hist, this`objs, b, list, pool
      ensures Valid() && Pooled(pool) && InFlight(after) && holds - Ends(after) == old(holds) - Ends(threads)
      ensures |after| == |threads| && after[t].Idle?
      ensures dups ==> b in list && Swept(b)
      ensures others == [] ==> list == [b] + old(list) && hist == old(hist) + [b.text] && b.t0 == now && !b.gone
      ensures others == [] ==> forall c :: c in old(list) ==> c.gone == (old(c.gone) || (dups && c.text == b.text))
    {
      hide Shape, Counts, GoneOk, Compiled, Newest, Clean, OnTheWay, AllOnTheWay, Ends, Swept, Pooled, HasMet;
      after := Enter(t, b, now, dups, threads);
      if dups {
        NoneMet(b);
        assert forall c :: c in old(list) ==> c in list && c != b;
        after := Walk(t, others, pool, after);
      }
    }

    lemma InPool(pool: seq<Object>, k: nat)
      requires Valid() && Pooled(pool) && k < |pool|
      ensures pool[k].ban == null <==> pool[k] !in objs
    {
      if pool[k] in objs {
        assert Clean(pool[k]);
      }
    }

    lemma OnBan(b: Ban, o: Object)
      requires Counts() && b in list && o in b.objcore
      ensures o in objs && o.ban == b
    {
    }

    /* ---- loading bans from storage ---- */

    /** A strictly newer ban has the same text. */
    ghost predicate Superseded(b: Ban)
      reads this`list, list`t0, b`t0
    {
      exists i :: 0 <= i < |list| && list[i].text == b.text && list[i].t0 > b.t0
    }

    /** The pair of a timestamp and a text is in the list. */
    ghost predicate Listed(t0: real, text: string)
      reads this`list, list`t0
    {
      exists i :: 0 <= i < |list| && list[i].t0 == t0 && list[i].text == text
    }

    /** Before BAN_Compile: no pair twice, and a reloaded ban is live iff it is not superseded. */
    ghost predicate Loading()
      reads this, list, objs
    {
      && Ordered() && objs == {}
      && magic in list && magic.gone && magic.text == ""
      && (forall b :: b in list && b != magic ==> b.pending && (b.gone <==> Superseded(b)))
    }

    /** `b2` goes in at its place in the order. */
    ghost predicate FitsAt(b2: Ban, i: nat)
      reads this`list, list`t0, b2`t0, b2`refcount, b2`objcore, b2`pending
    {
      && i <= |list| && b2 !in list && b2.pending && b2.refcount == 0 && b2.objcore == []
      && (forall j :: 0 <= j < i ==> list[j].t0 >= b2.t0 && (list[j].t0 != b2.t0 || list[j].text != b2.text))
      && (forall j :: i <= j < |list| ==> list[j].t0 < b2.t0)
    }

    /** Mark the bans after position `i` that have its text. */
    method MarkAfter(i: nat)
      requires NoRepeats(list) && i < |list|
      modifies list`gone, list`newer
      ensures Marks(i)
    {
      var j := i + 1;
      while j < |list|
        invariant i < j <= |list|
        invariant forall m :: 0 <= m < |list| ==>
          list[m].gone == (old(list[m].gone) || (i < m < j && list[m].text == list[i].text))
        invariant forall m :: 0 <= m < |list| ==>
          list[m].newer == if i < m < j && list[m].text == list[i].text &&
            !old(list[m].gone) then list[i] else old(list[m].newer)
        decreases |list| - j
      {
        var b := list[j];
        if !b.gone && b.text == list[i].text {
          b.gone := true;
          b.newer := list[i];
        }
        j := j + 1;
      }
    }

    /** A strictly newer ban other than `b2` has the same text. */
    ghost predicate SupersededBut(b2: Ban, b: Ban)
      reads this`list, list`t0, b`t0
    {
      exists i :: 0 <= i < |list| && list[i] != b2 && list[i].text == b.text && list[i].t0 > b.t0
    }

    ghost predicate Pairs()
      reads this`list, list`t0
    {
      forall i, j :: 0 <= i < j < |list| ==> list[i].t0 != list[j].t0 || list[i].text != list[j].text
    }

    ghost predicate Ordered()
      reads this, list, objs
    {
      Base() && Pairs()
    }

    /** Loading, where `b2` has not marked the bans it supersedes yet. */
    ghost predicate LoadingBut(b2: Ban)
      reads this, list, objs
    {
      && Ordered() && objs == {}
      && magic in list && magic.gone && magic.text == "" && b2 in list && b2 != magic
      && (forall b :: b in list && b != magic ==> b.pending && (b.gone <==> SupersededBut(b2, b)))
    }

    /** The list with `b2` put in at `i`. */
    method Splice(b2: Ban, i: nat)
      requires Loading() && FitsAt(b2, i) && (b2.gone <==> Superseded(b2))
      requires b2.gone && b2.text != "" ==> b2.newer in list && b2.newer.text == b2.text && b2.newer.t0 > b2.t0
      modifies this`list
      ensures LoadingBut(b2) && list == old(list)[..i] + [b2] + old(list)[i..]
    {
      hide Superseded, SupersededBut, Counts, GoneOk, Shape, Pairs;
      list := list[..i] + [b2] + list[i..];
      SplicedShape(i);
      SplicedCounts(b2);
      SplicedBut(b2);
    }

    /** `list` is the old list with one ban put in at `i`, its place in the order. */
    twostate predicate SplicedAt(i: nat)
      reads this`list, list`t0
    {
      && i < |list| == |old(list)| + 1 && list[i] !in old(list)
      && (forall j :: 0 <= j < i ==> list[j] == old(list)[j])
      && (forall j :: i < j < |list| ==> list[j] == old(list)[j - 1])
      && (forall j :: 0 <= j < i ==>
        list[j].t0 >= list[i].t0 && (list[j].t0 != list[i].t0 || list[j].text != list[i].text))
      && (forall j :: i < j < |list| ==> list[j].t0 < list[i].t0)
    }

    twostate lemma SplicedOrder(i: nat)
      requires SplicedAt(i) && old(Shape()) && unchanged(old(list)`t0)
      ensures forall m, n :: 0 <= m < n < |list| ==> list[m].t0 >= list[n].t0
    {
      forall m, n | 0 <= m < n < |list|
        ensures list[m].t0 >= list[n].t0
      {
        if m != i && n != i {
          assert list[m] == old(list)[if m < i then m else m - 1];
          assert list[n] == old(list)[if n < i then n else n - 1];
        }
      }
    }

    twostate lemma SplicedPairs(i: nat)
      requires SplicedAt(i) && old(Pairs()) && unchanged(old(list)`t0)
      ensures Pairs()
    {
      forall m, n | 0 <= m < n < |list|
        ensures list[m].t0 != list[n].t0 || list[m].text != list[n].text
      {
        if m != i && n != i {
          assert list[m] == old(list)[if m < i then m else m - 1];
          assert list[n] == old(list)[if n < i then n else n - 1];
        }
      }
    }

    twostate lemma SplicedShape(i: nat)
      requires SplicedAt(i) && old(Shape() && Pairs()) && start == old(start) && unchanged(old(list)`t0)
      ensures Shape() && Pairs()
      ensures forall b :: b in list <==> b in old(list) || b == list[i]
    {
      SplicedOrder(i);
      SplicedPairs(i);
      SplicedIn(i);
      hide Pairs, SplicedAt;
    }

    /** The spliced list holds one ban more, once. */
    twostate lemma SplicedIn(i: nat)
      requires SplicedAt(i) && old(NoRepeats(list))
      ensures NoRepeats(list) && forall b :: b in list <==> b in old(list) || b == list[i]
    {
      forall b | b in old(list)
        ensures b in list
      {
        var j :| 0 <= j < |old(list)| && old(list)[j] == b;
        assert list[if j < i then j else j + 1] == b;
      }
      assert forall m, n :: 0 <= m < n < |list| && m != i && n != i ==>
        list[m] == old(list)[if m < i then m else m - 1] && list[n] == old(list)[if n < i then n else n - 1];
    }

    twostate lemma SplicedCounts(b2: Ban)
      requires old(Counts() && Shape() && GoneOk()) && b2 !in old(list)
      requires forall b :: b in list <==> b in old(list) || b == b2
      requires unchanged(old(list)) && b2.refcount == 0 && b2.objcore == [] && objs == {} == old(objs) &&
        holds == old(holds)
      requires b2.gone && b2.text != "" ==> b2.newer in list && b2.newer.text == b2.text && b2.newer.t0 > b2.t0
      ensures Counts() && GoneOk()
    {
    }

    twostate lemma SplicedBut(b2: Ban)
      requires b2 !in old(list) && unchanged(old(list)) && b2.t0 == old(b2.t0)
      requires forall b :: b in list <==> b in old(list) || b == b2
      ensures forall b :: b in list ==> (SupersededBut(b2, b) <==> old(Superseded(b)))
    {
      forall b | b in list
        ensures SupersededBut(b2, b) <==> old(Superseded(b))
      {
        if SupersededBut(b2, b) {
          var i :| 0 <= i < |list| && list[i] != b2 && list[i].text == b.text && list[i].t0 > b.t0;
          assert list[i] in old(list);
        }
        if old(Superseded(b)) {
          var i :| 0 <= i < |old(list)| && old(list)[i].text == b.text && old(list[i].t0) > old(b.t0);
          assert old(list)[i] in list;
        }
      }
    }

    /** The end of BAN_Reload: insert the ban, and mark the older ones with the same text. */
    method Place(b2: Ban, i: nat)
      requires Loading() && FitsAt(b2, i) && (b2.gone <==> Superseded(b2))
      requires b2.gone && b2.text != "" ==> b2.newer in list && b2.newer.text == b2.text && b2.newer.t0 > b2.t0
      modifies this`list, list`gone, list`newer, {b2}`gone, {b2}`newer
      ensures Loading() && list == old(list)[..i] + [b2] + old(list)[i..]
    {
      hide Superseded, SupersededBut, Counts, GoneOk, Shape, Pairs;
      Splice(b2, i);
      ShapeHolds();
      label spliced:
      MarkAfter(i);
      Settled@spliced(i);
    }

    /** The marks MarkAfter makes. */
    twostate predicate Marks(i: nat)
      requires i < |list|
      reads this`list, list`gone, list`newer
    {
      && list == old(list)
      && (forall m :: 0 <= m < |list| ==>
        list[m].gone == (old(list[m].gone) || (i < m && list[m].text == list[i].text)))
      && (forall m :: 0 <= m < |list| ==>
        list[m].newer == if i < m && list[m].text == list[i].text &&
          !old(list[m].gone) then list[i] else old(list[m].newer))
    }

    twostate lemma SettledGone(i: nat)
      requires list == old(list) && i < |list| && old(Ordered()) && unchanged(list`t0)
      requires Marks(i)
      ensures GoneOk()
    {
      forall b | b in list && b.gone && b.text != ""
        ensures b.newer in list && b.newer.text == b.text && b.newer.t0 > b.t0
      {
        var m := Index(b);
        if i < m && b.text == list[i].text && !old(b.gone) {
          assert list[i].t0 > b.t0;
        } else {
          assert old(b.gone) && b.newer == old(b.newer);
        }
      }
    }

    /** A newer ban with the text is `b2`, or another one. */
    lemma SupersededBy(i: nat, m: nat)
      requires Ordered() && i < |list| && m < |list|
      ensures Superseded(list[m]) <==> SupersededBut(list[i], list[m]) || (i < m && list[m].text == list[i].text)
    {
      hide Counts, GoneOk;
    }

    twostate lemma SameSuperseded(i: nat)
      requires list == old(list) && i < |list| && unchanged(list`t0)
      ensures forall m :: 0 <= m < |list| ==>
        (SupersededBut(list[i], list[m]) <==> old(SupersededBut(list[i], list[m])))
    {
    }

    /** Once `b2` has marked the older bans with its text, every ban is GONE iff it is superseded. */
    twostate lemma Settled(i: nat)
      requires list == old(list) && i < |list| && old(LoadingBut(list[i]))
      requires magic == old(magic) && start == old(start) && objs == old(objs) && holds == old(holds)
      requires Marks(i)
      requires unchanged(list`t0) && unchanged(list`refcount) && unchanged(list`objcore) && unchanged(list`pending)
      ensures Loading()
    {
      hide Superseded, SupersededBut, Shape, Counts, GoneOk, Pairs, NoRepeats;
      SettledGone(i);
      SameSuperseded(i);
      forall m | 0 <= m < |list|
        ensures list[m] != magic ==> (list[m].gone <==> Superseded(list[m]))
      {
        SupersededBy(i, m);
      }
    }

    /** The first loop of BAN_Reload: where the pair belongs, whether it is there already, and whether
        a newer ban has its text. */
    method Locate(t0: real, text: string) returns (i: nat, there: bool, gone: bool)
      requires Base()
      ensures there <==> Listed(t0, text)
      ensures there || i <= |list|
      ensures !there ==> forall j :: 0 <= j < i ==> list[j].t0 >= t0 && (list[j].t0 != t0 || list[j].text != text)
      ensures !there ==> forall j :: i <= j < |list| ==> list[j].t0 < t0
      ensures !there ==> (gone <==> exists j :: 0 <= j < |list| && list[j].text == text && list[j].t0 > t0)
    {
      i, there, gone := 0, false, false;
      while i < |list|
        invariant i <= |list|
        invariant forall j :: 0 <= j < i ==> list[j].t0 >= t0 && (list[j].t0 != t0 || list[j].text != text)
        invariant gone <==> exists j :: 0 <= j < i && list[j].text == text && list[j].t0 > t0
      {
        var b := list[i];
        if b.text == text {
          if b.t0 > t0 {
            gone := true;
          } else if b.t0 == t0 {
            there := true;
            return;
          }
        } else if b.t0 > t0 {
          i := i + 1;
          continue;
        }
        if b.t0 < t0 {
          break;
        }
        i := i + 1;
      }
    }

    /** BAN_Reload: add a skeleton ban unless the same pair is already there. */
    method Reload(t0: real, text: string)
      requires Loading()
      modifies this`list, list`gone, list`newer
      ensures Loading()
      ensures forall t, x :: Listed(t, x) <==> old(Listed(t, x)) || (t == t0 && x == text)
      ensures forall b :: b in list ==> b in old(list) || fresh(b)
      ensures magic == old(magic) && start == old(start) && holds == old(holds)
    {
      hide Base, Pairs, Listed, NoRepeats, Superseded;
      var i, there, gone := Locate(t0, text);
      if there {
        return;
      }
      var b2 := Skeleton(t0, text, gone);
      Place(b2, i);
      ListedMore(i);
    }

    /** A ban waiting for BAN_Compile. */
    method Skeleton(t0: real, text: string, gone: bool) returns (b2: Ban)
      requires gone <==> exists j :: 0 <= j < |list| && list[j].text == text && list[j].t0 > t0
      ensures fresh(b2) && b2.text == text && b2.t0 == t0 && b2.pending && b2.refcount == 0 && b2.objcore == []
      ensures b2.gone == gone && (gone <==> Superseded(b2))
      ensures gone ==> b2.newer in list && b2.newer.text == text && b2.newer.t0 > t0
    {
      b2 := new Ban(text, []);
      b2.t0, b2.pending, b2.gone := t0, true, gone;
      if gone {
        ghost var j :| 0 <= j < |list| && list[j].text == text && list[j].t0 > t0;
        b2.newer := list[j];
      }
    }

    twostate lemma ListedMore(i: nat)
      requires unchanged(old(list)`t0) && i < |list| && i <= |old(list)|
      requires list == old(list)[..i] + [list[i]] + old(list)[i..]
      ensures forall t, x :: Listed(t, x) <==> old(Listed(t, x)) || (t == list[i].t0 && x == list[i].text)
      ensures forall b :: b in old(list) ==> b in list
    {
      forall t, x
        ensures Listed(t, x) <==> old(Listed(t, x)) || (t == list[i].t0 && x == list[i].text)
      {
        if old(Listed(t, x)) {
          var j :| 0 <= j < |old(list)| && old(list[j].t0) == t && old(list)[j].text == x;
          assert list[if j < i then j else j + 1] == old(list)[j];
        }
      }
    }

    /** Reloading any sequence of pairs, with repeats and in any order, lists exactly those pairs. */
    method ReloadAll(pairs: seq<(real, string)>)
      requires Loading()
      modifies this`list, list`gone, list`newer
      ensures Loading()
      ensures forall t, x :: Listed(t, x) <==> old(Listed(t, x)) || (t, x) in pairs
      ensures magic == old(magic) && start == old(start) && holds == old(holds)
    {
      hide Counts, GoneOk, Pairs, Shape, Listed, Superseded;
      for i := 0 to |pairs|
        invariant Loading()
        invariant forall t, x :: Listed(t, x) <==> old(Listed(t, x)) || (t, x) in pairs[..i]
        invariant magic == old(magic) && start == old(start) && holds == old(holds)
        invariant forall b :: b in list ==> b in old(list) || fresh(b)
      {
        assert forall j :: 0 <= j < |list| ==> list[j] in old(list) || fresh(list[j]);
        Reload(pairs[i].0, pairs[i].1);
        assert pairs[..i + 1] == pairs[..i] + [pairs[i]];
        assert (pairs[i].0, pairs[i].1) == pairs[i];
      }
      assert pairs[..|pairs|] == pairs;
    }

    /** A live ban without conditions bans everything. After a load there is none, exactly when no
        reloaded ban with the empty text is newer than ban_magic. */
    lemma EmptyTextsAreGone()
      requires Loading()
      ensures (forall b :: b in list && b.text == "" ==> b.gone)
         <==> (forall b :: b in list && b.text == "" ==> b.t0 <= magic.t0)
    {
      hide Counts, GoneOk;
      var m := Index(magic);
      forall b | b in list && b.text == "" && b.t0 <= magic.t0
        ensures b.gone
      {
        if b != magic {
          assert list[m].text == b.text && b.t0 != list[m].t0 by {
            var i := Index(b);
          }
          assert Superseded(b);
        }
      }
      if b :| b in list && b.text == "" && b.t0 > magic.t0 {
        var i := NewestEmpty(Index(b));
        assert list[i] in list && !Superseded(list[i]);
        assert !list[i].gone;
      }
    }

    lemma ListedBan(t0: real, text: string) returns (b: Ban)
      requires Listed(t0, text)
      ensures b in list && b.t0 == t0 && b.text == text
    {
      var i :| 0 <= i < |list| && list[i].t0 == t0 && list[i].text == text;
      b := list[i];
    }

    /** The first ban of the list with the empty text. */
    lemma NewestEmpty(i: nat) returns (j: nat)
      requires i < |list| && list[i].text == ""
      ensures j <= i && list[j].text == "" && forall k :: 0 <= k < j ==> list[k].text != ""
    {
      if n: nat :| n < i && list[n].text == "" {
        j := NewestEmpty(n);
      } else {
        j := i;
      }
    }

    /** The loop of BAN_Compile. */
    method CompilePending()
      requires Base() && forall b :: b in list && !b.gone ==> b.pending
      requires forall b :: b in list && b.text == "" ==> b.gone
      modifies list`pending, list`tests, list`req
      ensures Base() && Compiled() && forall b :: b in list ==> !b.pending
    {
      for i := 0 to |list|
        invariant forall j :: 0 <= j < i ==> !list[j].pending
        invariant forall j :: 0 <= j < i && !list[j].gone ==>
          list[j].tests == parse(list[j].text) && list[j].req == HasReq(parse(list[j].text))
        invariant forall j :: i <= j < |list| ==> list[j].pending == old(list[j].pending)
      {
        var b := list[i];
        if !b.pending {
          continue;
        }
        b.pending := false;
        if b.gone {
          continue;
        }
        b.tests := parse(b.text);
        b.req := exists j :: 0 <= j < |b.tests| && b.tests[j].ReqTest?;
      }
    }

    /** The loaded bans are the history a run starts with. */
    method Begin()
      requires Base() && Compiled() && objs == {}
      modifies this`start, this`hist, list`no
      ensures Valid() && start == list[0] && list == old(list)
    {
      hide Shape, Counts, GoneOk, Compiled, Newest, Clean, NoRepeats;
      Restart();
      Number();
    }

    method Restart()
      requires Shape()
      modifies this`start
      ensures Shape() && list != [] && NoRepeats(list) && start == list[0]
    {
      hide NoRepeats;
      assert list[0] in list;
      start := list[0];
    }

    ghost method Number()
      requires list != [] && NoRepeats(list) && start == list[0]
      modifies this`hist, list`no
      ensures Newest()
    {
      var l := list;
      hist := seq(|l|, j requires 0 <= j < |l| => l[|l| - 1 - j].text);
      forall i | 0 <= i < |l| {
        l[i].no := |l| - 1 - i;
      }
    }

    /** BAN_Compile: the skeletons get their conditions, and checks may start. */
    method Compile()
      requires Loading() && forall b :: b in list && b.text == "" ==> b.gone
      modifies this`start, this`hist, list`pending, list`tests, list`req, list`no
      ensures Valid() && start == list[0]
      ensures (forall b :: b in list ==> !b.pending) && Covered([])
    {
      hide Shape, Counts, GoneOk, Pairs, Superseded, HasReq, Newest, Clean, NoRepeats, Covered;
      CoveredByLoad();
      CompilePending();
      Begin();
    }

    /** After a load every ban has marked its duplicates. */
    lemma CoveredByLoad()
      requires Loading()
      ensures Covered([])
    {
      hide Counts, GoneOk;
      forall i, j | 0 <= i < j < |list| && list[j].text == list[i].text
        ensures list[j].gone
      {
        assert list[i].t0 > list[j].t0 && list[j] in list;
        if list[j] != magic {
          assert Superseded(list[j]);
        }
      }
    }
  }

  /** An empty text one second newer than ban_magic, as a clock that was set back leaves it, is live after a load. */
  method LiveEmptyText(parse: string -> seq<Test>, now: real) returns (l: BanList)
    ensures l.Loading() && l.magic.t0 == now && l.Listed(now + 1.0, "")
    ensures exists b :: b in l.list && b.text == "" && !b.gone
  {
    hide BanList.Valid, BanList.Loading, BanList.Covered, BanList.Listed;
    l := new BanList(parse, now);
    l.Reload(now + 1.0, "");
    l.EmptyTextsAreGone();
    ghost var b := l.ListedBan(now + 1.0, "");
  }

  /** What the bans and objects come to: the texts of all bans there have been, oldest first; the times of those that
      are listed, newest first; for each object of a pool the number of the ban it is on, if any; and what the threads
      are in the middle of. */
  datatype Book = Book(hist: seq<string>, times: seq<real>, at: seq<Option<nat>>, ways: seq<Way>)

  /** Nothing, the search for duplicates of a text, or the load of a silo. */
  datatype Way = Free | Seeking(text: string) | Filling

  function WayOf(w: Thread): Way {
    match w
    case Idle => Free
    case Hunting(b, _, _) => Seeking(b.text)
    case Holding(_) => Filling
  }

  function WaysOf(threads: seq<Thread>): (ways: seq<Way>)
    ensures |ways| == |threads| && forall t :: 0 <= t < |threads| ==> ways[t] == WayOf(threads[t])
  {
    seq(|threads|, t requires 0 <= t < |threads| => WayOf(threads[t]))
  }

  datatype Op =
    | Publish(t: nat, text: string, now: real, dups: bool)
    | Step(t: nat)
    | Load(t: nat)
    | LoadObject(t: nat, k: nat, t0: real)
    | Loaded(t: nat)
    | New(k: nat)
    | Check(k: nat, req: Request)
    | Destroy(k: nat)
    | Lurk(found: bool)
}
