/** The reference hash slinger: bin/varnishd/hash_simple_list.c, a list kept sorted by digest. */
module HashSimpleList {
  import opened Digests
  import opened ObjHeads
  import opened IndexSpec

  /** `memcmp(a, b, n) < 0`, where the digests agree before byte `i`. */
  predicate LessFrom(a: Digest, b: Digest, i: nat)
    requires i <= DIGEST_LEN
    decreases DIGEST_LEN - i
  {
    i < DIGEST_LEN && (a[i] < b[i] || (a[i] == b[i] && LessFrom(a, b, i + 1)))
  }

  predicate Less(a: Digest, b: Digest) {
    LessFrom(a, b, 0)
  }

  lemma {:induction false} LessTransitive(a: Digest, b: Digest, c: Digest, i: nat)
    requires i <= DIGEST_LEN && LessFrom(a, b, i) && LessFrom(b, c, i)
    ensures LessFrom(a, c, i)
    decreases DIGEST_LEN - i
  {
    if a[i] == b[i] && b[i] == c[i] {
      LessTransitive(a, b, c, i + 1);
    }
  }

  lemma {:induction false} LessTotal(a: Digest, b: Digest, i: nat)
    requires i <= DIGEST_LEN
    ensures LessFrom(a, b, i) || LessFrom(b, a, i) || a[i..] == b[i..]
    ensures !(LessFrom(a, b, i) && LessFrom(b, a, i))
    ensures a[i..] == b[i..] ==> !LessFrom(a, b, i)
    decreases DIGEST_LEN - i
  {
    if i < DIGEST_LEN {
      assert a[i..][0] == a[i] && b[i..][0] == b[i];
      assert a[i..][1..] == a[i + 1..] && b[i..][1..] == b[i + 1..];
      assert a[i..] == [a[i]] + a[i + 1..] && b[i..] == [b[i]] + b[i + 1..];
      LessTotal(a, b, i + 1);
    }
  }

  /** memcmp decides exactly one of less, equal and greater. */
  lemma Trichotomy(a: Digest, b: Digest)
    ensures Less(a, b) || Less(b, a) || a == b
    ensures !(Less(a, b) && Less(b, a)) && !Less(a, a)
  {
    hide LessFrom;
    LessTotal(a, b, 0);
    LessTotal(a, a, 0);
    assert a == a[0..] && b == b[0..];
  }

  /** The first byte in which two digests differ decides. */
  lemma {:induction false} FirstByteDecides(a: Digest, b: Digest, i: nat, k: nat)
    requires i <= k < DIGEST_LEN && a[i..k] == b[i..k] && a[k] != b[k]
    ensures LessFrom(a, b, i) <==> a[k] < b[k]
    ensures i == 0 ==> (Less(a, b) <==> a[k] < b[k])
    decreases k - i
  {
    if i < k {
      assert a[i] == a[i..k][0] && b[i] == b[i..k][0];
      assert a[i + 1..k] == a[i..k][1..] && b[i + 1..k] == b[i..k][1..];
      FirstByteDecides(a, b, i + 1, k);
    }
  }

  class HashSimpleList {
    var head: seq<ObjHead>
    ghost var heads: set<ObjHead>
    ghost var index: map<Key, ObjHead>

    /** The list holds the indexed objheads, digests strictly increasing. */
    ghost predicate ListOk()
      reads this, heads`digest
    {
      && (forall i :: 0 <= i < |head| ==> head[i] in heads)
      && (forall o :: o in heads ==> o in head)
      && (forall i, j :: 0 <= i < j < |head| ==> Less(head[i].digest, head[j].digest))
    }

    ghost predicate HeadsOk()
      reads this`index, this`heads, heads`digest, heads`refcnt
    {
      && (forall k :: k in index ==> index[k] in heads && Bits(index[k].digest) == k)
      && (forall o :: o in heads ==> Bits(o.digest) in index && index[Bits(o.digest)] == o && o.refcnt > 0)
    }

    lemma IndexedBy(k: Key)
      requires HeadsOk() && k in index
      ensures index[k] in heads && Bits(index[k].digest) == k
    {
    }

    ghost predicate Valid()
      reads this, heads
    {
      ListOk() && HeadsOk()
    }

    ghost function View(): View
      requires HeadsOk()
      reads this, heads
    {
      map k | k in index :: Entry(index[k].id, index[k].refcnt)
    }

    /** hsl_start. */
    constructor ()
      ensures Valid() && View() == map[] && heads == {} && index == map[]
    {
      head := [];
      heads := {};
      index := map[];
    }

    twostate lemma ViewCounted(oh: ObjHead)
      requires old(HeadsOk()) && HeadsOk() && oh in heads
      requires index == old(index)[Bits(oh.digest) := oh]
      requires forall o :: o in heads && o != oh ==> o in old(heads) && o.refcnt == old(o.refcnt)
      ensures View() == old(View())[Bits(oh.digest) := Entry(oh.id, oh.refcnt)]
    {
      hide Bits;
      var key := Bits(oh.digest);
      forall k | k in index && k != key
        ensures View()[k] == old(View())[k]
      {
        assert index[k] == old(index)[k];
      }
    }

    twostate lemma ViewRemoved(key: Key)
      requires old(HeadsOk()) && HeadsOk()
      requires index == old(index) - {key}
      requires forall o :: o in heads ==> o in old(heads) && o.refcnt == old(o.refcnt)
      ensures View() == old(View()) - {key}
    {
      hide Bits;
    }

    /** hsl_lookup. */
    method Lookup(noh: ObjHead) returns (oh: ObjHead)
      requires Valid() && noh !in heads && noh.refcnt == 1
      modifies this, heads`refcnt
      ensures Valid()
      ensures View() == LookedUp(old(View()), Bits(noh.digest), noh.id)
      ensures index == old(index)[Bits(noh.digest) := oh]
      ensures oh in heads && Bits(oh.digest) == Bits(noh.digest)
      ensures heads == if oh == noh then old(heads) + {noh} else old(heads)
      ensures oh == noh <==> Bits(noh.digest) !in old(index)
    {
      hide Bits, Less;
      var i := 0;
      while i < |head|
        invariant i <= |head| && unchanged(this) && unchanged(heads)
        invariant forall j :: 0 <= j < i ==> Less(head[j].digest, noh.digest)
      {
        oh := head[i];
        Trichotomy(oh.digest, noh.digest);
        if Less(oh.digest, noh.digest) {
          i := i + 1;
          continue;
        }
        if Less(noh.digest, oh.digest) {
          break;
        }
        oh.refcnt := oh.refcnt + 1;
        ViewCounted(oh);
        return;
      }
      NotListed(noh, i);
      InsertAt(noh, i);
      oh := noh;
      ViewCounted(oh);
    }

    /** The scan stopped at the place of a digest that is not listed. */
    lemma NotListed(noh: ObjHead, i: nat)
      requires Valid() && i <= |head|
      requires forall j :: 0 <= j < i ==> Less(head[j].digest, noh.digest)
      requires i < |head| ==> Less(noh.digest, head[i].digest)
      ensures forall j :: i <= j < |head| ==> Less(noh.digest, head[j].digest)
      ensures Bits(noh.digest) !in index
    {
      hide Bits, Less;
      forall j | i <= j < |head|
        ensures Less(noh.digest, head[j].digest)
      {
        if j > i {
          Between(noh.digest, head[i].digest, head[j].digest);
        }
      }
      if Bits(noh.digest) in index {
        var o := index[Bits(noh.digest)];
        BitsInjective(o.digest, noh.digest);
        Trichotomy(noh.digest, noh.digest);
        assert false;
      }
    }

    lemma Between(a: Digest, b: Digest, c: Digest)
      requires Less(a, b) && Less(b, c)
      ensures Less(a, c)
    {
      LessTransitive(a, b, c, 0);
    }

    /** VTAILQ_INSERT_BEFORE, or VTAILQ_INSERT_TAIL at the end. */
    method InsertAt(noh: ObjHead, i: nat)
      requires Valid() && noh !in heads && noh.refcnt > 0 && i <= |head|
      requires forall j :: 0 <= j < i ==> Less(head[j].digest, noh.digest)
      requires forall j :: i <= j < |head| ==> Less(noh.digest, head[j].digest)
      requires Bits(noh.digest) !in index
      modifies this
      ensures Valid() && heads == old(heads) + {noh} && index == old(index)[Bits(noh.digest) := noh]
      ensures head == old(head)[..i] + [noh] + old(head)[i..]
    {
      hide Bits, Less;
      head := head[..i] + [noh] + head[i..];
      heads := heads + {noh};
      index := index[Bits(noh.digest) := noh];
    }

    /** hsl_deref. */
    method Deref(oh: ObjHead) returns (ret: int)
      requires Valid() && oh in heads
      modifies this, oh`refcnt
      ensures Valid()
      ensures View() == Dereffed(old(View()), Bits(oh.digest))
      ensures index == if oh.refcnt == 0 then old(index) - {Bits(oh.digest)} else old(index)
      ensures oh.refcnt == old(oh.refcnt) - 1
      ensures ret == if oh.refcnt == 0 then 0 else 1
      ensures heads == if oh.refcnt == 0 then old(heads) - {oh} else old(heads)
    {
      hide Bits, Less;
      oh.refcnt := oh.refcnt - 1;
      if oh.refcnt > 0 {
        ViewCounted(oh);
        return 1;
      }
      Remove(oh);
      ret := 0;
      ViewRemoved(Bits(oh.digest));
    }

    /** VTAILQ_REMOVE. */
    method Remove(oh: ObjHead)
      requires ListOk() && oh in heads
      requires forall k :: k in index ==> index[k] in heads && Bits(index[k].digest) == k
      requires forall o :: o in heads ==> Bits(o.digest) in index && index[Bits(o.digest)] == o
      requires forall o :: o in heads && o != oh ==> o.refcnt > 0
      modifies this
      ensures Valid() && heads == old(heads) - {oh} && index == old(index) - {Bits(oh.digest)}
    {
      hide Bits, Less;
      var i :| 0 <= i < |head| && head[i] == oh;
      Trichotomy(oh.digest, oh.digest);
      assert forall j :: 0 <= j < |head| && head[j] == oh ==> j == i;
      head := head[..i] + head[i + 1..];
      heads := heads - {oh};
      index := index - {Bits(oh.digest)};
    }
  }
}
