/** What a hash slinger promises: an index from digests to objheads and their reference counts. */
module IndexSpec {
  import opened Digests
  import opened ObjHeads

  /** Indexed by the bits of the digest; digests with the same bits are equal. */
  type View = map<Key, Entry>

  /** A lookup takes a reference on the indexed objhead, or indexes the one the caller brought. */
  function LookedUp(v: View, d: Key, id: nat): View {
    if d in v then v[d := Entry(v[d].id, v[d].refcnt + 1)] else v[d := Entry(id, 1)]
  }

  /** A deref gives one reference back; the last one takes the objhead out of the index. */
  function Dereffed(v: View, d: Key): View
    requires d in v
  {
    if v[d].refcnt <= 1 then v - {d} else v[d := Entry(v[d].id, v[d].refcnt - 1)]
  }
}
