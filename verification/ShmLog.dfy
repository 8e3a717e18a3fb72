/** The shared memory log of bin/varnishd/shmlog.c: records written into one buffer that wraps, directly or
    through the buffer of a worker, and the scan by record length that include/shmlog.h lays down. */
module ShmLog {
  import opened Bytes

  const ENDMARKER: byte := 0
  const WRAPMARKER: byte := 255

  /** SHMLOG_DATA and SHMLOG_NEXTTAG. */
  const DATA: nat := 7
  const NEXTTAG: nat := 8

  datatype Record = Record(tag: byte, id: nat, data: seq<byte>)

  ghost predicate Loggable(r: Record) {
    r.tag != ENDMARKER && r.tag != WRAPMARKER && r.id < 0x1_0000_0000 && |r.data| < 0x1_0000
  }

  /** The header of vsl_hdr: the tag, two bytes of length and four of identifier, high byte first. */
  function Head(tag: byte, len: nat, id: nat): (h: seq<byte>)
    ensures |h| == DATA
  {
    [tag, len / 256 % 256, len % 256, id / 0x1000000 % 256, id / 0x10000 % 256, id / 0x100 % 256, id % 256]
  }

  function Encode(r: Record): (e: seq<byte>)
    ensures |e| == NEXTTAG + |r.data|
  {
    Head(r.tag, |r.data|, r.id) + r.data + [0]
  }

  function EncodeAll(rs: seq<Record>): seq<byte> {
    if rs == [] then [] else EncodeAll(rs[..|rs| - 1]) + Encode(rs[|rs| - 1])
  }

  /** SHMLOG_LEN and SHMLOG_ID. */
  function Len(s: seq<byte>): nat
    requires |s| >= DATA
  {
    256 * (s[1] as nat) + s[2] as nat
  }

  function Id(s: seq<byte>): nat
    requires |s| >= DATA
  {
    0x1000000 * (s[3] as nat) + 0x10000 * (s[4] as nat) + 0x100 * (s[5] as nat) + s[6] as nat
  }

  /** The scan: by record length, up to a marker or the end of the bytes. */
  function Scan(s: seq<byte>): seq<Record> {
    if |s| < NEXTTAG || s[0] == ENDMARKER || s[0] == WRAPMARKER || |s| < NEXTTAG + Len(s) then
      []
    else
      [Record(s[0], Id(s), s[DATA..DATA + Len(s)])] + Scan(s[NEXTTAG + Len(s)..])
  }

  lemma HeadDecodes(tag: byte, len: nat, id: nat)
    requires len < 0x1_0000 && id < 0x1_0000_0000
    ensures Len(Head(tag, len, id)) == len && Id(Head(tag, len, id)) == id
  {
    assert id / 0x100 / 0x100 == id / 0x10000 && id / 0x10000 / 0x100 == id / 0x1000000;
  }

  /** One record in front is the first one the scan sees. */
  lemma ScanFirst(r: Record, s: seq<byte>)
    requires Loggable(r)
    ensures Scan(Encode(r) + s) == [r] + Scan(s)
  {
    HeadDecodes(r.tag, |r.data|, r.id);
    var h, t := Head(r.tag, |r.data|, r.id), Encode(r) + s;
    assert t == h + (r.data + [0] + s);
    assert Len(t) == |r.data| && Id(t) == r.id && t[0] == r.tag;
    assert t[DATA..DATA + |r.data|] == r.data && t[NEXTTAG + |r.data|..] == s;
  }

  /** The scan of encoded records, up to an end marker, gives back the records. */
  lemma ScanAll(rs: seq<Record>, s: seq<byte>)
    requires (forall j :: 0 <= j < |rs| ==> Loggable(rs[j])) && (s == [] || s[0] == ENDMARKER)
    ensures Scan(EncodeAll(rs) + s) == rs
  {
    ScanOn(rs, s);
    assert Scan(s) == [];
  }

  lemma {:induction false} ScanOn(rs: seq<Record>, s: seq<byte>)
    requires forall j :: 0 <= j < |rs| ==> Loggable(rs[j])
    ensures Scan(EncodeAll(rs) + s) == rs + Scan(s)
  {
    hide Scan, Encode, Loggable;
    if rs == [] {
      assert EncodeAll(rs) + s == s;
    } else {
      var n := |rs| - 1;
      assert EncodeAll(rs) + s == EncodeAll(rs[..n]) + (Encode(rs[n]) + s);
      ScanOn(rs[..n], Encode(rs[n]) + s);
      ScanFirst(rs[n], s);
      assert rs == rs[..n] + [rs[n]];
    }
  }

  /** The byte at `i` after vsl_hdr. */
  function HdrAt(s: seq<byte>, tag: byte, p: nat, len: nat, id: nat, i: nat): byte
    requires i < |s|
  {
    if p <= i < p + DATA then Head(tag, len, id)[i - p]
    else if i == p + DATA + len then 0
    else if i == p + NEXTTAG + len then ENDMARKER
    else s[i]
  }

  /** vsl_hdr: the header before the data, and a NUL and an end marker after it. */
  method VslHdr(a: array<byte>, tag: byte, p: nat, len: nat, id: nat)
    requires len < 0x1_0000 && p + NEXTTAG + len < a.Length
    modifies a
    ensures forall i :: 0 <= i < a.Length ==> a[i] == HdrAt(old(a[..]), tag, p, len, id, i)
  {
    var h := Head(tag, len, id);
    assert h[0] == tag;
    hide Head;
    LenAndId(a, p, h);
    a[p + DATA + len] := 0;
    a[p + NEXTTAG + len] := ENDMARKER;
    a[p] := tag;
  }

  /** All of the header `h` but the tag. */
  method LenAndId(a: array<byte>, p: nat, h: seq<byte>)
    requires |h| == DATA && p + DATA <= a.Length
    modifies a
    ensures forall i :: 0 <= i < a.Length ==> a[i] == if p < i < p + DATA then h[i - p] else old(a[i])
  {
    a[p + 1], a[p + 2] := h[1], h[2];
    a[p + 3], a[p + 4], a[p + 5], a[p + 6] := h[3], h[4], h[5], h[6];
  }

  /** The data and then its header: a record followed by an end marker. */
  method Put(a: array<byte>, p: nat, r: Record)
    requires Loggable(r) && p + NEXTTAG + |r.data| < a.Length
    modifies a
    ensures a[..] == Patched(old(a[..]), p, Encode(r) + [ENDMARKER])
  {
    MemCpy(a, p + DATA, r.data);
    ghost var s := a[..];
    VslHdr(a, r.tag, p, |r.data|, r.id);
    PutIs(old(a[..]), s, a[..], p, r);
  }

  lemma PutIs(s: seq<byte>, s1: seq<byte>, s2: seq<byte>, p: nat, r: Record)
    requires p + NEXTTAG + |r.data| < |s| == |s2| && s1 == Patched(s, p + DATA, r.data)
    requires forall i :: 0 <= i < |s| ==> s2[i] == HdrAt(s1, r.tag, p, |r.data|, r.id, i)
    ensures s2 == Patched(s, p, Encode(r) + [ENDMARKER])
  {
    hide Head;
    var t := Patched(s, p, Encode(r) + [ENDMARKER]);
    forall i | 0 <= i < |s|
      ensures s2[i] == t[i]
    {
      if p <= i < p + DATA {
        assert t[i] == Head(r.tag, |r.data|, r.id)[i - p];
      }
    }
  }

  lemma {:induction false} EncodeAllSum(a: seq<Record>, b: seq<Record>)
    ensures EncodeAll(a + b) == EncodeAll(a) + EncodeAll(b)
  {
    hide Encode;
    if b == [] {
      assert a + b == a;
    } else {
      var n := |b| - 1;
      assert (a + b)[..|a| + n] == a + b[..n];
      EncodeAllSum(a, b[..n]);
    }
  }

  /** Records written behind others, with an end marker. */
  lemma Extended(s: seq<byte>, p: nat, before: seq<Record>, more: seq<Record>)
    requires p + |EncodeAll(more)| < |s| && s[..p] == EncodeAll(before)
    ensures var t := Patched(s, p, EncodeAll(more) + [ENDMARKER]);
            && t[..p + |EncodeAll(more)|] == EncodeAll(before + more)
            && t[p + |EncodeAll(more)|] == ENDMARKER
  {
    EncodeAllSum(before, more);
  }

  /** A record and who wrote it. */
  datatype Write = Write(writer: nat, rec: Record)

  function Records(w: seq<Write>): (rs: seq<Record>)
    ensures |rs| == |w| && forall j :: 0 <= j < |w| ==> rs[j] == w[j].rec
  {
    if w == [] then [] else Records(w[..|w| - 1]) + [w[|w| - 1].rec]
  }

  function By(rs: seq<Record>, i: nat): (w: seq<Write>)
    ensures |w| == |rs| && forall j :: 0 <= j < |w| ==> w[j] == Write(i, rs[j])
  {
    if rs == [] then [] else By(rs[..|rs| - 1], i) + [Write(i, rs[|rs| - 1])]
  }

  /** The records that writer `i` wrote, in order. */
  function From(w: seq<Write>, i: nat): seq<Record> {
    if w == [] then [] else From(w[..|w| - 1], i) + if w[|w| - 1].writer == i then [w[|w| - 1].rec] else []
  }

  lemma {:induction false} FromMore(w: seq<Write>, rs: seq<Record>, k: nat, i: nat)
    ensures From(w + By(rs, k), i) == From(w, i) + if i == k then rs else []
  {
    if rs == [] {
      assert w + By(rs, k) == w;
    } else {
      var n := |rs| - 1;
      assert (w + By(rs, k))[..|w| + n] == w + By(rs[..n], k);
      FromMore(w, rs[..n], k, i);
      assert rs == rs[..n] + [rs[n]];
    }
  }

  lemma FromAll(w: seq<Write>, rs: seq<Record>, k: nat, n: nat)
    ensures forall i :: 0 <= i < n ==> From(w + By(rs, k), i) == From(w, i) + if i == k then rs else []
  {
    forall i | 0 <= i < n
      ensures From(w + By(rs, k), i) == From(w, i) + if i == k then rs else []
    {
      FromMore(w, rs, k, i);
    }
  }

  /** The last records stay the last ones when more are written. */
  lemma {:induction false} RecordsTail(w: seq<Write>, last: seq<Record>, rs: seq<Record>, k: nat)
    requires |last| <= |w| && last == Records(w)[|w| - |last|..]
    ensures last + rs == Records(w + By(rs, k))[|w| - |last|..]
  {
    hide Records, By;
    var n, t := |w| - |last|, Records(w + By(rs, k));
    forall j | 0 <= j < |last| + |rs|
      ensures (last + rs)[j] == t[n..][j]
    {
      assert t[n..][j] == (w + By(rs, k))[n + j].rec;
    }
  }

  class Worker {
    const wlb: array<byte>
    var wlp: nat
    var wlr: nat
    ghost var pending: seq<Record>

    ghost predicate Valid(reclen: nat)
      reads this, wlb
    {
      && NEXTTAG + reclen + 1 < wlb.Length && wlp < wlb.Length && wlr == |pending|
      && wlb[..wlp] == EncodeAll(pending)
      && forall j :: 0 <= j < |pending| ==> Loggable(pending[j])
    }

    constructor (size: nat, reclen: nat)
      requires NEXTTAG + reclen + 1 < size
      ensures Valid(reclen) && fresh(wlb) && wlb.Length == size && pending == []
    {
      wlb := new byte[size];
      wlp, wlr, pending := 0, 0, [];
    }

    /** The end of WSLR and WSL: a record behind the others in the buffer. */
    method Add(r: Record, reclen: nat)
      requires Valid(reclen) && Loggable(r) && wlp + NEXTTAG + |r.data| + 1 < wlb.Length
      modifies this, wlb
      ensures Valid(reclen) && pending == old(pending) + [r]
    {
      hide Encode;
      ghost var s := wlb[..];
      Put(wlb, wlp, r);
      assert EncodeAll([r]) == Encode(r);
      Extended(s, wlp, pending, [r]);
      wlp := wlp + NEXTTAG + |r.data|;
      wlr := wlr + 1;
      pending := pending + [r];
    }
  }

  class Log {
    const reclen: nat
    const log: array<byte>
    const workers: seq<Worker>
    ghost const bufs: seq<array<byte>>
    var ptr: nat
    /** The records since the last wrap. */
    ghost var recs: seq<Record>
    /** All records ever written to the log. */
    ghost var written: seq<Write>
    /** All records each worker has logged. */
    ghost var sent: seq<seq<Record>>

    ghost predicate Shape()
      reads this`sent
    {
      && NEXTTAG + reclen + 1 < log.Length && reclen < 0x1_0000 && |sent| == |workers|
      && |bufs| == |workers|
      && (forall i, j :: 0 <= i < j < |workers| ==> workers[i] != workers[j] && bufs[i] != bufs[j])
      && (forall i :: 0 <= i < |workers| ==> bufs[i] != log && bufs[i].Length < log.Length)
    }

    ghost predicate LogOk()
      reads this`ptr, this`recs, this`written, log
    {
      LogOkAt(ptr)
    }

    /** Below `p` the log holds the last records written, and at `p` an end marker. */
    ghost predicate LogOkAt(p: nat)
      reads this`recs, this`written, log
    {
      && p < log.Length && log[..p] == EncodeAll(recs) && log[p] == ENDMARKER
      && (forall j :: 0 <= j < |recs| ==> Loggable(recs[j]))
      && |recs| <= |written| && recs == Records(written)[|written| - |recs|..]
    }

    ghost predicate WorkersOk()
      reads workers, bufs
    {
      |bufs| == |workers| && forall i :: 0 <= i < |workers| ==> workers[i].wlb == bufs[i] && workers[i].Valid(reclen)
    }

    ghost predicate SentOk()
      reads this`written, this`sent, workers`pending
    {
      |sent| == |workers| && forall i :: 0 <= i < |workers| ==> From(written, i) + workers[i].pending == sent[i]
    }

    ghost predicate Valid()
      reads this, log, workers, bufs
    {
      Shape() && LogOk() && WorkersOk() && SentOk()
    }

    /** A new log: the file is zero, and an end marker is zero. */
    constructor (size: nat, reclen: nat, workers: seq<Worker>)
      requires NEXTTAG + reclen + 1 < size && reclen < 0x1_0000
      requires forall i :: 0 <= i < |workers| ==>
        workers[i].Valid(reclen) && workers[i].pending == [] && workers[i].wlb.Length < size
      requires forall i, j :: 0 <= i < j < |workers| ==> workers[i] != workers[j] && workers[i].wlb != workers[j].wlb
      ensures Valid() && fresh(log) && recs == [] && written == [] && this.workers == workers && this.reclen == reclen
      ensures forall i :: 0 <= i < |workers| ==> sent[i] == []
    {
      this.reclen, this.workers := reclen, workers;
      bufs := seq(|workers|, i requires 0 <= i < |workers| => workers[i].wlb);
      sent := seq(|workers|, i => []);
      log := new byte[size](_ => 0);
      ptr, recs, written := 0, [], [];
    }

    /** A reader sees exactly the records since the last wrap, and stops at the write position. */
    lemma Readable()
      requires LogOk()
      ensures Scan(log[..]) == recs && |EncodeAll(recs)| == ptr && log[ptr] == ENDMARKER
      ensures |recs| <= |written| && recs == Records(written)[|written| - |recs|..]
    {
      assert log[..] == log[..ptr] + log[ptr..];
      ScanAll(recs, log[ptr..]);
    }

    /* ---- the log ---- */

    /** vsl_wrap. */
    method Wrap()
      requires LogOk() && ptr > 0
      modifies log, this`ptr, this`recs
      ensures LogOk() && ptr == 0 && recs == [] && log[old(ptr)] == WRAPMARKER
    {
      log[0] := ENDMARKER;
      log[ptr] := WRAPMARKER;
      ptr := 0;
      recs := [];
    }

    /** Wrap if `l` bytes and an end marker do not fit. */
    method Room(l: nat)
      requires LogOk() && l + 1 < log.Length
      modifies log, this`ptr, this`recs
      ensures LogOk() && ptr + l + 1 < log.Length
      ensures recs == if old(Wraps(l)) then [] else old(recs)
      ensures old(Wraps(l)) ==> ptr == 0 && log[old(ptr)] == WRAPMARKER
      ensures !old(Wraps(l)) ==> ptr == old(ptr)
    {
      if ptr + l + 1 >= log.Length {
        Wrap();
      }
    }

    predicate Wraps(l: nat)
      reads this`ptr
    {
      ptr + l + 1 >= log.Length
    }

    /** The records `rs` of writer `k` have been written at `p`, behind the others. */
    ghost method Note(p: nat, rs: seq<Record>, k: nat, s: seq<byte>)
      requires p + |EncodeAll(rs)| < log.Length == |s| && s[..p] == EncodeAll(recs)
      requires log[..] == Patched(s, p, EncodeAll(rs) + [ENDMARKER])
      requires |recs| <= |written| && recs == Records(written)[|written| - |recs|..]
      requires (forall j :: 0 <= j < |recs| ==> Loggable(recs[j])) && (forall j :: 0 <= j < |rs| ==> Loggable(rs[j]))
      requires SentOkBut(k, rs)
      modifies this`recs, this`written
      ensures recs == old(recs) + rs && written == old(written) + By(rs, k)
      ensures LogOkAt(p + |EncodeAll(rs)|) && SentOk()
    {
      Extended(s, p, recs, rs);
      RecordsTail(written, recs, rs, k);
      FromAll(written, rs, k, |workers|);
      recs, written := recs + rs, written + By(rs, k);
    }

    /** What is still to be noted are the records `rs` of writer `k`. */
    ghost predicate SentOkBut(k: nat, rs: seq<Record>)
      reads this`written, this`sent, workers`pending
    {
      |sent| == |workers| && forall i :: 0 <= i < |workers| ==>
        From(written, i) + (if i == k then rs else []) + workers[i].pending == sent[i]
    }

    /** VSLR: one record straight to the log, truncated to the length limit. */
    method VSLR(tag: byte, id: nat, t: seq<byte>)
      requires Valid() && tag != ENDMARKER && tag != WRAPMARKER && id < 0x1_0000_0000
      modifies log, this`ptr, this`recs, this`written
      ensures Valid() && Wrote(NEXTTAG + Shorter(|t|), [Record(tag, id, t[..Shorter(|t|)])], |workers|)
    {
      hide LogOkAt, WorkersOk, SentOk, EncodeAll, Records, From, By;
      var l := |t|;
      if l > reclen {
        l := reclen;
      }
      Room(NEXTTAG + l);
      var p := ptr;
      ptr := ptr + NEXTTAG + l;
      WriteAt(p, Record(tag, id, t[..l]));
    }

    function Shorter(n: nat): nat {
      if n > reclen then reclen else n
    }

    /** `rs` of writer `k` have been added to the log, which has wrapped if `l` bytes did not fit. */
    twostate predicate Wrote(l: nat, rs: seq<Record>, k: nat)
      reads this`recs, this`written, this`ptr
    {
      && recs == (if old(Wraps(l)) then [] else old(recs)) + rs
      && written == old(written) + By(rs, k)
      && ptr == (if old(Wraps(l)) then 0 else old(ptr)) + |EncodeAll(rs)|
    }

    /** A record at `p`, where the log ended. */
    method WriteAt(p: nat, r: Record)
      requires LogOkAt(p) && Loggable(r) && p + NEXTTAG + |r.data| < log.Length && SentOk()
      modifies log, this`recs, this`written
      ensures LogOkAt(p + NEXTTAG + |r.data|) && SentOk() && |EncodeAll([r])| == NEXTTAG + |r.data|
      ensures recs == old(recs) + [r] && written == old(written) + By([r], |workers|)
    {
      hide Records, From, By, Encode;
      ghost var s := log[..];
      Put(log, p, r);
      assert EncodeAll([r]) == Encode(r);
      Note(p, [r], |workers|, s);
    }

    /** VSL: a text without conversions goes to VSLR; a formatted one makes room for a record of full length. */
    method VSL(tag: byte, id: nat, formatted: bool, text: seq<byte>)
      requires Valid() && tag != ENDMARKER && tag != WRAPMARKER && id < 0x1_0000_0000
      modifies log, this`ptr, this`recs, this`written
      ensures Valid()
      ensures Wrote(NEXTTAG + if formatted then reclen else Shorter(|text|),
                    [Record(tag, id, text[..Shorter(|text|)])], |workers|)
    {
      hide LogOkAt, WorkersOk, SentOk, EncodeAll, Records, From, By;
      if !formatted {
        VSLR(tag, id, text);
        return;
      }
      Room(NEXTTAG + reclen);
      var p := ptr;
      var n := |text|;
      if n > reclen {
        n := reclen;
      }
      WriteAt(p, Record(tag, id, text[..n]));
      ptr := ptr + NEXTTAG + n;
    }

    /* ---- the workers ---- */

    /** WSL_Flush: the worker's records go to the log, the tag of the first one last. */
    method Flush(i: nat)
      requires Valid() && i < |workers|
      modifies log, this`ptr, this`recs, this`written, workers[i]
      ensures Valid() && workers[i].pending == [] && workers[i].wlp == 0
      ensures old(workers[i].pending) != [] ==> Wrote(old(workers[i].wlp), old(workers[i].pending), i)
      ensures old(workers[i].pending) == [] ==> written == old(written) && recs == old(recs) && ptr == old(ptr)
    {
      hide SentOk, EncodeAll, Records, From, By;
      var l := workers[i].wlp;
      Buffered(i);
      Empty(workers[i].pending);
      if l > 0 {
        Room(l);
        hide WorkersOk;
        Ship(i);
      }
    }

    lemma Buffered(i: nat)
      requires Shape() && WorkersOk() && i < |workers|
      ensures var w := workers[i];
              && NEXTTAG + reclen + 1 < w.wlb.Length && w.wlb != log && w.wlp < w.wlb.Length < log.Length &&
                w.wlb[..w.wlp] == EncodeAll(w.pending)
              && w.wlp == |EncodeAll(w.pending)| && forall j :: 0 <= j < |w.pending| ==> Loggable(w.pending[j])
    {
    }

    /** The records of worker `i` fit, and go to the log. */
    method Ship(i: nat)
      requires Valid() && i < |workers| && workers[i].wlp > 0 && ptr + workers[i].wlp + 1 < log.Length
      modifies log, this`ptr, this`recs, this`written, workers[i]
      ensures Valid() && workers[i].pending == [] && workers[i].wlp == 0 && ptr == old(ptr) + old(workers[i].wlp)
      ensures recs == old(recs) + old(workers[i].pending) && written == old(written) + By(old(workers[i].pending), i)
    {
      hide WorkersOk, EncodeAll, Records, From, By;
      var w := workers[i];
      var p, l := ptr, w.wlp;
      Buffered(i);
      ghost var s, rs := log[..], w.pending;
      ptr := ptr + l;
      CopyIn(w.wlb, p, l);
      Clear(i);
      Note(p, rs, i, s);
    }

    method Clear(i: nat)
      requires Shape() && WorkersOk() && i < |workers|
      modifies workers[i]
      ensures WorkersOk() && workers[i].pending == [] && workers[i].wlp == 0
    {
      var w := workers[i];
      w.wlp, w.wlr, w.pending := 0, 0, [];
    }

    /** The end marker, then all but the first byte, then the first byte. */
    method CopyIn(b: array<byte>, p: nat, l: nat)
      requires b != log && 0 < l <= b.Length && p + l < log.Length
      modifies log
      ensures log[..] == Patched(old(log[..]), p, b[..l] + [ENDMARKER])
    {
      log[p + l] := ENDMARKER;
      MemCpy(log, p + 1, b[1..l]);
      log[p] := b[0];
    }

    static lemma Empty(rs: seq<Record>)
      ensures |EncodeAll(rs)| == 0 <==> rs == []
      ensures EncodeAll([]) == []
    {
    }

    /** WSLR: one record to the worker's buffer, which is flushed first if it would not fit. */
    method WSLR(i: nat, tag: byte, id: nat, t: seq<byte>, sync: bool)
      requires Valid() && i < |workers| && tag != ENDMARKER && tag != WRAPMARKER && id < 0x1_0000_0000
      modifies log, this`ptr, this`recs, this`written, this`sent, workers[i], workers[i].wlb
      ensures Valid() && sent == old(sent)[i := old(sent)[i] + [Record(tag, id, t[..Shorter(|t|)])]]
      ensures OnlyFrom(i) && workers[i].pending == if sync then [] else
        Kept(old(workers[i].pending), Shorter(|t|), workers[i].wlb.Length) + [Record(tag, id, t[..Shorter(|t|)])]
    {
      hide LogOk, LogOkAt, WorkersOk, SentOk, EncodeAll, Records, From, By;
      var l := |t|;
      if l > reclen {
        l := reclen;
      }
      Buffer(i, l, Record(tag, id, t[..l]));
      if sync {
        FlushOnly(i);
      }
    }

    /** WSL: the same, but a formatted text makes room for a record of full length. */
    method WSL(i: nat, tag: byte, id: nat, formatted: bool, text: seq<byte>, sync: bool)
      requires Valid() && i < |workers| && tag != ENDMARKER && tag != WRAPMARKER && id < 0x1_0000_0000
      modifies log, this`ptr, this`recs, this`written, this`sent, workers[i], workers[i].wlb
      ensures Valid() && sent == old(sent)[i := old(sent)[i] + [Record(tag, id, text[..Shorter(|text|)])]]
      ensures OnlyFrom(i) && workers[i].pending == if sync then [] else
        Kept(old(workers[i].pending), if formatted then reclen else Shorter(|text|), workers[i].wlb.Length) +
          [Record(tag, id, text[..Shorter(|text|)])]
    {
      hide LogOk, LogOkAt, WorkersOk, SentOk, EncodeAll, Records, From, By;
      if !formatted {
        WSLR(i, tag, id, text, sync);
      } else {
        var n := |text|;
        if n > reclen {
          n := reclen;
        }
        Buffer(i, reclen, Record(tag, id, text[..n]));
      }
      if sync {
        FlushOnly(i);
      }
    }

    /** The log has grown by records of writer `i` alone. */
    twostate predicate OnlyFrom(i: nat)
      reads this`written
    {
      old(written) <= written && forall j :: 0 <= j <= |workers| && j != i ==> From(written, j) == From(old(written), j)
    }

    /** Flush, but all it says of the log is whose records it got. */
    method FlushOnly(i: nat)
      requires Valid() && i < |workers|
      modifies log, this`ptr, this`recs, this`written, workers[i]
      ensures Valid() && workers[i].pending == [] && workers[i].wlp == 0 && OnlyFrom(i)
    {
      hide Shape, LogOk, WorkersOk, SentOk, EncodeAll, Records, From, By;
      FromAll(written, workers[i].pending, i, |workers| + 1);
      Flush(i);
    }

    /** What stays in a buffer of `size` bytes when room is made for a record of `l` bytes. */
    static ghost function Kept(rs: seq<Record>, l: nat, size: nat): seq<Record> {
      if |EncodeAll(rs)| + 8 + l + 1 < size then rs else []
    }

    /** Make room for `l` bytes of data in the worker's buffer, and put the record there. */
    method Buffer(i: nat, l: nat, r: Record)
      requires Valid() && i < |workers| && Loggable(r) && |r.data| <= l <= reclen
      modifies log, this`ptr, this`recs, this`written, this`sent, workers[i], workers[i].wlb
      ensures Valid() && sent == old(sent)[i := old(sent)[i] + [r]] && OnlyFrom(i)
      ensures workers[i].pending == Kept(old(workers[i].pending), l, workers[i].wlb.Length) + [r]
    {
      hide LogOk, SentOk, WorkersOk, Worker.Valid, EncodeAll, Records, From, By;
      var w := workers[i];
      Buffered(i);
      if w.wlp + NEXTTAG + l + 1 >= w.wlb.Length {
        FlushOnly(i);
      }
      label L:
      AddTo(i, r);
      sent := sent[i := sent[i] + [r]];
      Sent@L(i);
    }

    method AddTo(i: nat, r: Record)
      requires Shape() && WorkersOk() && i < |workers| && Loggable(r)
      requires workers[i].wlp + NEXTTAG + |r.data| + 1 < workers[i].wlb.Length
      modifies workers[i], workers[i].wlb
      ensures WorkersOk() && workers[i].pending == old(workers[i].pending) + [r]
    {
      hide EncodeAll;
      workers[i].Add(r, reclen);
    }

    twostate lemma Sent(i: nat)
      requires old(SentOk()) && i < |workers| && |sent| == |old(sent)| && |sent[i]| > 0
      requires var r := sent[i][|sent[i]| - 1];
               sent == old(sent)[i := old(sent)[i] + [r]] && workers[i].pending == old(workers[i].pending) + [r]
      requires forall j :: 0 <= j < |workers| && j != i ==> workers[j].pending == old(workers[j].pending)
      requires written == old(written)
      ensures SentOk()
    {
    }

    /* ---- runs ---- */

    lemma AllSent()
      requires SentOk()
      ensures |sent| == |workers|
      ensures forall i :: 0 <= i < |workers| ==> From(written, i) + workers[i].pending == sent[i]
    {
    }

    /** One operation; a tag that is a marker or an identifier of more than 32 bits is not used. */
    method Do(op: Op)
      requires Valid() && |sent| == |workers|
      modifies this, log, workers, bufs
      ensures Valid() && |sent| == |workers|
      ensures forall i :: 0 <= i < |workers| ==> sent[i] == old(sent)[i] + AskedOne(op, i, |workers|, reclen)
      ensures Direct() == old(Direct()) + AskedOne(op, |workers|, |workers|, reclen)
      ensures forall i :: 0 <= i < |workers| ==>
        workers[i].pending == PendingOne(old(workers[i].pending), op, i, reclen, workers[i].wlb.Length)
    {
      hide LogOk, SentOk, EncodeAll, Records, From, By, Worker.Valid, Kept;
      match op
      case Direct(tag, id, formatted, text) =>
        if tag != ENDMARKER && tag != WRAPMARKER && id < 0x1_0000_0000 {
          FromMore(written, [Record(tag, id, text[..Shorter(|text|)])], |workers|, |workers|);
          VSL(tag, id, formatted, text);
        }
      case Work(i, tag, id, formatted, text, sync) =>
        if i < |workers| && tag != ENDMARKER && tag != WRAPMARKER && id < 0x1_0000_0000 {
          WSL(i, tag, id, formatted, text, sync);
        }
      case Flush(i) =>
        if i < |workers| {
          FlushOnly(i);
        }
    }

    /** The records written straight to the log. */
    ghost function Direct(): seq<Record>
      reads this`written
    {
      From(written, |workers|)
    }

    /** Any interleaving of direct and worker records leaves a log that reads as the last records written, and
        loses, repeats or reorders no record of any worker. */
    method Run(ops: seq<Op>)
      requires Valid()
      modifies this, log, workers, bufs
      ensures Valid() && Scan(log[..]) == recs && |recs| <= |written| && recs == Records(written)[|written| - |recs|..]
      ensures forall i :: 0 <= i < |workers| ==>
        From(written, i) + workers[i].pending == sent[i] && sent[i] == old(sent[i]) + Asked(ops, i, |workers|, reclen)
      ensures Direct() == old(Direct()) + Asked(ops, |workers|, |workers|, reclen)
      ensures forall i :: 0 <= i < |workers| ==>
        workers[i].pending == Pending(old(workers[i].pending), ops, i, reclen, workers[i].wlb.Length)
    {
      hide Shape, LogOk, WorkersOk, SentOk, Records, EncodeAll, Log.Direct, Scan, AskedOne, PendingOne;
      AllSent();
      for n := 0 to |ops|
        invariant Valid() && |sent| == |workers| == |old(sent)|
        invariant forall i :: 0 <= i < |workers| ==> sent[i] == old(sent)[i] + Asked(ops[..n], i, |workers|, reclen)
        invariant Direct() == old(Direct()) + Asked(ops[..n], |workers|, |workers|, reclen)
        invariant forall i :: 0 <= i < |workers| ==>
          workers[i].pending == Pending(old(workers[i].pending), ops[..n], i, reclen, workers[i].wlb.Length)
      {
        Do(ops[n]);
        assert ops[..n + 1][..n] == ops[..n];
      }
      assert ops[..|ops|] == ops;
      Readable();
      AllSent();
    }
  }

  datatype Op =
    | Direct(tag: byte, id: nat, formatted: bool, text: seq<byte>)
    | Work(i: nat, tag: byte, id: nat, formatted: bool, text: seq<byte>, sync: bool)
    | Flush(i: nat)

  /** What an operation adds to what writer `i` has logged; direct records come from writer `n`. */
  function AskedOne(op: Op, i: nat, n: nat, reclen: nat): seq<Record> {
    if op.Flush? || op.tag == ENDMARKER || op.tag == WRAPMARKER || op.id >= 0x1_0000_0000 then []
    else if (if op.Work? then op.i < n && i == op.i else i == n) then
      [Record(op.tag, op.id, op.text[..if |op.text| > reclen then reclen else |op.text|])]
    else []
  }

  /** What is left in the buffer of worker `i`, of `size` bytes, after an operation. */
  ghost function PendingOne(rs: seq<Record>, op: Op, i: nat, reclen: nat, size: nat): seq<Record> {
    match op
    case Direct(_, _, _, _) => rs
    case Flush(k) => if k == i then [] else rs
    case Work(k, tag, id, formatted, text, sync) =>
      if k != i || tag == ENDMARKER || tag == WRAPMARKER || id >= 0x1_0000_0000 then rs
      else if sync then []
      else
        var l := if |text| > reclen then reclen else |text|;
        Log.Kept(rs, if formatted then reclen else l, size) + [Record(tag, id, text[..l])]
  }

  ghost function Pending(rs: seq<Record>, ops: seq<Op>, i: nat, reclen: nat, size: nat): seq<Record> {
    if ops == [] then rs
    else PendingOne(Pending(rs, ops[..|ops| - 1], i, reclen, size), ops[|ops| - 1], i, reclen, size)
  }

  function Asked(ops: seq<Op>, i: nat, n: nat, reclen: nat): seq<Record> {
    if ops == [] then [] else Asked(ops[..|ops| - 1], i, n, reclen) + AskedOne(ops[|ops| - 1], i, n, reclen)
  }
}
