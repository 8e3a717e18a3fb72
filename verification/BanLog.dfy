/** The ban log of bin/varnishd/storage_persistent.c: bans appended, signed, to an area of a silo, and read back
    when the silo is opened. */
module BanLog {
  import opened Bytes

  /** A ban as it is logged: the bytes of its time stamp, and its text. */
  datatype Logged = Logged(t0: seq<byte>, text: seq<byte>)

  /** SHA256_LEN. */
  const SHA: nat := 32

  const HEADER: nat := 20

  /** "BAN" with its NUL. */
  const MARK: seq<byte> := [66, 65, 78, 0]

  /** A uint32_t, low byte first. */
  function Word(n: nat): (s: seq<byte>)
    requires n < 0x1_0000_0000
    ensures |s| == 4
  {
    [n % 256, n / 0x100 % 256, n / 0x10000 % 256, n / 0x1000000]
  }

  function WordAt(s: seq<byte>, p: nat): nat
    requires p + 4 <= |s|
  {
    s[p] as nat + 0x100 * (s[p + 1] as nat) + 0x10000 * (s[p + 2] as nat) + 0x1000000 * (s[p + 3] as nat)
  }

  lemma WordDecodes(n: nat, s: seq<byte>, p: nat)
    requires n < 0x1_0000_0000 && p + 4 <= |s| && s[p..p + 4] == Word(n)
    ensures WordAt(s, p) == n
  {
    assert s[p] == s[p..p + 4][0] && s[p + 1] == s[p..p + 4][1] && s[p + 2] == s[p..p + 4][2] &&
      s[p + 3] == s[p..p + 4][3];
    assert n / 0x100 / 0x100 == n / 0x10000 && n / 0x10000 / 0x100 == n / 0x1000000;
  }

  /** A time stamp of eight bytes, and a text without a NUL. */
  ghost predicate BanOk(b: Logged) {
    |b.t0| == 8 && 0 !in b.text && |b.text| + 1 < 0x1_0000_0000
  }

  function Encode(b: Logged): (s: seq<byte>)
    requires BanOk(b)
    ensures |s| == |b.text| + 21
  {
    MARK + b.t0 + Word(0) + Word(|b.text| + 1) + b.text + [0]
  }

  /** The bytes of a logged ban: "BAN" and a NUL, the time, no flags, the length of the text with its NUL, low byte
      first, and the text with its NUL. */
  lemma Layout(b: Logged)
    requires BanOk(b)
    ensures var e, n := Encode(b), |b.text|;
            && e[0] as int == 'B' as int && e[1] as int == 'A' as int && e[2] as int == 'N' as int && e[3] == 0
            && e[4..12] == b.t0 && e[12..16] == [0, 0, 0, 0]
            && e[16] as nat + 256 * (e[17] as nat + 256 * (e[18] as nat + 256 * e[19] as nat)) == n + 1
            && e[20..20 + n] == b.text && e[20 + n] == 0
  {
    var w := Word(|b.text| + 1);
    assert w[0..4] == w;
    WordDecodes(|b.text| + 1, w, 0);
  }

  /** The C string at `p`. */
  function CString(s: seq<byte>, p: nat): (t: seq<byte>)
    requires p <= |s|
    ensures p + |t| <= |s| && t == s[p..p + |t|]
    decreases |s| - p
  {
    if p == |s| || s[p] == 0 then [] else [s[p]] + CString(s, p + 1)
  }

  /** The bans that were reloaded, and the return code; none if the assertion at the end fails. */
  datatype Opened = Opened(bans: seq<Logged>, code: int) | Asserts

  function After(b: Logged, o: Opened): Opened {
    if o.Asserts? then Asserts else Opened([b] + o.bans, o.code)
  }

  function Stop(p: nat, pe: nat, code: int): Opened {
    if p <= pe then Opened([], code) else Asserts
  }

  /** What smp_open_bans makes of the bytes from `p` to `pe`. */
  function Read(s: seq<byte>, p: nat, pe: nat): Opened
    requires pe + HEADER <= |s|
    decreases pe - p
  {
    if p >= pe then Stop(p, pe, 0)
    else if s[p..p + 4] != MARK then Stop(p, pe, 1001)
    else if WordAt(s, p + 12) != 0 then Stop(p + 16, pe, 1002)
    else
      var n, q := WordAt(s, p + 16), p + HEADER;
      if q + n > pe then Stop(q, pe, 1003)
      else if s[q + n - 1] != 0 then Stop(q, pe, 1004)
      else After(Logged(s[p + 4..p + 12], CString(s, q)), Read(s, q + n, pe))
  }

  function EncodeAll(bs: seq<Logged>): seq<byte>
    requires AllOk(bs)
  {
    if bs == [] then [] else Encode(bs[0]) + EncodeAll(bs[1..])
  }

  ghost predicate AllOk(bs: seq<Logged>) {
    forall i :: 0 <= i < |bs| ==> BanOk(bs[i])
  }

  lemma {:induction false} EncodeAllMore(bs: seq<Logged>, b: Logged)
    requires AllOk(bs) && BanOk(b)
    ensures AllOk(bs + [b]) && EncodeAll(bs + [b]) == EncodeAll(bs) + Encode(b)
  {
    hide Encode, BanOk;
    assert AllOk(bs + [b]);
    if bs == [] {
      assert [] + [b] == [b] && [b][1..] == [];
    } else {
      var t := bs[1..];
      assert (bs + [b])[1..] == t + [b];
      EncodeAllMore(t, b);
      assert Encode(bs[0]) + (EncodeAll(t) + Encode(b)) == Encode(bs[0]) + EncodeAll(t) + Encode(b);
    }
  }

  lemma {:induction false} CStringIs(s: seq<byte>, p: nat, n: nat)
    requires p + n < |s| && (forall i :: p <= i < p + n ==> s[i] != 0) && s[p + n] == 0
    ensures CString(s, p) == s[p..p + n]
    decreases n
  {
    if n > 0 {
      CStringIs(s, p + 1, n - 1);
    }
  }

  /** The parts of a ban at `p`. */
  lemma {:induction false} Parts(s: seq<byte>, p: nat, b: Logged)
    requires BanOk(b) && p + |Encode(b)| <= |s| && s[p..p + |Encode(b)|] == Encode(b)
    ensures s[p..p + 4] == MARK && s[p + 4..p + 12] == b.t0 && s[p + 12..p + 16] == Word(0)
    ensures s[p + 16..p + HEADER] == Word(|b.text| + 1)
    ensures s[p + HEADER..p + HEADER + |b.text|] == b.text && s[p + HEADER + |b.text|] == 0
  {
    hide Word;
    var e, n := Encode(b), |b.text|;
    assert e[0..4] == MARK && e[4..12] == b.t0 && e[12..16] == Word(0) && e[16..20] == Word(n + 1);
    assert e[20..20 + n] == b.text && e[20 + n..21 + n] == [0];
    hide Encode;
    Sub(s, p, e, 0, 4);
    Sub(s, p, e, 4, 12);
    Sub(s, p, e, 12, 16);
    Sub(s, p, e, 16, 20);
    Sub(s, p, e, 20, 20 + n);
    Sub(s, p, e, 20 + n, 21 + n);
    assert s[p + HEADER + n] == s[p + 20 + n..p + 21 + n][0];
  }

  lemma {:induction false} Sub(s: seq<byte>, p: nat, e: seq<byte>, i: nat, j: nat)
    requires p + |e| <= |s| && s[p..p + |e|] == e && i <= j <= |e|
    ensures s[p + i..p + j] == e[i..j]
  {
    forall k | 0 <= k < j - i
      ensures s[p + i..p + j][k] == e[i..j][k]
    {
      assert s[p..p + |e|][i + k] == s[p + (i + k)];
    }
  }

  /** One ban at `p` is read back. */
  lemma {:induction false} ReadOne(s: seq<byte>, p: nat, pe: nat, b: Logged)
    requires BanOk(b) && pe + HEADER <= |s| && p + |Encode(b)| <= pe && s[p..p + |Encode(b)|] == Encode(b)
    ensures Read(s, p, pe) == After(b, Read(s, p + |Encode(b)|, pe))
  {
    hide Encode, CString, Word, WordAt;
    Parts(s, p, b);
    WordDecodes(0, s, p + 12);
    WordDecodes(|b.text| + 1, s, p + 16);
    var q, n := p + HEADER, |b.text|;
    forall i | q <= i < q + n
      ensures s[i] != 0
    {
      assert s[i] == s[q..q + n][i - q] && b.text[i - q] in b.text;
    }
    CStringIs(s, q, n);
  }

  lemma {:induction false} ReadOn(s: seq<byte>, p: nat, b: Logged, t: seq<byte>, rest: seq<Logged>)
    requires BanOk(b) && p + |Encode(b)| + |t| + HEADER <= |s| && s[p..p + |Encode(b)| + |t|] == Encode(b) + t
    requires Read(s, p + |Encode(b)|, p + |Encode(b)| + |t|) == Opened(rest, 0)
    ensures Read(s, p, p + |Encode(b)| + |t|) == Opened([b] + rest, 0)
  {
    hide Encode, BanOk, Read;
    Slices(s, p, Encode(b), t);
    ReadOne(s, p, p + |Encode(b)| + |t|, b);
  }

  lemma {:induction false} ReadEnd(s: seq<byte>, p: nat)
    requires p + HEADER <= |s|
    ensures Read(s, p, p) == Opened([], 0)
  {
  }

  /** All bans that were appended are read back, in order, and the return code is zero. */
  lemma {:induction false} RoundTrip(s: seq<byte>, p: nat, bs: seq<Logged>)
    requires AllOk(bs) && p + |EncodeAll(bs)| + HEADER <= |s| && s[p..p + |EncodeAll(bs)|] == EncodeAll(bs)
    ensures Read(s, p, p + |EncodeAll(bs)|) == Opened(bs, 0)
    decreases |bs|
  {
    hide Encode, BanOk, Read;
    if bs == [] {
      ReadEnd(s, p);
    } else {
      var e, t := Encode(bs[0]), EncodeAll(bs[1..]);
      Slices(s, p, e, t);
      RoundTrip(s, p + |e|, bs[1..]);
      ReadOn(s, p, bs[0], t, bs[1..]);
      assert [bs[0]] + bs[1..] == bs;
    }
  }

  lemma {:induction false} Slices(s: seq<byte>, p: nat, a: seq<byte>, b: seq<byte>)
    requires p + |a| + |b| <= |s| && s[p..p + |a| + |b|] == a + b
    ensures s[p..p + |a|] == a && s[p + |a|..p + |a| + |b|] == b
  {
    assert s[p..p + |a|] == s[p..p + |a| + |b|][..|a|];
    assert s[p + |a|..p + |a| + |b|] == s[p..p + |a| + |b|][|a|..];
  }

  function Ahead(done: seq<Logged>, o: Opened): Opened {
    if o.Asserts? then Asserts else Opened(done + o.bans, o.code)
  }

  lemma {:induction false} AheadOne(done: seq<Logged>, b: Logged, o: Opened)
    ensures Ahead(done, After(b, o)) == Ahead(done + [b], o)
  {
    if o.Opened? {
      assert done + ([b] + o.bans) == done + [b] + o.bans;
    }
  }

  lemma {:induction false} AheadStop(done: seq<Logged>, p: nat, pe: nat, code: int, o: Opened)
    ensures Ahead(done, Stop(p, pe, code)) == if p <= pe then Opened(done, code) else Asserts
    ensures Ahead([], o) == o
  {
    assert done + [] == done;
    if o.Opened? {
      assert [] + o.bans == o.bans;
    }
  }

  /** The loop of smp_open_bans over any bytes: the bans it reloads and its return code, unless its closing
      assertion fails. */
  method ReadBans(a: array<byte>, pe: nat) returns (ok: bool, bans: seq<Logged>, code: int)
    requires pe + HEADER <= a.Length
    ensures Read(a[..], 0, pe) == if ok then Opened(bans, code) else Asserts
  {
    hide CString, Ahead, After, Stop;
    ghost var s := a[..];
    var p := 0;
    bans, code := [], 0;
    AheadStop([], 0, 0, 0, Read(s, 0, pe));
    ghost var at := p;
    while p < pe
      invariant at == p && code == 0 && Read(s, 0, pe) == Ahead(bans, Read(s, at, pe))
      decreases pe - p
    {
      p, code := ReadHeader(a, p, pe);
      if code != 0 {
        break;
      }
      var length := WordAt(a[..], p - 4);
      var b := Logged(a[p - 16..p - 8], CString(a[..], p));
      AheadOne(bans, b, Read(s, p + length, pe));
      bans := bans + [b];
      p := p + length;
      at := p;
    }
    assert Read(s, at, pe) == Stop(p, pe, code);
    AheadStop(bans, p, pe, code, Asserts);
    ok := p <= pe;
  }

  /** The checks of smp_open_bans on the ban at `p`: where they stop, and zero or the code for what is wrong. */
  method ReadHeader(a: array<byte>, p: nat, pe: nat) returns (q: nat, code: int)
    requires p < pe && pe + HEADER <= a.Length
    ensures code == 0 ==>
      var s := a[..];
      && q == p + HEADER && q + WordAt(s, p + 16) <= pe
      && Read(s, p, pe) == After(Logged(s[p + 4..p + 12], CString(s, q)), Read(s, q + WordAt(s, p + 16), pe))
    ensures code != 0 ==> Read(a[..], p, pe) == Stop(q, pe, code)
  {
    hide CString, After, Stop;
    q := p;
    if a[q..q + 4] != MARK {
      return q, 1001;
    }
    q := q + 4;
    q := q + 8;
    var flags := WordAt(a[..], q);
    q := q + 4;
    if flags != 0 {
      return q, 1002;
    }
    var length := WordAt(a[..], q);
    q := q + 4;
    if q + length > pe {
      return q, 1003;
    }
    if a[q + length - 1] != 0 {
      return q, 1004;
    }
    code := 0;
  }

  /* ---- the two copies ---- */

  /** A signed area: the bytes behind its smp_sign, and how many of them count. A signature follows them. */
  class Area {
    const bytes: array<byte>
    var length: nat
    ghost var bans: seq<Logged>

    ghost predicate Valid()
      reads this, bytes
    {
      AllOk(bans) && length + SHA <= bytes.Length && length == |EncodeAll(bans)| && bytes[..length] == EncodeAll(bans)
    }

    /** smp_new_sign. */
    constructor (size: nat)
      requires SHA <= size
      ensures Valid() && bans == [] && bytes.Length == size && fresh(bytes)
    {
      bytes := new byte[size];
      length, bans := 0, [];
    }

    /** smp_appendban, with no flags: a ban behind the others. `sig` is the new signature. */
    method AppendBan(b: Logged, sig: seq<byte>)
      requires Valid() && BanOk(b) && |sig| == SHA && length + |Encode(b)| + SHA <= bytes.Length
      modifies this, bytes
      ensures Valid() && bans == old(bans) + [b] && length == old(length) + |Encode(b)|
      ensures bytes[length..length + 32] == sig
    {
      hide Encode, Patched, EncodeAll;
      ghost var s := bytes[..];
      PutBan(length, b);
      ghost var e := bans;
      Behind(s, b);
      length := length + HEADER + |b.text| + 1;
      EncodeAllMore(bans, b);
      bans := bans + [b];
      label L:
      MemCpy(bytes, length, sig);
      Before(old@L(bytes[..]), length, sig);
    }

    /** The copies that smp_appendban makes, at `p`. */
    method PutBan(p: nat, b: Logged)
      requires BanOk(b) && p + |Encode(b)| <= bytes.Length
      modifies bytes
      ensures bytes[..] == Patched(old(bytes[..]), p, Encode(b))
    {
      hide Word, Patched;
      ghost var s := bytes[..];
      var len := |b.text| + 1;
      MemCpy(bytes, p, MARK);
      MemCpy(bytes, p + 4, b.t0);
      PatchedTwice(s, p, MARK, b.t0);
      MemCpy(bytes, p + 12, Word(0));
      PatchedTwice(s, p, MARK + b.t0, Word(0));
      MemCpy(bytes, p + 16, Word(len));
      PatchedTwice(s, p, MARK + b.t0 + Word(0), Word(len));
      MemCpy(bytes, p + 20, b.text + [0]);
      PatchedTwice(s, p, MARK + b.t0 + Word(0) + Word(len), b.text + [0]);
      assert MARK + b.t0 + Word(0) + Word(len) + (b.text + [0]) == Encode(b);
    }

    lemma {:induction false} Behind(s: seq<byte>, b: Logged)
      requires AllOk(bans) && BanOk(b) && length + |Encode(b)| <= bytes.Length == |s|
      requires s[..length] == EncodeAll(bans) && bytes[..] == Patched(s, length, Encode(b))
      ensures bytes[..length + |Encode(b)|] == EncodeAll(bans) + Encode(b)
    {
      hide Encode;
      assert bytes[..length + |Encode(b)|] == bytes[..][..length + |Encode(b)|];
    }

    lemma {:induction false} Before(s: seq<byte>, p: nat, sig: seq<byte>)
      requires p + |sig| <= |s| == bytes.Length && bytes[..] == Patched(s, p, sig)
      ensures bytes[..p] == s[..p] && bytes[p..p + |sig|] == sig
    {
      assert bytes[..p] == bytes[..][..p] && bytes[p..p + |sig|] == bytes[..][p..p + |sig|];
    }

    /** smp_open_bans of an area whose signature is good: what BAN_Reload is called with, and the return code. */
    method OpenBans() returns (reloaded: seq<Logged>, code: int)
      requires Valid()
      ensures reloaded == bans && code == 0
    {
      ghost var s := bytes[..];
      assert s[0..|EncodeAll(bans)|] == EncodeAll(bans);
      RoundTrip(s, 0, bans);
      var ok;
      ok, reloaded, code := ReadBans(bytes, length);
    }
  }

  /** SMP_NewBan, for one silo: to both copies. */
  method NewBan(ban1: Area, ban2: Area, b: Logged, sig1: seq<byte>, sig2: seq<byte>)
    requires ban1.Valid() && ban2.Valid() && ban1.bytes != ban2.bytes && ban1 != ban2
    requires BanOk(b) && |sig1| == |sig2| == SHA
    requires ban1.length + |Encode(b)| + SHA <= ban1.bytes.Length &&
      ban2.length + |Encode(b)| + SHA <= ban2.bytes.Length
    modifies ban1, ban2, ban1.bytes, ban2.bytes
    ensures ban1.Valid() && ban1.bans == old(ban1.bans) + [b] && ban1.length == old(ban1.length) + |Encode(b)|
    ensures ban2.Valid() && ban2.bans == old(ban2.bans) + [b] && ban2.length == old(ban2.length) + |Encode(b)|
    ensures ban1.bytes[ban1.length..ban1.length + 32] == sig1 && ban2.bytes[ban2.length..ban2.length + 32] == sig2
  {
    hide Encode, EncodeAll;
    ban1.AppendBan(b, sig1);
    ban2.AppendBan(b, sig2);
  }

  lemma {:induction false} EncodeAllPrefix(bs: seq<Logged>, i: nat)
    requires AllOk(bs) && i < |bs|
    ensures AllOk(bs[..i]) && |EncodeAll(bs[..i])| + |Encode(bs[i])| <= |EncodeAll(bs)|
  {
    hide Encode;
    if i > 0 {
      assert bs[..i][1..] == bs[1..][..i - 1];
      EncodeAllPrefix(bs[1..], i - 1);
    }
  }

  /** Any sequence of bans that fits is read back from either copy, in order. */
  method LogAndReopen(size: nat, bs: seq<Logged>, sigs: nat -> seq<byte>)
    returns (from1: seq<Logged>, code1: int, from2: seq<Logged>, code2: int)
    requires AllOk(bs) && |EncodeAll(bs)| + SHA <= size && forall i :: |sigs(i)| == SHA
    ensures from1 == bs && from2 == bs && code1 == 0 && code2 == 0
  {
    hide Encode, EncodeAll;
    var ban1 := new Area(size);
    var ban2 := new Area(size);
    for i := 0 to |bs|
      invariant ban1.Valid() && ban2.Valid() && ban1.bans == bs[..i] && ban2.bans == bs[..i]
      invariant ban1 != ban2 && ban1.bytes != ban2.bytes && ban1.bytes.Length == ban2.bytes.Length == size
      invariant fresh(ban1) && fresh(ban2) && fresh(ban1.bytes) && fresh(ban2.bytes)
    {
      EncodeAllPrefix(bs, i);
      NewBan(ban1, ban2, bs[i], sigs(2 * i), sigs(2 * i + 1));
      assert bs[..i + 1] == bs[..i] + [bs[i]];
    }
    assert bs[..|bs|] == bs;
    from1, code1 := ban1.OpenBans();
    from2, code2 := ban2.OpenBans();
  }
}
