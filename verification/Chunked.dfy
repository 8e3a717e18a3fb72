/** The body fetchers of bin/varnishd/cache_fetch.c: a chunked body (section 3.6.1 of RFC 2616), or one of known
    length, read piecemeal from a connection into a list of bounded buffers. */
module Chunked {
  import opened Lists
  import opened CType
  import opened Strtoul

  const UNSIGNED: nat := 0x1_0000_0000

  /** The characters that the size line buffer holds, the terminating NUL aside. */
  const BUF: nat := 19

  /* ---- size lines ---- */

  /** Where the blanks from `i` on end. */
  function Blanks(s: string, i: nat): (j: nat)
    requires i <= |s|
    ensures i <= j <= |s|
    decreases |s| - i
  {
    if i < |s| && (s[i] == '\t' || s[i] == ' ') then Blanks(s, i + 1) else i
  }

  /** Where the newline of a size line has to be. */
  function Newline(s: string): (q: nat)
    ensures q <= |s|
  {
    var i := Blanks(s, Parse(s, 16).end);
    if i < |s| && s[i] == '\r' then i + 1 else i
  }

  /** `s` begins with a size line. */
  predicate IsLine(s: string) {
    Parse(s, 16).end > 0 && Newline(s) < |s| && s[Newline(s)] == '\n'
  }

  /** The size of a line: an unsigned int takes the low 32 bits. */
  function Size(s: string): nat {
    Parse(s, 16).value % UNSIGNED
  }

  /** The shortest prefix of `s`, from `n` characters on, that is a size line; none if the buffer or `s` ends. */
  function FirstLine(s: string, n: nat): Option<nat>
    requires n <= |s|
    decreases |s| - n
  {
    if IsLine(s[..n]) then Some(n) else if n >= BUF || n == |s| then None else FirstLine(s, n + 1)
  }

  lemma {:induction false} FirstLineIs(s: string, n: nat)
    requires n <= |s|
    ensures FirstLine(s, n).Some? ==> n <= FirstLine(s, n).value <= |s| && IsLine(s[..FirstLine(s, n).value])
    ensures FirstLine(s, n).Some? ==> forall k :: n <= k < FirstLine(s, n).value ==> !IsLine(s[..k])
    ensures FirstLine(s, n).Some? && n <= 19 ==> FirstLine(s, n).value <= 19
    ensures FirstLine(s, n).None? ==> forall k :: n <= k <= |s| && k <= 19 ==> !IsLine(s[..k])
    decreases |s| - n
  {
    hide IsLine;
    if !IsLine(s[..n]) && n < BUF && n < |s| {
      FirstLineIs(s, n + 1);
    }
  }

  /** The body that a stream decodes to, and how much of the stream it takes. */
  datatype Body = Body(data: string, taken: nat)

  /** The chunks of a stream, put together. */
  function Decode(s: string): Option<Body>
    decreases |s|
  {
    var l := FirstLine(s, 0);
    if l.None? then None else
    FirstLineIs(s, 0);
    var n, u := l.value, Size(s[..l.value]);
    if u == 0 then Some(Body("", n)) else
    if |s| < n + u then None else
    var rest := Decode(s[n + u..]);
    if rest.None? then None else Some(Body(s[n..n + u] + rest.value.data, n + u + rest.value.taken))
  }

  /** What a stream decodes to, if `got` is what its first `n` bytes gave and `b` what the rest gives. */
  function Ahead(got: string, n: nat, b: Option<Body>): Option<Body> {
    if b.None? then None else Some(Body(got + b.value.data, n + b.value.taken))
  }

  lemma {:induction false} AheadTwice(got: string, n: nat, more: string, m: nat, b: Option<Body>)
    ensures Ahead("", 0, b) == b
    ensures Ahead(got, n, Ahead(more, m, b)) == Ahead(got + more, n + m, b)
  {
    if b.Some? {
      assert "" + b.value.data == b.value.data;
      assert got + (more + b.value.data) == got + more + b.value.data;
    }
  }

  /** One step of the decoder. */
  lemma {:induction false} DecodeLine(s: string, n: nat)
    requires FirstLine(s, 0) == Some(n) && n <= |s|
    ensures var u := Size(s[..n]);
            Decode(s) == if u == 0 then Some(Body("", n)) else if |s| < n + u then None
                         else Ahead(s[n..n + u], n + u, Decode(s[n + u..]))
  {
    hide FirstLine, Size;
  }

  /** Nothing is left in the buffer behind the first size line. */
  lemma {:induction false} LineEnds(s: string, n: nat)
    requires n <= |s| && IsLine(s[..n]) && (forall k :: 0 <= k < n ==> !IsLine(s[..k]))
    ensures Newline(s[..n]) == n - 1
  {
    var p := s[..n];
    var e := Newline(p) + 1;
    ParsePrefix(p, e);
    assert p[..e] == s[..e];
  }

  lemma {:induction false} BlanksPrefix(s: string, e: nat, i: nat)
    requires i <= e <= |s| && Blanks(s, i) <= e
    ensures Blanks(s[..e], i) == Blanks(s, i)
    decreases e - i
  {
    if i < e && (s[i] == '\t' || s[i] == ' ') {
      BlanksPrefix(s, e, i + 1);
    }
  }

  /** What comes after the newline does not matter. */
  lemma {:induction false} ParsePrefix(s: string, e: nat)
    requires IsLine(s) && e == Newline(s) + 1
    ensures IsLine(s[..e])
  {
    hide Parse;
    NumberPrefix(s, e);
    BlanksPrefix(s, e, Parse(s, 16).end);
  }

  /* ---- the encoding ---- */

  /** A chunk with its size line: white space, such as the CRLF behind the chunk before, the size, blanks, and the end
      of the line with or without a carriage return. */
  datatype Chunk = Chunk(lead: string, digits: string, pad: string, cr: bool, data: string)

  /** A size in hexadecimal on a line that the buffer can hold, of up to 19 characters. */
  ghost predicate SizeOk(c: Chunk) {
    && c.digits != "" && |Line(c)| <= 19
    && (forall k :: 0 <= k < |c.lead| ==> Space(c.lead[k]))
    && (forall k :: 0 <= k < |c.digits| ==> Digit(c.digits[k]) < 16)
    && (forall k :: 0 <= k < |c.pad| ==> c.pad[k] == ' ' || c.pad[k] == '\t')
  }

  function Line(c: Chunk): string {
    c.lead + c.digits + c.pad + if c.cr then "\r\n" else "\n"
  }

  /** Chunks, each after its size line, and the last chunk, which has only a line. */
  function Wire(cs: seq<Chunk>, last: Chunk): string {
    if cs == [] then Line(last) else Line(cs[0]) + cs[0].data + Wire(cs[1..], last)
  }

  function Data(cs: seq<Chunk>): string {
    if cs == [] then "" else cs[0].data + Data(cs[1..])
  }

  ghost predicate ChunkOk(c: Chunk) {
    SizeOk(c) && Value(c.digits, 16) == |c.data|
  }

  ghost predicate WireOk(cs: seq<Chunk>, last: Chunk) {
    && (forall k :: 0 <= k < |cs| ==> ChunkOk(cs[k]) && cs[k].data != "")
    && ChunkOk(last) && last.data == ""
  }

  lemma {:induction false} BlanksAre(s: string, i: nat, a: nat)
    requires i <= a <= |s| && (forall k :: i <= k < a ==> s[k] == '\t' || s[k] == ' ')
    requires a < |s| ==> s[a] != '\t' && s[a] != ' '
    ensures Blanks(s, i) == a
    decreases a - i
  {
    if i < a {
      BlanksAre(s, i + 1, a);
    }
  }

  lemma {:induction false} FirstLineAt(s: string, k: nat, n: nat)
    requires k <= n <= |s| && n <= BUF && IsLine(s[..n]) && forall j :: k <= j < n ==> !IsLine(s[..j])
    ensures FirstLine(s, k) == Some(n)
    decreases n - k
  {
    if k < n {
      FirstLineAt(s, k + 1, n);
    }
  }

  /** The number at the beginning of a prefix of a line. */
  lemma {:induction false} LineNumber(c: Chunk, k: nat)
    requires SizeOk(c) && k <= |Line(c)|
    ensures var a, b := |c.lead|, |c.lead| + |c.digits|;
            if k <= a then Parse(Line(c)[..k], 16).end == 0 else Parse(Line(c)[..k], 16).end == if k <= b then k else b
    ensures k > |c.lead| + |c.digits| ==> Parse(Line(c)[..k], 16).value == Saturated(Value(c.digits, 16))
  {
    hide Parse, Value;
    var l := Line(c);
    var p, a, b := l[..k], |c.lead|, |c.lead| + |c.digits|;
    assert forall j :: a <= j < b && j < k ==> p[j] == c.digits[j - a];
    if k <= a {
      ParseBlank(p, 16);
    } else if k <= b {
      ParseHex(p, a, k);
    } else {
      assert p[b] == if c.pad != "" then c.pad[0] else if c.cr then '\r' else '\n';
      ParseHex(p, a, b);
      assert p[a..b] == c.digits;
    }
  }

  /** No proper prefix of a line is a line. */
  lemma {:induction false} LinePrefix(c: Chunk, k: nat)
    requires SizeOk(c) && k <= |Line(c)|
    ensures IsLine(Line(c)[..k]) <==> k == |Line(c)|
  {
    LineNumber(c, k);
    hide Parse, Space, Digit;
    var l := Line(c);
    var p, b := l[..k], |c.lead| + |c.digits|;
    var e := b + |c.pad|;
    if k > b {
      assert forall j :: b <= j < e && j < k ==> p[j] == c.pad[j - b];
      BlanksAre(p, b, if k < e then k else e);
    } else if k > |c.lead| {
      BlanksAre(p, k, k);
    }
  }

  /** The size line in front of a stream is found, and its size is what it says, in 32 bits. */
  lemma {:induction false} LineFound(c: Chunk, t: string)
    requires SizeOk(c)
    ensures var l := Line(c);
            FirstLine(l + t, 0) == Some(|l|) && Size((l + t)[..|l|]) == Saturated(Value(c.digits, 16)) % UNSIGNED
  {
    var l := Line(c);
    forall j | 0 <= j <= |l|
      ensures IsLine((l + t)[..j]) <==> j == |l|
    {
      LinePrefix(c, j);
      assert (l + t)[..j] == l[..j];
    }
    FirstLineAt(l + t, 0, |l|);
    LineNumber(c, |l|);
    assert (l + t)[..|l|] == l[..|l|];
  }

  /** The size taken from a line is the size written exactly when that fits 32 bits. */
  lemma {:induction false} SizeRight(c: Chunk)
    requires SizeOk(c)
    ensures Size(Line(c)) == Value(c.digits, 16) <==> Value(c.digits, 16) < UNSIGNED
  {
    var l := Line(c);
    LineNumber(c, |l|);
    assert l[..|l|] == l;
  }

  /** A line, that many characters, and what the rest decodes to. */
  lemma {:induction false} DecodeStep(s: string, n: nat, u: nat, b: Body)
    requires FirstLine(s, 0) == Some(n) && n <= |s| && Size(s[..n]) == u > 0
    requires n + u <= |s| && Decode(s[n + u..]) == Some(b)
    ensures Decode(s) == Some(Body(s[n..n + u] + b.data, n + u + b.taken))
  {
    hide FirstLine, Size, Decode;
    DecodeLine(s, n);
  }

  lemma {:induction false} DecodeChunk(c: Chunk, t: string, b: Body)
    requires ChunkOk(c) && 0 < |c.data| < UNSIGNED && Decode(t) == Some(b)
    ensures var l := Line(c);
            Decode(l + c.data + t) == Some(Body(c.data + b.data, |l| + |c.data| + b.taken))
  {
    hide FirstLine, Size, Line, Decode;
    var l := Line(c);
    LineFound(c, c.data + t);
    var s := l + (c.data + t);
    assert s == l + c.data + t;
    assert s[|l| + |c.data|..] == t && s[|l|..|l| + |c.data|] == c.data;
    DecodeStep(s, |l|, |c.data|, b);
  }

  /** What decodes is what was encoded, whatever follows. */
  lemma {:induction false} RoundTrip(cs: seq<Chunk>, last: Chunk, rest: string)
    requires WireOk(cs, last) && forall k :: 0 <= k < |cs| ==> |cs[k].data| < UNSIGNED
    ensures Decode(Wire(cs, last) + rest) == Some(Body(Data(cs), |Wire(cs, last)|))
  {
    hide FirstLine, Size, Line, Decode;
    if cs == [] {
      DecodeLast(last, rest);
    } else {
      var c, t := cs[0], Wire(cs[1..], last);
      RoundTrip(cs[1..], last, rest);
      DecodeChunk(c, t + rest, Body(Data(cs[1..]), |t|));
      Regroup(Line(c), c.data, t, rest);
    }
  }

  lemma {:induction false} Regroup(a: string, b: string, c: string, d: string)
    ensures a + b + c + d == a + b + (c + d)
  {
  }

  lemma {:induction false} DecodeLast(c: Chunk, t: string)
    requires ChunkOk(c) && |c.data| % UNSIGNED == 0 && |c.data| < ULONG
    ensures var l := Line(c); Decode(l + t) == Some(Body("", |l|))
  {
    hide FirstLine, Size, Line, Decode;
    LineFound(c, t);
    DecodeLine(Line(c) + t, |Line(c)|);
  }

  /** A chunk whose size is a multiple of 2^32 is taken for the last one: the body is cut short, without an
      error. */
  lemma {:induction false} CutShort(c: Chunk, cs: seq<Chunk>, last: Chunk, rest: string)
    requires ChunkOk(c) && c.data != "" && |c.data| % UNSIGNED == 0 && |c.data| < ULONG
    ensures Decode(Wire([c] + cs, last) + rest) == Some(Body("", |Line(c)|))
  {
    hide Line, Decode;
    var t := c.data + Wire(cs, last) + rest;
    DecodeLast(c, t);
    assert ([c] + cs)[1..] == cs;
    assert Wire([c] + cs, last) + rest == Line(c) + t;
  }

  /** A body of one chunk of 2^32 bytes decodes to no data at all. */
  lemma {:induction false} FourGigabytes(data: string, last: Chunk, rest: string)
    requires |data| == 0x1_0000_0000
    ensures ChunkOk(Chunk("", "100000000", "", true, data))
    ensures Decode(Wire([Chunk("", "100000000", "", true, data)], last) + rest) == Some(Body("", 11))
  {
    var c := Chunk("", "100000000", "", true, data);
    NineDigits(c.digits);
    hide Value;
    CutShort(c, [], last, rest);
    assert [c] + [] == [c];
  }

  lemma {:induction false} NineDigits(s: string)
    requires s == "100000000"
    ensures Value(s, 16) == 0x1_0000_0000
  {
    assert Value("1", 16) == 1 && "10"[..1] == "1";
    assert Value("10", 16) == 0x10 && "100"[..2] == "10";
    assert Value("100", 16) == 0x100 && "1000"[..3] == "100";
    assert Value("1000", 16) == 0x1000 && "10000"[..4] == "1000";
    assert Value("10000", 16) == 0x10000 && "100000"[..5] == "10000";
    assert Value("100000", 16) == 0x100000 && "1000000"[..6] == "100000";
    assert Value("1000000", 16) == 0x1000000 && "10000000"[..7] == "1000000";
    assert Value("10000000", 16) == 0x1000_0000 && s[..8] == "10000000";
  }

  /* ---- the connection and the storage ---- */

  /** A backend connection: the bytes that will come, how many of them each read returns, and which reads fail. */
  class Conn {
    const stream: string
    const split: nat -> nat
    const fails: nat -> bool
    var pos: nat
    var calls: nat

    ghost predicate Valid()
      reads this
    {
      pos <= |stream|
    }

    constructor (stream: string, split: nat -> nat, fails: nat -> bool)
      ensures Valid() && pos == 0 && this.stream == stream && this.split == split && this.fails == fails
    {
      this.stream, this.split, this.fails, pos, calls := stream, split, fails, 0, 0;
    }

    /** No read fails before the end of the stream. */
    ghost predicate Steady() {
      forall n :: !fails(n)
    }

    /** HTC_Read of up to `len` bytes: nothing on an error or at the end. */
    method Read(len: nat) returns (d: string)
      requires Valid() && len > 0
      modifies this
      ensures Valid() && old(pos) <= pos && d == stream[old(pos)..pos] && |d| <= len
      ensures d == "" && Steady() ==> pos == |stream|
      ensures d == "" <==> old(fails(calls) || pos == |stream|)
      ensures d != "" ==> |d| <= old(split(calls)) + 1 && (|d| <= old(split(calls)) ==> |d| == len || pos == |stream|)
      ensures calls == old(calls) + 1
    {
      var left := |stream| - pos;
      d := "";
      if !fails(calls) && left > 0 {
        var n := if len < left then len else left;
        n := if split(calls) < n then split(calls) + 1 else n;
        d := stream[pos..pos + n];
        pos := pos + n;
      }
      calls := calls + 1;
    }
  }

  /** A piece of storage, of which the data fills the front. */
  datatype Storage = Storage(space: nat, data: string)

  function Stored(l: seq<Storage>): string {
    if l == [] then "" else Stored(l[..|l| - 1]) + l[|l| - 1].data
  }

  class Fetcher {
    /** fetch_chunksize, and the space that each allocation of at least so many bytes gets. */
    const chunksize: nat
    const space: (nat, nat) -> nat
    var store: seq<Storage>
    var len: nat

    ghost predicate Valid()
      reads this
    {
      && len == |Stored(store)| && (forall i :: 0 <= i < |store| ==> |store[i].data| <= store[i].space)
      && forall n, v :: space(n, v) > 0
    }

    /** No piece of storage is empty. */
    ghost predicate Filled()
      reads this`store
    {
      forall i :: 0 <= i < |store| ==> store[i].data != ""
    }

    constructor (chunksize: nat, space: (nat, nat) -> nat)
      requires forall n, v :: space(n, v) > 0
      ensures Valid() && store == []
    {
      this.chunksize, this.space, store, len := chunksize, space, [], 0;
    }

    /** The loop that reads a size line, a character at a time. */
    method ReadSize(conn: Conn) returns (ok: bool, u: nat)
      requires conn.Valid()
      modifies conn
      ensures conn.Valid() && old(conn.pos) <= conn.pos
      ensures ok ==> FirstLine(conn.stream[old(conn.pos)..], 0) == Some(conn.pos - old(conn.pos))
      ensures ok ==> u == Size(conn.stream[old(conn.pos)..conn.pos]) && old(conn.pos) < conn.pos
      ensures !ok && conn.Steady() ==> FirstLine(conn.stream[old(conn.pos)..], 0) == None
    {
      hide Parse, Blanks;
      var buf := "";
      ghost var s := conn.stream[conn.pos..];
      while true
        invariant conn.Valid() && old(conn.pos) + |buf| == conn.pos && buf == s[..|buf|] && |buf| <= BUF
        invariant FirstLine(s, 0) == FirstLine(s, |buf|)
        invariant forall k :: 0 <= k < |buf| ==> !IsLine(s[..k])
        decreases BUF - |buf|
      {
        var n := Parse(buf, 16);
        var q := n.end;
        if q > 0 {
          q := Skip(buf, q);
        }
        if q == 0 || q == |buf| || buf[q] != '\n' {
          if |buf| >= BUF {
            return false, 0;
          }
          var d := conn.Read(1);
          if d == "" {
            return false, 0;
          }
          buf := buf + d;
        } else {
          assert s[..|buf|] == buf == conn.stream[old(conn.pos)..conn.pos] && IsLine(buf);
          LineEnds(s, |buf|);
          assert q + 1 == |buf|;
          return true, n.value % UNSIGNED;
        }
      }
    }

    /** Skip blanks, and a carriage return, after the number. */
    method Skip(buf: string, start: nat) returns (q: nat)
      requires start == Parse(buf, 16).end > 0
      ensures q == Newline(buf)
    {
      hide Parse;
      q := start;
      while q < |buf| && (buf[q] == '\t' || buf[q] == ' ')
        invariant start <= q <= |buf| && Blanks(buf, start) == Blanks(buf, q)
      {
        q := q + 1;
      }
      if q < |buf| && buf[q] == '\r' {
        q := q + 1;
      }
    }

    /** Read `v` bytes into the last piece of storage. */
    method ReadInto(conn: Conn, v: nat) returns (ok: bool)
      requires Valid() && conn.Valid() && store != []
      requires |store[|store| - 1].data| + v <= store[|store| - 1].space
      modifies conn, this`store, this`len
      ensures Valid() && conn.Valid() && old(conn.pos) <= conn.pos && |store| == |old(store)|
      ensures ok ==> conn.pos == old(conn.pos) + v
      ensures forall j :: 0 <= j < |store| - 1 ==> store[j] == old(store)[j]
      ensures |store[|store| - 1].data| == |old(store)[|store| - 1].data| + (conn.pos - old(conn.pos))
      ensures Stored(store) == Stored(old(store)) + conn.stream[old(conn.pos)..conn.pos]
      ensures !ok && conn.Steady() ==> |conn.stream| < old(conn.pos) + v
    {
      hide Stored;
      var i := |store| - 1;
      var left := v;
      while left > 0
        invariant conn.Valid() && conn.pos == old(conn.pos) + v - left && 0 <= left <= v
        invariant |store| == i + 1 && store[i].space == old(store)[i].space
        invariant forall j :: 0 <= j < i ==> store[j] == old(store)[j]
        invariant |store[i].data| == |old(store)[i].data| + v - left
        invariant Stored(store) == Stored(old(store)) + conn.stream[old(conn.pos)..conn.pos]
        invariant Valid()
      {
        var d := conn.Read(left);
        if d == "" {
          return false;
        }
        Append(d);
        left := left - |d|;
      }
      ok := true;
    }

    method Append(d: string)
      requires Valid() && store != [] && |store[|store| - 1].data| + |d| <= store[|store| - 1].space
      modifies this`store, this`len
      ensures Valid() && |store| == |old(store)|
      ensures forall j :: 0 <= j < |store| - 1 ==> store[j] == old(store)[j]
      ensures var i := |store| - 1; store[i] == Storage(old(store)[i].space, old(store)[i].data + d)
      ensures Stored(store) == Stored(old(store)) + d
    {
      var i := |store| - 1;
      store := store[..i] + [Storage(store[i].space, store[i].data + d)];
      len := len + |d|;
    }

    /** STV_alloc. */
    method Alloc(v: nat)
      requires Valid()
      modifies this`store
      ensures Valid() && store == old(store) + [Storage(space(|old(store)|, v), "")]
      ensures Stored(store) == Stored(old(store))
    {
      store := store + [Storage(space(|store|, v), "")];
    }

    /** Get some storage if there is none, or it is full. */
    method Room(u: nat)
      requires Valid() && Filled() && u > 0
      modifies this`store
      ensures Valid() && store != [] && Stored(store) == Stored(old(store))
      ensures store == old(store) +
        if |old(store)| > 0 && |old(store)[|old(store)| - 1].data| < old(store)[|old(store)| - 1].space then []
        else [Storage(space(|old(store)|, if u < 1024 * chunksize then 1024 * chunksize else u), "")]
      ensures |store[|store| - 1].data| < store[|store| - 1].space
      ensures forall i :: 0 <= i < |store| - 1 ==> store[i].data != ""
    {
      if store == [] || |store[|store| - 1].data| == store[|store| - 1].space {
        var v := u;
        if u < chunksize * 1024 {
          v := chunksize * 1024;
        }
        Alloc(v);
      }
    }

    /** The loop that reads the `u` bytes of a chunk. There is nothing left in the line buffer. */
    method ReadChunk(conn: Conn, u: nat) returns (ok: bool)
      requires Valid() && Filled() && conn.Valid()
      modifies conn, this`store, this`len
      ensures Valid() && conn.Valid() && old(conn.pos) <= conn.pos
      ensures ok ==> Filled() && conn.pos == old(conn.pos) + u
      ensures ok ==> Stored(store) == Stored(old(store)) + conn.stream[old(conn.pos)..conn.pos]
      ensures !ok && conn.Steady() ==> |conn.stream| < old(conn.pos) + u
    {
      var left := u;
      while left > 0
        invariant Valid() && Filled() && conn.Valid() && 0 <= left <= u && conn.pos == old(conn.pos) + u - left
        invariant Stored(store) == Stored(old(store)) + conn.stream[old(conn.pos)..conn.pos]
      {
        Room(left);
        var st := store[|store| - 1];
        var v := st.space - |st.data|;
        if v > left {
          v := left;
        }
        ok := ReadInto(conn, v);
        if !ok {
          return;
        }
        left := left - v;
      }
      ok := true;
    }

    /** fetch_chunked: the body, or -1. */
    method FetchChunked(conn: Conn, slack: nat) returns (r: int)
      requires Valid() && store == [] && conn.Valid()
      modifies conn, this`store, this`len
      ensures Valid() && conn.Valid() && old(conn.pos) <= conn.pos && (r == 0 || r == -1)
      ensures r == 0 ==>
        Decode(conn.stream[old(conn.pos)..]) == Some(Body(Stored(store), conn.pos - old(conn.pos)))
      ensures r == 0 ==> Filled() && Trimmed(slack)
      ensures r == -1 && conn.Steady() ==> Decode(conn.stream[old(conn.pos)..]) == None
    {
      hide FirstLine, Size, Stored, Decode, Ahead;
      ghost var s := conn.stream[conn.pos..];
      Nothing(Decode(s));
      while true
        invariant Valid() && Filled() && conn.Valid() && old(conn.pos) <= conn.pos
        invariant Decode(s) == Ahead(Stored(store), conn.pos - old(conn.pos), Decode(conn.stream[conn.pos..]))
        decreases |conn.stream| - conn.pos
      {
        ghost var t, got, p := conn.stream[conn.pos..], Stored(store), conn.pos;
        var ok, u := ReadSize(conn);
        if !ok {
          if conn.Steady() {
            NoLine(t, got, p - old(conn.pos));
          }
          return -1;
        }
        ghost var n := conn.pos - p;
        assert t[..n] == conn.stream[p..conn.pos];
        Step(t, n, got, p - old(conn.pos));
        if u == 0 {
          break;
        }
        ok := ReadChunk(conn, u);
        if !ok {
          return -1;
        }
        assert t[n..n + u] == conn.stream[p + n..conn.pos] && t[n + u..] == conn.stream[conn.pos..];
      }
      if store != [] {
        Trim(slack);
      }
      r := 0;
    }

    static lemma {:induction false} Nothing(b: Option<Body>)
      ensures Stored([]) == "" && Ahead("", 0, b) == b
    {
      AheadTwice("", 0, "", 0, b);
    }

    static lemma {:induction false} Step(s: string, n: nat, got: string, m: nat)
      requires FirstLine(s, 0) == Some(n) && n <= |s|
      ensures var u := Size(s[..n]);
              Ahead(got, m, Decode(s)) == if u == 0 then Some(Body(got, m + n)) else if |s| < n + u then None
                                          else Ahead(got + s[n..n + u], m + (n + u), Decode(s[n + u..]))
    {
      hide FirstLine, Size, Decode;
      DecodeLine(s, n);
      var u := Size(s[..n]);
      if u == 0 {
        assert got + "" == got;
      } else if n + u <= |s| {
        AheadTwice(got, m, s[n..n + u], n + u, Decode(s[n + u..]));
      }
    }

    static lemma {:induction false} NoLine(s: string, got: string, n: nat)
      requires FirstLine(s, 0) == None
      ensures Ahead(got, n, Decode(s)) == None
    {
    }

    /** The last piece has no more than so much space that is not used. */
    ghost predicate Trimmed(slack: nat)
      reads this`store
    {
      store != [] ==> store[|store| - 1].space <= |store[|store| - 1].data| + slack
    }

    /** STV_trim of the last piece: not below its data. */
    method Trim(slack: nat)
      requires Valid() && Filled() && store != []
      modifies this`store
      ensures Valid() && Filled() && Stored(store) == Stored(old(store)) && Trimmed(slack)
    {
      var i := |store| - 1;
      var st := store[i];
      if |st.data| + slack < st.space {
        store := store[..i] + [Storage(|st.data| + slack, st.data)];
      }
    }

    /** fetch_straight: as many bytes as the Content-Length says, or -1; the process dies of one that does not fit 32
        bits. */
    method FetchStraight(conn: Conn, b: string) returns (died: bool, r: int)
      requires Valid() && store == [] && conn.Valid()
      modifies conn, this`store, this`len
      ensures died <==> Parse(b, 0).value >= UNSIGNED
      ensures died ==> r == -1 && conn.pos == old(conn.pos) && store == []
      ensures Valid() && conn.Valid() && old(conn.pos) <= conn.pos && (r == 0 || r == -1)
      ensures r == 0 ==> Filled() && conn.pos == old(conn.pos) + Parse(b, 0).value <= |conn.stream|
      ensures r == 0 ==> Stored(store) == conn.stream[old(conn.pos)..conn.pos]
      ensures r == -1 && !died && conn.Steady() ==> |conn.stream| < old(conn.pos) + Parse(b, 0).value
    {
      hide Parse, Stored;
      Nothing(None);
      died := false;
      var cll := Parse(b, 0).value;
      var cl := cll % UNSIGNED;
      if cl != cll {
        return true, -1;
      }
      while cl > 0
        invariant Valid() && Filled() && conn.Valid() && 0 <= cl <= cll && conn.pos == old(conn.pos) + cll - cl
        invariant Stored(store) == conn.stream[old(conn.pos)..conn.pos]
      {
        Alloc(cl);
        var sl := store[|store| - 1].space;
        if sl > cl {
          sl := cl;
        }
        var ok := ReadInto(conn, sl);
        if !ok {
          return false, -1;
        }
        cl := cl - sl;
      }
      r := 0;
    }
  }
}
