/** The Vary matching string of bin/varnishd/cache_vary.c (section 14.44 of RFC 2616): the values that the headers
    named by Vary have in one request, encoded, and matched against another request. */
module VaryMatch {
  import opened CType
  import opened Lists

  /* ---- headers ---- */

  /** The header lines of a request or an object, empty for a lost one. */
  type Http = seq<string>

  function Lower(c: char): char {
    if 'A' <= c <= 'Z' then (c as int - 'A' as int + 'a' as int) as char else c
  }

  /** strncasecmp of equally long strings. */
  predicate CaseEq(a: string, b: string) {
    |a| == |b| && forall i :: 0 <= i < |a| ==> Lower(a[i]) == Lower(b[i])
  }

  /** Equal characters, or a letter and the same one in the other case, whose code is 32 apart. */
  predicate SameLetter(c: char, d: char) {
    || c == d
    || ('A' <= c <= 'Z' && d as int == c as int + 32)
    || ('A' <= d <= 'Z' && c as int == d as int + 32)
  }

  lemma CaseEqIs(a: string, b: string)
    ensures CaseEq(a, b) <==> |a| == |b| && forall i :: 0 <= i < |a| ==> SameLetter(a[i], b[i])
  {
    forall i | 0 <= i < |a| == |b|
      ensures Lower(a[i]) == Lower(b[i]) <==> SameLetter(a[i], b[i])
    {
      LowerIs(a[i], b[i]);
    }
  }

  lemma LowerIs(c: char, d: char)
    ensures Lower(c) == Lower(d) <==> SameLetter(c, d)
  {
  }

  /** The C string at the beginning of `s`: up to a NUL. */
  function CString(s: string): (c: string)
    ensures forall i :: 0 <= i < |c| ==> c[i] != '\0'
  {
    if s == "" || s[0] == '\0' then "" else [s[0]] + CString(s[1..])
  }

  lemma {:induction false} CStringIs(s: string)
    ensures CString(s) <= s && (|CString(s)| < |s| ==> s[|CString(s)|] == '\0')
  {
    if s != "" && s[0] != '\0' {
      CStringIs(s[1..]);
    }
  }

  predicate IsHdr(line: string, name: string) {
    |line| >= |name| + 1 && line[|name|] == ':' && CaseEq(line[..|name|], name)
  }

  function LTrim(s: string): (t: string)
    ensures t != "" ==> !Space(t[0])
  {
    if s != "" && Space(s[0]) then LTrim(s[1..]) else s
  }

  function RTrim(s: string): (t: string)
    ensures t != "" ==> !Space(t[|t| - 1])
  {
    if s != "" && Space(s[|s| - 1]) then RTrim(s[..|s| - 1]) else s
  }

  /** The value of the first header of that name. */
  function Hdr(h: Http, name: string): Option<string> {
    if h == [] then None
    else if IsHdr(h[0], name) then Some(CString(h[0][|name| + 1..]))
    else Hdr(h[1..], name)
  }

  /** The same, trimmed. */
  function Trimmed(h: Http, name: string): Option<string> {
    var v := Hdr(h, name);
    if v.None? then None else Some(RTrim(LTrim(v.value)))
  }

  /** A line with the name, in any case, before a colon. */
  predicate Named(line: string, name: string) {
    |name| < |line| && line[|name|] == ':' && forall i :: 0 <= i < |name| ==> SameLetter(line[i], name[i])
  }

  lemma NamedIs(line: string, name: string)
    ensures IsHdr(line, name) <==> Named(line, name)
  {
    if |name| < |line| {
      CaseEqIs(line[..|name|], name);
    }
  }

  /** The value behind the name and the colon is at `j`: behind blanks, and up to a NUL or the end of the line. */
  ghost predicate ValueFrom(line: string, name: string, j: nat, v: string) {
    && |name| < j && j + |v| <= |line| && v == line[j..j + |v|] && '\0' !in v
    && (forall i :: |name| < i < j ==> line[i] == ' ' || line[i] == '\t')
    && (v != "" ==> v[0] != ' ' && v[0] != '\t')
    && (j + |v| < |line| ==> line[j + |v|] == '\0')
  }

  ghost predicate FirstNamed(h: Http, name: string, u: nat) {
    u < |h| && Named(h[u], name) && forall i :: 0 <= i < u ==> !Named(h[i], name)
  }

  /** The value of the first of the lines with that name, if there is one. */
  ghost predicate Found(h: Http, name: string, v: Option<string>) {
    if v.None? then forall u :: 0 <= u < |h| ==> !Named(h[u], name)
    else exists u: nat, j: nat :: FirstNamed(h, name, u) && ValueFrom(h[u], name, j, v.value)
  }

  /** http_GetHdr: the value without leading blanks. */
  method GetHdr(h: Http, name: string) returns (v: Option<string>)
    ensures v.Some? <==> Hdr(h, name).Some?
    ensures v.Some? ==> LTrim(v.value) == LTrim(Hdr(h, name).value)
    ensures Found(h, name, v)
  {
    hide CString, IsHdr, Named;
    var u := 0;
    while u < |h| && !IsHdr(h[u], name)
      invariant 0 <= u <= |h| && Hdr(h, name) == Hdr(h[u..], name)
      invariant forall i :: 0 <= i < u ==> !Named(h[i], name)
    {
      NamedIs(h[u], name);
      u := u + 1;
    }
    if u == |h| {
      return None;
    }
    NamedIs(h[u], name);
    var p := SkipBlanks(h[u], name);
    v := Some(p);
    ghost var j: nat :| ValueFrom(h[u], name, j, p);
    assert FirstNamed(h, name, u);
  }

  /** The end of http_GetHdr, for the line it has found. */
  method SkipBlanks(line: string, name: string) returns (p: string)
    requires IsHdr(line, name)
    ensures LTrim(p) == LTrim(CString(line[|name| + 1..]))
    ensures exists j: nat :: ValueFrom(line, name, j, p)
  {
    var whole := CString(line[|name| + 1..]);
    CStringIs(line[|name| + 1..]);
    var k := 0;
    while k < |whole| && (whole[k] == ' ' || whole[k] == '\t')
      invariant 0 <= k <= |whole| && LTrim(whole[k..]) == LTrim(whole)
      invariant forall i :: 0 <= i < k ==> whole[i] == ' ' || whole[i] == '\t'
    {
      assert whole[k..][1..] == whole[k + 1..];
      k := k + 1;
    }
    p := whole[k..];
    BehindBlanks(line, name, k);
  }

  lemma BehindBlanks(line: string, name: string, k: nat)
    requires |name| < |line| && k <= |CString(line[|name| + 1..])|
    requires var whole := CString(line[|name| + 1..]);
             && (forall i :: 0 <= i < k ==> whole[i] == ' ' || whole[i] == '\t')
             && (k < |whole| ==> whole[k] != ' ' && whole[k] != '\t')
    ensures ValueFrom(line, name, |name| + 1 + k, CString(line[|name| + 1..])[k..])
  {
    hide CString;
    var l := |name| + 1;
    var whole := CString(line[l..]);
    CStringIs(line[l..]);
    assert forall i :: l <= i < l + k ==> line[i] == whole[i - l];
    assert forall i :: 0 <= i < |whole| ==> whole[i] == line[l + i];
  }

  /** The trimming loops of VRY_Create and VRY_Match. */
  method Trim(v: string) returns (t: string)
    ensures t == RTrim(LTrim(v))
  {
    var h := 0;
    while h < |v| && Space(v[h])
      invariant 0 <= h <= |v| && LTrim(v) == LTrim(v[h..])
    {
      h := h + 1;
    }
    var s := v[h..];
    var e := |s|;
    assert s[..e] == s;
    while e > 0 && Space(s[e - 1])
      invariant 0 <= e <= |s| && RTrim(s) == RTrim(s[..e])
    {
      assert s[..e][..e - 1] == s[..e - 1];
      e := e - 1;
    }
    t := s[..e];
  }

  /* ---- the names ---- */

  /** The length of the name at the beginning of `s`: up to white space or a comma. */
  function NameLen(s: string): (n: nat)
    ensures n <= |s| && forall i :: 0 <= i < n ==> !Space(s[i]) && s[i] != ','
    ensures n < |s| ==> Space(s[n]) || s[n] == ','
  {
    if s == "" || Space(s[0]) || s[0] == ',' then 0 else 1 + NameLen(s[1..])
  }

  function Prepend(a: seq<string>, t: Option<seq<string>>): Option<seq<string>> {
    if t.None? then None else Some(a + t.value)
  }

  /** The names of a Vary header, or none if white space and no comma follows a name. */
  function Names(s: string): Option<seq<string>>
    decreases |s|
  {
    if s == "" then Some([])
    else if Space(s[0]) then Names(s[1..])
    else
      var n := NameLen(s);
      LTrimShorter(s[n..]);
      var r := LTrim(s[n..]);
      if r == "" then Some([s[..n]]) else if r[0] != ',' then None else Prepend([s[..n]], Names(r[1..]))
  }

  lemma {:induction false} LTrimShorter(s: string)
    ensures |LTrim(s)| <= |s| && LTrim(s) == s[|s| - |LTrim(s)|..]
  {
    if s != "" && Space(s[0]) {
      LTrimShorter(s[1..]);
    }
  }

  lemma {:induction false} NamesLTrim(s: string)
    ensures Names(LTrim(s)) == Names(s)
  {
    if s != "" && Space(s[0]) {
      NamesLTrim(s[1..]);
    }
  }

  /** White space around a name in a list. */
  datatype Element = Element(before: string, name: string, after: string)

  ghost predicate ElementOk(e: Element) {
    && (forall i :: 0 <= i < |e.before| ==> Space(e.before[i]))
    && (forall i :: 0 <= i < |e.after| ==> Space(e.after[i]))
    && e.name != "" && forall i :: 0 <= i < |e.name| ==> !Space(e.name[i]) && e.name[i] != ','
  }

  /** A comma separated list of names. */
  function Joined(es: seq<Element>): string {
    if es == [] then "" else es[0].before + es[0].name + es[0].after + (if |es| == 1 then "" else "," + Joined(es[1..]))
  }

  function NamesOf(es: seq<Element>): seq<string> {
    if es == [] then [] else [es[0].name] + NamesOf(es[1..])
  }

  lemma {:induction false} NamesBefore(b: string, s: string)
    requires forall i :: 0 <= i < |b| ==> Space(b[i])
    ensures Names(b + s) == Names(s) && LTrim(b + s) == LTrim(s)
  {
    if b == "" {
      assert b + s == s;
    } else {
      assert (b + s)[1..] == b[1..] + s && Space((b + s)[0]);
      NamesBefore(b[1..], s);
    }
  }

  lemma {:induction false} NameLenIs(n: string, s: string)
    requires (forall i :: 0 <= i < |n| ==> !Space(n[i]) && n[i] != ',') && (s == "" || Space(s[0]) || s[0] == ',')
    ensures NameLen(n + s) == |n|
  {
    if n == "" {
      assert n + s == s;
    } else {
      assert (n + s)[1..] == n[1..] + s && (n + s)[0] == n[0];
      NameLenIs(n[1..], s);
    }
  }

  /** The names of a list are the names it was made of, whatever the white space. */
  lemma {:induction false} NamesJoined(es: seq<Element>)
    requires forall i :: 0 <= i < |es| ==> ElementOk(es[i])
    ensures Names(Joined(es)) == Some(NamesOf(es))
  {
    if es != [] {
      var e, t := es[0], if |es| == 1 then "" else "," + Joined(es[1..]);
      var s := e.name + (e.after + t);
      assert Joined(es) == e.before + s;
      NamesBefore(e.before, s);
      NameLenIs(e.name, e.after + t);
      NamesBefore(e.after, t);
      assert s[|e.name|..] == e.after + t && s[..|e.name|] == e.name && !Space(s[0]);
      assert LTrim(e.after + t) == t;
      if |es| > 1 {
        NamesJoined(es[1..]);
        assert t[1..] == Joined(es[1..]);
      } else {
        assert es[1..] == [] && NamesOf(es[1..]) == [];
        assert [e.name] + NamesOf(es[1..]) == [e.name];
      }
    }
  }

  /* ---- the matching string ---- */

  /** A named header and the value it had, trimmed, or none. */
  datatype Entry = Entry(name: string, value: Option<string>)

  function Entries(ns: seq<string>, h: Http): (es: seq<Entry>)
    ensures |es| == |ns| && forall i :: 0 <= i < |ns| ==> es[i] == Entry(ns[i], Trimmed(h, ns[i]))
  {
    if ns == [] then [] else Entries(ns[..|ns| - 1], h) + [Entry(ns[|ns| - 1], Trimmed(h, ns[|ns| - 1]))]
  }

  /** A length in two bytes, 0xffff for a header that is not present. */
  function Head(v: Option<string>): (s: string)
    requires v.Some? ==> |v.value| <= 0xffff
    ensures |s| == 2
  {
    if v.None? then [255 as char, 255 as char] else [(|v.value| / 256) as char, (|v.value| % 256) as char]
  }

  /** A name that http_GetHdr can be asked for, and a value whose length fits two bytes. A length byte above 127
      is negative for it. */
  predicate Fits(e: Entry) {
    |e.name| <= 126 && (e.value.Some? ==> |e.value.value| <= 0xffff)
  }

  function Bytes(e: Entry): string
    requires Fits(e)
  {
    [(1 + |e.name|) as char] + e.name + ":" + "\0" + Head(e.value) + if e.value.None? then "" else e.value.value
  }

  ghost predicate AllFit(es: seq<Entry>) {
    forall i :: 0 <= i < |es| ==> Fits(es[i])
  }

  function AllBytes(es: seq<Entry>): string
    requires AllFit(es)
  {
    if es == [] then "" else AllBytes(es[..|es| - 1]) + Bytes(es[|es| - 1])
  }

  lemma {:induction false} AllBytesMore(es: seq<Entry>, e: Entry)
    requires AllFit(es) && Fits(e)
    ensures AllFit(es + [e]) && AllBytes(es + [e]) == AllBytes(es) + Bytes(e)
  {
    assert (es + [e])[..|es|] == es;
  }

  datatype Created = NoVary | Panic | Vary(text: string)

  /** The part of the matching string for one name; not ok is a panic. */
  method EntryFor(req: Http, name: string) returns (ok: bool, s: string)
    ensures ok <==> Fits(Entry(name, Trimmed(req, name)))
    ensures ok ==> s == Bytes(Entry(name, Trimmed(req, name)))
  {
    if |name| > 126 {
      return false, "";
    }
    s := [(1 + |name|) as char] + name + ":" + "\0";
    var g := GetHdr(req, name);
    if g.Some? {
      var t := Trim(g.value);
      var l := |t|;
      if l > 0xffff {
        return false, "";
      }
      s := s + [(l / 256) as char, (l % 256) as char] + t;
    } else {
      s := s + [255 as char, 255 as char];
    }
    ok := true;
  }

  /** The loops of VRY_Create over a name, and over the white space after it. */
  method NextName(v: string, p: nat) returns (q: nat, r: nat)
    requires p < |v| && !Space(v[p])
    ensures p <= q <= r <= |v| && q - p == NameLen(v[p..]) && LTrim(v[q..]) == v[r..]
  {
    q := p;
    while q < |v| && !Space(v[q]) && v[q] != ','
      invariant p <= q <= |v| && NameLen(v[p..]) == q - p + NameLen(v[q..])
    {
      assert v[q..][1..] == v[q + 1..];
      q := q + 1;
    }
    r := SkipSpace(v, q);
  }

  method SkipSpace(v: string, q: nat) returns (r: nat)
    requires q <= |v|
    ensures q <= r <= |v| && LTrim(v[q..]) == v[r..]
  {
    r := q;
    while r < |v| && Space(v[r])
      invariant q <= r <= |v| && LTrim(v[q..]) == LTrim(v[r..])
    {
      assert v[r..][1..] == v[r + 1..];
      r := r + 1;
    }
  }

  /** One more name, followed by white space up to `r`. */
  lemma {:induction false} NamesStep(v: string, p: nat, q: nat, r: nat, done: seq<string>)
    requires p < |v| && !Space(v[p]) && p <= q <= r <= |v| && q - p == NameLen(v[p..]) && LTrim(v[q..]) == v[r..]
    ensures Prepend(done, Names(v[p..])) ==
      if r == |v| then Some(done + [v[p..q]])
      else if v[r] != ',' then None
      else Prepend(done + [v[p..q]], Names(v[r + 1..]))
  {
    assert v[p..][q - p..] == v[q..] && v[p..][..q - p] == v[p..q];
    if r < |v| {
      assert v[r..][1..] == v[r + 1..] && v[r..][0] == v[r];
      var t := Names(v[r + 1..]);
      if t.Some? {
        assert done + ([v[p..q]] + t.value) == done + [v[p..q]] + t.value;
      }
    }
  }

  lemma {:induction false} EntriesMore(ns: seq<string>, n: string, h: Http)
    ensures Entries(ns + [n], h) == Entries(ns, h) + [Entry(n, Trimmed(h, n))]
  {
    assert (ns + [n])[..|ns|] == ns;
  }

  lemma {:induction false} NamesAll(v: string)
    ensures v[0..] == v && v[|v|..] == "" && Names("") == Some([])
    ensures Names(v) == Prepend([], Names(v[0..]))
  {
    assert v[0..] == v;
    if Names(v).Some? {
      assert [] + Names(v).value == Names(v).value;
    }
  }

  lemma {:induction false} EntriesNone(req: Http)
    ensures Entries([], req) == [] && AllFit([]) && AllBytes([]) == ""
  {
  }

  lemma {:induction false} NamesSpace(v: string, p: nat)
    requires p < |v| && Space(v[p])
    ensures Names(v[p..]) == Names(v[p + 1..])
  {
    assert v[p..][1..] == v[p + 1..];
  }

  lemma {:induction false} Misfit(v: string, p: nat, q: nat, r: nat, done: seq<string>, req: Http)
    requires p < |v| && !Space(v[p]) && p <= q <= r <= |v| && q - p == NameLen(v[p..]) && LTrim(v[q..]) == v[r..]
    requires !Fits(Entry(v[p..q], Trimmed(req, v[p..q])))
    ensures MatchingString(Prepend(done, Names(v[p..])), req) == Panic
  {
    hide Names, Fits;
    NamesStep(v, p, q, r, done);
    var ns := Prepend(done, Names(v[p..]));
    assert ns.Some? ==> ns.value[|done|] == v[p..q];
  }

  lemma {:induction false} AllSeen(done: seq<string>, req: Http)
    ensures Prepend(done, Some([])) == Some(done) && MatchingString(None, req) == Panic
  {
    assert done + [] == done;
  }

  lemma {:induction false} Fitting(ns: seq<string>, req: Http)
    requires AllFit(Entries(ns, req))
    ensures MatchingString(Some(ns), req) == Vary(AllBytes(Entries(ns, req)) + "\0")
  {
    forall i | 0 <= i < |ns|
      ensures Fits(Entry(ns[i], Trimmed(req, ns[i])))
    {
      assert Entries(ns, req)[i] == Entry(ns[i], Trimmed(req, ns[i]));
    }
  }

  /** VRY_Create. It panics on a list of names that is none, and on a name or value that is too long. */
  method Create(req: Http, obj: Http) returns (c: Created)
    ensures Hdr(obj, "Vary") == None ==> c == NoVary
    ensures Hdr(obj, "Vary").Some? ==> c == MatchingString(Names(Hdr(obj, "Vary").value), req)
  {
    hide Names, Trimmed, Bytes, AllBytes, Prepend, AllFit, Fits, NameLen, LTrim, Entries, MatchingString, Hdr;
    var g := GetHdr(obj, "Vary");
    if g == None {
      return NoVary;
    }
    var v := g.value;
    NamesLTrim(v);
    NamesLTrim(Hdr(obj, "Vary").value);
    var sb, p := "", 0;
    ghost var done: seq<string> := [];
    NamesAll(v);
    EntriesNone(req);
    while p < |v|
      invariant 0 <= p <= |v| && Names(v) == Prepend(done, Names(v[p..]))
      invariant AllFit(Entries(done, req)) && sb == AllBytes(Entries(done, req))
    {
      if Space(v[p]) {
        NamesSpace(v, p);
        p := p + 1;
      } else {
        var q, r := NextName(v, p);
        var name := v[p..q];
        NamesStep(v, p, q, r, done);
        EntriesMore(done, name, req);
        var ok, s := EntryFor(req, name);
        if !ok {
          Misfit(v, p, q, r, done, req);
          return Panic;
        }
        AllBytesMore(Entries(done, req), Entry(name, Trimmed(req, name)));
        sb, done := sb + s, done + [name];
        if r == |v| {
          break;
        }
        if v[r] != ',' {
          AllSeen(done, req);
          return Panic;
        }
        p := r + 1;
      }
    }
    AllSeen(done, req);
    Fitting(done, req);
    c := Vary(sb + "\0");
  }

  /** What VRY_Create makes of a list of names. */
  function MatchingString(ns: Option<seq<string>>, req: Http): Created {
    if ns.Some? && forall i :: 0 <= i < |ns.value| ==> Fits(Entry(ns.value[i], Trimmed(req, ns.value[i]))) then
      Vary(AllBytes(Entries(ns.value, req)) + "\0")
    else Panic
  }

  /* ---- matching ---- */

  /** The header has in `h` what it had. */
  predicate Agrees(e: Entry, h: Http) {
    Trimmed(h, e.name) == e.value
  }

  /** A value of length 0xffff passes for an absent one. */
  predicate Ambiguous(e: Entry) {
    e.value.Some? && |e.value.value| == 0xffff
  }

  /** Where the entry after the first `k` begins, and what is there. */
  lemma {:induction false} EntryAt(es: seq<Entry>, k: nat)
    requires AllFit(es) && k < |es|
    ensures AllFit(es[..k]) && AllFit(es[..k + 1]) && AllBytes(es[..k + 1]) == AllBytes(es[..k]) + Bytes(es[k])
    ensures AllBytes(es[..k + 1]) <= AllBytes(es)
  {
    hide Bytes;
    assert es[..k + 1][..k] == es[..k];
    if k < |es| - 1 {
      var n := |es| - 1;
      EntryAt(es[..n], k);
      assert es[..n][..k + 1] == es[..k + 1] && es[..n][..k] == es[..k];
    } else {
      assert es[..k + 1] == es;
    }
  }

  /** The parts of an entry, `p` bytes into a string. */
  lemma {:induction false} EntryParts(s: string, p: nat, e: Entry)
    requires Fits(e) && p + |Bytes(e)| <= |s| && s[p..p + |Bytes(e)|] == Bytes(e)
    ensures var n := |e.name|;
            && |Bytes(e)| == n + 5 + (if e.value.None? then 0 else |e.value.value|)
            && s[p] as int == 1 + n && s[p + 1..p + 1 + n] == e.name && s[p + 1 + n] == ':' && s[p + 2 + n] == '\0'
            && s[p + n + 3] as int * 256 + s[p + n + 4] as int == (if e.value.None? then 0xffff else |e.value.value|)
            && (e.value.Some? ==> s[p + n + 5..p + |Bytes(e)|] == e.value.value)
  {
    var b, n := Bytes(e), |e.name|;
    assert forall i :: 0 <= i < |b| ==> s[p + i] == b[i];
    assert b[1..1 + n] == e.name;
    assert e.value.Some? ==> b[n + 5..] == e.value.value;
  }

  predicate NoNul(s: string) {
    forall i :: 0 <= i < |s| ==> s[i] != '\0'
  }

  /** Names and values are C strings. */
  ghost predicate NoNuls(es: seq<Entry>) {
    forall i :: 0 <= i < |es| ==> NoNul(es[i].name) && (es[i].value.Some? ==> NoNul(es[i].value.value))
  }

  lemma {:induction false} CStringAtLeast(s: string, n: nat)
    requires n <= |s| && NoNul(s[..n])
    ensures |CString(s)| >= n && (n < |s| && s[n] == '\0' ==> |CString(s)| == n)
    ensures n == |s| ==> CString(s) == s
  {
    if n > 0 {
      assert s[0] == s[..n][0] && s[1..][..n - 1] == s[..n][1..];
      CStringAtLeast(s[1..], n - 1);
    }
  }

  datatype Matched = Yes | No | Dies

  /** The request lacks a header whose value was as long as the mark of an absent one. */
  predicate Strays(e: Entry, h: Http) {
    Ambiguous(e) && Hdr(h, e.name).None?
  }

  /** The assertions of http_GetHdr on a name in the matching string, where a length byte above 127 is negative. */
  predicate NameAt(vary: string, p: nat)
    requires p < |vary|
  {
    var l := vary[p] as int;
    l <= 127 && |CString(vary[p + 1..])| == l && p + l < |vary| && vary[p + l] == ':'
  }

  /** VRY_Match of a matching string with the entries `es`: yes if all agree and none is ambiguous; and a panic if the
      first entry of which that is not true strays, for what follows is then taken from the middle of a value. */
  method Match(vary: string, h: Http, ghost es: seq<Entry>) returns (r: Matched)
    requires AllFit(es) && NoNuls(es) && vary == AllBytes(es) + "\0"
    ensures r == Yes <==> forall i :: 0 <= i < |es| ==> Same(es[i], h)
    ensures r == Dies <==> exists k :: 0 <= k < |es| && Strays(es[k], h) && forall i :: 0 <= i < k ==> Same(es[i], h)
  {
    hide Bytes, AllBytes, Hdr, At, LTrim, RTrim, AllFit, Fits, CString, NameAt;
    var p: nat := 0;
    ghost var k: nat := 0;
    ghost var astray := false;
    Begin(vary, es);
    while vary[p] != '\0'
      invariant k <= |es| && p < |vary|
      invariant astray ==> !NameAt(vary, p) && vary[p] != '\0'
      invariant !astray ==> At(vary, es, k, p) && (vary[p] == '\0' <==> k == |es|)
      invariant astray ==> k > 0 && Strays(es[k - 1], h) && forall i :: 0 <= i < k - 1 ==> Same(es[i], h)
      invariant !astray ==> forall i :: 0 <= i < k ==> Same(es[i], h)
      decreases |es| - k
    {
      if !astray {
        Here(vary, es, k, p);
        NamedHere(vary, es, k, p);
      }
      if !NameAt(vary, p) {
        return Dies;
      }
      ghost var e := es[k];
      var l := vary[p] as int;
      var g := GetHdr(h, vary[p + 1..p + l]);
      p := p + l + 2;
      var len := vary[p] as int * 256 + vary[p + 1] as int;
      p := p + 2;
      if g.Some? && len == 0xffff {
        return No;
      }
      if len != 0xffff && g.None? {
        return No;
      }
      if g.Some? {
        var t := Trim(g.value);
        if |t| != len {
          return No;
        }
        if t != vary[p..p + len] {
          return No;
        }
        p := p + len;
      } else if e.value.Some? {
        InValue(vary, p, e.value.value);
        astray := true;
      }
      k := k + 1;
    }
    r := Yes;
  }

  /** The header has in `h` what it had, and its length says so. */
  predicate Same(e: Entry, h: Http) {
    Agrees(e, h) && !Ambiguous(e)
  }

  /** In the middle of a long value there is no name. */
  lemma {:induction false} InValue(vary: string, p: nat, v: string)
    requires |v| > 256 && p + |v| <= |vary| && vary[p..p + |v|] == v && NoNul(v)
    ensures vary[p] != '\0' && !NameAt(vary, p)
  {
    assert vary[p] == v[0];
    assert vary[p + 1..][..|v| - 1] == v[1..];
    CStringAtLeast(vary[p + 1..], |v| - 1);
  }

  lemma {:induction false} NamedHere(vary: string, es: seq<Entry>, k: nat, p: nat)
    requires At(vary, es, k, p) && k < |es| && NoNuls(es)
    ensures NameAt(vary, p)
  {
    hide AllBytes, Bytes;
    Here(vary, es, k, p);
    var n := |es[k].name|;
    var s := vary[p + 1..];
    forall i | 0 <= i < n + 1
      ensures s[i] != '\0'
    {
      assert i < n ==> s[i] == vary[p + 1..p + 1 + n][i];
    }
    NameFits(es, k);
    CStringAtLeast(s, n + 1);
  }

  lemma NameFits(es: seq<Entry>, k: nat)
    requires AllFit(es) && k < |es|
    ensures |es[k].name| <= 126
  {
  }

  /** The entry `k`, or the end, is at `p`. */
  ghost predicate At(vary: string, es: seq<Entry>, k: nat, p: nat) {
    && AllFit(es) && k <= |es| && AllFit(es[..k])
    && p == |AllBytes(es[..k])| < |vary| && vary == AllBytes(es) + "\0"
    && (vary[p] == '\0' <==> k == |es|)
  }

  lemma {:induction false} NextIsAt(vary: string, es: seq<Entry>, k: nat)
    requires AllFit(es) && vary == AllBytes(es) + "\0" && k <= |es|
    ensures AllFit(es[..k]) && At(vary, es, k, |AllBytes(es[..k])|)
  {
    hide Bytes, AllBytes;
    assert es[..|es|] == es;
    if k < |es| {
      EntryAt(es, k);
      var p := |AllBytes(es[..k])|;
      var n := p + |Bytes(es[k])|;
      assert vary[..n] == AllBytes(es[..k + 1]);
      assert vary[p..n] == vary[..n][p..] == Bytes(es[k]);
      EntryParts(vary, p, es[k]);
    }
  }

  lemma {:induction false} Begin(vary: string, es: seq<Entry>)
    requires AllFit(es) && vary == AllBytes(es) + "\0"
    ensures At(vary, es, 0, 0) && |vary| > 0 && (vary[0] == '\0' <==> |es| == 0)
  {
    NextIsAt(vary, es, 0);
    assert es[..0] == [];
  }

  /** What is at `p`, and that the next entry, or the end, comes after it. */
  lemma {:induction false} Here(vary: string, es: seq<Entry>, k: nat, p: nat)
    requires At(vary, es, k, p) && k < |es|
    ensures var e, n := es[k], |es[k].name|;
            var m := if e.value.None? then 0 else |e.value.value|;
            && p + n + 5 + m < |vary| && vary[p] as int == 1 + n && vary[p + 1..p + 1 + n] == e.name &&
              vary[p + 1 + n] == ':' && vary[p + 2 + n] == '\0'
            && vary[p + n + 3] as int * 256 + vary[p + n + 4] as int == (if e.value.None? then 0xffff else m)
            && (e.value.Some? ==> vary[p + n + 5..p + n + 5 + m] == e.value.value)
            && At(vary, es, k + 1, p + n + 5 + m) && (vary[p + n + 5 + m] == '\0' <==> k + 1 == |es|)
  {
    hide Bytes, AllBytes;
    EntryAt(es, k);
    var n := p + |Bytes(es[k])|;
    assert vary[..n] == AllBytes(es[..k + 1]);
    assert vary[p..n] == vary[..n][p..] == Bytes(es[k]);
    EntryParts(vary, p, es[k]);
    NextIsAt(vary, es, k + 1);
  }

  /** The names that the Vary header of an object lists. */
  ghost predicate NamedBy(obj: Http, ns: seq<string>) {
    Hdr(obj, "Vary").Some? && Names(Hdr(obj, "Vary").value) == Some(ns)
  }

  /** A value of `req` as long as the mark for an absent header. */
  predicate TooLong(req: Http, n: string) {
    Trimmed(req, n).Some? && |Trimmed(req, n).value| == 0xffff
  }

  /** A matching string made from one request matches another exactly when each header named by Vary is absent
      from both or has the same trimmed value in both, and no value is 0xffff bytes long. So it matches the request
      it was made from exactly when no value is that long. A request that lacks a header with so long a value makes
      the comparison panic, if it comes that far. */
  method CreateThenMatch(req: Http, obj: Http, other: Http, ghost ns: seq<string>) returns (c: Created, r: Matched)
    requires NamedBy(obj, ns)
    ensures c.Vary? <==> forall i :: 0 <= i < |ns| ==> Fits(Entry(ns[i], Trimmed(req, ns[i])))
    ensures c == MatchingString(Some(ns), req)
    ensures c.Vary? ==> (r == Yes <==> forall i :: 0 <= i < |ns| ==> SameIn(req, other, ns[i]))
    ensures c.Vary? ==> (r == Dies <==>
      exists k :: 0 <= k < |ns| && TooLong(req, ns[k]) && Hdr(other, ns[k]).None? &&
        forall i :: 0 <= i < k ==> SameIn(req, other, ns[i]))
    ensures c.Vary? && other == req ==> r == (if forall i :: 0 <= i < |ns| ==> !TooLong(req, ns[i]) then Yes else No)
  {
    hide Names, Hdr, AllBytes, Bytes, LTrim, RTrim, Trimmed, NoNuls;
    c := Create(req, obj);
    r := No;
    if c.Vary? {
      ghost var es := Entries(ns, req);
      assert AllFit(es);
      EntriesNoNul(ns, obj, req);
      r := Match(c.text, other, es);
      LongIsThere(req);
      assert forall i :: 0 <= i < |ns| ==> es[i] == Entry(ns[i], Trimmed(req, ns[i]));
      assert forall i :: 0 <= i < |ns| ==> Same(es[i], other) == SameIn(req, other, ns[i]);
      assert forall i :: 0 <= i < |ns| ==> Strays(es[i], other) == (TooLong(req, ns[i]) && Hdr(other, ns[i]).None?);
    }
  }

  /* ---- upper and lower case ---- */

  /** The same line but for the case of letters; `Renamed`: of letters of the name. */
  predicate Recased(l: string, m: string) {
    |l| == |m| && forall i :: 0 <= i < |l| ==> SameLetter(l[i], m[i])
  }

  predicate Renamed(l: string, m: string) {
    Recased(l, m) && forall i :: 0 <= i < |l| && l[i] != m[i] ==> ':' !in l[..i]
  }

  predicate AllRecased(h: Http, g: Http) {
    |h| == |g| && forall u :: 0 <= u < |h| ==> Recased(h[u], g[u])
  }

  predicate AllRenamed(h: Http, g: Http) {
    |h| == |g| && forall u :: 0 <= u < |h| ==> Renamed(h[u], g[u])
  }

  lemma NamedRecased(l: string, m: string, n: string, o: string)
    requires Recased(l, m) && Recased(n, o)
    ensures IsHdr(l, n) <==> IsHdr(m, o)
  {
    NamedIs(l, n);
    NamedIs(m, o);
  }

  lemma {:induction false} CStringRecased(s: string, t: string)
    requires Recased(s, t)
    ensures Recased(CString(s), CString(t))
  {
    if s != "" && s[0] != '\0' {
      CStringRecased(s[1..], t[1..]);
    }
  }

  lemma {:induction false} HdrRecased(h: Http, g: Http, n: string, o: string)
    requires AllRecased(h, g) && Recased(n, o)
    ensures Hdr(h, n).Some? <==> Hdr(g, o).Some?
    ensures Hdr(h, n).Some? ==> Recased(Hdr(h, n).value, Hdr(g, o).value)
    ensures AllRenamed(h, g) ==> Hdr(h, n) == Hdr(g, o)
  {
    hide IsHdr, CString;
    if h != [] {
      var l, m := h[0], g[0];
      NamedRecased(l, m, n, o);
      if IsHdr(l, n) {
        NamedIs(l, n);
        NamedIs(m, o);
        CStringRecased(l[|n| + 1..], m[|n| + 1..]);
        if AllRenamed(h, g) {
          ValueKept(l, m, |n|);
        }
      } else {
        HdrRecased(h[1..], g[1..], n, o);
      }
    }
  }

  lemma ValueKept(l: string, m: string, n: nat)
    requires Renamed(l, m) && n < |l| && l[n] == ':'
    ensures l[n + 1..] == m[n + 1..]
  {
    forall i | n < i < |l|
      ensures l[i] == m[i]
    {
      assert l[..i][n] == ':';
    }
  }

  lemma {:induction false} NameLenRecased(s: string, t: string)
    requires Recased(s, t)
    ensures NameLen(s) == NameLen(t)
  {
    if s != "" {
      NameLenRecased(s[1..], t[1..]);
    }
  }

  lemma {:induction false} LTrimRecased(s: string, t: string)
    requires Recased(s, t)
    ensures Recased(LTrim(s), LTrim(t))
  {
    if s != "" {
      LTrimRecased(s[1..], t[1..]);
    }
  }

  /** The same list of names, but for the case of letters. */
  predicate ListRecased(a: Option<seq<string>>, b: Option<seq<string>>) {
    a.Some? == b.Some? && (a.Some? ==> AllRecased(a.value, b.value))
  }

  lemma {:induction false} NamesRecased(s: string, t: string)
    requires Recased(s, t)
    ensures ListRecased(Names(s), Names(t))
    decreases |s|
  {
    hide SameLetter, Space, LTrim, NameLen;
    if s != "" {
      SameClass(s[0], t[0]);
    }
    if s == "" {
    } else if Space(s[0]) {
      NamesRecased(s[1..], t[1..]);
    } else {
      NameLenRecased(s, t);
      var n := NameLen(s);
      LTrimRecased(s[n..], t[n..]);
      LTrimShorter(s[n..]);
      var q, r := LTrim(s[n..]), LTrim(t[n..]);
      assert Recased(s[..n], t[..n]);
      if q != "" {
        SameClass(q[0], r[0]);
        if q[0] == ',' {
          NamesRecased(q[1..], r[1..]);
        }
      }
    }
  }

  lemma SameClass(c: char, d: char)
    requires SameLetter(c, d)
    ensures Space(c) == Space(d) && (c == ',' <==> d == ',')
  {
  }

  /** The case of the letters of header names does not matter, in either request, in the object, and in the list of
      names in its Vary header. */
  method AnyCase(req: Http, obj: Http, other: Http, req2: Http, obj2: Http, other2: Http)
    returns (c: Created, r: Matched, c2: Created, r2: Matched)
    requires AllRenamed(req, req2) && AllRecased(obj, obj2) && AllRenamed(other, other2)
    ensures c.NoVary? == c2.NoVary? && c.Vary? == c2.Vary? && r == r2
    ensures AllRenamed(obj, obj2) ==> c == c2
  {
    hide Hdr, Names, AllRecased, AllRenamed, Recased, Fits, SameIn, TooLong, MatchingString;
    SelfRecased("Vary");
    HdrRecased(obj, obj2, "Vary", "Vary");
    c := Create(req, obj);
    c2 := Create(req2, obj2);
    r, r2 := No, No;
    var g, g2 := Hdr(obj, "Vary"), Hdr(obj2, "Vary");
    if g == None {
      return;
    }
    assert ListRecased(Names(g.value), Names(g2.value)) by {
      NamesRecased(g.value, g2.value);
    }
    ghost var names, names2 := Names(g.value), Names(g2.value);
    CreatedRecased(names, names2, req, req2);
    if c.Vary? {
      ghost var ns, ns2 := names.value, names2.value;
      c, r := CreateThenMatch(req, obj, other, ns);
      c2, r2 := CreateThenMatch(req2, obj2, other2, ns2);
      SameRecased(ns, ns2, req, req2, other, other2);
    }
  }

  lemma SelfRecased(n: string)
    ensures Recased(n, n)
  {
  }

  lemma CreatedRecased(a: Option<seq<string>>, b: Option<seq<string>>, req: Http, req2: Http)
    requires ListRecased(a, b) && AllRenamed(req, req2)
    ensures MatchingString(a, req).Vary? <==> MatchingString(b, req2).Vary?
    ensures a == b ==> MatchingString(a, req) == MatchingString(b, req2)
    ensures !MatchingString(a, req).NoVary? && !MatchingString(b, req2).NoVary?
    ensures MatchingString(a, req).Vary? ==> a.Some? && AllRecased(a.value, b.value)
  {
    hide Trimmed, AllRenamed, Renamed, Recased, Bytes, AllBytes;
    if a.Some? {
      forall i | 0 <= i < |a.value|
        ensures Trimmed(req, a.value[i]) == Trimmed(req2, b.value[i]) && |a.value[i]| == |b.value[i]|
      {
        OneRecased(req, req2, a.value[i], b.value[i]);
      }
      if a == b {
        assert Entries(a.value, req) == Entries(b.value, req2);
      }
    }
  }

  lemma OneRecased(h: Http, g: Http, n: string, o: string)
    requires AllRenamed(h, g) && Recased(n, o)
    ensures Hdr(h, n) == Hdr(g, o) && Trimmed(h, n) == Trimmed(g, o) && |n| == |o|
  {
    hide Hdr;
    HdrRecased(h, g, n, o);
  }

  lemma SameRecased(a: seq<string>, b: seq<string>, req: Http, req2: Http, other: Http, other2: Http)
    requires AllRecased(a, b) && AllRenamed(req, req2) && AllRenamed(other, other2)
    ensures |a| == |b|
    ensures forall i :: 0 <= i < |a| ==> SameIn(req, other, a[i]) == SameIn(req2, other2, b[i])
    ensures forall i :: 0 <= i < |a| ==> TooLong(req, a[i]) == TooLong(req2, b[i])
    ensures forall i :: 0 <= i < |a| ==> Hdr(other, a[i]).None? == Hdr(other2, b[i]).None?
  {
    hide Hdr, Trimmed, AllRenamed, Renamed, Recased;
    forall i | 0 <= i < |a|
      ensures SameIn(req, other, a[i]) == SameIn(req2, other2, b[i])
      ensures TooLong(req, a[i]) == TooLong(req2, b[i])
      ensures Hdr(other, a[i]).None? == Hdr(other2, b[i]).None?
    {
      OneRecased(req, req2, a[i], b[i]);
      OneRecased(other, other2, a[i], b[i]);
    }
  }

  lemma LongIsThere(req: Http)
    ensures forall n :: TooLong(req, n) ==> Hdr(req, n).Some?
  {
  }

  predicate SameIn(req: Http, other: Http, n: string) {
    Trimmed(req, n) == Trimmed(other, n) && !TooLong(req, n)
  }

  lemma {:induction false} HdrNoNul(h: Http, name: string)
    ensures Hdr(h, name).Some? ==> NoNul(Hdr(h, name).value)
    ensures Trimmed(h, name).Some? ==> NoNul(Trimmed(h, name).value)
  {
    if h != [] && !IsHdr(h[0], name) {
      HdrNoNul(h[1..], name);
    }
    if Hdr(h, name).Some? {
      var v := Hdr(h, name).value;
      LTrimShorter(v);
      RTrimPrefix(LTrim(v));
    }
  }

  lemma {:induction false} RTrimPrefix(s: string)
    ensures RTrim(s) <= s
  {
    if s != "" && Space(s[|s| - 1]) {
      RTrimPrefix(s[..|s| - 1]);
    }
  }

  lemma {:induction false} NamesNoNul(s: string)
    requires NoNul(s)
    ensures Names(s).Some? ==> forall i :: 0 <= i < |Names(s).value| ==> NoNul(Names(s).value[i])
    decreases |s|
  {
    if s == "" {
    } else if Space(s[0]) {
      NamesNoNul(s[1..]);
    } else {
      var n := NameLen(s);
      LTrimShorter(s[n..]);
      var r := LTrim(s[n..]);
      if r != "" && r[0] == ',' {
        NamesNoNul(r[1..]);
      }
    }
  }

  lemma {:induction false} EntriesNoNul(ns: seq<string>, obj: Http, req: Http)
    requires NamedBy(obj, ns)
    ensures NoNuls(Entries(ns, req))
  {
    HdrNoNul(obj, "Vary");
    NamesNoNul(Hdr(obj, "Vary").value);
    forall i | 0 <= i < |ns|
      ensures Trimmed(req, ns[i]).Some? ==> NoNul(Trimmed(req, ns[i]).value)
    {
      HdrNoNul(req, ns[i]);
    }
  }

  /** A request with a value of 0xffff bytes does not match the string made from it, and one without it panics. */
  method LongestValue() returns (c: Created, own: Matched, empty: Matched)
    ensures c.Vary? && own == No && empty == Dies
  {
    var v := seq(0xffff, i => 'a');
    var req, obj := ["X:" + v], ["Vary:X"];
    LongValue(v);
    OneName();
    hide Hdr, Trimmed, Names;
    ghost var ns := ["X"];
    assert TooLong(req, ns[0]);
    c, own := CreateThenMatch(req, obj, req, ns);
    c, empty := CreateThenMatch(req, obj, [], ns);
  }

  lemma {:induction false} LongValue(v: string)
    requires |v| == 0xffff && forall i :: 0 <= i < |v| ==> v[i] == 'a'
    ensures TooLong(["X:" + v], "X") && Fits(Entry("X", Trimmed(["X:" + v], "X")))
    ensures Hdr([], "X") == None
  {
    var line := "X:" + v;
    assert line[..1] == "X" && line[1] == ':' && line[2..] == v && !Space('a');
    assert v[..|v|] == v;
    CStringAtLeast(v, |v|);
    assert Hdr([line], "X") == Some(v);
  }

  lemma {:induction false} OneName()
    ensures NamedBy(["Vary:X"], ["X"])
  {
    var line := "Vary:X";
    assert line[..4] == "Vary" && line[4] == ':' && line[5..] == "X";
    CStringAtLeast("X", 1);
    assert !Space('X') && "X"[..1] == "X" && "X"[1..] == "";
    assert NameLen("") == 0 && NameLen("X") == 1;
  }
}
