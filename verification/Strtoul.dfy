/** The number parsing of the C library that bin/varnishd/cache_fetch.c relies on: strtoul and strtoumax. */
module Strtoul {
  import opened CType

  /** The value of a digit, 36 for what is none. */
  function Digit(c: char): nat {
    if '0' <= c <= '9' then c as nat - '0' as nat
    else if 'a' <= c <= 'z' then c as nat - 'a' as nat + 10
    else if 'A' <= c <= 'Z' then c as nat - 'A' as nat + 10
    else 36
  }

  /** The decimal digits count from zero, the letters from ten, in either case; nothing else is a digit. */
  lemma DigitIs(c: char)
    ensures Digit('0') == 0 && Digit('9') == 9 && Digit('a') == Digit('A') == 10 && Digit('z') == Digit('Z') == 35
    ensures '0' <= c < '9' || 'a' <= c < 'z' || 'A' <= c < 'Z' ==> Digit((c as int + 1) as char) == Digit(c) + 1
    ensures Digit(c) >= 36 <==> !('0' <= c <= '9' || 'a' <= c <= 'z' || 'A' <= c <= 'Z')
  {
  }

  /** Where the white space, or the digits, from `i` on end. */
  function Spaces(s: string, i: nat): (j: nat)
    requires i <= |s|
    ensures i <= j <= |s|
    decreases |s| - i
  {
    if i < |s| && Space(s[i]) then Spaces(s, i + 1) else i
  }

  function Digits(s: string, i: nat, base: nat): (j: nat)
    requires i <= |s|
    ensures i <= j <= |s|
    decreases |s| - i
  {
    if i < |s| && Digit(s[i]) < base then Digits(s, i + 1, base) else i
  }

  function Value(s: string, base: nat): nat {
    if s == "" then 0 else Value(s[..|s| - 1], base) * base + Digit(s[|s| - 1])
  }

  const ULONG: nat := 0x1_0000_0000_0000_0000

  /** The value and where parsing stopped, zero for no number at all. */
  datatype Number = Number(value: nat, end: nat)

  /** Where the digits, or their prefix, begin: after white space and a sign. */
  function Start(s: string): (j: nat)
    ensures j <= |s|
  {
    var i := Spaces(s, 0);
    if i < |s| && (s[i] == '-' || s[i] == '+') then i + 1 else i
  }

  predicate Negative(s: string) {
    var i := Spaces(s, 0);
    i < |s| && s[i] == '-'
  }

  predicate Prefixed(s: string, j: nat) {
    j + 2 < |s| && s[j] == '0' && (s[j + 1] == 'x' || s[j + 1] == 'X') && Digit(s[j + 2]) < 16
  }

  /** Base 0 takes 0x for hexadecimal and a leading zero for octal. Values past the largest saturate; a minus
      sign wraps around. */
  function Parse(s: string, base: nat): (n: Number)
    ensures n.end <= |s| && n.value < ULONG
  {
    var j := Start(s);
    var prefixed := (base == 16 || base == 0) && Prefixed(s, j);
    var b := if base != 0 then base else if prefixed then 16 else if j < |s| && s[j] == '0' then 8 else 10;
    var k := if prefixed then j + 2 else j;
    var e := Digits(s, k, b);
    if e == k then Number(0, 0) else
    var v := Value(s[k..e], b);
    Number(if v >= ULONG then ULONG - 1 else if Negative(s) then (ULONG - v) % ULONG else v, e)
  }

  lemma {:induction false} SpacesAre(s: string, i: nat, a: nat)
    requires i <= a <= |s| && (forall k :: i <= k < a ==> Space(s[k])) && (a < |s| ==> !Space(s[a]))
    ensures Spaces(s, i) == a
    decreases a - i
  {
    if i < a {
      SpacesAre(s, i + 1, a);
    }
  }

  lemma {:induction false} DigitsAre(s: string, i: nat, a: nat, base: nat)
    requires i <= a <= |s| && (forall k :: i <= k < a ==> Digit(s[k]) < base) && (a < |s| ==> Digit(s[a]) >= base)
    ensures Digits(s, i, base) == a
    decreases a - i
  {
    if i < a {
      DigitsAre(s, i + 1, a, base);
    }
  }

  function Saturated(v: nat): nat {
    if v >= ULONG then ULONG - 1 else v
  }

  /** White space and then hexadecimal digits are a number. */
  lemma {:induction false} ParseHex(s: string, a: nat, b: nat)
    requires a < b <= |s| && (forall k :: 0 <= k < a ==> Space(s[k])) && (forall k :: a <= k < b ==> Digit(s[k]) < 16)
    requires b < |s| ==> Digit(s[b]) >= 16 && s[b] != 'x' && s[b] != 'X'
    ensures Parse(s, 16) == Number(Saturated(Value(s[a..b], 16)), b)
  {
    SpacesAre(s, 0, a);
    DigitsAre(s, a, b, 16);
  }

  /** White space alone is not. */
  lemma {:induction false} ParseBlank(s: string, base: nat)
    requires forall k :: 0 <= k < |s| ==> Space(s[k])
    ensures Parse(s, base).end == 0
  {
    SpacesAre(s, 0, |s|);
  }

  /** White space, a sign, and what follows the sign. */
  ghost predicate Signed(s: string, a: nat, b: nat) {
    && a <= b <= |s| && (forall k :: 0 <= k < a ==> Space(s[k])) && (a < |s| ==> !Space(s[a]))
    && if a < |s| && (s[a] == '-' || s[a] == '+') then b == a + 1 else b == a
  }

  /** The number that the digits from `b` to `e` are: as unsigned 64 bits, the negative one for a minus sign, and the
      largest one for what does not fit. */
  function Meant(s: string, a: nat, b: nat, e: nat, base: nat): nat
    requires a < |s| && b <= e <= |s|
  {
    var v := Value(s[b..e], base);
    if v >= 0x1_0000_0000_0000_0000 then 0xffff_ffff_ffff_ffff
    else if s[a] == '-' && v > 0 then 0x1_0000_0000_0000_0000 - v
    else v
  }

  lemma {:induction false} StartIs(s: string, a: nat, b: nat)
    requires Signed(s, a, b)
    ensures Start(s) == b && (Negative(s) <==> a < |s| && s[a] == '-')
  {
    SpacesAre(s, 0, a);
  }

  lemma MeantIs(s: string, a: nat, k: nat, e: nat, base: nat)
    requires a < |s| && k <= e <= |s| && (Negative(s) <==> s[a] == '-')
    ensures var v := Value(s[k..e], base);
            Meant(s, a, k, e, base) == if v >= ULONG then ULONG - 1 else if Negative(s) then (ULONG - v) % ULONG else v
  {
    hide Negative, Value;
  }

  lemma NotPrefixed(s: string, b: nat, base: nat)
    requires b + 2 < |s| && (base == 16 || base == 0) && s[b] == '0' && s[b + 1] in "xX" ==> Digit(s[b + 2]) >= 16
    ensures !((base == 16 || base == 0) && Prefixed(s, b))
  {
    hide Digit;
  }

  /** 0x or 0X in front of a hexadecimal digit is a prefix, for base 16 and for base 0. */
  lemma {:induction false} ParsePrefixed(s: string, a: nat, b: nat, e: nat, base: nat)
    requires Signed(s, a, b) && b + 2 < e <= |s| && (base == 16 || base == 0)
    requires s[b] == '0' && s[b + 1] in "xX" && (forall k :: b + 2 <= k < e ==> Digit(s[k]) < 16)
    requires e < |s| ==> Digit(s[e]) >= 16
    ensures Parse(s, base) == Number(Meant(s, a, b + 2, e, 16), e)
  {
    hide Start, Negative, Value, Digits, Digit, Space, Meant;
    StartIs(s, a, b);
    assert Digit(s[b + 2]) < 16 && (s[b + 1] == 'x' || s[b + 1] == 'X');
    DigitsAre(s, b + 2, e, 16);
    MeantIs(s, a, b + 2, e, 16);
  }

  /** Without a prefix the digits are those of the base; for base 0, of base 8 after a leading zero, else of base 10.
      No digits are no number. */
  lemma {:induction false} ParsePlain(s: string, a: nat, b: nat, e: nat, base: nat)
    requires Signed(s, a, b) && b <= e <= |s|
    requires b + 2 < |s| && (base == 16 || base == 0) && s[b] == '0' && s[b + 1] in "xX" ==> Digit(s[b + 2]) >= 16
    requires var of := if base > 0 then base else if b < |s| && s[b] == '0' then 8 else 10;
             (forall k :: b <= k < e ==> Digit(s[k]) < of) && (e < |s| ==> Digit(s[e]) >= of)
    ensures var of := if base > 0 then base else if b < |s| && s[b] == '0' then 8 else 10;
            Parse(s, base) == if e == b then Number(0, 0) else Number(Meant(s, a, b, e, of), e)
  {
    var of := if base > 0 then base else if b < |s| && s[b] == '0' then 8 else 10;
    hide Start, Negative, Value, Digits, Digit, Space, Prefixed, Meant;
    StartIs(s, a, b);
    NotPrefixed(s, b, base);
    DigitsAre(s, b, e, of);
    if b < e {
      MeantIs(s, a, b, e, of);
    }
  }

  /* ---- base 0, which Content-Length is read with ---- */

  ghost predicate Decimal(s: string) {
    s != "" && forall k :: 0 <= k < |s| ==> '0' <= s[k] <= '9'
  }

  lemma {:induction false} OctalSmaller(s: string)
    requires forall k :: 0 <= k < |s| ==> Digit(s[k]) < 8
    ensures Value(s, 8) <= Value(s, 10) && (Value(s, 8) == Value(s, 10) <==> Value(s, 10) < 8)
  {
    if s != "" {
      OctalSmaller(s[..|s| - 1]);
    }
  }

  lemma {:induction false} PrefixSmaller(s: string, e: nat)
    requires e < |s| && (forall k :: 0 <= k < |s| ==> Digit(s[k]) < 10) && Digit(s[e]) > 0
    ensures Value(s[..e], 10) < Value(s, 10)
  {
    var n := |s| - 1;
    if e < n {
      PrefixSmaller(s[..n], e);
      assert s[..n][..e] == s[..e];
    }
  }

  lemma {:induction false} DigitsEnd(s: string, i: nat, base: nat)
    requires i <= |s|
    ensures var e := Digits(s, i, base);
            (forall k :: i <= k < e ==> Digit(s[k]) < base) && (e < |s| ==> Digit(s[e]) >= base)
    decreases |s| - i
  {
    if i < |s| && Digit(s[i]) < base {
      DigitsEnd(s, i + 1, base);
    }
  }

  /** A decimal number read with base 0 is read right exactly when it has no leading zero, or is below eight. */
  lemma {:induction false} BaseZero(s: string)
    requires Decimal(s) && Value(s, 10) < ULONG
    ensures Parse(s, 0).value == Value(s, 10) <==> s[0] != '0' || Value(s, 10) < 8
  {
    assert !Space(s[0]);
    SpacesAre(s, 0, 0);
    if s[0] == '0' {
      var e := Digits(s, 0, 8);
      DigitsEnd(s, 0, 8);
      assert Parse(s, 0) == Number(Saturated(Value(s[0..e], 8)), e);
      OctalSmaller(s[..e]);
      if e < |s| {
        PrefixSmaller(s, e);
        PrefixBelow(s, e);
      } else {
        assert s[..e] == s;
      }
    } else {
      DigitsAre(s, 0, |s|, 10);
      assert s[0..|s|] == s;
    }
  }

  lemma {:induction false} ThreeDigits(s: string, base: nat)
    requires |s| == 3
    ensures Value(s, base) == (Digit(s[0]) * base + Digit(s[1])) * base + Digit(s[2]) && s[0..3] == s
  {
    hide Digit;
    assert s[..2][..1] == s[..1] && s[..1][..0] == "";
    assert Value(s[..1], base) == Value("", base) * base + Digit(s[0]);
    assert Value(s[..2], base) == Value(s[..1], base) * base + Digit(s[1]);
  }

  /** A Content-Length of ten with a leading zero is read as eight. */
  lemma {:induction false} TenIsEight()
    ensures Decimal("010") && Value("010", 10) == 10 && Parse("010", 0).value == 8
  {
    var s := "010";
    ThreeDigits(s, 10);
    ThreeDigits(s, 8);
    hide Value, Parse;
    ParsePlain(s, 0, 0, 3, 0);
  }

  /** A decimal number that goes on past its octal digits is at least eight. */
  lemma {:induction false} PrefixBelow(s: string, e: nat)
    requires e < |s| && (forall k :: 0 <= k < |s| ==> Digit(s[k]) < 10) && Digit(s[e]) >= 8
    ensures Value(s, 10) >= 8
  {
    if e < |s| - 1 {
      PrefixBelow(s[..|s| - 1], e);
    }
  }

  lemma {:induction false} SpacesPrefix(s: string, e: nat, i: nat)
    requires i <= e <= |s| && Spaces(s, i) <= e
    ensures Spaces(s[..e], i) == Spaces(s, i)
    decreases e - i
  {
    if i < e && Space(s[i]) {
      SpacesPrefix(s, e, i + 1);
    }
  }

  lemma {:induction false} DigitsPrefix(s: string, e: nat, i: nat, base: nat)
    requires i <= e <= |s| && Digits(s, i, base) <= e
    ensures Digits(s[..e], i, base) == Digits(s, i, base)
    decreases e - i
  {
    if i < e && Digit(s[i]) < base {
      DigitsPrefix(s, e, i + 1, base);
    }
  }

  lemma {:induction false} StartPrefix(s: string, e: nat)
    requires Start(s) < e <= |s|
    ensures Start(s[..e]) == Start(s) && Negative(s[..e]) == Negative(s)
  {
    SpacesPrefix(s, e, 0);
  }

  /** What comes after a number does not matter. */
  lemma {:induction false} NumberPrefix(s: string, e: nat)
    requires 0 < Parse(s, 16).end <= e <= |s|
    ensures Parse(s[..e], 16) == Parse(s, 16)
  {
    hide Start, Negative, Value, Digit, Space;
    var j, p := Start(s), s[..e];
    var k := if Prefixed(s, j) then j + 2 else j;
    var d := Digits(s, k, 16);
    assert k < d <= e;
    assert Prefixed(s, j) ==> j + 2 < d;
    StartPrefix(s, e);
    assert Prefixed(p, j) == Prefixed(s, j);
    DigitsPrefix(s, e, k, 16);
    SliceOfPrefix(s, e, k, d);
  }

  lemma SliceOfPrefix(s: string, e: nat, i: nat, j: nat)
    requires i <= j <= e <= |s|
    ensures s[..e][i..j] == s[i..j]
  {
  }
}
