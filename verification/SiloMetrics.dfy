/** The dimensions of a persistent silo (bin/varnishd/storage_persistent.c): where its segments begin, how long one is
    planned to be, and how many objects it should hold. */
module SiloMetrics {
  import opened Lists

  /** SMP_SIGN_SPACE, which the length of a part of the silo leaves out. */
  const SIGN_SPACE: nat := 64

  const MIB: nat := 0x10_0000

  const MIN_NSEG: nat := 10

  /** The integer part of a square root. */
  function Root(n: nat): (r: nat)
    ensures r * r <= n < (r + 1) * (r + 1)
  {
    if n == 0 then 0
    else
      var r := Root(n - 1);
      if (r + 1) * (r + 1) <= n then r + 1 else r
  }

  lemma RootIs(n: nat, r: nat)
    requires r * r <= n < (r + 1) * (r + 1)
    ensures Root(n) == r
  {
    var q := Root(n);
    if q < r {
      Squares(q + 1, r);
    } else if r < q {
      Squares(r + 1, q);
    }
  }

  lemma RootPositive(n: nat)
    requires n > 0
    ensures Root(n) > 0
  {
  }

  lemma Squares(a: nat, b: nat)
    requires a <= b
    ensures a * a <= b * b
  {
    assert a * a <= a * b <= b * b;
  }

  /** How long each of `n` segments is, in so much space. */
  function Each(space: nat, n: nat): nat
    requires n > 0
  {
    space / n
  }

  /** `n` segments, halved until one of them holds a struct object; none if that never happens, where the code
      divides by zero. */
  function Halved(n: nat, space: nat, objectSize: nat): (m: Option<nat>)
    ensures m.Some? ==> 0 < m.value <= n && Each(space, m.value) >= objectSize
  {
    if n == 0 then None
    else if Each(space, n) < objectSize then Halved(n / 2, space, objectSize)
    else Some(n)
  }

  /** The lengths of the shortest, the planned and the longest segment, and the planned number of objects in one. */
  datatype Metrics = Metrics(minSegl: nat, aimSegl: nat, maxSegl: nat, aimNobj: nat)

  /** The metrics for at most `n` segments. */
  function MetricsFor(n: nat, space: nat): Metrics
    requires n > 0
  {
    RootPositive(MIN_NSEG * n);
    Metrics(Each(space, n), Each(space, Root(MIN_NSEG * n)), Each(space, MIN_NSEG), Each(space, MIN_NSEG) / 4000)
  }

  /** smp_metrics, from the lengths of the space for segments and of a segment table. The planned number of segments is
      the exponential average of the least and the greatest one. */
  method SmpMetrics(space: nat, table: nat, objectSize: nat) returns (m: Option<Metrics>)
    ensures m.Some? <==> Halved(table / MIN_NSEG, space, objectSize).Some?
    ensures m.Some? ==> m.value == MetricsFor(Halved(table / MIN_NSEG, space, objectSize).value, space)
  {
    hide Root, Each;
    var maxSegl := Each(space, MIN_NSEG);
    var maxNseg := table / MIN_NSEG;
    if maxNseg == 0 {
      return None;
    }
    var minSegl := Each(space, maxNseg);
    while minSegl < objectSize
      invariant 0 < maxNseg && minSegl == Each(space, maxNseg)
      invariant Halved(table / MIN_NSEG, space, objectSize) == Halved(maxNseg, space, objectSize)
      decreases maxNseg
    {
      maxNseg := maxNseg / 2;
      if maxNseg == 0 {
        return None;
      }
      minSegl := Each(space, maxNseg);
    }
    RootPositive(MIN_NSEG * maxNseg);
    var aimNseg := Root(MIN_NSEG * maxNseg);
    m := Some(Metrics(minSegl, Each(space, aimNseg), maxSegl, maxSegl / 4000));
  }

  /** With room for eighteen objects the number of segments is never halved below nine. */
  lemma {:induction false} AtLeastNine(n: nat, space: nat, objectSize: nat)
    requires n >= 9 && objectSize > 0 && space >= 18 * objectSize
    ensures Halved(n, space, objectSize).Some? && Halved(n, space, objectSize).value >= 9
  {
    hide Each;
    if Each(space, n) < objectSize {
      FewerThan(n, space, objectSize);
      AtLeastNine(n / 2, space, objectSize);
    }
  }

  lemma FewerThan(n: nat, space: nat, objectSize: nat)
    requires n > 0 && Each(space, n) < objectSize && space >= 18 * objectSize
    ensures n > 18
  {
    hide Each;
    Divided(space, n);
    MulMonotone(n, Each(space, n) + 1, objectSize);
    if n <= 18 {
      MulMonotone(objectSize, n, 18);
    }
  }

  lemma Divided(a: nat, b: nat)
    requires b > 0
    ensures b * Each(a, b) <= a < b * (Each(a, b) + 1)
  {
    assert a == b * (a / b) + a % b;
  }

  lemma MulMonotone(a: nat, b: nat, c: nat)
    requires b <= c
    ensures a * b <= a * c && a * b == b * a
  {
  }

  /** The planned segment is no shorter than the shortest, which holds an object, and the space holds it. */
  lemma AimBetween(space: nat, table: nat, objectSize: nat)
    requires objectSize > 0 && space >= 18 * objectSize && table >= 90
    ensures Halved(table / MIN_NSEG, space, objectSize).Some?
    ensures var m := MetricsFor(Halved(table / MIN_NSEG, space, objectSize).value, space);
            objectSize <= m.minSegl <= m.aimSegl <= space
  {
    hide Root, Each;
    AtLeastNine(table / MIN_NSEG, space, objectSize);
    var n := Halved(table / MIN_NSEG, space, objectSize).value;
    var aim := Root(MIN_NSEG * n);
    RootPositive(MIN_NSEG * n);
    RootBelow(n);
    Quotients(space, aim, n);
  }

  lemma RootBelow(n: nat)
    requires n >= 9
    ensures Root(MIN_NSEG * n) <= n
  {
    var r := Root(MIN_NSEG * n);
    assert (n + 1) * (n + 1) == n * n + 2 * n + 1;
    MulMonotone(n, 9, n);
    if r > n {
      Squares(n + 1, r);
    }
  }

  lemma Quotients(a: nat, b: nat, c: nat)
    requires 0 < b <= c
    ensures Each(a, c) <= Each(a, b) <= a
  {
    hide Each;
    Divided(a, b);
    Divided(a, c);
    var q, r := Each(a, c), Each(a, b);
    MulMonotone(q, b, c);
    MulMonotone(r, 1, b);
    if r < q {
      MulMonotone(b, r + 1, q);
    }
  }

  /** The metrics of one mebibyte for segments, where a struct object takes 224 bytes. */
  lemma {:induction false} OneMebibyte()
    ensures Halved((MIB - SIGN_SPACE) / MIN_NSEG, MIB - SIGN_SPACE, 224) == Some(3276)
    ensures MetricsFor(3276, MIB - SIGN_SPACE) == Metrics(320, 5825, 104851, 26)
  {
    hide Root;
    var s := 1048512;
    assert Halved(104851, s, 224) == Halved(52425, s, 224);
    assert Halved(52425, s, 224) == Halved(26212, s, 224);
    assert Halved(26212, s, 224) == Halved(13106, s, 224);
    assert Halved(13106, s, 224) == Halved(6553, s, 224);
    assert Halved(6553, s, 224) == Halved(3276, s, 224);
    RootIs(32760, 180);
  }
}
