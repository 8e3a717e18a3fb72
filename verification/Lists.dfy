/** The tail queues of the C code as sequences without repeats. */
module Lists {

  datatype Option<T> = None | Some(value: T)

  ghost predicate NoRepeats<T>(s: seq<T>) {
    forall i, j :: 0 <= i < j < |s| ==> s[i] != s[j]
  }

  /** VTAILQ_REMOVE from a list without repeats. */
  function Without<T(==)>(s: seq<T>, x: T): seq<T> {
    if s == [] then [] else if s[0] == x then s[1..] else [s[0]] + Without(s[1..], x)
  }

  lemma {:induction false} WithoutOk<T>(s: seq<T>, x: T)
    requires NoRepeats(s)
    ensures forall y :: y in Without(s, x) <==> y in s && y != x
    ensures forall j :: 0 <= j < |Without(s, x)| ==> Without(s, x)[j] in s && Without(s, x)[j] != x
    ensures |Without(s, x)| == |s| - (if x in s then 1 else 0)
    ensures NoRepeats(Without(s, x))
  {
    if s != [] && s[0] != x {
      WithoutOk(s[1..], x);
      assert s == [s[0]] + s[1..];
      forall j | 0 <= j < |s| - 1
        ensures s[1..][j] != s[0]
      {
        assert s[1..][j] == s[j + 1];
      }
      var w := Without(s[1..], x);
      assert forall j :: 0 <= j < |w| ==> w[j] in w;
    }
  }

  lemma {:induction false} WithoutAt<T>(s: seq<T>, k: nat)
    requires NoRepeats(s) && k < |s|
    ensures Without(s, s[k]) == s[..k] + s[k + 1..]
  {
    if k > 0 {
      assert s[1..][k - 1] == s[k] != s[0];
      WithoutAt(s[1..], k - 1);
    }
  }

  /** VTAILQ_INSERT_BEFORE of an element that is not in the list. */
  lemma NoRepeatsInsert<T>(s: seq<T>, i: nat, x: T)
    requires NoRepeats(s) && i <= |s| && x !in s
    ensures NoRepeats(s[..i] + [x] + s[i..])
    ensures forall y :: y in s[..i] + [x] + s[i..] <==> y in s || y == x
  {
    var w := s[..i] + [x] + s[i..];
    assert forall j :: 0 <= j < |w| ==> w[j] == if j < i then s[j] else if j == i then x else s[j - 1];
    forall y | y in s
      ensures y in w
    {
      var j :| 0 <= j < |s| && s[j] == y;
      assert w[if j < i then j else j + 1] == y;
    }
  }

  lemma {:induction false} WithoutLast<T>(s: seq<T>, x: T)
    requires x !in s
    ensures Without(s + [x], x) == s
  {
    if s == [] {
      assert s + [x] == [x];
    } else {
      assert (s + [x])[1..] == s[1..] + [x];
      WithoutLast(s[1..], x);
    }
  }

  lemma {:induction false} WithoutIn<T>(s: seq<T>, x: T)
    ensures forall j :: 0 <= j < |Without(s, x)| ==> Without(s, x)[j] in s
  {
    if s != [] && s[0] != x {
      WithoutIn(s[1..], x);
      assert forall j :: 0 <= j < |s| - 1 ==> s[1..][j] == s[j + 1];
    }
  }

  lemma {:induction false} Fewer<T>(a: set<T>, b: set<T>)
    requires a <= b
    ensures |a| <= |b| && (a != b ==> |a| < |b|)
  {
    if a != {} {
      var x :| x in a;
      Fewer(a - {x}, b - {x});
    }
  }
}
