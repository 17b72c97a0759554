/** Reading intervals (w1sensors.c): how they are made to fit one wake-up period, and the
    searches for their greatest common divisor and least common multiple. */
module Intervals {
  import opened Arith

  const MIN_INTVL: int := 10
  const INT_LIMIT: int := 0x8000_0000

  // ----- greatest common divisor -----

  /** _w1_gcd, on the non-negative values it is called with. */
  function Gcd2(m: nat, n: nat): nat
    decreases n
  {
    if n == 0 then m else Gcd2(n, m % n)
  }

  /** The divisors of the result are the common divisors of the arguments. */
  lemma {:induction false} Gcd2Divisors(m: nat, n: nat, d: int)
    requires d > 0
    ensures Gcd2(m, n) % d == 0 <==> m % d == 0 && n % d == 0
    decreases n
  {
    if n > 0 {
      var q, r := m / n, m % n;
      Quotient(m, n);
      Gcd2Divisors(n, r, d);
      if n % d == 0 {
        Combine(n, n, q, d);
        if r % d == 0 { Combine(n * q, r, 1, d); }
        if m % d == 0 { Combine(m, n * q, 1, d); }
      }
    }
  }

  ghost predicate DividesAll(d: int, a: seq<nat>)
    requires d > 0
  {
    forall i :: 0 <= i < |a| ==> a[i] % d == 0
  }

  lemma DividesOneMore(d: int, a: seq<nat>, x: nat)
    requires d > 0
    ensures DividesAll(d, a + [x]) <==> DividesAll(d, a) && x % d == 0
  {
    if DividesAll(d, a + [x]) {
      forall i | 0 <= i < |a|
        ensures a[i] % d == 0
      {
        assert (a + [x])[i] == a[i];
      }
      assert (a + [x])[|a|] == x;
    }
  }

  /** w1_gcd: its divisors are exactly the common divisors of the whole array. */
  method W1Gcd(a: array<nat>) returns (s: nat)
    ensures forall d {:trigger DividesAll(d, a[..])} :: d > 0 ==> (s % d == 0 <==> DividesAll(d, a[..]))
  {
    s := 0;
    var i := 0;
    while i < a.Length
      invariant 0 <= i <= a.Length
      invariant forall d {:trigger DividesAll(d, a[..i])} :: d > 0 ==> (s % d == 0 <==> DividesAll(d, a[..i]))
    {
      ghost var before := s;
      s := Gcd2(s, a[i]);
      forall d | d > 0
        ensures s % d == 0 <==> DividesAll(d, a[..i + 1])
      {
        Gcd2Divisors(before, a[i], d);
        DividesOneMore(d, a[..i], a[i]);
        assert a[..i + 1] == a[..i] + [a[i]];
      }
      i := i + 1;
    }
    assert a[..] == a[..a.Length];
  }

  /** A number with the divisors of a whole list, one of which divides all others, is that one. */
  lemma GcdAttained(g: nat, a: seq<nat>, k: nat)
    requires k < |a| && a[k] > 0 && DividesAll(a[k], a)
    requires g % a[k] == 0
    requires g > 0 ==> DividesAll(g, a)
    requires forall d {:trigger DividesAll(d, a)} :: d > 0 && g % d == 0 ==> DividesAll(d, a)
    ensures g == a[k]
  {
    var m := a[k];
    if g == 0 {
      Multiple(0, m + 1, 0);
      assert DividesAll(m + 1, a);
      assert a[k] % (m + 1) == 0;
      DivModUnique(m, m + 1, 0, m);
    } else {
      assert DividesAll(g, a);
      assert m % g == 0;
      if g < m { Apart(0, g, m); } else if m < g { Apart(0, m, g); }
    }
  }

  // ----- least common multiple -----

  ghost predicate CommonMultiple(m: int, a: seq<nat>)
    requires forall i :: 0 <= i < |a| ==> a[i] > 0
  {
    forall i :: 0 <= i < |a| ==> m % a[i] == 0
  }

  ghost predicate IsLcm(l: int, a: seq<nat>)
    requires forall i :: 0 <= i < |a| ==> a[i] > 0
  {
    l > 0 && CommonMultiple(l, a) && forall m :: 0 < m < l ==> !CommonMultiple(m, a)
  }

  function Product(a: seq<nat>): nat {
    if a == [] then 1 else Product(a[..|a| - 1]) * a[|a| - 1]
  }

  lemma {:induction false} ProductCommon(a: seq<nat>)
    requires forall i :: 0 <= i < |a| ==> a[i] > 0
    ensures Product(a) > 0 && CommonMultiple(Product(a), a)
  {
    if a != [] {
      var n := |a| - 1;
      var p, x := Product(a[..n]), a[n];
      ProductCommon(a[..n]);
      Positive(p, x);
      forall i | 0 <= i < |a|
        ensures Product(a) % a[i] == 0
      {
        if i < n {
          assert p % a[..n][i] == 0;
          Combine(p, p, x, a[i]);
        } else {
          Multiple(p * x, x, p);
        }
      }
    }
  }

  lemma Positive(x: nat, y: nat)
    requires x > 0 && y > 0
    ensures x * y > 0
  {}

  /** There is a least common multiple, at most the product. */
  lemma LcmExists(a: seq<nat>) returns (l: nat)
    requires forall i :: 0 <= i < |a| ==> a[i] > 0
    ensures IsLcm(l, a) && l <= Product(a)
  {
    ProductCommon(a);
    l := 1;
    while !CommonMultiple(l, a)
      invariant 0 < l <= Product(a)
      invariant forall m :: 0 < m < l ==> !CommonMultiple(m, a)
      decreases Product(a) - l
    {
      l := l + 1;
    }
  }

  /** The common multiples are exactly the multiples of the least one. */
  lemma CommonIffMultiple(a: seq<nat>, l: int, t: int)
    requires forall i :: 0 <= i < |a| ==> a[i] > 0
    requires IsLcm(l, a)
    ensures CommonMultiple(t, a) <==> t % l == 0
  {
    var q, r := t / l, t % l;
    Quotient(t, l);
    if CommonMultiple(t, a) && r != 0 {
      forall i | 0 <= i < |a|
        ensures r % a[i] == 0
      {
        Combine(l, l, q, a[i]);
        Combine(t, l * q, 1, a[i]);
      }
      assert CommonMultiple(r, a);
    }
    if r == 0 {
      forall i | 0 <= i < |a|
        ensures t % a[i] == 0
      {
        Through(t, l, a[i]);
      }
    }
  }

  /** The greatest entry, where w1_lcm starts. */
  function Greatest(a: seq<nat>): (m: nat)
    requires a != []
    ensures m in a && forall i :: 0 <= i < |a| ==> a[i] <= m
  {
    if |a| == 1 then a[0]
    else
      var m := Greatest(a[..|a| - 1]);
      if a[|a| - 1] >= m then a[|a| - 1] else m
  }

  lemma GreatestMore(a: seq<nat>, n: nat)
    requires 0 < n < |a|
    ensures Greatest(a[..n + 1]) == if a[n] >= Greatest(a[..n]) then a[n] else Greatest(a[..n])
  {
    assert a[..n + 1][..n] == a[..n];
  }

  /** The last multiple of m that an int can hold. */
  function LastMultiple(m: nat): int
    requires 0 < m < INT_LIMIT
  {
    (INT_LIMIT - 1) / m * m
  }

  lemma LastMultipleIs(m: nat, i: int)
    requires 0 < m < INT_LIMIT && m <= i < INT_LIMIT && i % m == 0
    ensures i + m >= INT_LIMIT <==> i == LastMultiple(m)
    ensures i <= LastMultiple(m)
  {
    hide LastMultiple;
    var top := LastMultiple(m);
    LastMultipleFacts(m);
    if i < top {
      Apart(i, top, m);
    } else if top < i {
      Apart(top, i, m);
    }
  }

  lemma LastMultipleFacts(m: nat)
    requires 0 < m < INT_LIMIT
    ensures LastMultiple(m) % m == 0 && LastMultiple(m) < INT_LIMIT <= LastMultiple(m) + m
  {
    var q := (INT_LIMIT - 1) / m;
    Quotient(INT_LIMIT - 1, m);
    Multiple(m * q, m, q);
  }

  /** w1_lcm computes a candidate that an int cannot hold: the wrapped product lets it come to
      the last one that fits, and that is still below the least common multiple. */
  predicate Overflows(a: seq<nat>, modulus: nat, lcm: int)
    requires a != [] && modulus > 0 && 0 < Greatest(a) < INT_LIMIT
  {
    LastMultiple(Greatest(a)) <= Product(a) % modulus && LastMultiple(Greatest(a)) < lcm
  }

  /** In plain terms: some multiple of the greatest entry is within the wrapped product, below the
      least common multiple, and the last that is below 2^31. */
  lemma OverflowsIs(a: seq<nat>, modulus: nat, lcm: int)
    requires a != [] && modulus > 0 && 0 < Greatest(a) < INT_LIMIT
    ensures Overflows(a, modulus, lcm) <==>
      exists c: int {:trigger c % Greatest(a)} :: c % Greatest(a) == 0 && Greatest(a) <= c < 0x8000_0000 <= c + Greatest(a)
        && c <= Product(a) % modulus && c < lcm
  {
    hide LastMultiple, Product, Greatest;
    var m, top := Greatest(a), LastMultiple(Greatest(a));
    LastMultipleFacts(m);
    if top < m {
      Multiple(m, m, 1);
      Apart(top, m, m);
      assert false;
    }
    forall c: int | c % m == 0 && m <= c < 0x8000_0000 <= c + m
      ensures c == top
    {
      LastMultipleIs(m, c);
    }
  }

  /** w1_lcm. The product bounding the search is an unsigned long and wraps at `modulus`
      (2^64 or 2^32). Unless a candidate overflows an int, the result is the least common
      multiple exactly if that is at most the wrapped product; otherwise it is -1. */
  method W1Lcm(a: array<nat>, modulus: nat, ghost lcm: int) returns (s: int, overflow: bool)
    requires a.Length >= 1 && modulus > 1
    requires forall i :: 0 <= i < a.Length ==> 0 < a[i] < INT_LIMIT
    requires IsLcm(lcm, a[..])
    ensures overflow <==> Overflows(a[..], modulus, lcm)
    ensures !overflow ==> s == if lcm <= Product(a[..]) % modulus then lcm else -1
  {
    hide Product, Greatest, IsLcm, CommonMultiple, LastMultiple;
    s, overflow := -1, false;
    var amax: nat := a[0];
    var i := 0;
    GreatestOne(a[..1]);
    while i < a.Length
      invariant 0 <= i <= a.Length
      invariant amax == if i == 0 then a[0] else Greatest(a[..i])
    {
      if i > 0 {
        GreatestMore(a[..], i);
        assert a[..][..i + 1] == a[..i + 1] && a[..][..i] == a[..i];
      }
      if a[i] >= amax {
        amax := a[i];
      }
      i := i + 1;
    }
    assert a[..] == a[..a.Length];
    assert amax in a[..] && 0 < amax < INT_LIMIT;
    var prod: nat := WrappedProduct(a, modulus);
    LcmFacts(a[..], lcm, amax);
    i := amax;
    Multiple(amax, amax, 1);
    while i <= prod
      invariant amax <= i <= lcm && i % amax == 0 && s == -1 && !overflow && i < INT_LIMIT
      decreases prod - i
    {
      var c := CountDivided(a, i);
      LcmReached(a[..], lcm, i);
      LastMultipleIs(amax, i);
      if c == a.Length {
        s := i;
        break;
      }
      Apart(i, lcm, amax);
      Combine(i, amax, 1, amax);
      if i + amax >= INT_LIMIT {
        overflow := true;
        break;
      }
      i := i + amax;
    }
    LastMultipleIs(amax, i);
  }

  lemma GreatestOne(a: seq<nat>)
    requires |a| == 1
    ensures Greatest(a) == a[0]
  {}

  lemma LcmFacts(a: seq<nat>, lcm: int, m: nat)
    requires forall i :: 0 <= i < |a| ==> a[i] > 0
    requires IsLcm(lcm, a) && m in a
    ensures lcm > 0 && lcm % m == 0 && m <= lcm
  {
    var k :| 0 <= k < |a| && a[k] == m;
    Apart(0, lcm, m);
  }

  lemma LcmReached(a: seq<nat>, lcm: int, i: int)
    requires forall k :: 0 <= k < |a| ==> a[k] > 0
    requires IsLcm(lcm, a) && 0 < i <= lcm
    ensures CommonMultiple(i, a) <==> i == lcm
  {}

  /** The product of the entries as the unsigned long holds it. */
  method WrappedProduct(a: array<nat>, modulus: nat) returns (prod: nat)
    requires modulus > 1
    ensures prod == Product(a[..]) % modulus
  {
    prod := 1;
    var i := 0;
    DivModUnique(1, modulus, 0, 1);
    while i < a.Length
      invariant 0 <= i <= a.Length
      invariant prod == Product(a[..i]) % modulus
    {
      assert a[..i + 1][..i] == a[..i];
      ModMul(Product(a[..i]), a[i], modulus);
      prod := (prod * a[i]) % modulus;
      i := i + 1;
    }
    assert a[..] == a[..a.Length];
  }

  /** How many entries divide a candidate. */
  method CountDivided(a: array<nat>, i: int) returns (c: nat)
    requires forall k :: 0 <= k < a.Length ==> a[k] > 0
    ensures c == a.Length <==> CommonMultiple(i, a[..])
  {
    c := 0;
    var j := 0;
    while j < a.Length
      invariant 0 <= j <= a.Length && 0 <= c <= j
      invariant c == j <==> forall k :: 0 <= k < j ==> i % a[k] == 0
    {
      if i % a[j] == 0 {
        c := c + 1;
      }
      j := j + 1;
    }
  }

  /** Without wrap-around the result is always the least common multiple. */
  lemma NoWrapNoFailure(a: seq<nat>, modulus: nat, lcm: int)
    requires forall i :: 0 <= i < |a| ==> a[i] > 0
    requires IsLcm(lcm, a) && Product(a) < modulus
    ensures lcm <= Product(a) % modulus
  {
    ProductCommon(a);
    DivModUnique(Product(a), modulus, 0, Product(a));
  }

  /** n devices, all read at the default interval of 120 seconds. */
  function Defaults(n: nat): (a: seq<nat>)
    ensures |a| == n && forall i :: 0 <= i < n ==> a[i] == 120
  {
    seq(n, _ => 120)
  }

  lemma DefaultsProduct(n: nat)
    requires n > 0
    ensures Product(Defaults(n)) == Product(Defaults(n - 1)) * 120
  {
    assert Defaults(n)[..n - 1] == Defaults(n - 1);
  }

  /** The wrap-around does happen: with 22 devices at the default interval the product is a
      multiple of 2^64, so the search stops before its first candidate and w1_lcm is -1. */
  lemma TwentyTwoDefaultsFail()
    ensures IsLcm(120, Defaults(22)) && Product(Defaults(22)) % 0x1_0000_0000_0000_0000 == 0
  {
    assert CommonMultiple(120, Defaults(22));
    forall m | 0 < m < 120
      ensures !CommonMultiple(m, Defaults(22))
    {
      assert m % Defaults(22)[0] == m;
    }
    var n := 0;
    var p: nat := 1;
    var e: nat := 1;
    while n < 22
      invariant 0 <= n <= 22 && p == Product(Defaults(n))
      invariant p == e * Eights(n)
    {
      DefaultsProduct(n + 1);
      EightMore(e, Eights(n));
      p := p * 120;
      e := e * 15;
      n := n + 1;
    }
    assert Eights(22) == Eights(21) * 8;
    EightsValue();
    Multiple(p, 0x1_0000_0000_0000_0000, 4 * e);
  }

  function Eights(n: nat): nat {
    if n == 0 then 1 else Eights(n - 1) * 8
  }

  lemma EightMore(e: nat, x: nat)
    ensures (e * x) * 120 == (e * 15) * (x * 8)
  {}

  lemma EightsValue()
    ensures Eights(22) == 4 * 0x1_0000_0000_0000_0000
  {
    assert Eights(4) == 0x1000;
    assert Eights(8) == 0x100_0000;
    assert Eights(12) == 0x10_0000_0000;
    assert Eights(16) == 0x1_0000_0000_0000;
    assert Eights(20) == 0x1000_0000_0000_0000;
  }

  // ----- w1_verify_intervals -----

  /** An interval after the first loop: unset ones become the period, others are kept between
      ten seconds and the period, the period winning. */
  function Clip(v: int, delay: int): int {
    if v == 0 then delay
    else
      var w := if v < MIN_INTVL then MIN_INTVL else v;
      if w > delay then delay else w
  }

  function Clipped(vs: seq<int>, delay: int): (cs: seq<int>)
    ensures |cs| == |vs|
  {
    seq(|vs|, i requires 0 <= i < |vs| => Clip(vs[i], delay))
  }

  /** The least of a list and `d`. */
  function Least(vs: seq<int>, d: int): (m: int)
    ensures m <= d && forall i :: 0 <= i < |vs| ==> m <= vs[i]
    ensures m == d || m in vs
  {
    if vs == [] then d
    else
      var m := Least(vs[..|vs| - 1], d);
      if vs[|vs| - 1] < m then vs[|vs| - 1] else m
  }

  lemma LeastEmpty(d: int)
    ensures Least([], d) == d
  {}

  lemma LeastMore(vs: seq<int>, n: nat, d: int)
    requires n < |vs|
    ensures var m := Least(vs[..n], d);
            Least(vs[..n + 1], d) == if vs[n] < m then vs[n] else m
  {
    assert vs[..n + 1][..n] == vs[..n];
  }

  /** The wake-up period w1_verify_intervals settles on. */
  function Period(vs: seq<int>, delay: int): int {
    Least(Clipped(vs, delay), delay)
  }

  lemma PeriodPositive(vs: seq<int>, delay: int)
    requires delay >= 1
    ensures 1 <= Period(vs, delay) <= delay
  {}

  /** The intervals it settles on. */
  function Normal(vs: seq<int>, delay: int): (ns: seq<nat>)
    requires delay >= 1
    ensures |ns| == |vs| && forall i :: 0 <= i < |ns| ==> ns[i] > 0
  {
    PeriodPositive(vs, delay);
    FloorsPositive(vs, delay);
    var m := Period(vs, delay);
    seq(|vs|, i requires 0 <= i < |vs| => Floor(Clip(vs[i], delay), m))
  }

  /** The greatest multiple of m up to v. */
  function Floor(v: int, m: int): (f: nat)
    requires m >= 1
  {
    if v < m then 0 else
    assert v / m * m >= 0 by { Quotient(v, m); }
    v / m * m
  }

  lemma FloorFacts(v: int, m: int)
    requires 1 <= m <= v
    ensures m <= Floor(v, m) <= v && Floor(v, m) % m == 0 && Floor(v, m) == v / m * m
    ensures v == m ==> Floor(v, m) == m
  {
    Quotient(v, m);
    Multiple(m * (v / m), m, v / m);
    if v / m <= 0 {
      NotPositive(m, v / m);
    } else {
      MulAtLeast(m, v / m);
    }
  }

  lemma FloorsPositive(vs: seq<int>, delay: int)
    requires delay >= 1 && Period(vs, delay) >= 1
    ensures forall i :: 0 <= i < |vs| ==> Floor(Clip(vs[i], delay), Period(vs, delay)) > 0
  {
    forall i | 0 <= i < |vs|
      ensures Floor(Clip(vs[i], delay), Period(vs, delay)) > 0
    {
      assert Period(vs, delay) <= Clipped(vs, delay)[i];
      FloorFacts(Clip(vs[i], delay), Period(vs, delay));
    }
  }

  /** After normalisation every interval is a positive multiple of the period and at most the
      old one, some device is read at every wake-up, and the period is therefore the greatest
      common divisor of the intervals. */
  lemma NormalFacts(vs: seq<int>, delay: int)
    requires delay >= 1 && |vs| >= 1
    ensures var ns, m := Normal(vs, delay), Period(vs, delay);
            && m >= 1 && DividesAll(m, ns)
            && (forall i :: 0 <= i < |ns| ==> m <= ns[i] <= delay)
            && (exists k :: 0 <= k < |ns| && ns[k] == m)
  {
    var ns, m, cs := Normal(vs, delay), Period(vs, delay), Clipped(vs, delay);
    PeriodPositive(vs, delay);
    forall i | 0 <= i < |ns|
      ensures m <= ns[i] <= delay && ns[i] % m == 0
    {
      assert m <= cs[i] == Clip(vs[i], delay);
      FloorFacts(Clip(vs[i], delay), m);
    }
    var k :| 0 <= k < |vs| && cs[k] == m by {
      assert Clip(vs[0], delay) <= delay && cs[0] == Clip(vs[0], delay);
      if m == delay {
        assert cs[0] == m;
      }
    }
    FloorFacts(Clip(vs[k], delay), m);
    assert ns[k] == m;
  }

  /** x is the greatest multiple of m up to the bound. */
  predicate GreatestMultiple(x: int, m: int, bound: int)
    requires m > 0
  {
    x % m == 0 && x <= bound < x + m
  }

  lemma FloorGreatest(v: int, m: int)
    requires 1 <= m <= v
    ensures GreatestMultiple(Floor(v, m), m, v)
  {
    FloorFacts(v, m);
    Quotient(v, m);
  }

  /** What becomes of each interval, for every configuration, m being the new period: one that is
      unset, or at least the old period, ends as the greatest multiple of m up to the old period;
      one from ten seconds up to the old period as the greatest multiple of m up to itself; and a
      smaller one as the greatest multiple of m up to ten seconds, or up to the old period if that
      is less. The period is the least of these bounds. */
  lemma NormalIs(vs: seq<int>, delay: int)
    requires delay >= 1 && |vs| >= 1
    ensures var ns, m := Normal(vs, delay), Period(vs, delay);
            var small := if delay < 10 then delay else 10;
            && m >= 1
            && (forall i :: 0 <= i < |vs| && (vs[i] == 0 || vs[i] >= delay) ==> m <= delay && GreatestMultiple(ns[i], m, delay))
            && (forall i :: 0 <= i < |vs| && 10 <= vs[i] < delay ==> m <= vs[i] && GreatestMultiple(ns[i], m, vs[i]))
            && (forall i :: 0 <= i < |vs| && vs[i] != 0 && vs[i] < 10 && vs[i] < delay ==>
                  m <= small && GreatestMultiple(ns[i], m, small))
            && (exists i :: 0 <= i < |vs| &&
                  m == if vs[i] == 0 || vs[i] >= delay then delay else if vs[i] >= 10 then vs[i] else small)
  {
    hide GreatestMultiple, Floor;
    var m, cs := Period(vs, delay), Clipped(vs, delay);
    PeriodPositive(vs, delay);
    forall i | 0 <= i < |vs|
      ensures m <= Clip(vs[i], delay) && GreatestMultiple(Normal(vs, delay)[i], m, Clip(vs[i], delay))
    {
      assert m <= cs[i] == Clip(vs[i], delay);
      FloorGreatest(Clip(vs[i], delay), m);
    }
    PeriodAttained(vs, delay);
  }

  lemma PeriodAttained(vs: seq<int>, delay: int)
    requires delay >= 1 && |vs| >= 1
    ensures exists i :: 0 <= i < |vs| && Period(vs, delay) == Clip(vs[i], delay)
  {
    var m, cs := Period(vs, delay), Clipped(vs, delay);
    assert Clip(vs[0], delay) <= delay && cs[0] == Clip(vs[0], delay);
    if m == delay {
      assert cs[0] == m;
    } else {
      var k :| 0 <= k < |vs| && cs[k] == m;
      assert cs[k] == Clip(vs[k], delay);
    }
  }

  /** Intervals that are multiples of their least one, all of them from ten seconds to the period,
      stay as configured. */
  lemma NormalFixed(vs: seq<int>, delay: int, k: nat)
    requires k < |vs| && forall i :: 0 <= i < |vs| ==> 10 <= vs[k] <= vs[i] <= delay && vs[i] % vs[k] == 0
    ensures Period(vs, delay) == vs[k] && Normal(vs, delay) == vs
  {
    hide Normal, Period, GreatestMultiple;
    NormalIs(vs, delay);
    var ns, m := Normal(vs, delay), Period(vs, delay);
    forall i | 0 <= i < |vs|
      ensures ns[i] == vs[i]
    {
      assert m <= vs[k] && vs[k] <= m;
      StaysMultiple(ns[i], m, vs[i]);
    }
  }

  lemma StaysMultiple(x: int, m: int, v: int)
    requires m > 0 && v % m == 0 && GreatestMultiple(x, m, v)
    ensures x == v
  {
    if x < v {
      Apart(x, v, m);
    }
  }

  class DevList {
    var delay: int
    var cycle: int
    const intvl: array<int>

    constructor (period: int, intervals: seq<int>)
      ensures delay == cycle == period && intvl[..] == intervals && fresh(intvl)
    {
      delay, cycle := period, period;
      intvl := new int[|intervals|](i requires 0 <= i < |intervals| => intervals[i]);
    }

    /** The first loop of w1_verify_intervals: bound every interval, find the least. */
    method ClipAll() returns (mint: int)
      requires delay >= 1
      modifies intvl
      ensures intvl[..] == Clipped(old(intvl[..]), delay)
      ensures mint == Period(old(intvl[..]), delay)
    {
      hide Least;
      ghost var vs, cs := intvl[..], Clipped(intvl[..], delay);
      mint := delay;
      assert cs[..0] == [];
      LeastEmpty(delay);
      var n := 0;
      while n < intvl.Length
        invariant 0 <= n <= intvl.Length
        invariant forall i :: 0 <= i < n ==> intvl[i] == cs[i]
        invariant forall i :: n <= i < intvl.Length ==> intvl[i] == vs[i]
        invariant mint == Least(cs[..n], delay)
      {
        if intvl[n] != 0 {
          if intvl[n] < MIN_INTVL {
            intvl[n] := MIN_INTVL;
          }
          if intvl[n] > delay {
            intvl[n] := delay;
          }
        } else {
          intvl[n] := delay;
        }
        if intvl[n] < mint {
          mint := intvl[n];
        }
        LeastMore(cs, n, delay);
        n := n + 1;
      }
      assert cs[..n] == cs;
    }

    /** The second loop: round every interval down to the new period. */
    method FloorAll(ghost vs: seq<int>, ghost d0: int) returns (intvls: array<nat>)
      requires d0 >= 1 && |vs| >= 1
      requires intvl[..] == Clipped(vs, d0) && delay == Period(vs, d0)
      modifies intvl
      ensures intvl[..] == Normal(vs, d0)
      ensures fresh(intvls) && intvls[..] == Normal(vs, d0)
    {
      ghost var ns, cs := Normal(vs, d0), Clipped(vs, d0);
      PeriodPositive(vs, d0);
      intvls := new nat[intvl.Length](_ => 0);
      var n := 0;
      while n < intvl.Length
        invariant 0 <= n <= intvl.Length
        invariant forall i :: 0 <= i < n ==> intvl[i] == ns[i] && intvls[i] == ns[i]
        invariant forall i :: n <= i < intvl.Length ==> intvl[i] == cs[i]
      {
        assert delay <= cs[n] == Clip(vs[n], d0);
        FloorFacts(cs[n], delay);
        intvl[n] := (intvl[n] / delay) * delay;
        // never taken: every interval is at least the period
        if intvl[n] == 0 {
          assert false;
        }
        intvls[n] := intvl[n];
        n := n + 1;
      }
    }

    /** w1_verify_intervals: the intervals become the normal ones, the period is their least and
        greatest common divisor, and the cycle their least common multiple exactly if the
        wrapped product does not cut the search short, unless the search overflows. */
    method VerifyIntervals(modulus: nat, ghost lcm: int) returns (overflow: bool)
      requires 1 <= delay < INT_LIMIT && intvl.Length >= 1 && modulus > 1
      requires IsLcm(lcm, Normal(intvl[..], delay))
      modifies this, intvl
      ensures intvl[..] == Normal(old(intvl[..]), old(delay))
      ensures delay == Period(old(intvl[..]), old(delay))
      ensures Greatest(Normal(old(intvl[..]), old(delay))) < INT_LIMIT
      ensures overflow <==> Overflows(Normal(old(intvl[..]), old(delay)), modulus, lcm)
      ensures !overflow ==>
        cycle == if lcm <= Product(Normal(old(intvl[..]), old(delay))) % modulus then lcm else -1
      ensures !overflow && cycle != -1 ==> cycle % delay == 0 && delay <= cycle
    {
      hide Normal, Period, Product, IsLcm, Greatest, Overflows;
      ghost var vs, d0 := intvl[..], delay;
      NormalFacts(vs, d0);
      var mint := ClipAll();
      delay := mint;
      var intvls := FloorAll(vs, d0);
      ghost var ns := Normal(vs, d0);
      var c;
      c, overflow := W1Lcm(intvls, modulus, lcm);
      cycle := c;
      var g := W1Gcd(intvls);
      assert intvls[..] == ns;
      GcdIsPeriod(ns, Period(vs, d0), g);
      delay := g;
      PeriodDividesLcm(ns, g, lcm);
    }
  }

  /** The cycle is a whole number of wake-up periods. */
  lemma PeriodDividesLcm(ns: seq<nat>, m: nat, lcm: int)
    requires m >= 1 && DividesAll(m, ns) && |ns| >= 1
    requires forall i :: 0 <= i < |ns| ==> ns[i] > 0
    requires IsLcm(lcm, ns)
    ensures lcm % m == 0 && m <= lcm
  {
    assert lcm % ns[0] == 0 && ns[0] % m == 0;
    Through(lcm, ns[0], m);
    Apart(0, lcm, m);
  }

  lemma GcdIsPeriod(ns: seq<nat>, m: int, g: nat)
    requires m >= 1 && DividesAll(m, ns) && exists k :: 0 <= k < |ns| && ns[k] == m
    requires forall d {:trigger DividesAll(d, ns)} :: d > 0 ==> (g % d == 0 <==> DividesAll(d, ns))
    ensures g == m
  {
    var k: nat :| k < |ns| && ns[k] == m;
    assert g % m == 0;
    if g > 0 {
      Multiple(g, g, 1);
      assert DividesAll(g, ns);
    }
    GcdAttained(g, ns, k);
  }
}
