/** Model of `mymath.py`: greatest common divisors by five algorithms,
    gcd and lcm of many numbers, whole-number ratios, prime factorisation,
    divisor lists, synthetic division and polynomial evaluation. */
module MyMath {
  import opened Wrappers
  import opened NumberTheory
  import opened Polynomials

  // ---------------------------------------------------------------------
  // Euclid's algorithm (`_gcd_Euclidean_2`)

  method GcdEuclidean(a: nat, b: nat) returns (g: nat)
    ensures g == Gcd(a, b) && IsGcd(g, a, b)
  {
    var x, y := a, b;
    while x != 0
      invariant Gcd(x, y) == Gcd(a, b)
      decreases x
    {
      x, y := y % x, x;
    }
    g := y;
    GcdIsGcd(a, b);
  }

  // ---------------------------------------------------------------------
  // The decrease technique (`_gcd_decrease_technique_2`)

  function Max(a: nat, b: nat): nat { if a < b then b else a }

  function Min(a: nat, b: nat): nat { if b < a then b else a }

  /** The exit test of the subtraction loop: the larger number is twice the smaller. */
  predicate SubtractDone(a: nat, b: nat) {
    Min(a, b) * 2 == Max(a, b)
  }

  /** One round of the subtraction loop: (small, big - small). */
  function SubtractStep(a: nat, b: nat): (nat, nat) {
    (Min(a, b), Max(a, b) - Min(a, b))
  }

  /** The subtraction loop's state after `k` rounds that did not exit. */
  function SubtractIterate(a: nat, b: nat, k: nat): (nat, nat)
    decreases k
  {
    if k == 0 then (a, b)
    else SubtractIterate(SubtractStep(a, b).0, SubtractStep(a, b).1, k - 1)
  }

  lemma SubtractStepGcd(a: nat, b: nat)
    ensures Gcd(SubtractStep(a, b).0, SubtractStep(a, b).1) == Gcd(a, b)
  {
    var m, big := Min(a, b), Max(a, b);
    GcdSub(big, m);
    GcdComm(big - m, m);
    GcdComm(a, b);
  }

  lemma DoubleGcd(m: nat)
    requires m > 0
    ensures Gcd(m, m * 2) == m
  {
    ModUnique(m * 2, m, 2, 0);
  }

  /** Halving two even numbers and doubling the reduction keeps
      reduction * gcd. */
  lemma HalvingStepGcd(x: nat, y: nat, reduction: nat)
    requires Even(x) && Even(y)
    ensures reduction * 2 * Gcd(x / 2, y / 2) == reduction * Gcd(x, y)
  {
    GcdHalveBoth(x, y);
    var h := Gcd(x / 2, y / 2);
    assert reduction * 2 * h == reduction * (2 * h);
  }

  lemma SubtractDoneGcd(x: nat, y: nat)
    requires x > 0 && y > 0 && SubtractDone(x, y)
    ensures Gcd(x, y) == Min(x, y)
  {
    if x < y {
      assert y == x * 2;
      DoubleGcd(x);
    } else {
      assert x == y * 2;
      DoubleGcd(y);
      GcdComm(x, y);
    }
  }

  lemma SubtractStepKeeps(x: nat, y: nat)
    requires x > 0 && y > 0 && x != y && !SubtractDone(x, y)
    ensures var (x', y') := SubtractStep(x, y);
      x' > 0 && y' > 0 && x' != y' && x' + y' < x + y
  {
  }

  lemma HalvingKeeps(x: nat, y: nat)
    requires x > 0 && y > 0 && x != y && Even(x) && Even(y)
    ensures x / 2 > 0 && y / 2 > 0 && x / 2 != y / 2 && x / 2 < x
  {
  }

  /** With both numbers positive and different the decrease technique
      returns their gcd. */
  method GcdDecreaseTechnique(a: nat, b: nat) returns (g: nat)
    requires a > 0 && b > 0 && a != b
    ensures g == Gcd(a, b)
  {
    var x: nat, y: nat, reduction: nat := a, b, 1;
    while x % 2 == 0 && y % 2 == 0
      invariant x > 0 && y > 0 && x != y
      invariant reduction * Gcd(x, y) == Gcd(a, b)
      decreases x
    {
      HalvingStepGcd(x, y, reduction);
      HalvingKeeps(x, y);
      x, y, reduction := x / 2, y / 2, reduction * 2;
    }
    while !SubtractDone(x, y)
      invariant x > 0 && y > 0 && x != y
      invariant reduction * Gcd(x, y) == Gcd(a, b)
      decreases x + y
    {
      SubtractStepGcd(x, y);
      SubtractStepKeeps(x, y);
      x, y := SubtractStep(x, y).0, SubtractStep(x, y).1;
    }
    SubtractDoneGcd(x, y);
    var small := Min(x, y);
    g := small * reduction;
    assert g == reduction * Gcd(x, y);
  }

  /** The inputs on which the decrease technique never returns: a zero
      argument or two equal arguments. */
  predicate Degenerate(a: nat, b: nat) {
    a + b > 0 && (a == 0 || b == 0 || a == b)
  }

  lemma DegenerateStep(a: nat, b: nat)
    requires Degenerate(a, b)
    ensures !SubtractDone(a, b)
    ensures Degenerate(SubtractStep(a, b).0, SubtractStep(a, b).1)
  {
  }

  /** From a degenerate pair the subtraction loop never meets its exit test. */
  lemma {:induction false} DegenerateNeverDone(a: nat, b: nat, k: nat)
    requires Degenerate(a, b)
    ensures !SubtractDone(SubtractIterate(a, b, k).0, SubtractIterate(a, b, k).1)
    decreases k
  {
    DegenerateStep(a, b);
    if k > 0 {
      DegenerateNeverDone(SubtractStep(a, b).0, SubtractStep(a, b).1, k - 1);
    }
  }

  /** The halving loop keeps a degenerate pair degenerate, so it hands the
      subtraction loop a pair it never leaves. */
  lemma HalvingKeepsDegenerate(a: nat, b: nat)
    requires Degenerate(a, b) && a % 2 == 0 && b % 2 == 0
    ensures Degenerate(a / 2, b / 2)
  {
  }

  /** The pair after k rounds of the halving loop. */
  function HalvingIterate(a: nat, b: nat, k: nat): (nat, nat)
    decreases k
  {
    if k == 0 then (a, b) else HalvingIterate(a / 2, b / 2, k - 1)
  }

  /** On (0, 0) the halving loop itself never exits: after any number of
      rounds both are still zero, hence even. */
  lemma {:induction false} ZeroZeroKeepsHalving(k: nat)
    ensures HalvingIterate(0, 0, k) == (0, 0)
    ensures HalvingIterate(0, 0, k).0 % 2 == 0 && HalvingIterate(0, 0, k).1 % 2 == 0
    decreases k
  {
    if k > 0 {
      ZeroZeroKeepsHalving(k - 1);
    }
  }

  // ---------------------------------------------------------------------
  // Stein's binary algorithm (`_gcd_Stein_2`)

  lemma GcdDoubleOdd(v: nat, b: nat)
    requires !Even(b)
    ensures Gcd(2 * v, b) == Gcd(v, b)
  {
    GcdHalveOne(2 * v, b);
    assert (2 * v) / 2 == v;
  }

  lemma SteinCore(a: nat, b: nat, u: nat, v: nat)
    requires a == u + v && b + v == u && !Even(b)
    ensures Gcd(u, v) == Gcd(a, b)
  {
    calc {
      Gcd(a, b);
      { GcdSub(a, b); assert a - b == 2 * v; }
      Gcd(2 * v, b);
      { GcdDoubleOdd(v, b); }
      Gcd(v, b);
      { GcdComm(v, b); }
      Gcd(b, v);
      { GcdSub(u, v); }
      Gcd(u, v);
    }
  }

  /** The step for two odd numbers keeps the gcd: (a+b)/2 and (a-b)/2. */
  lemma SteinOddStep(a: nat, b: nat)
    requires b <= a && !Even(a) && !Even(b)
    ensures Gcd((a + b) / 2, (a - b) / 2) == Gcd(a, b)
  {
    SteinCore(a, b, (a + b) / 2, (a - b) / 2);
  }

  method GcdStein(a: nat, b: nat) returns (g: nat)
    ensures g == Gcd(a, b)
  {
    var x: nat, y: nat, record: nat := a, b, 1;
    while true
      invariant record * Gcd(x, y) == Gcd(a, b)
      decreases x + y
    {
      if x < y {
        GcdComm(x, y);
        x, y := y, x;
      }
      if y == 0 {
        GcdZeroRight(x);
        return x * record;
      }
      if x % 2 == 0 && y % 2 == 0 {
        HalvingStepGcd(x, y, record);
        record, x, y := record * 2, x / 2, y / 2;
      } else if x % 2 == 0 {
        GcdHalveOne(x, y);
        x := x / 2;
      } else if y % 2 == 0 {
        GcdHalveOne(y, x);
        GcdComm(x, y / 2);
        GcdComm(x, y);
        y := y / 2;
      } else {
        SteinOddStep(x, y);
        x, y := (x + y) / 2, (x - y) / 2;
      }
    }
  }

  // ---------------------------------------------------------------------
  // Prime factorisation (`prime_factor`)

  /** The search loop of `prime_factor`: the first `j` from `i` up to
      the integer square root of `n` that divides `n`, if any. */
  function FirstFactorFrom(n: nat, i: nat): (r: Option<nat>)
    requires i >= 2
    ensures r.Some? ==> i <= r.value && r.value * r.value <= n && n % r.value == 0
    ensures r.Some? ==> forall j: nat :: i <= j < r.value ==> n % j != 0
    ensures r.None? ==> forall j: nat :: i <= j && j * j <= n ==> n % j != 0
    decreases n + 1 - i
  {
    if i * i > n then
      NoFactorAbove(n, i);
      None
    else if n % i == 0 then
      Some(i)
    else
      MulAtLeast(i, i);
      FirstFactorFrom(n, i + 1)
  }

  lemma NoFactorAbove(n: nat, i: nat)
    requires i * i > n
    ensures forall j: nat :: i <= j ==> j * j > n
  {
    forall j: nat | i <= j ensures j * j > n {
      MulMono(j, i, j);
      MulMono(i, i, j);
    }
  }

  lemma QuotientSmaller(n: nat, i: nat)
    requires i >= 2 && n % i == 0 && i * i <= n
    ensures 0 < n / i < n && n == i * (n / i)
  {
    MulAtLeast(i, i);
    DividesQuotient(i, n);
    var q := n / i;
  }

  /** `prime_factor`: the smallest factor found up to the square root of
      `n`, followed by the factorisation of the cofactor; `[n]` when the
      search finds none (which covers 0 and 1). A number of at least 2
      comes back alone exactly when it is prime. */
  function PrimeFactor(n: nat): (r: seq<nat>)
    ensures |r| >= 1
    ensures n <= 1 ==> r == [n]
    ensures n >= 2 ==> (|r| == 1 <==> IsPrime(n))
    decreases n
  {
    match FirstFactorFrom(n, 2)
    case None =>
      if n >= 2 then
        NoSmallFactorPrime(n);
        [n]
      else [n]
    case Some(i) =>
      QuotientSmaller(n, i);
      FoundFactorNotPrime(n, i);
      [i] + PrimeFactor(n / i)
  }

  /** A factor found by the search is a proper divisor, so `n` is not prime. */
  lemma FoundFactorNotPrime(n: nat, i: nat)
    requires i >= 2 && n % i == 0 && i * i <= n
    ensures !IsPrime(n)
  {
    MulAtLeast(i, i);
    if i == n {
      MulStrictMono(n, 1, n);
    }
    assert 2 <= i < n && n % i == 0;
  }

  /** With no factor up to its square root, a number of at least 2 is prime. */
  lemma NoSmallFactorPrime(n: nat)
    requires n >= 2 && forall j: nat :: 2 <= j && j * j <= n ==> n % j != 0
    ensures IsPrime(n)
  {
    forall d: nat | 2 <= d < n ensures n % d != 0 {
      if n % d == 0 {
        var e := n / d;
        DividesQuotient(d, n);
        CofactorAtLeastTwo(n, d, e);
        var m := SmallerFactor(n, d, e);
      }
    }
  }

  /** The cofactor of a proper divisor is at least 2. */
  lemma CofactorAtLeastTwo(n: nat, d: nat, e: nat)
    requires 2 <= d < n && n == d * e
    ensures e >= 2
  {
    if e <= 1 {
      MulMono(d, e, 1);
    }
  }

  /** Of two factors of `n`, the smaller one is at most the square root. */
  lemma SmallerFactor(n: nat, d: nat, e: nat) returns (m: nat)
    requires n == d * e && d >= 2 && e >= 2
    ensures 2 <= m && m * m <= n && n % m == 0
  {
    if d <= e {
      m := d;
      MulMono(d, d, e);
      DividesIntro(d, n, e);
    } else {
      m := e;
      MulMono(e, e, d);
      assert e * d == n;
      DividesIntro(e, n, d);
    }
  }

  /** The factor found first is the least divisor from 2 on, hence prime. */
  lemma FirstFactorPrime(n: nat, i: nat)
    requires FirstFactorFrom(n, 2) == Some(i)
    ensures IsPrime(i)
  {
    forall d: nat | 2 <= d < i ensures i % d != 0 {
      if i % d == 0 {
        DividesTrans(d, i, n);
      }
    }
  }

  lemma {:induction false} PrimeFactorProduct(n: nat)
    ensures Product(PrimeFactor(n)) == n
    decreases n
  {
    match FirstFactorFrom(n, 2)
    case None =>
    case Some(i) =>
      QuotientSmaller(n, i);
      PrimeFactorProduct(n / i);
      assert PrimeFactor(n) == [i] + PrimeFactor(n / i);
      assert ([i] + PrimeFactor(n / i))[1..] == PrimeFactor(n / i);
  }

  lemma {:induction false} PrimeFactorPrimes(n: nat)
    requires n >= 2
    ensures forall k :: 0 <= k < |PrimeFactor(n)| ==> IsPrime(PrimeFactor(n)[k])
    decreases n
  {
    match FirstFactorFrom(n, 2)
    case None =>
      NoSmallFactorPrime(n);
    case Some(i) =>
      QuotientSmaller(n, i);
      FirstFactorPrime(n, i);
      MulMono(i, 2, i);
      assert n / i >= 2;
      PrimeFactorPrimes(n / i);
      var rest := PrimeFactor(n / i);
      assert PrimeFactor(n) == [i] + rest;
      forall k | 0 <= k < |PrimeFactor(n)| ensures IsPrime(PrimeFactor(n)[k]) {
        if k > 0 {
          assert PrimeFactor(n)[k] == rest[k - 1];
        }
      }
  }

  lemma {:induction false} PrimeFactorDivides(n: nat)
    requires n >= 1
    ensures forall k :: 0 <= k < |PrimeFactor(n)| ==> Divides(PrimeFactor(n)[k], n)
    decreases n
  {
    match FirstFactorFrom(n, 2)
    case None =>
      DividesRefl(n);
    case Some(i) =>
      QuotientSmaller(n, i);
      PrimeFactorDivides(n / i);
      DividesIntro(n / i, n, i);
      forall k | 0 <= k < |PrimeFactor(n)| ensures Divides(PrimeFactor(n)[k], n) {
        if k > 0 {
          DividesTrans(PrimeFactor(n / i)[k - 1], n / i, n);
        }
      }
  }

  /** The factors come out in non-decreasing order. */
  lemma {:induction false} PrimeFactorSorted(n: nat)
    ensures forall j, k :: 0 <= j < k < |PrimeFactor(n)| ==> PrimeFactor(n)[j] <= PrimeFactor(n)[k]
    decreases n
  {
    match FirstFactorFrom(n, 2)
    case None =>
    case Some(i) =>
      QuotientSmaller(n, i);
      var m := n / i;
      PrimeFactorSorted(m);
      var t := PrimeFactor(m);
      assert PrimeFactor(n) == [i] + t;
      MulMono(i, 2, i);
      assert m >= 2;
      PrimeFactorPrimes(m);
      PrimeFactorDivides(m);
      forall k | 0 <= k < |t| ensures i <= t[k] {
        DividesIntro(m, n, i);
        DividesTrans(t[k], m, n);
      }
  }

  lemma PrimeFactorOfSmall(n: nat)
    requires n <= 1
    ensures PrimeFactor(n) == [n]
  {
  }

  /** Every element of the factorisation of a positive number is a prime, or
      the single 1 of the factorisation of 1. */
  lemma PrimeFactorPrimeOrOne(n: nat)
    requires n >= 1
    ensures forall k :: 0 <= k < |PrimeFactor(n)| ==> PrimeOrOne(PrimeFactor(n)[k])
  {
    if n >= 2 { PrimeFactorPrimes(n); }
  }

  // ---------------------------------------------------------------------
  // Gcd from prime factorisations (`_gcd_prime_factorize_2`)

  /** `list.remove`: the list without the first occurrence of `x`. */
  function RemoveFirst(s: seq<nat>, x: nat): (r: seq<nat>)
    requires x in s
    ensures |r| == |s| - 1
    decreases |s|
  {
    if s[0] == x then s[1..] else [s[0]] + RemoveFirst(s[1..], x)
  }

  lemma {:induction false} RemoveFirstMultiset(s: seq<nat>, x: nat)
    requires x in s
    ensures multiset(RemoveFirst(s, x)) == multiset(s) - multiset{x}
    decreases |s|
  {
    assert s == [s[0]] + s[1..];
    if s[0] != x {
      RemoveFirstMultiset(s[1..], x);
    }
  }

  lemma MulSwap(a: int, b: int, c: int)
    ensures a * (b * c) == b * (a * c)
  {
  }

  lemma {:induction false} RemoveFirstProduct(s: seq<nat>, x: nat)
    requires x in s
    ensures Product(s) == x * Product(RemoveFirst(s, x))
    decreases |s|
  {
    if s[0] != x {
      var r := RemoveFirst(s[1..], x);
      RemoveFirstProduct(s[1..], x);
      assert ([s[0]] + r)[1..] == r;
      calc {
        Product(s);
        s[0] * Product(s[1..]);
        s[0] * (x * Product(r));
        { MulSwap(s[0], x, Product(r)); }
        x * (s[0] * Product(r));
        x * Product([s[0]] + r);
      }
    }
  }

  /** The factors the loop of `_gcd_prime_factorize_2` multiplies: each
      element of `pa`, in order, that still occurs among the unused
      elements of `pb`; a match uses up one occurrence. */
  function CommonFactors(pa: seq<nat>, pb: seq<nat>): seq<nat>
    decreases |pa|
  {
    if |pa| == 0 then []
    else if pa[0] in pb then [pa[0]] + CommonFactors(pa[1..], RemoveFirst(pb, pa[0]))
    else CommonFactors(pa[1..], pb)
  }

  lemma ProductAppend(s: seq<nat>, x: nat)
    ensures Product(s + [x]) == Product(s) * x
    decreases |s|
  {
    if |s| > 0 {
      assert (s + [x])[1..] == s[1..] + [x];
      ProductAppend(s[1..], x);
    } else {
      assert s + [x] == [x];
    }
  }

  method GcdPrimeFactorize(a: nat, b: nat) returns (result: nat)
    ensures result == Product(CommonFactors(PrimeFactor(a), PrimeFactor(b)))
    ensures a >= 1 && b >= 1 ==> result == Gcd(a, b)
  {
    result := 1;
    var pa := PrimeFactor(a);
    var pb := PrimeFactor(b);
    ghost var kept: seq<nat> := [];
    for i := 0 to |pa|
      invariant result == Product(kept)
      invariant kept + CommonFactors(pa[i..], pb) == CommonFactors(PrimeFactor(a), PrimeFactor(b))
    {
      assert pa[i..][0] == pa[i] && pa[i..][1..] == pa[i + 1..];
      if pa[i] in pb {
        pb := RemoveFirst(pb, pa[i]);
        ProductAppend(kept, pa[i]);
        result := result * pa[i];
        kept := kept + [pa[i]];
      }
    }
    assert CommonFactors(pa[|pa|..], pb) == [];
    assert kept + [] == kept;
    if a >= 1 && b >= 1 {
      PrimeFactorizeIsGcd(a, b);
    }
  }

  lemma GcdOneLeft(b: nat)
    ensures Gcd(1, b) == 1
  {
    assert b % 1 == 0;
  }

  /** Multiplying the common factors of two lists of primes (and ones) gives
      the gcd of their products. */
  lemma {:induction false} CommonFactorsGcd(pa: seq<nat>, pb: seq<nat>)
    requires forall k :: 0 <= k < |pa| ==> PrimeOrOne(pa[k])
    requires forall k :: 0 <= k < |pb| ==> PrimeOrOne(pb[k])
    ensures Product(CommonFactors(pa, pb)) == Gcd(Product(pa), Product(pb))
    decreases |pa|
  {
    if |pa| == 0 {
      GcdOneLeft(Product(pb));
    } else {
      var p, rest := pa[0], pa[1..];
      var r := Product(rest);
      assert Product(pa) == p * r;
      if p in pb {
        var pb' := RemoveFirst(pb, p);
        RemoveFirstMultiset(pb, p);
        forall k | 0 <= k < |pb'| ensures PrimeOrOne(pb'[k]) {
          assert pb'[k] in multiset(pb');
          assert pb'[k] in pb;
        }
        CommonFactorsGcd(rest, pb');
        RemoveFirstProduct(pb, p);
        var c := CommonFactors(rest, pb');
        assert CommonFactors(pa, pb) == [p] + c;
        assert ([p] + c)[1..] == c;
        GcdScale(p, r, Product(pb'));
      } else {
        CommonFactorsGcd(rest, pb);
        if p == 1 {
          assert Product(pa) == r;
        } else {
          if Divides(p, Product(pb)) {
            PrimeInProduct(p, pb);
          }
          GcdCoprimeLeft(p, r, Product(pb));
        }
      }
    }
  }

  /** For positive arguments the prime-factorisation algorithm computes the gcd. */
  lemma PrimeFactorizeIsGcd(a: nat, b: nat)
    requires a >= 1 && b >= 1
    ensures Product(CommonFactors(PrimeFactor(a), PrimeFactor(b))) == Gcd(a, b)
  {
    PrimeFactorPrimeOrOne(a);
    PrimeFactorPrimeOrOne(b);
    CommonFactorsGcd(PrimeFactor(a), PrimeFactor(b));
    PrimeFactorProduct(a);
    PrimeFactorProduct(b);
  }

  lemma IntersectionKeep(c: multiset<nat>, rest: multiset<nat>, pb: multiset<nat>, p: nat)
    requires p in pb && c == rest * (pb - multiset{p})
    ensures multiset{p} + c == (multiset{p} + rest) * pb
  {
    forall y ensures (multiset{p} + c)[y] == ((multiset{p} + rest) * pb)[y] {
      if y == p {
        assert (pb - multiset{p})[y] == pb[y] - 1;
      }
    }
  }

  lemma IntersectionSkip(c: multiset<nat>, rest: multiset<nat>, pb: multiset<nat>, p: nat)
    requires p !in pb && c == rest * pb
    ensures c == (multiset{p} + rest) * pb
  {
    forall y ensures c[y] == ((multiset{p} + rest) * pb)[y] {
    }
  }

  /** The common factors are the multiset intersection of the two lists. */
  lemma {:induction false} CommonFactorsIntersection(pa: seq<nat>, pb: seq<nat>)
    ensures multiset(CommonFactors(pa, pb)) == multiset(pa) * multiset(pb)
    decreases |pa|
  {
    if |pa| > 0 {
      var p, rest := pa[0], pa[1..];
      assert pa == [p] + rest;
      if p in pb {
        var pb' := RemoveFirst(pb, p);
        RemoveFirstMultiset(pb, p);
        CommonFactorsIntersection(rest, pb');
        IntersectionKeep(multiset(CommonFactors(rest, pb')), multiset(rest), multiset(pb), p);
      } else {
        CommonFactorsIntersection(rest, pb);
        IntersectionSkip(multiset(CommonFactors(rest, pb)), multiset(rest), multiset(pb), p);
      }
    }
  }

  /** With a zero argument the algorithm returns 1, not the other argument:
      the factorisation [0] of 0 shares no element with that of b >= 1. */
  lemma PrimeFactorizeZero(b: nat)
    requires b >= 1
    ensures Product(CommonFactors(PrimeFactor(0), PrimeFactor(b))) == 1
    ensures Gcd(0, b) == b
  {
    PrimeFactorPrimeOrOne(b);
    assert PrimeFactor(0) == [0];
    assert 0 !in PrimeFactor(b);
  }

  // ---------------------------------------------------------------------
  // Divisor lists (`factor`)

  /** The divisors of `n` among 1 .. k, in ascending order. */
  function DivisorsUpTo(n: int, k: int): seq<nat>
    decreases k
  {
    if k < 1 then [] else DivisorsUpTo(n, k - 1) + (if n % k == 0 then [k] else [])
  }

  lemma {:induction false} DivisorsUpToMembers(n: int, k: int)
    ensures forall x :: x in DivisorsUpTo(n, k) <==> 1 <= x <= k && n % x == 0
    decreases k
  {
    if k >= 1 {
      DivisorsUpToMembers(n, k - 1);
    }
  }

  lemma {:induction false} DivisorsUpToIncreasing(n: int, k: int)
    ensures forall i, j :: 0 <= i < j < |DivisorsUpTo(n, k)| ==> DivisorsUpTo(n, k)[i] < DivisorsUpTo(n, k)[j]
    decreases k
  {
    if k >= 1 {
      DivisorsUpToIncreasing(n, k - 1);
      DivisorsUpToMembers(n, k - 1);
      var p := DivisorsUpTo(n, k - 1);
      forall i | 0 <= i < |p| ensures p[i] < k {
        assert p[i] in p;
      }
    }
  }

  /** `factor`: every i in 1 .. n // 2 that divides n, in ascending order. */
  method Factor(n: int) returns (factors: seq<nat>)
    ensures factors == DivisorsUpTo(n, n / 2)
    ensures forall x :: x in factors <==> 1 <= x <= n / 2 && n % x == 0
    ensures forall i, j :: 0 <= i < j < |factors| ==> factors[i] < factors[j]
  {
    factors := [];
    var i := 1;
    while i <= n / 2
      invariant 1 <= i && (i <= n / 2 + 1 || i == 1)
      invariant factors == DivisorsUpTo(n, i - 1)
      decreases n / 2 - i
    {
      if n % i == 0 {
        factors := factors + [i];
      }
      i := i + 1;
    }
    assert i - 1 == n / 2 || n / 2 < 1;
    DivisorsUpToMembers(n, n / 2);
    DivisorsUpToIncreasing(n, n / 2);
  }

  /** The documented divisor list of 28. */
  lemma FactorTwentyEight()
    ensures DivisorsUpTo(28, 28 / 2) == [1, 2, 4, 7, 14]
  {
    assert DivisorsUpTo(28, 0) == [];
    assert DivisorsUpTo(28, 1) == [1];
    assert DivisorsUpTo(28, 2) == [1, 2];
    assert DivisorsUpTo(28, 3) == [1, 2];
    assert DivisorsUpTo(28, 4) == [1, 2, 4];
    assert DivisorsUpTo(28, 5) == [1, 2, 4];
    assert DivisorsUpTo(28, 6) == [1, 2, 4];
    assert DivisorsUpTo(28, 7) == [1, 2, 4, 7];
    assert DivisorsUpTo(28, 8) == [1, 2, 4, 7];
    assert DivisorsUpTo(28, 9) == [1, 2, 4, 7];
    assert DivisorsUpTo(28, 10) == [1, 2, 4, 7];
    assert DivisorsUpTo(28, 11) == [1, 2, 4, 7];
    assert DivisorsUpTo(28, 12) == [1, 2, 4, 7];
    assert DivisorsUpTo(28, 13) == [1, 2, 4, 7];
    assert DivisorsUpTo(28, 14) == [1, 2, 4, 7, 14];
  }

  /** A number of at least 1 is never in its own divisor list. */
  lemma FactorExcludesSelf(n: int)
    requires n >= 1
    ensures n !in DivisorsUpTo(n, n / 2)
  {
    DivisorsUpToMembers(n, n / 2);
  }

  // ---------------------------------------------------------------------
  // Gcd from divisor lists (`_gcd_factorize_2`)

  /** The membership test of a divisor list produced by `factor`. */
  predicate IsListedDivisor(x: nat, n: nat) {
    1 <= x <= n / 2 && n % x == 0
  }

  /** `x` is the largest number found in both divisor lists. */
  ghost predicate IsLargestCommon(x: nat, a: nat, b: nat) {
    && IsListedDivisor(x, a) && IsListedDivisor(x, b)
    && forall y: nat :: IsListedDivisor(y, a) && IsListedDivisor(y, b) ==> y <= x
  }

  /** Scans the divisors of `a` from the largest down and returns the first
      one that also divides `b`; None (Python's implicit None) when there is
      none. */
  method GcdFactorize(a: nat, b: nat) returns (r: Option<nat>)
    ensures r.Some? ==> IsLargestCommon(r.value, a, b)
    ensures r.None? <==> forall y: nat :: !(IsListedDivisor(y, a) && IsListedDivisor(y, b))
  {
    var fa := Factor(a);
    var fb := Factor(b);
    ListedMeansMember(a, fa);
    ListedMeansMember(b, fb);
    var k := |fa|;
    while k > 0
      invariant 0 <= k <= |fa|
      invariant forall j :: k <= j < |fa| ==> fa[j] !in fb
    {
      k := k - 1;
      if fa[k] in fb {
        ScanFindsLargest(fa, fb, k);
        return Some(fa[k]);
      }
    }
    ScanFindsNone(fa, fb);
    return None;
  }

  lemma ListedMeansMember(n: nat, fs: seq<nat>)
    requires forall x :: x in fs <==> 1 <= x <= n / 2 && n % x == 0
    ensures forall y: nat :: IsListedDivisor(y, n) <==> y in fs
  {
  }

  lemma ScanFindsNone(fa: seq<nat>, fb: seq<nat>)
    requires forall j :: 0 <= j < |fa| ==> fa[j] !in fb
    ensures forall y :: !(y in fa && y in fb)
  {
  }

  /** A scan from the top of an increasing list stops at the largest element
      shared with `fb`. */
  lemma ScanFindsLargest(fa: seq<nat>, fb: seq<nat>, k: nat)
    requires k < |fa| && fa[k] in fb
    requires forall i, j :: 0 <= i < j < |fa| ==> fa[i] < fa[j]
    requires forall j :: k < j < |fa| ==> fa[j] !in fb
    ensures forall y :: y in fa && y in fb ==> y <= fa[k]
  {
    forall y | y in fa && y in fb ensures y <= fa[k] {
      var j :| 0 <= j < |fa| && fa[j] == y;
      if j > k {
        assert fa[j] !in fb;
      }
    }
  }

  /** Both lists contain 1 exactly when both numbers are at least 2, so the
      scan comes back empty exactly when one of them is 0 or 1. */
  lemma FactorizeFindsCommon(a: nat, b: nat)
    ensures (exists y: nat :: IsListedDivisor(y, a) && IsListedDivisor(y, b)) <==> a >= 2 && b >= 2
  {
    if a >= 2 && b >= 2 {
      assert IsListedDivisor(1, a) && IsListedDivisor(1, b);
    }
  }

  lemma ProperDivisorHalf(g: nat, n: nat)
    requires g >= 1 && Divides(g, n) && g != n && n >= 1
    ensures IsListedDivisor(g, n)
  {
    var k := n / g;
    DividesQuotient(g, n);
    assert n == g * k;
    assert k >= 2;
    MulMono(g, 2, k);
    assert g * 2 <= n;
  }

  /** The scan returns the gcd exactly when neither number divides the
      other: otherwise the gcd is the smaller number itself, which its own
      divisor list leaves out. */
  lemma FactorizeIsGcd(a: nat, b: nat, x: nat)
    requires a >= 1 && b >= 1 && IsLargestCommon(x, a, b)
    ensures x == Gcd(a, b) <==> !Divides(a, b) && !Divides(b, a)
  {
    var g := Gcd(a, b);
    GcdIsGcd(a, b);
    DividesLe(g, a);
    assert Divides(x, a) && Divides(x, b);
    CommonDividesGcd(x, a, b);
    DividesLe(x, g);
    if !Divides(a, b) && !Divides(b, a) {
      ProperDivisorHalf(g, a);
      ProperDivisorHalf(g, b);
      DividesAntisym(x, g);
    }
    if x == g {
      if Divides(a, b) {
        DividesRefl(a);
        CommonDividesGcd(a, a, b);
        DividesAntisym(a, g);
      }
      if Divides(b, a) {
        DividesRefl(b);
        CommonDividesGcd(b, a, b);
        DividesAntisym(b, g);
      }
    }
  }

  /** gcd(4, 8) is 4, but the scan over the divisors 1, 2 of 4 returns 2. */
  lemma FactorizeFourEight(x: nat)
    requires IsLargestCommon(x, 4, 8)
    ensures x == 2 && Gcd(4, 8) == 4
  {
    assert IsListedDivisor(2, 4) && IsListedDivisor(2, 8);
  }

  // ---------------------------------------------------------------------
  // The dispatcher (`gcd_2`)

  /** The algorithm names `gcd_2` accepts. */
  predicate ValidAlgorithm(name: string) {
    || name == "Euclidean" || name == "decrease technique" || name == "Stein"
    || name == "prime factorize" || name == "factorize"
  }

  /** The accepted names whose branch calls its helper without arguments. */
  predicate CallsWithoutArguments(name: string) {
    name == "Stein" || name == "prime factorize" || name == "factorize"
  }

  /** `gcd_2`: argument checks in the source's order, then dispatch. The
      decrease technique never returns on a zero argument or on equal
      arguments (see `DegenerateNeverDone`), and the branches for Stein,
      prime factorize and factorize call their helper without arguments,
      which raises a TypeError. */
  method Gcd2(a: int, b: int, algorithm: string) returns (r: Outcome<nat>)
    ensures a < 0 ==> r == Err(NegativeArgument(a))
    ensures a >= 0 && b < 0 ==> r == Err(NegativeArgument(b))
    ensures a >= 0 && b >= 0 && !ValidAlgorithm(algorithm) ==> r == Err(InvalidAlgorithm(algorithm))
    ensures a >= 0 && b >= 0 && algorithm == "Euclidean" ==> r == Ok(Gcd(a, b))
    ensures a >= 0 && b >= 0 && algorithm == "decrease technique" ==>
      r == if a == 0 || b == 0 || a == b then Err(NonTermination) else Ok(Gcd(a, b))
    ensures a >= 0 && b >= 0 && CallsWithoutArguments(algorithm) ==> r == Err(MissingArguments)
    ensures r.Ok? ==> a >= 0 && b >= 0 && r.value == Gcd(a, b) && IsGcd(r.value, a, b)
  {
    if a < 0 {
      return Err(NegativeArgument(a));
    }
    if b < 0 {
      return Err(NegativeArgument(b));
    }
    if !ValidAlgorithm(algorithm) {
      return Err(InvalidAlgorithm(algorithm));
    }
    GcdIsGcd(a, b);
    if algorithm == "Euclidean" {
      var g := GcdEuclidean(a, b);
      return Ok(g);
    } else if algorithm == "decrease technique" {
      if a == 0 || b == 0 || a == b {
        return Err(NonTermination);
      }
      var g := GcdDecreaseTechnique(a, b);
      return Ok(g);
    } else {
      return Err(MissingArguments);
    }
  }

  // ---------------------------------------------------------------------
  // Many arguments (`gcd`, `lcm`)

  predicate NonNegative(nums: seq<int>) {
    forall i :: 0 <= i < |nums| ==> nums[i] >= 0
  }

  /** `x` is the first negative number of `nums`, the one the argument
      check raises its ValueError for. */
  ghost predicate IsFirstNegative(x: int, nums: seq<int>) {
    exists i :: 0 <= i < |nums| && nums[i] == x && x < 0 && forall j :: 0 <= j < i ==> nums[j] >= 0
  }

  /** The argument check shared by `gcd`, `lcm` and `ratio`. */
  method FirstNegative(nums: seq<int>) returns (bad: Option<int>)
    ensures bad.None? <==> NonNegative(nums)
    ensures bad.Some? ==> IsFirstNegative(bad.value, nums)
  {
    for i := 0 to |nums|
      invariant forall j :: 0 <= j < i ==> nums[j] >= 0
    {
      if nums[i] < 0 {
        return Some(nums[i]);
      }
    }
    return None;
  }

  /** Replacing the pair at position i of `done + start[2i..]` by `v`. */
  lemma SpliceStep(xs: seq<nat>, done: seq<nat>, start: seq<nat>, i: nat, v: nat)
    requires |done| == i && 2 * i + 2 <= |start| && xs == done + start[2 * i..]
    ensures xs[i] == start[2 * i] && xs[i + 1] == start[2 * i + 1]
    ensures xs[..i] + [v] + xs[i + 2..] == (done + [v]) + start[2 * (i + 1)..]
  {
    assert xs[..i] == done;
    assert xs[i + 2..] == start[2 * (i + 1)..];
  }

  lemma PairGcdsExtend(start: seq<nat>, i: nat)
    requires 2 * i + 2 <= |start|
    ensures PairGcds(start[..2 * (i + 1)]) == PairGcds(start[..2 * i]) + [Gcd(start[2 * i], start[2 * i + 1])]
  {
    assert start[..2 * (i + 1)] == start[..2 * i] + [start[2 * i], start[2 * i + 1]];
    PairGcdsSplit(start[..2 * i], [start[2 * i], start[2 * i + 1]]);
    assert PairGcds([start[2 * i], start[2 * i + 1]]) == [Gcd(start[2 * i], start[2 * i + 1])] + PairGcds([]);
  }

  lemma PairGcdsWhole(start: seq<nat>)
    ensures PairGcds(start) == PairGcds(start[..2 * (|start| / 2)]) + start[2 * (|start| / 2)..]
  {
    EvenPrefix(|start|);
    PairGcdsAt(start, 2 * (|start| / 2));
  }

  lemma PairGcdsAt(start: seq<nat>, h: nat)
    requires h % 2 == 0 && h <= |start| < h + 2
    ensures PairGcds(start) == PairGcds(start[..h]) + start[h..]
  {
    var front, tail := start[..h], start[h..];
    assert start == front + tail;
    assert PairGcds(tail) == tail;
    PairGcdsSplit(front, tail);
  }

  /** The paired prefix of a list of length n has even length and leaves
      at most one element over. */
  lemma EvenPrefix(n: nat)
    ensures var h := 2 * (n / 2); h <= n < h + 2 && h % 2 == 0
  {
  }

  lemma PairLcmsExtend(start: seq<nat>, i: nat)
    requires 2 * i + 2 <= |start|
    ensures PairLcms(start[..2 * (i + 1)]) == PairLcms(start[..2 * i]) + [Lcm(start[2 * i], start[2 * i + 1])]
  {
    assert start[..2 * (i + 1)] == start[..2 * i] + [start[2 * i], start[2 * i + 1]];
    PairLcmsSplit(start[..2 * i], [start[2 * i], start[2 * i + 1]]);
    assert PairLcms([start[2 * i], start[2 * i + 1]]) == [Lcm(start[2 * i], start[2 * i + 1])] + PairLcms([]);
  }

  lemma PairLcmsWhole(start: seq<nat>)
    ensures PairLcms(start) == PairLcms(start[..2 * (|start| / 2)]) + start[2 * (|start| / 2)..]
  {
    EvenPrefix(|start|);
    PairLcmsAt(start, 2 * (|start| / 2));
  }

  lemma PairLcmsAt(start: seq<nat>, h: nat)
    requires h % 2 == 0 && h <= |start| < h + 2
    ensures PairLcms(start) == PairLcms(start[..h]) + start[h..]
  {
    var front, tail := start[..h], start[h..];
    assert start == front + tail;
    assert PairLcms(tail) == tail;
    PairLcmsSplit(front, tail);
  }

  /** The arguments on which the decrease technique never returns: a zero
      or two equal numbers, (0, 0) included. */
  predicate Stalls(a: int, b: int) {
    a == 0 || b == 0 || a == b
  }

  /** One of the pairs (xs[0], xs[1]), (xs[2], xs[3]), ... that a pass
      hands to `gcd_2` stalls the decrease technique. */
  predicate AnyPairStalls(xs: seq<nat>)
    decreases |xs|
  {
    |xs| >= 2 && (Stalls(xs[0], xs[1]) || AnyPairStalls(xs[2..]))
  }

  lemma {:induction false} AnyPairStallsSplit(s: seq<nat>, t: seq<nat>)
    requires |s| % 2 == 0
    ensures AnyPairStalls(s + t) == (AnyPairStalls(s) || AnyPairStalls(t))
    decreases |s|
  {
    if |s| > 0 {
      assert (s + t)[2..] == s[2..] + t;
      AnyPairStallsSplit(s[2..], t);
    } else {
      assert s + t == t;
    }
  }

  lemma AnyPairStallsExtend(start: seq<nat>, i: nat)
    requires 2 * i + 2 <= |start|
    ensures AnyPairStalls(start[..2 * (i + 1)]) == (AnyPairStalls(start[..2 * i]) || Stalls(start[2 * i], start[2 * i + 1]))
  {
    var pair := [start[2 * i], start[2 * i + 1]];
    assert start[..2 * (i + 1)] == start[..2 * i] + pair;
    AnyPairStallsSplit(start[..2 * i], pair);
    assert pair[2..] == [];
  }

  lemma AnyPairStallsPrefix(start: seq<nat>, n: nat)
    requires 2 * n <= |start|
    ensures AnyPairStalls(start[..2 * n]) ==> AnyPairStalls(start)
  {
    var h := 2 * n;
    assert start == start[..h] + start[h..];
    AnyPairStallsSplit(start[..h], start[h..]);
  }

  lemma AnyPairStallsWhole(start: seq<nat>)
    ensures AnyPairStalls(start) == AnyPairStalls(start[..2 * (|start| / 2)])
  {
    EvenPrefix(|start|);
    var h := 2 * (|start| / 2);
    var front, tail := start[..h], start[h..];
    assert start == front + tail;
    assert !AnyPairStalls(tail);
    AnyPairStallsSplit(front, tail);
  }

  /** One round of the pass's `for` loop: `gcd_2` of the pair at 2i and
      2i + 1 of the original list, which sits at i and i + 1 of the list
      being rewritten, replaces that pair. */
  method SpliceGcd(xs: seq<nat>, ys: seq<nat>, i: nat, algorithm: string) returns (r: Outcome<seq<nat>>)
    requires ValidAlgorithm(algorithm) && 2 * i + 2 <= |xs|
    requires ys == PairGcds(xs[..2 * i]) + xs[2 * i..]
    ensures r.Ok? ==> r.value == PairGcds(xs[..2 * (i + 1)]) + xs[2 * (i + 1)..] && |r.value| == |xs| - i - 1
    ensures algorithm == "Euclidean" ==> r.Ok?
    ensures algorithm == "decrease technique" ==>
      (r.Err? <==> Stalls(xs[2 * i], xs[2 * i + 1])) && (r.Err? ==> r == Err(NonTermination))
    ensures CallsWithoutArguments(algorithm) ==> r == Err(MissingArguments)
  {
    SpliceStep(ys, PairGcds(xs[..2 * i]), xs, i, 0);
    var g := Gcd2(ys[i], ys[i + 1], algorithm);
    if g.Err? {
      return Err(g.failure);
    }
    PairGcdsExtend(xs, i);
    SpliceStep(ys, PairGcds(xs[..2 * i]), xs, i, g.value);
    return Ok(ys[..i] + [g.value] + ys[i + 2..]);
  }

  /** One pass of the `while` loop of `gcd`: the `for` loop that replaces
      each adjacent pair by its `gcd_2` and deletes the second element. */
  method GcdPass(xs: seq<nat>, algorithm: string) returns (r: Outcome<seq<nat>>)
    requires ValidAlgorithm(algorithm)
    ensures r.Ok? ==> r.value == PairGcds(xs)
    ensures algorithm == "Euclidean" ==> r.Ok?
    ensures algorithm == "decrease technique" ==> r.Ok? || r == Err(NonTermination)
    ensures algorithm == "decrease technique" ==>
      (r.Err? <==> AnyPairStalls(xs))
    ensures CallsWithoutArguments(algorithm) ==> r == if |xs| >= 2 then Err(MissingArguments) else Ok(xs)
  {
    var ys := xs;
    var half := |xs| / 2;
    for i := 0 to half
      invariant |ys| == |xs| - i
      invariant ys == PairGcds(xs[..2 * i]) + xs[2 * i..]
      invariant CallsWithoutArguments(algorithm) ==> i == 0
      invariant algorithm == "decrease technique" ==> !AnyPairStalls(xs[..2 * i])
    {
      var step := SpliceGcd(xs, ys, i, algorithm);
      AnyPairStallsExtend(xs, i);
      if step.Err? {
        AnyPairStallsPrefix(xs, i + 1);
        return Err(step.failure);
      }
      ys := step.value;
    }
    PairGcdsWhole(xs);
    AnyPairStallsWhole(xs);
    return Ok(ys);
  }

  /** `gcd(*nums, algorithm)`: repeated passes that replace each adjacent
      pair by its `gcd_2`, until one number is left. On an empty argument
      list the `while len(nums) != 1` loop never exits. */
  method GcdMany(nums: seq<int>, algorithm: string) returns (r: Outcome<nat>)
    ensures !NonNegative(nums) <==> r.Err? && r.failure.NegativeArgument?
    ensures r.Err? && r.failure.NegativeArgument? ==> IsFirstNegative(r.failure.n, nums)
    ensures NonNegative(nums) && !ValidAlgorithm(algorithm) ==> r == Err(InvalidAlgorithm(algorithm))
    ensures NonNegative(nums) && ValidAlgorithm(algorithm) && |nums| == 0 ==> r == Err(NonTermination)
    ensures NonNegative(nums) && ValidAlgorithm(algorithm) && |nums| == 1 ==> r == Ok(nums[0])
    ensures NonNegative(nums) && |nums| >= 2 && CallsWithoutArguments(algorithm) ==> r == Err(MissingArguments)
    ensures NonNegative(nums) && |nums| > 0 && algorithm == "Euclidean" ==> r.Ok?
    ensures NonNegative(nums) && |nums| > 0 && algorithm == "decrease technique" ==>
      r.Ok? || r == Err(NonTermination)
    ensures NonNegative(nums) && |nums| == 2 && algorithm == "decrease technique" ==>
      (r == Err(NonTermination) <==> Stalls(nums[0], nums[1]))
    ensures r.Ok? ==> NonNegative(nums) && |nums| > 0 && r.value == GcdFold(nums) && IsGcdOf(r.value, nums)
  {
    var bad := FirstNegative(nums);
    if bad.Some? {
      return Err(NegativeArgument(bad.value));
    }
    if !ValidAlgorithm(algorithm) {
      return Err(InvalidAlgorithm(algorithm));
    }
    if |nums| == 0 {
      return Err(NonTermination);
    }
    var xs: seq<nat> := nums;
    while |xs| != 1
      invariant |xs| >= 1 && GcdFold(xs) == GcdFold(nums)
      invariant CallsWithoutArguments(algorithm) ==> xs == nums
      invariant |nums| == 2 && algorithm == "decrease technique" ==> xs == nums || (|xs| == 1 && !Stalls(nums[0], nums[1]))
      decreases |xs|
    {
      var pass := GcdPass(xs, algorithm);
      if |nums| == 2 && algorithm == "decrease technique" {
        assert xs == nums && xs[2..] == [];
      }
      if pass.Err? {
        return Err(pass.failure);
      }
      GcdFoldPairGcds(xs);
      xs := pass.value;
    }
    GcdFoldIsGcdOf(nums);
    return Ok(xs[0]);
  }

  /** The number of zeros in a list. */
  function ZeroCount(s: seq<int>): nat
    decreases |s|
  {
    if |s| == 0 then 0 else (if s[0] == 0 then 1 else 0) + ZeroCount(s[1..])
  }

  lemma {:induction false} ZeroCountConcat(s: seq<int>, t: seq<int>)
    ensures ZeroCount(s + t) == ZeroCount(s) + ZeroCount(t)
    decreases |s|
  {
    if |s| > 0 {
      assert (s + t)[1..] == s[1..] + t;
      ZeroCountConcat(s[1..], t);
    } else {
      assert s + t == t;
    }
  }

  /** Splicing a pair into one value at position i. */
  lemma ZeroCountSplice(front: seq<int>, pair: seq<int>, back: seq<int>, v: int)
    ensures ZeroCount(front + [v] + back) + ZeroCount(pair) == ZeroCount(front + pair + back) + ZeroCount([v])
  {
    ZeroCountConcat(front + [v], back);
    ZeroCountConcat(front, [v]);
    ZeroCountConcat(front + pair, back);
    ZeroCountConcat(front, pair);
  }

  lemma ZeroCountPair(xs: seq<int>, i: nat)
    requires i + 1 < |xs| && xs[i] == 0 && xs[i + 1] == 0
    ensures ZeroCount(xs) >= 2
  {
    var front, pair, back := xs[..i], [xs[i], xs[i + 1]], xs[i + 2..];
    assert xs == front + pair + back;
    ZeroCountConcat(front + pair, back);
    ZeroCountConcat(front, pair);
  }

  /** The pairing expression of `lcm`: x * y / gcd_2(x, y), which divides
      by zero when both are zero. */
  method LcmOfPair(x: nat, y: nat) returns (r: Outcome<nat>)
    ensures r == if x == 0 && y == 0 then Err(DivisionByZero) else Ok(Lcm(x, y))
  {
    var g := Gcd2(x, y, "Euclidean");
    if g.value == 0 {
      GcdZeroZero(x, y);
      return Err(DivisionByZero);
    }
    var p: nat := x * y;
    return Ok(p / g.value);
  }

  /** Splicing the lcm of a pair (not both zero) in keeps the number of zeros. */
  lemma LcmSplice(xs: seq<nat>, i: nat, l: nat)
    requires i + 1 < |xs| && !(xs[i] == 0 && xs[i + 1] == 0) && l == Lcm(xs[i], xs[i + 1])
    ensures ZeroCount(xs[..i] + [l] + xs[i + 2..]) == ZeroCount(xs)
  {
    LcmZero(xs[i], xs[i + 1]);
    ZeroCountSplice(xs[..i], [xs[i], xs[i + 1]], xs[i + 2..], l);
    assert xs == xs[..i] + [xs[i], xs[i + 1]] + xs[i + 2..];
  }

  /** The lcm of two numbers, not both zero, is zero exactly when one is. */
  lemma LcmZero(x: nat, y: nat)
    requires x > 0 || y > 0
    ensures Lcm(x, y) == 0 <==> x == 0 || y == 0
  {
    if x == 0 {
      assert Gcd(0, y) == y;
    } else if y == 0 {
      GcdZeroRight(x);
    } else {
      LcmTimesGcd(x, y);
      MulStrictMono(x, 0, y);
    }
  }

  /** One pass of the `while` loop of `lcm`. */
  method LcmPass(xs: seq<nat>) returns (r: Outcome<seq<nat>>)
    ensures r.Ok? ==> r.value == PairLcms(xs) && ZeroCount(r.value) == ZeroCount(xs)
    ensures r.Err? ==> r == Err(DivisionByZero) && ZeroCount(xs) >= 2
  {
    var ys := xs;
    var half := |xs| / 2;
    for i := 0 to half
      invariant |ys| == |xs| - i
      invariant ys == PairLcms(xs[..2 * i]) + xs[2 * i..]
      invariant ZeroCount(ys) == ZeroCount(xs)
    {
      SpliceStep(ys, PairLcms(xs[..2 * i]), xs, i, 0);
      var l := LcmOfPair(ys[i], ys[i + 1]);
      if l.Err? {
        ZeroCountPair(ys, i);
        return Err(l.failure);
      }
      LcmSplice(ys, i, l.value);
      PairLcmsExtend(xs, i);
      SpliceStep(ys, PairLcms(xs[..2 * i]), xs, i, l.value);
      ys := ys[..i] + [l.value] + ys[i + 2..];
    }
    PairLcmsWhole(xs);
    return Ok(ys);
  }

  /** `lcm(*nums)`: the same passes as `gcd`, pairing x and y into
      x * y / gcd_2(x, y). A pair of zeros makes that division fail. */
  method LcmMany(nums: seq<int>) returns (r: Outcome<nat>)
    ensures !NonNegative(nums) <==> r.Err? && r.failure.NegativeArgument?
    ensures r.Err? && r.failure.NegativeArgument? ==> IsFirstNegative(r.failure.n, nums)
    ensures NonNegative(nums) && |nums| == 0 ==> r == Err(NonTermination)
    ensures r == Err(DivisionByZero) <==> NonNegative(nums) && |nums| > 0 && ZeroCount(nums) >= 2
    ensures r.Ok? <==> NonNegative(nums) && |nums| > 0 && ZeroCount(nums) <= 1
    ensures r.Ok? ==> NonNegative(nums) && |nums| > 0 && r.value == LcmFold(nums) && IsLcmOf(r.value, nums)
  {
    var bad := FirstNegative(nums);
    if bad.Some? {
      return Err(NegativeArgument(bad.value));
    }
    if |nums| == 0 {
      return Err(NonTermination);
    }
    var xs: seq<nat> := nums;
    while |xs| != 1
      invariant |xs| >= 1 && LcmFold(xs) == LcmFold(nums)
      invariant ZeroCount(xs) == ZeroCount(nums)
      decreases |xs|
    {
      var pass := LcmPass(xs);
      if pass.Err? {
        return Err(pass.failure);
      }
      LcmFoldPairLcms(xs);
      xs := pass.value;
    }
    assert ZeroCount(xs) == ZeroCount([xs[0]]) <= 1;
    LcmFoldIsLcmOf(nums);
    return Ok(xs[0]);
  }

  // ---------------------------------------------------------------------
  // Whole-number ratios (`ratio`, integer arguments)

  /** Python's `min` of a non-empty list. */
  function Minimum(s: seq<int>): (m: int)
    requires |s| > 0
    ensures m in s && forall k :: 0 <= k < |s| ==> m <= s[k]
    decreases |s|
  {
    if |s| == 1 then s[0]
    else
      var t := Minimum(s[1..]);
      assert forall k :: 1 <= k < |s| ==> s[k] == s[1..][k - 1];
      if s[0] <= t then s[0] else t
  }

  lemma PowTenPositive(e: nat)
    ensures Pow(10, e) >= 1
    decreases e
  {
    if e > 0 {
      PowTenPositive(e - 1);
    }
  }

  lemma QuotientTimes(x: nat, g: nat)
    requires g > 0 && Divides(g, x)
    ensures x / g * g == x
  {
    DividesQuotient(g, x);
  }

  lemma GcdFoldOfPositive(s: seq<nat>)
    requires |s| > 0 && s[0] > 0
    ensures GcdFold(s) > 0
  {
    GcdFoldIsGcdOf(s);
    assert Divides(GcdFold(s), s[0]);
  }

  lemma CrossMultiply(ri: nat, rj: nat, ni: nat, nj: nat, g: nat, scale: nat, si: nat, sj: nat)
    requires g > 0 && ri * g == si && rj * g == sj && si == ni * scale && sj == nj * scale
    ensures ri * nj == rj * ni
  {
    calc {
      g * (ri * nj);
      (ri * g) * nj;
      (ni * scale) * nj;
      (nj * scale) * ni;
      (rj * g) * ni;
      g * (rj * ni);
    }
    MulCancel(g, ri * nj, rj * ni);
  }

  /** Dividing every element by the gcd leaves a list whose gcd is 1. */
  lemma DividedByGcd(scaled: seq<nat>, g: nat, out: seq<nat>)
    requires |out| == |scaled| && g > 0 && IsGcdOf(g, scaled)
    requires forall k :: 0 <= k < |out| ==> out[k] * g == scaled[k]
    ensures IsGcdOf(1, out)
  {
    forall d: nat | DividesAll(d, out) ensures Divides(d, 1) {
      forall k | 0 <= k < |scaled| ensures Divides(d * g, scaled[k]) {
        assert Divides(d, out[k]);
        if d == 0 {
          assert out[k] == 0;
        } else {
          DividesQuotient(d, out[k]);
          var c := out[k] / d;
          assert scaled[k] == (d * g) * c by {
            assert out[k] * g == (d * c) * g == (d * g) * c;
          }
          DividesIntro(d * g, scaled[k], c);
        }
      }
      assert Divides(d * g, g);
      DividesCancel(g, d, 1);
    }
  }

  /** The loop that multiplies every number by the scale. */
  method Scale(nums: seq<nat>, scale: nat) returns (xs: seq<nat>)
    ensures |xs| == |nums| && forall k :: 0 <= k < |nums| ==> xs[k] == nums[k] * scale
  {
    xs := nums;
    for i := 0 to |xs|
      invariant |xs| == |nums|
      invariant forall k :: 0 <= k < i ==> xs[k] == nums[k] * scale
      invariant forall k :: i <= k < |xs| ==> xs[k] == nums[k]
    {
      xs := xs[i := xs[i] * scale];
    }
  }

  /** The loop that divides every number by the gcd, exactly. */
  method DivideBy(scaled: seq<nat>, g: nat) returns (xs: seq<nat>)
    requires g > 0 && DividesAll(g, scaled)
    ensures |xs| == |scaled| && forall k :: 0 <= k < |scaled| ==> xs[k] * g == scaled[k]
  {
    xs := scaled;
    for i := 0 to |xs|
      invariant |xs| == |scaled|
      invariant forall k :: 0 <= k < i ==> xs[k] * g == scaled[k]
      invariant forall k :: i <= k < |xs| ==> xs[k] == scaled[k]
    {
      assert Divides(g, scaled[i]);
      QuotientTimes(scaled[i], g);
      xs := xs[i := xs[i] / g];
    }
  }

  /** `ratio(*nums, digits)` for integer arguments: after the negative
      check, `min` of the list (which fails on an empty list) decides the
      number of places. For a smallest value of 0 the loop
      `while least * 10 ** place < 1` never exits; otherwise no place is
      needed, every number is scaled by 10 ** (digits - 1) and the list is
      divided by its gcd. */
  method Ratio(nums: seq<int>, digits: int) returns (r: Outcome<seq<nat>>)
    requires digits >= 1
    ensures !NonNegative(nums) <==> r.Err? && r.failure.NegativeArgument?
    ensures r.Err? && r.failure.NegativeArgument? ==> IsFirstNegative(r.failure.n, nums)
    ensures NonNegative(nums) && |nums| == 0 ==> r == Err(EmptySequence)
    ensures NonNegative(nums) && 0 in nums ==> r == Err(NonTermination)
    ensures r.Ok? <==> NonNegative(nums) && |nums| > 0 && 0 !in nums
    ensures r.Ok? ==> |r.value| == |nums| && forall k :: 0 <= k < |nums| ==> r.value[k] >= 1
    ensures r.Ok? ==> forall i, j :: 0 <= i < |nums| && 0 <= j < |nums| ==> r.value[i] * nums[j] == r.value[j] * nums[i]
    ensures r.Ok? ==> IsGcdOf(1, r.value)
  {
    var bad := FirstNegative(nums);
    if bad.Some? {
      return Err(NegativeArgument(bad.value));
    }
    if |nums| == 0 {
      return Err(EmptySequence);
    }
    var least := Minimum(nums);
    var place := 0;
    if least < 1 {
      return Err(NonTermination);
    }
    PowTenPositive(place + digits - 1);
    var scale: nat := Pow(10, place + digits - 1);
    var scaled := Scale(nums, scale);
    forall k | 0 <= k < |scaled| ensures scaled[k] >= 1 {
      MulAtLeast(nums[k], scale);
    }
    var g := GcdMany(scaled, "Euclidean");
    GcdFoldIsGcdOf(scaled);
    GcdFoldOfPositive(scaled);
    var xs := DivideBy(scaled, g.value);
    forall i, j | 0 <= i < |nums| && 0 <= j < |nums|
      ensures xs[i] * nums[j] == xs[j] * nums[i]
    {
      CrossMultiply(xs[i], xs[j], nums[i], nums[j], g.value, scale, scaled[i], scaled[j]);
    }
    forall k | 0 <= k < |xs| ensures xs[k] >= 1 {
      assert xs[k] * g.value == scaled[k];
    }
    DividedByGcd(scaled, g.value, xs);
    return Ok(xs);
  }


  // ---------------------------------------------------------------------
  // Synthetic division and polynomial values

  /** The running values of synthetic division by x - a: entry k is the
      value at a of the polynomial made of the first k + 1 coefficients
      (coefficients are listed from the highest degree down). */
  function SyntheticValues(a: int, c: seq<int>): (v: seq<int>)
    ensures |v| == |c|
    ensures forall k :: 0 <= k < |c| ==> v[k] == Eval(c[..k + 1], a)
    decreases |c|
  {
    if |c| == 0 then []
    else
      var p := SyntheticValues(a, c[..|c| - 1]);
      var r := p + [c[|c| - 1] + (if |p| == 0 then 0 else p[|p| - 1]) * a];
      SyntheticExtend(a, c[..|c| - 1], c[|c| - 1], p, r);
      assert c[..|c| - 1] + [c[|c| - 1]] == c;
      r
  }

  lemma SyntheticExtend(a: int, front: seq<int>, d: int, p: seq<int>, r: seq<int>)
    requires |p| == |front|
    requires forall k :: 0 <= k < |front| ==> p[k] == Eval(front[..k + 1], a)
    requires r == p + [d + (if |p| == 0 then 0 else p[|p| - 1]) * a]
    ensures |r| == |front| + 1
    ensures forall k :: 0 <= k < |r| ==> r[k] == Eval((front + [d])[..k + 1], a)
  {
    var c := front + [d];
    var last := if |p| == 0 then 0 else p[|p| - 1];
    assert last == Eval(front, a) by {
      if |p| > 0 {
        assert front[..|front|] == front;
      }
    }
    forall k | 0 <= k < |r| ensures r[k] == Eval(c[..k + 1], a) {
      if k < |front| {
        assert c[..k + 1] == front[..k + 1];
      } else {
        assert c[..k + 1] == c;
        EvalSnoc(front, d, a);
      }
    }
  }

  /** The recurrence the loop follows: the first entry is the leading
      coefficient and each later entry is its coefficient plus a times the
      entry before it. */
  lemma SyntheticRecurrence(a: int, c: seq<int>)
    requires |c| > 0
    ensures SyntheticValues(a, c)[0] == c[0]
    ensures forall i :: 1 <= i < |c| ==> SyntheticValues(a, c)[i] == c[i] + a * SyntheticValues(a, c)[i - 1]
  {
    assert c[..1] == [c[0]] && c[..1][1..] == [];
    forall i | 1 <= i < |c| ensures SyntheticValues(a, c)[i] == c[i] + a * SyntheticValues(a, c)[i - 1] {
      SyntheticEntry(a, c, i);
    }
  }

  lemma SyntheticEntry(a: int, c: seq<int>, i: nat)
    requires 1 <= i < |c|
    ensures SyntheticValues(a, c)[i] == c[i] + a * SyntheticValues(a, c)[i - 1]
  {
    var v := SyntheticValues(a, c);
    var e := Eval(c[..i], a);
    assert v[i - 1] == e;
    assert c[..i + 1] == c[..i] + [c[i]];
    EvalSnoc(c[..i], c[i], a);
    assert v[i] == e * a + c[i];
  }

  /** `synthetic_division(a, coefficients)`: the list starts as [0], each
      coefficient appends itself plus the previous entry times a, and the
      leading 0 is cut off. */
  method SyntheticDivision(a: int, c: seq<int>) returns (q: seq<int>)
    ensures q == SyntheticValues(a, c)
  {
    var value := [0];
    for i := 0 to |c|
      invariant |value| == i + 1 && value[0] == 0
      invariant value[1..] == SyntheticValues(a, c[..i])
    {
      ghost var before := value;
      assert c[..i + 1][..i] == c[..i];
      value := value + [c[i] + value[|value| - 1] * a];
      assert value[1..] == before[1..] + [c[i] + before[|before| - 1] * a];
    }
    assert c[..|c|] == c;
    return value[1..];
  }

  /** `polynomial_value(x, coefficients)`: the last entry of the synthetic
      division at x, which fails (index -1 of an empty list) on an empty
      coefficient list. */
  function PolynomialValue(x: int, c: seq<int>): (r: Outcome<int>)
    ensures |c| == 0 <==> r == Err(EmptySequence)
    ensures r.Ok? ==> r.value == Eval(c, x)
  {
    var q := SyntheticValues(x, c);
    if |q| == 0 then Err(EmptySequence)
    else
      assert c[..|c| - 1 + 1] == c;
      Ok(q[|q| - 1])
  }

  lemma SyntheticAlgebra(x: int, a: int, e: int, t: int, d: int)
    ensures ((x - a) * e + t) * x + d == (x - a) * (e * x + t) + (d + t * a)
  {
  }

  /** The division identity: the polynomial equals (x - a) times the
      quotient (all entries but the last) plus the remainder (the last
      entry), at every x. */
  lemma {:induction false} SyntheticDivisionIdentity(a: int, c: seq<int>, x: int)
    requires |c| > 0
    ensures var v := SyntheticValues(a, c);
      Eval(c, x) == (x - a) * Eval(v[..|c| - 1], x) + v[|c| - 1]
    decreases |c|
  {
    var v := SyntheticValues(a, c);
    if |c| == 1 {
      assert v[..0] == [];
      assert c[..1] == c;
      calc {
        Eval(c, x);
        { EvalSnoc([], c[0], x); assert [] + [c[0]] == c; }
        c[0];
        { EvalSnoc([], c[0], a); assert [] + [c[0]] == c; }
        v[0];
      }
    } else {
      var front := c[..|c| - 1];
      var d := c[|c| - 1];
      var w := SyntheticValues(a, front);
      assert front + [d] == c;
      SyntheticDivisionIdentity(a, front, x);
      assert w == v[..|c| - 1] by {
        forall k | 0 <= k < |front| ensures w[k] == v[k] {
          assert front[..k + 1] == c[..k + 1];
        }
      }
      assert v[..|c| - 2] == w[..|front| - 1];
      assert v[..|c| - 1] == w[..|front| - 1] + [w[|front| - 1]];
      assert v[|c| - 1] == d + w[|front| - 1] * a by {
        assert c[..|c|] == c;
        assert front[..|front|] == front;
        EvalSnoc(front, d, a);
      }
      var e := Eval(w[..|front| - 1], x);
      var t := w[|front| - 1];
      calc {
        Eval(c, x);
        { EvalSnoc(front, d, x); }
        Eval(front, x) * x + d;
        ((x - a) * e + t) * x + d;
        { SyntheticAlgebra(x, a, e, t, d); }
        (x - a) * (e * x + t) + (d + t * a);
        { EvalSnoc(w[..|front| - 1], t, x); }
        (x - a) * Eval(v[..|c| - 1], x) + v[|c| - 1];
      }
    }
  }

  /** The remainder theorem: the last entry of the synthetic division by
      x - a is the value of the polynomial at a, and it is zero exactly
      when x - a divides the polynomial (the quotient then gives it back). */
  lemma FactorTheorem(a: int, c: seq<int>)
    requires |c| > 0
    ensures SyntheticValues(a, c)[|c| - 1] == Eval(c, a)
    ensures var v := SyntheticValues(a, c);
      v[|c| - 1] == 0 <==> forall x :: Eval(c, x) == (x - a) * Eval(v[..|c| - 1], x)
  {
    var v := SyntheticValues(a, c);
    assert c[..|c|] == c;
    forall x ensures Eval(c, x) == (x - a) * Eval(v[..|c| - 1], x) + v[|c| - 1] {
      SyntheticDivisionIdentity(a, c, x);
    }
    if forall x :: Eval(c, x) == (x - a) * Eval(v[..|c| - 1], x) {
      assert Eval(c, a) == (a - a) * Eval(v[..|c| - 1], a);
    }
  }

  /** The documented division: x^2 + x - 6 divided by x - 2. */
  lemma SyntheticDivisionExample()
    ensures SyntheticValues(2, [1, 1, -6]) == [1, 3, 0]
  {
    var c := [1, 1, -6];
    assert c[..1] == [1] && c[..2] == [1, 1] && c[..3] == c;
  }

  /** The documented value: 2x^2 + 3 at x = 3. */
  lemma PolynomialValueExample()
    ensures PolynomialValue(3, [2, 0, 3]) == Ok(21)
  {
    var c := [2, 0, 3];
    assert c[1..] == [0, 3] && c[1..][1..] == [3] && [3][1..] == [];
    assert Pow(3, 2) == 9;
    assert Eval(c, 3) == 21;
  }
}
