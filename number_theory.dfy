/** Reference definitions from elementary number theory: divisibility, the
    greatest common divisor and least common multiple characterised by the
    divisibility order, their folds over sequences, primes and products.
    The models of the arithmetic module are proved against these. */
module NumberTheory {

  /** `d` divides `n`; zero divides only zero. */
  predicate Divides(d: nat, n: nat) {
    if d == 0 then n == 0 else n % d == 0
  }

  predicate Even(n: nat) { n % 2 == 0 }

  // ---------------------------------------------------------------------
  // Arithmetic helpers

  lemma MulAtLeast(t: int, m: int)
    requires t >= 1 && m > 0
    ensures t * m >= m
  {
  }

  lemma MulStrictMono(k: int, x: int, y: int)
    requires k > 0 && 0 <= x < y
    ensures k * x < k * y
  {
    assert k * y - k * x == k * (y - x);
    MulAtLeast(y - x, k);
  }

  lemma MulMono(k: nat, x: nat, y: nat)
    requires x <= y
    ensures k * x <= k * y
  {
    if k > 0 && x < y { MulStrictMono(k, x, y); }
  }

  /** Euclidean division is determined by quotient and remainder. */
  lemma ModUnique(n: int, m: int, q: int, r: int)
    requires m > 0 && n == q * m + r && 0 <= r < m
    ensures n / m == q && n % m == r
  {
    var q', r' := n / m, n % m;
    assert n == q' * m + r';
    assert (q - q') * m == q * m - q' * m;
    if q > q' {
      MulAtLeast(q - q', m);
    } else if q < q' {
      assert (q' - q) * m == q' * m - q * m;
      MulAtLeast(q' - q, m);
    }
  }

  // ---------------------------------------------------------------------
  // Divisibility

  lemma DividesIntro(d: nat, n: nat, k: nat)
    requires n == d * k
    ensures Divides(d, n)
  {
    if d > 0 { ModUnique(n, d, k, 0); }
  }

  lemma DividesQuotient(d: nat, n: nat)
    requires d > 0 && Divides(d, n)
    ensures n == d * (n / d)
  {
  }

  lemma DividesRefl(n: nat)
    ensures Divides(n, n)
  {
    DividesIntro(n, n, 1);
  }

  lemma DividesTrans(a: nat, b: nat, c: nat)
    requires Divides(a, b) && Divides(b, c)
    ensures Divides(a, c)
  {
    if a > 0 && b > 0 {
      var x, y := b / a, c / b;
      assert c == b * y;
      assert c == a * (x * y) by {
        assert b == a * x;
        assert b * y == (a * x) * y == a * (x * y);
      }
      DividesIntro(a, c, x * y);
    }
  }

  lemma DividesMulRight(d: nat, n: nat, k: nat)
    requires Divides(d, n)
    ensures Divides(d, n * k) && Divides(d, k * n)
  {
    if d > 0 {
      var x := n / d;
      assert n * k == d * (x * k) by {
        assert n == d * x;
        assert n * k == (d * x) * k == d * (x * k);
      }
      DividesIntro(d, n * k, x * k);
    }
  }

  lemma DividesAdd(d: nat, a: nat, b: nat)
    requires Divides(d, a) && Divides(d, b)
    ensures Divides(d, a + b)
  {
    if d > 0 {
      var x, y := a / d, b / d;
      assert a + b == d * (x + y) by {
        assert a == d * x && b == d * y;
        assert d * (x + y) == d * x + d * y;
      }
      DividesIntro(d, a + b, x + y);
    }
  }

  lemma DividesSub(d: nat, a: nat, b: nat)
    requires b <= a && Divides(d, a) && Divides(d, b)
    ensures Divides(d, a - b)
  {
    if d > 0 {
      var x, y := a / d, b / d;
      assert a == d * x && b == d * y;
      assert d * (x - y) == d * x - d * y;
      if x < y { MulStrictMono(d, x, y); }
      DividesIntro(d, a - b, x - y);
    }
  }

  /** A positive multiple is at least as large as the divisor. */
  lemma DividesLe(d: nat, n: nat)
    requires n > 0 && Divides(d, n)
    ensures 0 < d <= n
  {
    var k := n / d;
    assert n == d * k;
    assert k >= 1;
    MulAtLeast(k, d);
  }

  lemma DividesAntisym(a: nat, b: nat)
    requires Divides(a, b) && Divides(b, a)
    ensures a == b
  {
    if a > 0 && b > 0 {
      DividesLe(a, b);
      DividesLe(b, a);
    }
  }

  /** Common divisors of `a` and `b` are those of `b % a` and `a`. */
  lemma DividesModStep(d: nat, a: nat, b: nat)
    requires a > 0 && Divides(d, a)
    ensures Divides(d, b) <==> Divides(d, b % a)
  {
    var q := b / a;
    assert b == q * a + b % a;
    DividesMulRight(d, a, q);
    if Divides(d, b) {
      DividesSub(d, b, q * a);
    }
    if Divides(d, b % a) {
      DividesAdd(d, q * a, b % a);
    }
  }

  /** Cancelling a positive common factor. */
  lemma DividesCancel(c: nat, x: nat, y: nat)
    requires c > 0 && Divides(c * x, c * y)
    ensures Divides(x, y)
  {
    if x == 0 {
      assert c * y == 0;
    } else {
      var k := (c * y) / (c * x);
      assert c * y == (c * x) * k;
      assert c * y == c * (x * k);
      assert y == x * k by {
        if y < x * k { MulStrictMono(c, y, x * k); }
        if y > x * k { MulStrictMono(c, x * k, y); }
      }
      DividesIntro(x, y, k);
    }
  }

  // ---------------------------------------------------------------------
  // Greatest common divisor

  /** `g` is a greatest common divisor of `a` and `b` in the divisibility
      order: a common divisor that every common divisor divides. */
  ghost predicate IsGcd(g: nat, a: nat, b: nat) {
    && Divides(g, a) && Divides(g, b)
    && forall d: nat :: Divides(d, a) && Divides(d, b) ==> Divides(d, g)
  }

  lemma GcdStep(a: nat, b: nat, g: nat)
    requires a > 0 && IsGcd(g, b % a, a)
    ensures IsGcd(g, a, b)
  {
    DividesModStep(g, a, b);
    forall d: nat | Divides(d, a) && Divides(d, b)
      ensures Divides(d, g)
    {
      DividesModStep(d, a, b);
    }
  }

  /** The reference greatest common divisor, by Euclid's recursion;
      gcd(0, 0) = 0. */
  function Gcd(a: nat, b: nat): nat
    decreases a
  {
    if a == 0 then b else Gcd(b % a, a)
  }

  /** Euclid's recursion computes a greatest common divisor. */
  lemma {:induction false} GcdIsGcd(a: nat, b: nat)
    ensures IsGcd(Gcd(a, b), a, b)
    decreases a
  {
    if a == 0 {
      DividesIntro(b, 0, 0);
      DividesRefl(b);
    } else {
      GcdIsGcd(b % a, a);
      GcdStep(a, b, Gcd(b % a, a));
    }
  }

  /** Every common divisor divides the gcd. */
  lemma CommonDividesGcd(d: nat, a: nat, b: nat)
    requires Divides(d, a) && Divides(d, b)
    ensures Divides(d, Gcd(a, b))
  {
    GcdIsGcd(a, b);
  }

  lemma GcdDividesBoth(a: nat, b: nat)
    ensures Divides(Gcd(a, b), a) && Divides(Gcd(a, b), b)
  {
    GcdIsGcd(a, b);
  }

  /** The characterisation determines the greatest common divisor. */
  lemma GcdUnique(g: nat, a: nat, b: nat)
    requires IsGcd(g, a, b)
    ensures g == Gcd(a, b)
  {
    var h := Gcd(a, b);
    GcdIsGcd(a, b);
    assert Divides(g, h);
    assert Divides(h, g);
    DividesAntisym(g, h);
  }

  lemma GcdComm(a: nat, b: nat)
    ensures Gcd(a, b) == Gcd(b, a)
  {
    GcdIsGcd(b, a);
    GcdUnique(Gcd(b, a), a, b);
  }

  lemma GcdZeroRight(a: nat)
    ensures Gcd(a, 0) == a
  {
    DividesIntro(a, 0, 0);
    DividesRefl(a);
    GcdUnique(a, a, 0);
  }

  lemma GcdSelf(a: nat)
    ensures Gcd(a, a) == a
  {
    DividesRefl(a);
    GcdUnique(a, a, a);
  }

  /** Subtracting the smaller argument from the larger keeps the gcd. */
  lemma GcdSub(a: nat, b: nat)
    requires b <= a
    ensures Gcd(a - b, b) == Gcd(a, b)
  {
    var g := Gcd(a, b);
    GcdIsGcd(a, b);
    DividesSub(g, a, b);
    forall d: nat | Divides(d, a - b) && Divides(d, b)
      ensures Divides(d, g)
    {
      DividesAdd(d, a - b, b);
    }
    GcdUnique(g, a - b, b);
  }

  lemma ScaledMod(k: nat, a: nat, b: nat)
    requires k > 0 && a > 0
    ensures (k * b) % (k * a) == k * (b % a)
  {
    var q, r := b / a, b % a;
    assert b == q * a + r;
    assert k * b == q * (k * a) + k * r by {
      assert k * b == k * (q * a + r) == k * (q * a) + k * r;
      assert k * (q * a) == q * (k * a);
    }
    MulStrictMono(k, r, a);
    ModUnique(k * b, k * a, q, k * r);
  }

  /** gcd(k a, k b) = k gcd(a, b). */
  lemma {:induction false} GcdScale(k: nat, a: nat, b: nat)
    requires k > 0
    ensures Gcd(k * a, k * b) == k * Gcd(a, b)
    decreases a
  {
    if a == 0 {
      assert k * a == 0;
    } else {
      MulStrictMono(k, 0, a);
      ScaledMod(k, a, b);
      calc {
        Gcd(k * a, k * b);
        Gcd((k * b) % (k * a), k * a);
        Gcd(k * (b % a), k * a);
        { GcdScale(k, b % a, a); }
        k * Gcd(b % a, a);
        k * Gcd(a, b);
      }
    }
  }

  /** If `y` is coprime to `x` and divides `x k`, it divides `k`. */
  lemma CoprimeDivides(x: nat, y: nat, k: nat)
    requires Gcd(x, y) == 1 && Divides(y, x * k)
    ensures Divides(y, k)
  {
    if k == 0 {
      DividesIntro(y, 0, 0);
    } else {
      GcdScale(k, x, y);
      CoprimeCore(y, k, k * x, k * y);
    }
  }

  lemma CoprimeCore(y: nat, k: nat, kx: nat, ky: nat)
    requires Divides(y, kx) && ky == k * y && Gcd(kx, ky) == k
    ensures Divides(y, k)
  {
    DividesIntro(y, ky, k);
    CommonDividesGcd(y, kx, ky);
  }

  lemma OddDivisor(d: nat, b: nat)
    requires !Even(b) && Divides(d, b)
    ensures !Even(d) && Gcd(2, d) == 1
  {
    if Even(d) {
      var e, t := d / 2, b / d;
      assert b == d * t;
      assert b == 2 * (e * t) by {
        assert d == 2 * e;
        assert d * t == (2 * e) * t == 2 * (e * t);
      }
      DividesIntro(2, b, e * t);
    }
    assert d % 2 == 1;
    calc {
      Gcd(2, d);
      Gcd(d % 2, 2);
      Gcd(1, 2);
      Gcd(0, 1);
      1;
    }
  }

  /** Halving both even arguments halves the gcd. */
  lemma GcdHalveBoth(a: nat, b: nat)
    requires Even(a) && Even(b)
    ensures Gcd(a, b) == 2 * Gcd(a / 2, b / 2)
  {
    GcdScale(2, a / 2, b / 2);
  }

  /** Halving the even argument when the other is odd keeps the gcd. */
  lemma GcdHalveOne(a: nat, b: nat)
    requires Even(a) && !Even(b)
    ensures Gcd(a / 2, b) == Gcd(a, b)
  {
    var g := Gcd(a / 2, b);
    GcdIsGcd(a / 2, b);
    DividesMulRight(g, a / 2, 2);
    assert a / 2 * 2 == a;
    forall d: nat | Divides(d, a) && Divides(d, b)
      ensures Divides(d, g)
    {
      OddDivisor(d, b);
      CoprimeDivides(2, d, a / 2);
    }
    GcdUnique(g, a, b);
  }

  // ---------------------------------------------------------------------
  // Least common multiple

  /** `l` is a least common multiple of `a` and `b` in the divisibility
      order: a common multiple that divides every common multiple. */
  ghost predicate IsLcm(l: nat, a: nat, b: nat) {
    && Divides(a, l) && Divides(b, l)
    && forall m: nat :: Divides(a, m) && Divides(b, m) ==> Divides(l, m)
  }

  /** `y` divides `k` whenever it divides `x k`: what coprimality of `x`
      and `y` gives, stated without the gcd. */
  ghost predicate CancelsFactor(x: nat, y: nat) {
    forall k: nat :: Divides(y, x * k) ==> Divides(y, k)
  }

  lemma CoprimeCancels(x: nat, y: nat)
    requires Gcd(x, y) == 1
    ensures CancelsFactor(x, y)
  {
    forall k: nat | Divides(y, x * k)
      ensures Divides(y, k)
    {
      CoprimeDivides(x, y, k);
    }
  }

  /** a b / gcd(a, b) is the least common multiple when the gcd is positive. */
  lemma LcmByGcd(a: nat, b: nat)
    requires Gcd(a, b) > 0
    ensures Divides(Gcd(a, b), a * b)
    ensures IsLcm(a * b / Gcd(a, b), a, b)
    ensures a * b / Gcd(a, b) * Gcd(a, b) == a * b
  {
    var g, a', b' := GcdCofactors(a, b);
    LcmCore(a, b, g, a', b', a * b, g * (a' * b'));
  }

  /** The cofactors a / gcd(a, b) and b / gcd(a, b), which are coprime. */
  lemma GcdCofactors(a: nat, b: nat) returns (g: nat, a': nat, b': nat)
    requires Gcd(a, b) > 0
    ensures g == Gcd(a, b) && a == g * a' && b == g * b'
    ensures CancelsFactor(a', b')
  {
    g := Gcd(a, b);
    GcdDividesBoth(a, b);
    DividesQuotient(g, a);
    DividesQuotient(g, b);
    a', b' := a / g, b / g;
    CoprimeQuotients(a, b, g, a', b');
    CoprimeCancels(a', b');
  }

  lemma LcmCore(a: nat, b: nat, g: nat, a': nat, b': nat, ab: nat, l: nat)
    requires g > 0 && a == g * a' && b == g * b' && CancelsFactor(a', b')
    requires ab == a * b && l == g * (a' * b')
    ensures Divides(g, ab) && ab / g == l && l * g == ab
    ensures IsLcm(l, a, b)
  {
    LcmShape(g, a', b', ab, l);
    DividesIntro(g, ab, l);
    ModUnique(ab, g, l, 0);
    DividesIntro(a, l, b');
    DividesIntro(b, l, a');
    forall m: nat | Divides(a, m) && Divides(b, m)
      ensures Divides(l, m)
    {
      LcmLeast(g, a', b', m);
    }
  }

  lemma LcmShape(g: nat, a': nat, b': nat, ab: nat, l: nat)
    requires ab == (g * a') * (g * b') && l == g * (a' * b')
    ensures ab == g * l && ab == l * g
    ensures l == (g * a') * b' && l == (g * b') * a'
  {
  }

  /** Dividing both arguments by their gcd leaves coprime quotients. */
  lemma CoprimeQuotients(a: nat, b: nat, g: nat, a': nat, b': nat)
    requires g > 0 && g == Gcd(a, b) && a == g * a' && b == g * b'
    ensures Gcd(a', b') == 1
  {
    GcdScale(g, a', b');
    var h := Gcd(a', b');
    assert g * h == g;
    if h >= 2 {
      MulStrictMono(g, 1, h);
    }
  }

  lemma LcmLeast(g: nat, a': nat, b': nat, m: nat)
    requires g > 0 && CancelsFactor(a', b')
    requires Divides(g * a', m) && Divides(g * b', m)
    ensures Divides(g * (a' * b'), m)
  {
    var l := g * (a' * b');
    if m == 0 {
      DividesIntro(l, 0, 0);
    } else {
      DividesLe(g * a', m);
      DividesLe(g * b', m);
      DividesQuotient(g * a', m);
      DividesQuotient(g * b', m);
      LcmLeastCore(g, a', b', m / (g * a'), m / (g * b'), m);
    }
  }

  lemma MulCancel(g: nat, x: nat, y: nat)
    requires g > 0 && g * x == g * y
    ensures x == y
  {
    if x < y { MulStrictMono(g, x, y); }
    if y < x { MulStrictMono(g, y, x); }
  }

  lemma MulAssoc(x: int, y: int, z: int)
    ensures (x * y) * z == x * (y * z)
  {
  }

  lemma LcmLeastCore(g: nat, a': nat, b': nat, k: nat, t: nat, m: nat)
    requires g > 0 && CancelsFactor(a', b')
    requires m == (g * a') * k && m == (g * b') * t
    ensures Divides(g * (a' * b'), m)
  {
    MulAssoc(g, a', k);
    MulAssoc(g, b', t);
    MulCancel(g, a' * k, b' * t);
    DividesIntro(b', a' * k, t);
    assert Divides(b', k);
    if b' == 0 {
      assert m == 0;
      DividesIntro(g * (a' * b'), m, 0);
    } else {
      DividesQuotient(b', k);
      var j := k / b';
      LcmRegroup(g, a', b', k, j, m);
      DividesIntro(g * (a' * b'), m, j);
    }
  }

  lemma LcmRegroup(g: nat, a': nat, b': nat, k: nat, j: nat, m: nat)
    requires k == b' * j && m == (g * a') * k
    ensures m == (g * (a' * b')) * j
  {
  }

  // ---------------------------------------------------------------------
  // Folds over sequences

  /** Every element of `s` is divisible by `d`. */
  ghost predicate DividesAll(d: nat, s: seq<nat>) {
    forall i :: 0 <= i < |s| ==> Divides(d, s[i])
  }

  /** Every element of `s` divides `m`. */
  ghost predicate MultipleOfAll(m: nat, s: seq<nat>) {
    forall i :: 0 <= i < |s| ==> Divides(s[i], m)
  }

  /** `g` is the greatest common divisor of all elements of `s`. */
  ghost predicate IsGcdOf(g: nat, s: seq<nat>) {
    DividesAll(g, s) && forall d: nat :: DividesAll(d, s) ==> Divides(d, g)
  }

  /** `l` is the least common multiple of all elements of `s`. */
  ghost predicate IsLcmOf(l: nat, s: seq<nat>) {
    MultipleOfAll(l, s) && forall m: nat :: MultipleOfAll(m, s) ==> Divides(l, m)
  }

  lemma IsGcdOfUnique(g: nat, h: nat, s: seq<nat>)
    requires IsGcdOf(g, s) && IsGcdOf(h, s)
    ensures g == h
  {
    DividesAntisym(g, h);
  }

  lemma IsLcmOfUnique(l: nat, m: nat, s: seq<nat>)
    requires IsLcmOf(l, s) && IsLcmOf(m, s)
    ensures l == m
  {
    DividesAntisym(l, m);
  }

  /** The gcd of a non-empty sequence, as the left fold of `Gcd`. */
  function GcdFold(s: seq<nat>): nat
    requires |s| > 0
  {
    if |s| == 1 then s[0] else Gcd(GcdFold(s[..|s| - 1]), s[|s| - 1])
  }

  /** The reference least common multiple of two numbers. */
  function Lcm(a: nat, b: nat): nat {
    if Gcd(a, b) == 0 then 0 else a * b / Gcd(a, b)
  }

  /** The lcm of a non-empty sequence, as the left fold of `Lcm`. */
  function LcmFold(s: seq<nat>): nat
    requires |s| > 0
  {
    if |s| == 1 then s[0] else Lcm(LcmFold(s[..|s| - 1]), s[|s| - 1])
  }

  lemma GcdZeroZero(a: nat, b: nat)
    requires Gcd(a, b) == 0
    ensures a == 0 && b == 0
  {
    GcdDividesBoth(a, b);
  }

  /** `Lcm` is a least common multiple, also when an argument is zero. */
  lemma LcmIsLcm(a: nat, b: nat)
    ensures IsLcm(Lcm(a, b), a, b)
  {
    if Gcd(a, b) == 0 {
      GcdZeroZero(a, b);
      DividesIntro(0, 0, 0);
    } else {
      LcmByGcd(a, b);
    }
  }

  /** lcm(a, b) gcd(a, b) = a b. */
  lemma LcmTimesGcd(a: nat, b: nat)
    ensures Lcm(a, b) * Gcd(a, b) == a * b
  {
    if Gcd(a, b) == 0 {
      GcdZeroZero(a, b);
    } else {
      LcmByGcd(a, b);
    }
  }

  lemma {:induction false} GcdFoldIsGcdOf(s: seq<nat>)
    requires |s| > 0
    ensures IsGcdOf(GcdFold(s), s)
    decreases |s|
  {
    var g := GcdFold(s);
    if |s| == 1 {
      DividesRefl(s[0]);
    } else {
      var p, x := s[..|s| - 1], s[|s| - 1];
      var g' := GcdFold(p);
      GcdFoldIsGcdOf(p);
      GcdDividesBoth(g', x);
      forall i | 0 <= i < |s|
        ensures Divides(g, s[i])
      {
        if i < |s| - 1 {
          assert s[i] == p[i];
          DividesTrans(g, g', p[i]);
        }
      }
      forall d: nat | DividesAll(d, s)
        ensures Divides(d, g)
      {
        assert DividesAll(d, p) by {
          forall i | 0 <= i < |p| ensures Divides(d, p[i]) { assert p[i] == s[i]; }
        }
        assert Divides(d, x);
        CommonDividesGcd(d, g', x);
      }
    }
  }

  lemma {:induction false} LcmFoldIsLcmOf(s: seq<nat>)
    requires |s| > 0
    ensures IsLcmOf(LcmFold(s), s)
    decreases |s|
  {
    var l := LcmFold(s);
    if |s| == 1 {
      DividesRefl(s[0]);
    } else {
      var p, x := s[..|s| - 1], s[|s| - 1];
      var l' := LcmFold(p);
      LcmFoldIsLcmOf(p);
      LcmIsLcm(l', x);
      forall i | 0 <= i < |s|
        ensures Divides(s[i], l)
      {
        if i < |s| - 1 {
          assert s[i] == p[i];
          DividesTrans(p[i], l', l);
        }
      }
      forall m: nat | MultipleOfAll(m, s)
        ensures Divides(l, m)
      {
        assert MultipleOfAll(m, p) by {
          forall i | 0 <= i < |p| ensures Divides(p[i], m) { assert p[i] == s[i]; }
        }
        assert Divides(x, m);
      }
    }
  }

  // ---------------------------------------------------------------------
  // One pass of pairwise reduction

  /** One pass of pairwise gcds: each adjacent pair (s[2k], s[2k+1]) is
      replaced by its gcd; an unpaired last element is kept. */
  function PairGcds(s: seq<nat>): (r: seq<nat>)
    ensures |r| == (|s| + 1) / 2
    decreases |s|
  {
    if |s| < 2 then s else [Gcd(s[0], s[1])] + PairGcds(s[2..])
  }

  /** One pass of pairwise lcms, shaped like `PairGcds`. */
  function PairLcms(s: seq<nat>): (r: seq<nat>)
    ensures |r| == (|s| + 1) / 2
    decreases |s|
  {
    if |s| < 2 then s else [Lcm(s[0], s[1])] + PairLcms(s[2..])
  }

  lemma {:induction false} PairGcdsSplit(s: seq<nat>, t: seq<nat>)
    requires |s| % 2 == 0
    ensures PairGcds(s + t) == PairGcds(s) + PairGcds(t)
    decreases |s|
  {
    if |s| > 0 {
      assert (s + t)[2..] == s[2..] + t;
      PairGcdsSplit(s[2..], t);
    } else {
      assert s + t == t;
    }
  }

  lemma {:induction false} PairLcmsSplit(s: seq<nat>, t: seq<nat>)
    requires |s| % 2 == 0
    ensures PairLcms(s + t) == PairLcms(s) + PairLcms(t)
    decreases |s|
  {
    if |s| > 0 {
      assert (s + t)[2..] == s[2..] + t;
      PairLcmsSplit(s[2..], t);
    } else {
      assert s + t == t;
    }
  }

  lemma {:induction false} PairGcdsDivisors(d: nat, s: seq<nat>)
    ensures DividesAll(d, PairGcds(s)) <==> DividesAll(d, s)
    decreases |s|
  {
    if |s| >= 2 {
      var r, t := PairGcds(s), s[2..];
      PairGcdsDivisors(d, t);
      assert r == [Gcd(s[0], s[1])] + PairGcds(t);
      GcdDividesBoth(s[0], s[1]);
      if DividesAll(d, s) {
        CommonDividesGcd(d, s[0], s[1]);
        assert DividesAll(d, t) by {
          forall i | 0 <= i < |t| ensures Divides(d, t[i]) { assert t[i] == s[i + 2]; }
        }
        forall i | 0 <= i < |r| ensures Divides(d, r[i]) {
          if i > 0 { assert r[i] == PairGcds(t)[i - 1]; }
        }
      }
      if DividesAll(d, r) {
        assert Divides(d, r[0]);
        DividesTrans(d, Gcd(s[0], s[1]), s[0]);
        DividesTrans(d, Gcd(s[0], s[1]), s[1]);
        assert DividesAll(d, PairGcds(t)) by {
          forall i | 0 <= i < |PairGcds(t)| ensures Divides(d, PairGcds(t)[i]) {
            assert PairGcds(t)[i] == r[i + 1];
          }
        }
        forall i | 0 <= i < |s| ensures Divides(d, s[i]) {
          if i >= 2 { assert s[i] == t[i - 2]; }
        }
      }
    }
  }

  lemma {:induction false} PairLcmsMultiples(m: nat, s: seq<nat>)
    ensures MultipleOfAll(m, PairLcms(s)) <==> MultipleOfAll(m, s)
    decreases |s|
  {
    if |s| >= 2 {
      var r, t := PairLcms(s), s[2..];
      PairLcmsMultiples(m, t);
      assert r == [Lcm(s[0], s[1])] + PairLcms(t);
      LcmIsLcm(s[0], s[1]);
      if MultipleOfAll(m, s) {
        assert Divides(s[0], m) && Divides(s[1], m);
        assert MultipleOfAll(m, t) by {
          forall i | 0 <= i < |t| ensures Divides(t[i], m) { assert t[i] == s[i + 2]; }
        }
        forall i | 0 <= i < |r| ensures Divides(r[i], m) {
          if i > 0 { assert r[i] == PairLcms(t)[i - 1]; }
        }
      }
      if MultipleOfAll(m, r) {
        assert Divides(r[0], m);
        DividesTrans(s[0], Lcm(s[0], s[1]), m);
        DividesTrans(s[1], Lcm(s[0], s[1]), m);
        assert MultipleOfAll(m, PairLcms(t)) by {
          forall i | 0 <= i < |PairLcms(t)| ensures Divides(PairLcms(t)[i], m) {
            assert PairLcms(t)[i] == r[i + 1];
          }
        }
        forall i | 0 <= i < |s| ensures Divides(s[i], m) {
          if i >= 2 { assert s[i] == t[i - 2]; }
        }
      }
    }
  }

  /** A pass of pairwise gcds keeps the gcd of the whole sequence. */
  lemma GcdFoldPairGcds(s: seq<nat>)
    requires |s| > 0
    ensures GcdFold(PairGcds(s)) == GcdFold(s)
  {
    var r := PairGcds(s);
    var g := GcdFold(s);
    GcdFoldIsGcdOf(s);
    GcdFoldIsGcdOf(r);
    PairGcdsDivisors(g, s);
    forall d: nat | DividesAll(d, r) ensures Divides(d, g) {
      PairGcdsDivisors(d, s);
    }
    IsGcdOfUnique(g, GcdFold(r), r);
  }

  /** A pass of pairwise lcms keeps the lcm of the whole sequence. */
  lemma LcmFoldPairLcms(s: seq<nat>)
    requires |s| > 0
    ensures LcmFold(PairLcms(s)) == LcmFold(s)
  {
    var r := PairLcms(s);
    var l := LcmFold(s);
    LcmFoldIsLcmOf(s);
    LcmFoldIsLcmOf(r);
    PairLcmsMultiples(l, s);
    forall m: nat | MultipleOfAll(m, r) ensures Divides(l, m) {
      PairLcmsMultiples(m, s);
    }
    IsLcmOfUnique(l, LcmFold(r), r);
  }

  // ---------------------------------------------------------------------
  // Primes and products

  predicate IsPrime(p: nat) {
    p >= 2 && forall d: nat :: 2 <= d < p ==> p % d != 0
  }

  /** An element of a factor list: a prime, or the 1 that stands for the empty product. */
  predicate PrimeOrOne(p: nat) {
    p == 1 || IsPrime(p)
  }

  function Product(s: seq<nat>): nat {
    if |s| == 0 then 1 else s[0] * Product(s[1..])
  }

  lemma PrimeDivisor(d: nat, p: nat)
    requires IsPrime(p) && Divides(d, p)
    ensures d == 1 || d == p
  {
    DividesLe(d, p);
  }

  /** Euclid's lemma: a prime dividing a product divides a factor. */
  lemma EuclidPrime(p: nat, x: nat, y: nat)
    requires IsPrime(p) && Divides(p, x * y)
    ensures Divides(p, x) || Divides(p, y)
  {
    if !Divides(p, x) {
      var g := Gcd(x, p);
      GcdDividesBoth(x, p);
      PrimeDivisor(g, p);
      assert g != p;
      CoprimeDivides(x, p, y);
    }
  }

  /** A prime dividing a product of primes (and ones) is one of them. */
  lemma {:induction false} PrimeInProduct(p: nat, s: seq<nat>)
    requires IsPrime(p) && (forall i :: 0 <= i < |s| ==> PrimeOrOne(s[i]))
    requires Divides(p, Product(s))
    ensures p in s
    decreases |s|
  {
    if |s| == 0 {
      DividesLe(p, 1);
      assert false;
    }
    EuclidPrime(p, s[0], Product(s[1..]));
    if Divides(p, s[0]) {
      if s[0] == 1 {
        DividesLe(p, 1);
        assert false;
      }
      PrimeDivisor(p, s[0]);
    } else {
      PrimeInProduct(p, s[1..]);
    }
  }

  /** A prime that does not divide `b` can be cancelled from the first argument of gcd. */
  lemma GcdCoprimeLeft(p: nat, x: nat, b: nat)
    requires IsPrime(p) && !Divides(p, b)
    ensures Gcd(p * x, b) == Gcd(x, b)
  {
    var g := Gcd(x, b);
    GcdDividesBoth(x, b);
    DividesMulRight(g, x, p);
    forall d: nat | Divides(d, p * x) && Divides(d, b)
      ensures Divides(d, g)
    {
      var h := Gcd(p, d);
      GcdDividesBoth(p, d);
      PrimeDivisor(h, p);
      assert h != p by {
        if h == p { DividesTrans(p, d, b); }
      }
      CoprimeDivides(p, d, x);
      CommonDividesGcd(d, x, b);
    }
    GcdUnique(g, p * x, b);
  }
}
