/** Reference definitions for polynomials with integer coefficients. */
module Polynomials {

  function Pow(x: int, e: nat): int
    decreases e
  {
    if e == 0 then 1 else x * Pow(x, e - 1)
  }

  /** The value at `x` of the polynomial whose coefficients `c` are listed
      from the highest degree down: the sum of c[k] * x^(|c| - 1 - k). */
  function Eval(c: seq<int>, x: int): int
    decreases |c|
  {
    if |c| == 0 then 0 else c[0] * Pow(x, |c| - 1) + Eval(c[1..], x)
  }

  /** Appending a coefficient multiplies the polynomial by x and adds it. */
  lemma {:induction false} EvalSnoc(c: seq<int>, d: int, x: int)
    ensures Eval(c + [d], x) == Eval(c, x) * x + d
    decreases |c|
  {
    if |c| > 0 {
      var t := c[1..];
      assert (c + [d])[1..] == t + [d];
      EvalSnoc(t, d, x);
      var p := Pow(x, |c| - 1);
      calc {
        Eval(c + [d], x);
        c[0] * Pow(x, |c|) + Eval(t + [d], x);
        c[0] * (x * p) + (Eval(t, x) * x + d);
        { assert c[0] * (x * p) == (c[0] * p) * x; }
        (c[0] * p) * x + Eval(t, x) * x + d;
        (c[0] * p + Eval(t, x)) * x + d;
        Eval(c, x) * x + d;
      }
    } else {
      assert c + [d] == [d];
    }
  }
}
