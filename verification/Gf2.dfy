/** Polynomials over GF(2) as bit strings, highest power first, and their long division. */
module Gf2 {
  import opened Bits

  function Zeros(n: nat): (z: BitString)
    ensures |z| == n && forall i | 0 <= i < n :: !z[i]
  {
    seq(n, _ => false)
  }

  function Xor(a: BitString, b: BitString): (c: BitString)
    requires |a| == |b|
    ensures |c| == |a| && forall i | 0 <= i < |a| :: c[i] == (a[i] != b[i])
  {
    seq(|a|, i requires 0 <= i < |a| => a[i] != b[i])
  }

  /** Xor a short string into the front of a long one. */
  function XorFront(d: BitString, p: BitString): (c: BitString)
    requires |p| <= |d|
    ensures |c| == |d| && forall i | 0 <= i < |d| :: c[i] == if i < |p| then d[i] != p[i] else d[i]
  {
    Xor(d[..|p|], p) + d[|p|..]
  }

  /** One step of long division by x^w + poly: drop the leading bit, subtracting the divisor if it was set. */
  function DivStep(d: BitString, poly: BitString): (r: BitString)
    requires |d| > |poly|
    ensures |r| == |d| - 1
    ensures forall i | 0 <= i < |r| :: r[i] == if d[0] && i < |poly| then d[i + 1] != poly[i] else d[i + 1]
  {
    if d[0] then XorFront(d[1..], poly) else d[1..]
  }

  /** `k` steps of long division. */
  function Divide(d: BitString, poly: BitString, k: nat): (r: BitString)
    requires |d| >= k + |poly|
    ensures |r| == |d| - k
    decreases k
  {
    if k == 0 then d else Divide(DivStep(d, poly), poly, k - 1)
  }

  function Remainder(d: BitString, poly: BitString): (r: BitString)
    requires |d| >= |poly|
    ensures |r| == |poly|
  {
    Divide(d, poly, |d| - |poly|)
  }

  // ---------------------------------------------------------------- division is linear, local and exact

  lemma DivStepXor(a: BitString, b: BitString, poly: BitString)
    requires |a| == |b| > |poly|
    ensures DivStep(Xor(a, b), poly) == Xor(DivStep(a, poly), DivStep(b, poly))
  {
    hide DivStep, Xor;
  }

  lemma {:induction false} DivideXor(a: BitString, b: BitString, poly: BitString, k: nat)
    requires |a| == |b| >= k + |poly|
    ensures Divide(Xor(a, b), poly, k) == Xor(Divide(a, poly, k), Divide(b, poly, k))
    decreases k
  {
    hide DivStep, Xor;
    if k > 0 {
      DivStepXor(a, b, poly);
      DivideXor(DivStep(a, poly), DivStep(b, poly), poly, k - 1);
    }
  }

  /** Bits out of reach of the divisor come through unchanged. */
  lemma {:induction false} DivideLocal(u: BitString, v: BitString, poly: BitString, k: nat)
    requires |u| >= k + |poly|
    ensures Divide(u + v, poly, k) == Divide(u, poly, k) + v
    decreases k
  {
    if k > 0 {
      assert DivStep(u + v, poly) == DivStep(u, poly) + v;
      DivideLocal(DivStep(u, poly), v, poly, k - 1);
    }
  }

  lemma {:induction false} DivideZeros(x: BitString, poly: BitString, k: nat)
    requires |x| >= |poly|
    ensures Divide(Zeros(k) + x, poly, k) == x
    decreases k
  {
    if k == 0 {
      assert Zeros(0) + x == x;
    } else {
      assert DivStep(Zeros(k) + x, poly) == Zeros(k - 1) + x;
      DivideZeros(x, poly, k - 1);
    }
  }

  lemma {:induction false} DivideTwice(d: BitString, poly: BitString, j: nat, k: nat)
    requires |d| >= j + k + |poly|
    ensures Divide(d, poly, j + k) == Divide(Divide(d, poly, j), poly, k)
    decreases j
  {
    if j > 0 {
      DivideTwice(DivStep(d, poly), poly, j - 1, k);
    }
  }

  /** The divisor with `n` zeros behind it, or as many zeros. */
  function Shifted(b: bool, poly: BitString, n: nat): (m: BitString)
    ensures |m| == 1 + |poly| + n && m[0] == b
    ensures forall i | 1 <= i < |m| :: m[i] == (b && i <= |poly| && poly[i - 1])
  {
    if b then [true] + poly + Zeros(n) else Zeros(1 + |poly| + n)
  }

  /** The product of `q` with x^w + poly, schoolbook style. */
  function Times(q: BitString, poly: BitString): (m: BitString)
    ensures |m| == |q| + |poly|
  {
    if q == [] then Zeros(|poly|)
    else Xor(Shifted(q[0], poly, |q| - 1), [false] + Times(q[1..], poly))
  }

  /** A division step undoes adding one shifted divisor ... */
  lemma StepOfShifted(b: bool, poly: BitString, t: BitString)
    requires |t| >= |poly|
    ensures DivStep(Xor(Shifted(b, poly, |t| - |poly|), [false] + t), poly) == t
  {
    var m := Xor(Shifted(b, poly, |t| - |poly|), [false] + t);
    forall i | 0 <= i < |t| ensures DivStep(m, poly)[i] == t[i] {
      assert ([false] + t)[i + 1] == t[i];
    }
  }

  /** ... and adding it back undoes the step. */
  lemma ShiftedOfStep(d: BitString, poly: BitString)
    requires |d| > |poly|
    ensures d == Xor(Shifted(d[0], poly, |d| - 1 - |poly|), [false] + DivStep(d, poly))
  {
    var e := DivStep(d, poly);
    var m := Xor(Shifted(d[0], poly, |d| - 1 - |poly|), [false] + e);
    forall i | 0 <= i < |d| ensures d[i] == m[i] {
      assert i > 0 ==> ([false] + e)[i] == e[i - 1];
    }
  }

  /** The quotient bits that `k` steps of division produce. */
  function Quotient(d: BitString, poly: BitString, k: nat): (q: BitString)
    requires |d| >= k + |poly|
    ensures |q| == k
    decreases k
  {
    if k == 0 then [] else [d[0]] + Quotient(DivStep(d, poly), poly, k - 1)
  }

  lemma LawStep(d: BitString, poly: BitString, q: BitString, r: BitString)
    requires |d| == 1 + |q| + |poly| && |r| == |poly|
    requires DivStep(d, poly) == Xor(Times(q, poly), Zeros(|q|) + r)
    ensures d == Xor(Times([d[0]] + q, poly), Zeros(1 + |q|) + r)
  {
    var a, b, c := Shifted(d[0], poly, |q|), Times(q, poly), Zeros(|q|) + r;
    ShiftedOfStep(d, poly);
    XorRegroup(a, b, c);
    assert Times([d[0]] + q, poly) == Xor(a, [false] + b) by {
      assert ([d[0]] + q)[1..] == q;
    }
    OneMoreZero(|q|, r);
  }

  lemma OneMoreZero(n: nat, r: BitString)
    ensures [false] + (Zeros(n) + r) == Zeros(1 + n) + r
  {
    var a, b := [false] + (Zeros(n) + r), Zeros(1 + n) + r;
    forall i | 0 <= i < |a| ensures a[i] == b[i] {
    }
  }

  lemma XorNothing(d: BitString)
    ensures Xor(Zeros(|d|), d) == d
  {
  }

  /** Dividend = quotient times divisor plus remainder. */
  lemma {:induction false} DivisionLaw(d: BitString, poly: BitString)
    requires |d| >= |poly|
    ensures d == Xor(Times(Quotient(d, poly, |d| - |poly|), poly), Zeros(|d| - |poly|) + Remainder(d, poly))
    decreases |d|
  {
    hide DivStep, Xor;
    if |d| == |poly| {
      assert Zeros(0) + d == d;
      XorNothing(d);
    } else {
      var e := DivStep(d, poly);
      DivisionLaw(e, poly);
      LawStep(d, poly, Quotient(e, poly, |e| - |poly|), Remainder(e, poly));
    }
  }

  lemma XorRegroup(a: BitString, b: BitString, c: BitString)
    requires |a| == |b| + 1 == |c| + 1
    ensures Xor(a, [false] + Xor(b, c)) == Xor(Xor(a, [false] + b), [false] + c)
  {
    var x, y, z := [false] + b, [false] + c, [false] + Xor(b, c);
    forall i | 0 <= i < |a| ensures z[i] == (x[i] != y[i]) {
      assert i > 0 ==> z[i] == Xor(b, c)[i - 1];
    }
  }

  lemma {:induction false} DivideTimes(q: BitString, poly: BitString)
    ensures Remainder(Times(q, poly), poly) == Zeros(|poly|)
    decreases |q|
  {
    if q != [] {
      StepOfShifted(q[0], poly, Times(q[1..], poly));
      DivideTimes(q[1..], poly);
    }
  }

  /** The remainder is the only one: whatever quotient and remainder make up the dividend, this is the remainder. */
  lemma RemainderUnique(d: BitString, poly: BitString, q: BitString, r: BitString)
    requires |r| == |poly| && |d| == |q| + |poly|
    requires d == Xor(Times(q, poly), Zeros(|q|) + r)
    ensures r == Remainder(d, poly)
  {
    DivideXor(Times(q, poly), Zeros(|q|) + r, poly, |q|);
    DivideTimes(q, poly);
    DivideZeros(r, poly, |q|);
  }
}
