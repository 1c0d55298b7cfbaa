/**
 * The abstract view of a polynomial's term chain: the sequence of
 * (degree, coefficient) pairs met when walking from the head node to the
 * end of the chain, together with the "coefficient of degree d" reading
 * that every operation of the polynomial is specified against.
 */
module Terms {

  /** One monomial `coef * x^deg`, the content of one chain node. */
  datatype Term = Term(deg: nat, coef: real)

  /** Degrees strictly decrease from the head towards the end of the chain. */
  ghost predicate StrictlyDecreasing(ts: seq<Term>) {
    forall i, j :: 0 <= i < j < |ts| ==> ts[i].deg > ts[j].deg
  }

  /**
   * The chain holds every degree from its head degree down to 0, once each:
   * the shape every chain built from empty by term-append has.
   */
  ghost predicate Contiguous(ts: seq<Term>) {
    forall i :: 0 <= i < |ts| ==> ts[i].deg == |ts| - 1 - i
  }

  /** The head coefficient is nonzero (or there is no head). */
  ghost predicate Normalized(ts: seq<Term>) {
    ts == [] || ts[0].coef != 0.0
  }

  /** The degree reported for a chain: the head's degree, or -1 when empty. */
  function Deg(ts: seq<Term>): int {
    if ts == [] then -1 else ts[0].deg
  }

  /**
   * The coefficient of degree d: the sum of the coefficients of the terms
   * of degree d. On a strictly decreasing chain at most one term has a
   * given degree (CoeffAtIndex, CoeffAtAbsent); on an unsorted list of
   * products this sums the products that share a degree.
   */
  function CoeffAt(ts: seq<Term>, d: int): real {
    if ts == [] then 0.0
    else (if ts[0].deg == d then ts[0].coef else 0.0) + CoeffAt(ts[1..], d)
  }

  lemma ContiguousIsStrictlyDecreasing(ts: seq<Term>)
    requires Contiguous(ts)
    ensures StrictlyDecreasing(ts)
    ensures Deg(ts) == |ts| - 1
  {
  }

  /** A degree that no term carries has coefficient 0. */
  lemma {:induction false} CoeffAtAbsent(ts: seq<Term>, d: int)
    requires forall i :: 0 <= i < |ts| ==> ts[i].deg != d
    ensures CoeffAt(ts, d) == 0.0
  {
    if ts != [] {
      CoeffAtAbsent(ts[1..], d);
    }
  }

  /** On a strictly decreasing chain, the coefficient of a stored degree is that term's. */
  lemma {:induction false} CoeffAtIndex(ts: seq<Term>, k: int)
    requires StrictlyDecreasing(ts)
    requires 0 <= k < |ts|
    ensures CoeffAt(ts, ts[k].deg) == ts[k].coef
  {
    if k == 0 {
      CoeffAtAbsent(ts[1..], ts[0].deg);
    } else {
      CoeffAtIndex(ts[1..], k - 1);
    }
  }

  /** Nothing is stored above the head of a strictly decreasing chain. */
  lemma CoeffAtAboveHead(ts: seq<Term>, d: int)
    requires StrictlyDecreasing(ts)
    requires d > Deg(ts) || d < 0
    ensures CoeffAt(ts, d) == 0.0
  {
    CoeffAtAbsent(ts, d);
  }

  /**
   * The lookup reading as a whole: the coefficient of degree d is the
   * coefficient of the term whose degree is d when there is one, and 0
   * when no term has degree d.
   */
  lemma CoeffAtSpec(ts: seq<Term>, d: int)
    requires StrictlyDecreasing(ts)
    ensures forall k :: 0 <= k < |ts| && ts[k].deg == d ==> CoeffAt(ts, d) == ts[k].coef
    ensures (forall k :: 0 <= k < |ts| ==> ts[k].deg != d) ==> CoeffAt(ts, d) == 0.0
  {
    forall k | 0 <= k < |ts| && ts[k].deg == d
      ensures CoeffAt(ts, d) == ts[k].coef
    {
      CoeffAtIndex(ts, k);
    }
    if forall k :: 0 <= k < |ts| ==> ts[k].deg != d {
      CoeffAtAbsent(ts, d);
    }
  }

  /** The coefficient of a concatenation is the sum of the parts' coefficients. */
  lemma {:induction false} CoeffAtConcat(a: seq<Term>, b: seq<Term>, d: int)
    ensures CoeffAt(a + b, d) == CoeffAt(a, d) + CoeffAt(b, d)
  {
    if a == [] {
      assert a + b == b;
    } else {
      assert (a + b)[1..] == a[1..] + b;
      CoeffAtConcat(a[1..], b, d);
    }
  }

  /**
   * On a strictly decreasing chain the head coefficient is the coefficient
   * of the reported degree, and any degree with a nonzero coefficient is at
   * most the reported degree.
   */
  lemma HeadCoefficient(ts: seq<Term>)
    requires StrictlyDecreasing(ts)
    requires ts != []
    ensures CoeffAt(ts, Deg(ts)) == ts[0].coef
    ensures forall d :: CoeffAt(ts, d) != 0.0 ==> 0 <= d <= Deg(ts)
  {
    CoeffAtIndex(ts, 0);
    forall d | CoeffAt(ts, d) != 0.0
      ensures 0 <= d <= Deg(ts)
    {
      if d > Deg(ts) || d < 0 {
        CoeffAtAboveHead(ts, d);
      }
    }
  }

  /**
   * The product of two coefficients. Kept behind a function so that the
   * unfoldings that multiply two coefficients carry one term for the product
   * rather than nonlinear arithmetic.
   */
  function Times(a: real, b: real): real {
    a * b
  }

  /** The reals have no zero divisors. */
  lemma TimesNonzero(a: real, b: real)
    requires a != 0.0 && b != 0.0
    ensures Times(a, b) != 0.0
  {
  }

  /** The chain with every coefficient multiplied by k (the right operand of the signed merge). */
  function Scaled(ts: seq<Term>, k: real): (r: seq<Term>)
    ensures |r| == |ts|
  {
    if ts == [] then [] else [Term(ts[0].deg, k * ts[0].coef)] + Scaled(ts[1..], k)
  }

  lemma Distribute(a: real, b: real, p: real)
    ensures p * (a + b) == p * a + p * b
  {
  }

  /** Scaling a chain by k scales every coefficient by k. */
  lemma {:induction false} ScaledCoeff(ts: seq<Term>, k: real, e: int)
    ensures CoeffAt(Scaled(ts, k), e) == k * CoeffAt(ts, e)
  {
    if ts != [] {
      var r := Scaled(ts, k);
      assert r[1..] == Scaled(ts[1..], k);
      ScaledCoeff(ts[1..], k, e);
      var h := if ts[0].deg == e then ts[0].coef else 0.0;
      assert (if r[0].deg == e then r[0].coef else 0.0) == k * h;
      Distribute(h, CoeffAt(ts[1..], e), k);
    }
  }
}
