/**
 * Evaluation of a chain at a scalar: the sum of coef * x^deg over its terms,
 * and the facts that make it a function of the coefficients alone, linear in
 * the signed merge.
 */
module Evaluation {
  import opened Terms
  import opened TermProducts
  import opened TermMerge

  /** x^n for a natural exponent; x^0 is 1 also when x is 0. */
  function Pow(x: real, n: nat): real {
    if n == 0 then 1.0 else x * Pow(x, n - 1)
  }

  /** The value of one term at x: coef * x^deg. */
  function Value(t: Term, x: real): real {
    t.coef * Pow(x, t.deg)
  }

  /** The sum of coef * x^deg over the chain, taken from the head to the end. */
  function EvalTerms(ts: seq<Term>, x: real): real {
    if ts == [] then 0.0 else Value(ts[0], x) + EvalTerms(ts[1..], x)
  }

  /** The same sum read off the coefficients: CoeffAt(ts, i) * x^i over 0 <= i < n. */
  function DenseEval(ts: seq<Term>, x: real, n: nat): real {
    if n == 0 then 0.0 else DenseEval(ts, x, n - 1) + CoeffAt(ts, n - 1) * Pow(x, n - 1)
  }

  /** A degree bound: one more than the largest degree in the chain. */
  function Bound(ts: seq<Term>): (b: nat)
    ensures forall i :: 0 <= i < |ts| ==> ts[i].deg < b
  {
    if ts == [] then 0
    else
      var b := Bound(ts[1..]);
      assert forall i :: 1 <= i < |ts| ==> ts[i] == ts[1..][i - 1];
      if ts[0].deg < b then b else ts[0].deg + 1
  }

  /** Splitting the first term off the coefficient reading. */
  lemma {:induction false} DenseEvalUncons(ts: seq<Term>, x: real, n: nat)
    requires ts != []
    ensures DenseEval(ts, x, n)
         == DenseEval(ts[1..], x, n) + (if ts[0].deg < n then ts[0].coef * Pow(x, ts[0].deg) else 0.0)
  {
    if n > 0 {
      var m := n - 1;
      DenseEvalUncons(ts, x, m);
      var p := Pow(x, m);
      var c, c' := CoeffAt(ts, m), CoeffAt(ts[1..], m);
      if ts[0].deg == m {
        assert c == ts[0].coef + c';
        Distribute(ts[0].coef, c', p);
      } else {
        assert c == c';
      }
    }
  }

  lemma {:induction false} DenseEvalZero(ts: seq<Term>, x: real, n: nat)
    requires ts == []
    ensures DenseEval(ts, x, n) == 0.0
  {
    if n > 0 {
      DenseEvalZero(ts, x, n - 1);
    }
  }

  /**
   * Evaluation read off the coefficients: the head-to-end sum over the terms
   * equals the sum of CoeffAt(ts, i) * x^i over the degrees below any bound n.
   */
  lemma {:induction false} EvalByCoefficients(ts: seq<Term>, x: real, n: nat)
    requires forall i :: 0 <= i < |ts| ==> ts[i].deg < n
    ensures EvalTerms(ts, x) == DenseEval(ts, x, n)
  {
    if ts == [] {
      DenseEvalZero(ts, x, n);
    } else {
      EvalByCoefficients(ts[1..], x, n);
      DenseEvalUncons(ts, x, n);
    }
  }

  lemma {:induction false} DenseEvalCongruent(rs: seq<Term>, ts: seq<Term>, x: real, n: nat)
    requires forall e :: CoeffAt(rs, e) == CoeffAt(ts, e)
    ensures DenseEval(rs, x, n) == DenseEval(ts, x, n)
  {
    if n > 0 {
      DenseEvalCongruent(rs, ts, x, n - 1);
      assert CoeffAt(rs, n - 1) == CoeffAt(ts, n - 1);
    }
  }

  /**
   * Evaluation depends on the coefficients only: two chains with the same
   * coefficient at every degree have the same value at every scalar, however
   * many zero fillers either holds and in whatever order its terms come.
   */
  lemma EvalSameCoefficients(rs: seq<Term>, ts: seq<Term>, x: real)
    requires forall e :: CoeffAt(rs, e) == CoeffAt(ts, e)
    ensures EvalTerms(rs, x) == EvalTerms(ts, x)
  {
    var n := Bound(rs) + Bound(ts);
    EvalByCoefficients(rs, x, n);
    EvalByCoefficients(ts, x, n);
    DenseEvalCongruent(rs, ts, x, n);
  }

  /** Scaling a chain by k scales its value by k. */
  lemma {:induction false} EvalScaled(ts: seq<Term>, k: real, x: real)
    ensures EvalTerms(Scaled(ts, k), x) == k * EvalTerms(ts, x)
  {
    if ts != [] {
      var r := Scaled(ts, k);
      assert r[1..] == Scaled(ts[1..], k);
      EvalScaled(ts[1..], k, x);
      var t := ts[0].coef * Pow(x, ts[0].deg);
      assert r[0].coef * Pow(x, r[0].deg) == k * t;
      Distribute(t, EvalTerms(ts[1..], x), k);
    }
  }

  lemma {:induction false} EvalConcat(a: seq<Term>, b: seq<Term>, x: real)
    ensures EvalTerms(a + b, x) == EvalTerms(a, x) + EvalTerms(b, x)
  {
    if a == [] {
      assert a + b == b;
    } else {
      assert (a + b)[1..] == a[1..] + b;
      EvalConcat(a[1..], b, x);
    }
  }

  /**
   * The signed merge's value: a chain whose coefficients are those of ps plus
   * k times those of qs evaluates to ps's value plus k times qs's value.
   */
  lemma EvalSignedMerge(rs: seq<Term>, ps: seq<Term>, qs: seq<Term>, k: real, x: real)
    requires forall e :: CoeffAt(rs, e) == MergedCoeff(ps, qs, k, e)
    ensures EvalTerms(rs, x) == EvalTerms(ps, x) + k * EvalTerms(qs, x)
  {
    var both := ps + Scaled(qs, k);
    forall e
      ensures CoeffAt(rs, e) == CoeffAt(both, e)
    {
      MergedAsConcat(ps, qs, k, e);
    }
    EvalSameCoefficients(rs, both, x);
    EvalConcat(ps, Scaled(qs, k), x);
    EvalScaled(qs, k, x);
  }

  /** The merged coefficient is the coefficient of ps followed by qs scaled by k. */
  lemma MergedAsConcat(ps: seq<Term>, qs: seq<Term>, k: real, e: int)
    ensures MergedCoeff(ps, qs, k, e) == CoeffAt(ps + Scaled(qs, k), e)
  {
    CoeffAtConcat(ps, Scaled(qs, k), e);
    ScaledCoeff(qs, k, e);
  }

  /** Exponents add: x^(a + b) == x^a * x^b. */
  lemma {:induction false} PowAdd(x: real, a: nat, b: nat)
    ensures Pow(x, a + b) == Pow(x, a) * Pow(x, b)
  {
    if b > 0 {
      PowAdd(x, a, b - 1);
      assert Pow(x, a + b) == x * Pow(x, a + b - 1);
    }
  }

  /** The value of a product term is the product of the two terms' values. */
  lemma ProductTerm(t: Term, u: Term, x: real)
    ensures Value(Term(t.deg + u.deg, Times(t.coef, u.coef)), x) == Value(t, x) * Value(u, x)
  {
    PowAdd(x, t.deg, u.deg);
    Regroup(t.coef, u.coef, Pow(x, t.deg), Pow(x, u.deg));
  }

  lemma Regroup(a: real, b: real, p: real, q: real)
    ensures Times(a, b) * (p * q) == (a * p) * (b * q)
  {
  }

  /** The value of a row is the value of its term times the value of the chain. */
  lemma {:induction false} EvalRow(t: Term, us: seq<Term>, x: real)
    ensures EvalTerms(Row(t, us), x) == Value(t, x) * EvalTerms(us, x)
  {
    if us != [] {
      var r, rest := Row(t, us), Row(t, us[1..]);
      RowUncons(t, us);
      assert r[0] == Term(t.deg + us[0].deg, Times(t.coef, us[0].coef)) && r[1..] == rest;
      EvalRow(t, us[1..], x);
      ProductTerm(t, us[0], x);
      Distribute(Value(us[0], x), EvalTerms(us[1..], x), Value(t, x));
    }
  }

  /** The value of all pairwise products is the product of the two chains' values. */
  lemma {:induction false} EvalProducts(ts: seq<Term>, us: seq<Term>, x: real)
    ensures EvalTerms(Products(ts, us), x) == EvalTerms(ts, x) * EvalTerms(us, x)
  {
    if ts != [] {
      ProductsUncons(ts, us);
      EvalConcat(Row(ts[0], us), Products(ts[1..], us), x);
      EvalRow(ts[0], us, x);
      EvalProducts(ts[1..], us, x);
      DistributeRight(Value(ts[0], x), EvalTerms(ts[1..], x), EvalTerms(us, x));
    }
  }

  lemma DistributeRight(a: real, b: real, p: real)
    ensures (a + b) * p == a * p + b * p
  {
  }

  /**
   * A chain carrying the coefficients of the pairwise products of ts and us
   * evaluates, at every scalar, to the value of ts times the value of us.
   */
  lemma EvalProduct(rs: seq<Term>, ts: seq<Term>, us: seq<Term>, x: real)
    requires forall e :: CoeffAt(rs, e) == CoeffAt(Products(ts, us), e)
    ensures EvalTerms(rs, x) == EvalTerms(ts, x) * EvalTerms(us, x)
  {
    EvalSameCoefficients(rs, Products(ts, us), x);
    EvalProducts(ts, us, x);
  }

  /**
   * Multiplying by the constant polynomial 1 gives a chain with the same
   * coefficients, hence the same value at every scalar.
   */
  lemma {:induction false} MultiplicativeIdentity(rs: seq<Term>, us: seq<Term>, x: real)
    requires forall e :: CoeffAt(rs, e) == CoeffAt(Products([Term(0, 1.0)], us), e)
    ensures EvalTerms(rs, x) == EvalTerms(us, x)
  {
    var one := Term(0, 1.0);
    RowOfOne(us);
    assert Products([one], us) == Row(one, us) + Products([], us);
    assert Products([one], us) == us;
    EvalSameCoefficients(rs, us, x);
  }
}
