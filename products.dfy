/**
 * The pairwise products that polynomial multiplication feeds into
 * term-append, in the order its nested walks visit them: for each term of
 * the left chain, head to end, each term of the right chain, head to end.
 */
module TermProducts {
  import opened Terms

  /** The products of one term with every term of a chain, in chain order. */
  function Row(t: Term, us: seq<Term>): (r: seq<Term>)
    ensures |r| == |us|
  {
    if us == [] then [] else [Term(t.deg + us[0].deg, Times(t.coef, us[0].coef))] + Row(t, us[1..])
  }

  /** The j-th product of a row has the degree of t times the j-th term. */
  lemma {:induction false} RowDegree(t: Term, us: seq<Term>, j: nat)
    requires j < |us|
    ensures Row(t, us)[j].deg == t.deg + us[j].deg
  {
    RowUncons(t, us);
    if j > 0 {
      RowDegree(t, us[1..], j - 1);
    }
  }

  lemma RowUncons(t: Term, us: seq<Term>)
    requires us != []
    ensures Row(t, us) == [Term(t.deg + us[0].deg, Times(t.coef, us[0].coef))] + Row(t, us[1..])
  {
  }

  /** Every pairwise product, the outer walk over ts and the inner walk over us. */
  function Products(ts: seq<Term>, us: seq<Term>): seq<Term> {
    if ts == [] then [] else Row(ts[0], us) + Products(ts[1..], us)
  }

  /** A degree that no pair of terms adds up to has product coefficient 0. */
  lemma {:induction false} ProductsAbsent(ts: seq<Term>, us: seq<Term>, e: int)
    requires forall i, j :: 0 <= i < |ts| && 0 <= j < |us| ==> ts[i].deg + us[j].deg != e
    ensures CoeffAt(Products(ts, us), e) == 0.0
  {
    if ts != [] {
      CoeffAtConcat(Row(ts[0], us), Products(ts[1..], us), e);
      forall j | 0 <= j < |us|
        ensures Row(ts[0], us)[j].deg != e
      {
        RowDegree(ts[0], us, j);
      }
      CoeffAtAbsent(Row(ts[0], us), e);
      ProductsAbsent(ts[1..], us, e);
    }
  }

  lemma ProductsUncons(ts: seq<Term>, us: seq<Term>)
    requires ts != []
    ensures Products(ts, us) == Row(ts[0], us) + Products(ts[1..], us)
  {
  }

  /** Of the products of t with a strictly decreasing chain, only the first reaches t.deg + deg(us). */
  lemma TopOfRow(t: Term, us: seq<Term>)
    requires StrictlyDecreasing(us) && us != []
    ensures CoeffAt(Row(t, us), t.deg + us[0].deg) == Times(t.coef, us[0].coef)
  {
    var top := t.deg + us[0].deg;
    RowUncons(t, us);
    CoeffAtConcat([Term(top, Times(t.coef, us[0].coef))], Row(t, us[1..]), top);
    forall j | 0 <= j < |us| - 1
      ensures Row(t, us[1..])[j].deg != top
    {
      RowDegree(t, us[1..], j);
    }
    CoeffAtAbsent(Row(t, us[1..]), top);
  }

  /** No product of a lower left term reaches deg(ts) + deg(us). */
  lemma TopOfRest(ts: seq<Term>, us: seq<Term>)
    requires StrictlyDecreasing(ts) && StrictlyDecreasing(us)
    requires ts != [] && us != []
    ensures CoeffAt(Products(ts[1..], us), Deg(ts) + Deg(us)) == 0.0
  {
    ProductsAbsent(ts[1..], us, Deg(ts) + Deg(us));
  }

  /**
   * On strictly decreasing chains, the top degree deg(ts) + deg(us) is reached
   * by the two heads only, so its product coefficient is the heads' product.
   */
  lemma TopProduct(ts: seq<Term>, us: seq<Term>)
    requires StrictlyDecreasing(ts) && StrictlyDecreasing(us)
    requires ts != [] && us != []
    ensures CoeffAt(Products(ts, us), Deg(ts) + Deg(us)) == Times(ts[0].coef, us[0].coef)
  {
    var top := ts[0].deg + us[0].deg;
    var row, rest := Row(ts[0], us), Products(ts[1..], us);
    ProductsUncons(ts, us);
    CoeffAtConcat(row, rest, top);
    TopOfRow(ts[0], us);
    TopOfRest(ts, us);
  }

  /** A row whose factor is 0, or whose chain has only zero coefficients, has all coefficients 0. */
  lemma {:induction false} RowZero(t: Term, us: seq<Term>, e: int)
    requires t.coef == 0.0 || forall j :: 0 <= j < |us| ==> us[j].coef == 0.0
    ensures CoeffAt(Row(t, us), e) == 0.0
  {
    if us != [] {
      RowUncons(t, us);
      CoeffAtConcat([Term(t.deg + us[0].deg, Times(t.coef, us[0].coef))], Row(t, us[1..]), e);
      RowZero(t, us[1..], e);
    }
  }

  /** When either chain has only zero coefficients, every product coefficient is 0. */
  lemma {:induction false} ProductsZero(ts: seq<Term>, us: seq<Term>, e: int)
    requires (forall i :: 0 <= i < |ts| ==> ts[i].coef == 0.0) || (forall j :: 0 <= j < |us| ==> us[j].coef == 0.0)
    ensures CoeffAt(Products(ts, us), e) == 0.0
  {
    if ts != [] {
      CoeffAtConcat(Row(ts[0], us), Products(ts[1..], us), e);
      RowZero(ts[0], us, e);
      ProductsZero(ts[1..], us, e);
    }
  }

  /** The products of the constant term 1 with a chain are that chain. */
  lemma {:induction false} RowOfOne(us: seq<Term>)
    ensures Row(Term(0, 1.0), us) == us
  {
    if us != [] {
      RowUncons(Term(0, 1.0), us);
      RowOfOne(us[1..]);
      assert us == [us[0]] + us[1..];
    }
  }

  /** Multiplying by an empty chain yields no products. */
  lemma {:induction false} ProductsOfEmpty(ts: seq<Term>)
    ensures Products(ts, []) == [] && Products([], ts) == []
  {
    if ts != [] {
      ProductsOfEmpty(ts[1..]);
    }
  }
}
