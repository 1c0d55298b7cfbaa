/**
 * Polynomial multiplication as the nested walk sees it: the product
 * polynomial starts empty and term-appends each nonzero pairwise product in
 * the order of Products, so at every step the coefficients collected so far
 * plus those of the products still to come are those of all the products.
 */
module TermMultiply {
  import opened Terms
  import opened TermAppend
  import opened TermProducts

  /**
   * The products still to come when the outer walk is at term i of ts and
   * the inner walk at term j of us.
   */
  function Pending(ts: seq<Term>, us: seq<Term>, i: nat, j: nat): seq<Term>
    requires i < |ts| && j <= |us|
  {
    Row(ts[i], us[j..]) + Products(ts[i + 1..], us)
  }

  /**
   * The product chain collected so far: contiguous (every degree from its
   * head down to 0), never above the top degree deg(ts) + deg(us), and
   * together with the pending products it carries every product's
   * coefficient.
   */
  ghost predicate Collected(ans: seq<Term>, pending: seq<Term>, ts: seq<Term>, us: seq<Term>) {
    Contiguous(ans) && (ans == [] || Deg(ans) <= Deg(ts) + Deg(us)) &&
    forall e :: CoeffAt(ans, e) + CoeffAt(pending, e) == CoeffAt(Products(ts, us), e)
  }

  /** Nothing is collected before the walk starts. */
  lemma CollectStart(ts: seq<Term>, us: seq<Term>)
    ensures Collected([], Products(ts, us), ts, us)
  {
  }

  /** The inner walk starting on term i of ts has every product from ts[i] on pending. */
  lemma RowStart(ts: seq<Term>, us: seq<Term>, i: nat)
    requires i < |ts|
    ensures Pending(ts, us, i, 0) == Products(ts[i..], us)
  {
    ProductsUncons(ts[i..], us);
    assert ts[i..][1..] == ts[i + 1..];
    assert us[0..] == us;
  }

  /** The inner walk at the end of us has the products of the lower terms of ts pending. */
  lemma RowEnd(ts: seq<Term>, us: seq<Term>, i: nat)
    requires i < |ts|
    ensures Pending(ts, us, i, |us|) == Products(ts[i + 1..], us)
  {
    assert us[|us|..] == [];
  }

  /**
   * One step of the inner walk: the product of ts[i] and us[j] leaves the
   * pending list, and term-appending it (or skipping it when it is 0) keeps
   * the collection.
   */
  lemma CollectStep(ans: seq<Term>, ts: seq<Term>, us: seq<Term>, i: nat, j: nat)
    requires StrictlyDecreasing(ts) && StrictlyDecreasing(us)
    requires i < |ts| && j < |us|
    requires Collected(ans, Pending(ts, us, i, j), ts, us)
    ensures Contiguous(ans)
    ensures Times(ts[i].coef, us[j].coef) == 0.0 ==> Collected(ans, Pending(ts, us, i, j + 1), ts, us)
    ensures Collected(Appended(ans, ts[i].deg + us[j].deg, Times(ts[i].coef, us[j].coef)),
                      Pending(ts, us, i, j + 1), ts, us)
  {
    var d, c := ts[i].deg + us[j].deg, Times(ts[i].coef, us[j].coef);
    var before, after := Pending(ts, us, i, j), Pending(ts, us, i, j + 1);
    var rest := Products(ts[i + 1..], us);
    RowUncons(ts[i], us[j..]);
    assert us[j..][1..] == us[j + 1..];
    forall e
      ensures CoeffAt(before, e) == (if e == d then c else 0.0) + CoeffAt(after, e)
    {
      CoeffAtConcat(Row(ts[i], us[j..]), rest, e);
      CoeffAtConcat(Row(ts[i], us[j + 1..]), rest, e);
    }
    var r := Appended(ans, d, c);
    AppendedShape(ans, d, c);
    forall e
      ensures CoeffAt(r, e) + CoeffAt(after, e) == CoeffAt(Products(ts, us), e)
    {
      AppendedCoefficient(ans, d, c, e);
    }
  }

  /** The pair (a, b) of term indexes comes before the pair (i, j) in the walk. */
  ghost predicate Before(a: int, b: int, i: int, j: int) {
    a < i || (a == i && b < j)
  }

  /**
   * The head of the collected chain when the walk is at (i, j): while the
   * chain is empty every product visited was 0; once it is not, its head is
   * nonzero and every nonzero product still to come lies below it.
   */
  ghost predicate Leading(ans: seq<Term>, ts: seq<Term>, us: seq<Term>, i: nat, j: nat) {
    Normalized(ans) &&
    (ans == [] ==>
       forall a, b {:trigger Before(a, b, i, j)} :: 0 <= a < |ts| && 0 <= b < |us| && Before(a, b, i, j) ==>
         Times(ts[a].coef, us[b].coef) == 0.0) &&
    (ans != [] ==>
       forall a, b {:trigger Before(a, b, i, j)} :: 0 <= a < |ts| && 0 <= b < |us| && !Before(a, b, i, j) && Times(ts[a].coef, us[b].coef) != 0.0 ==>
         ts[a].deg + us[b].deg < Deg(ans))
  }

  lemma LeadStart(ts: seq<Term>, us: seq<Term>)
    ensures Leading([], ts, us, 0, 0)
  {
  }

  /**
   * The first nonzero product becomes the head, and no later nonzero product
   * reaches it: a later term of us meets a lower degree, and a later term of
   * ts meets either a lower degree or a term of us that ts[i] already
   * multiplied to 0, which is a zero term.
   */
  lemma LeadStep(ans: seq<Term>, ts: seq<Term>, us: seq<Term>, i: nat, j: nat)
    requires StrictlyDecreasing(ts) && StrictlyDecreasing(us)
    requires i < |ts| && j < |us|
    requires Contiguous(ans) && Leading(ans, ts, us, i, j)
    ensures Times(ts[i].coef, us[j].coef) == 0.0 ==> Leading(ans, ts, us, i, j + 1)
    ensures Times(ts[i].coef, us[j].coef) != 0.0 ==>
              Leading(Appended(ans, ts[i].deg + us[j].deg, Times(ts[i].coef, us[j].coef)), ts, us, i, j + 1)
  {
    var d, c := ts[i].deg + us[j].deg, Times(ts[i].coef, us[j].coef);
    var r := if c == 0.0 then ans else Appended(ans, d, c);
    if c != 0.0 && ans == [] {
      AppendedShape(ans, d, c);
      assert r[0] == Term(d, c);
    } else if c != 0.0 {
      assert !Before(i, j, i, j);
      var k := |ans| - 1 - d;
      InPlaceUnfold(ans, d, c);
      var s := ans[k := Term(d, ans[k].coef + c)];
      assert s[0] == ans[0];
      assert r == s;
    }
    if r == [] {
      forall a, b | 0 <= a < |ts| && 0 <= b < |us| && Before(a, b, i, j + 1)
        ensures Times(ts[a].coef, us[b].coef) == 0.0
      {
        assert Before(a, b, i, j) || (a == i && b == j);
      }
    } else {
      forall a, b | 0 <= a < |ts| && 0 <= b < |us| && !Before(a, b, i, j + 1) && Times(ts[a].coef, us[b].coef) != 0.0
        ensures ts[a].deg + us[b].deg < Deg(r)
      {
        assert !Before(a, b, i, j);
        if ans == [] && a > i && b < j {
          assert Before(i, b, i, j);
          if us[b].coef != 0.0 {
            TimesNonzero(ts[i].coef, us[b].coef);
          }
        }
      }
    }
  }

  /** Finishing a row and starting the next are the same point of the walk. */
  lemma LeadRow(ans: seq<Term>, ts: seq<Term>, us: seq<Term>, i: nat)
    requires Leading(ans, ts, us, i, |us|)
    ensures Leading(ans, ts, us, i + 1, 0)
  {
    if ans == [] {
      forall a, b | 0 <= a < |ts| && 0 <= b < |us| && Before(a, b, i + 1, 0)
        ensures Times(ts[a].coef, us[b].coef) == 0.0
      {
        assert Before(a, b, i, |us|);
      }
    } else {
      forall a, b | 0 <= a < |ts| && 0 <= b < |us| && !Before(a, b, i + 1, 0) && Times(ts[a].coef, us[b].coef) != 0.0
        ensures ts[a].deg + us[b].deg < Deg(ans)
      {
        assert !Before(a, b, i, |us|);
      }
    }
  }

  /** The collection after the rows of ts[..i]: coefficients collected and head leading. */
  ghost predicate Walked(ans: seq<Term>, ts: seq<Term>, us: seq<Term>, i: nat)
    requires i <= |ts|
  {
    Collected(ans, Products(ts[i..], us), ts, us) && Leading(ans, ts, us, i, 0)
  }

  /**
   * A normalized product chain with the coefficients of the products of a
   * chain whose coefficients are all 0 is empty.
   */
  lemma ZeroFactor(ans: seq<Term>, ts: seq<Term>, us: seq<Term>)
    requires Contiguous(ans) && Normalized(ans)
    requires forall e :: CoeffAt(ans, e) == CoeffAt(Products(ts, us), e)
    requires (forall i :: 0 <= i < |ts| ==> ts[i].coef == 0.0) || (forall j :: 0 <= j < |us| ==> us[j].coef == 0.0)
    ensures ans == []
  {
    if ans != [] {
      var top := Deg(ans);
      ProductsZero(ts, us, top);
      ContiguousIsStrictlyDecreasing(ans);
      HeadCoefficient(ans);
    }
  }

  /**
   * When the walk is over, the collected chain carries the coefficients of
   * the product; with nonzero heads on both operands its degree is the sum
   * of their degrees.
   */
  lemma CollectDone(ans: seq<Term>, ts: seq<Term>, us: seq<Term>)
    requires StrictlyDecreasing(ts) && StrictlyDecreasing(us)
    requires Collected(ans, [], ts, us)
    ensures forall e :: CoeffAt(ans, e) == CoeffAt(Products(ts, us), e)
    ensures ts != [] && us != [] && ts[0].coef != 0.0 && us[0].coef != 0.0 ==>
              Deg(ans) == Deg(ts) + Deg(us)
  {
    if ts != [] && us != [] && ts[0].coef != 0.0 && us[0].coef != 0.0 {
      var top := Deg(ts) + Deg(us);
      TopProduct(ts, us);
      TimesNonzero(ts[0].coef, us[0].coef);
      assert CoeffAt(ans, top) != 0.0;
      ContiguousIsStrictlyDecreasing(ans);
      HeadCoefficient(ans);
    }
  }

  /**
   * The finished walk: the collected chain is the product chain, normalized,
   * with the coefficients of all the products; it is empty when either
   * operand is empty or has only zero coefficients.
   */
  lemma WalkDone(ans: seq<Term>, ts: seq<Term>, us: seq<Term>)
    requires StrictlyDecreasing(ts) && StrictlyDecreasing(us)
    requires Walked(ans, ts, us, |ts|)
    ensures Contiguous(ans) && Normalized(ans)
    ensures forall e :: CoeffAt(ans, e) == CoeffAt(Products(ts, us), e)
    ensures ((forall i :: 0 <= i < |ts| ==> ts[i].coef == 0.0) || (forall j :: 0 <= j < |us| ==> us[j].coef == 0.0)) ==>
              ans == []
    ensures ans == [] || Deg(ans) <= Deg(ts) + Deg(us)
    ensures ts != [] && us != [] && ts[0].coef != 0.0 && us[0].coef != 0.0 ==>
              Deg(ans) == Deg(ts) + Deg(us)
  {
    assert ts[|ts|..] == [];
    CollectDone(ans, ts, us);
    if (forall i :: 0 <= i < |ts| ==> ts[i].coef == 0.0) || (forall j :: 0 <= j < |us| ==> us[j].coef == 0.0) {
      ZeroFactor(ans, ts, us);
    }
  }
}
