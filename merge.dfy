/**
 * The signed merge behind polynomial addition and subtraction: walking the
 * degrees from the larger operand degree down to 0 and term-appending, at
 * each degree i, the left coefficient plus k times the right one.
 */
module TermMerge {
  import opened Terms
  import opened TermAppend

  /** The coefficient the signed merge computes for degree e. */
  function MergedCoeff(ps: seq<Term>, qs: seq<Term>, k: real, e: int): real {
    CoeffAt(ps, e) + Times(CoeffAt(qs, e), k)
  }

  /**
   * The chain built so far once every degree above i has been appended: a
   * contiguous chain with a nonzero head (or empty) above i, holding the
   * merged coefficient above i and nothing at or below it.
   */
  ghost predicate MergedAbove(ns: seq<Term>, ps: seq<Term>, qs: seq<Term>, k: real, i: int) {
    Contiguous(ns) && Normalized(ns) && (ns == [] || Deg(ns) > i) &&
    forall e :: CoeffAt(ns, e) == if e > i then MergedCoeff(ps, qs, k, e) else 0.0
  }

  /** Before the first step, nothing is merged and nothing lies above the larger degree. */
  lemma MergeStart(ps: seq<Term>, qs: seq<Term>, k: real, top: int)
    requires StrictlyDecreasing(ps) && StrictlyDecreasing(qs)
    requires top >= Deg(ps) && top >= Deg(qs)
    ensures MergedAbove([], ps, qs, k, top)
  {
    forall e | e > top
      ensures MergedCoeff(ps, qs, k, e) == 0.0
    {
      CoeffAtAboveHead(ps, e);
      CoeffAtAboveHead(qs, e);
    }
  }

  /** One step of the merge: appending the merged coefficient of i moves the frontier to i - 1. */
  lemma MergeStep(ns: seq<Term>, ps: seq<Term>, qs: seq<Term>, k: real, i: nat)
    requires MergedAbove(ns, ps, qs, k, i)
    ensures Contiguous(ns)
    ensures MergedAbove(Appended(ns, i, MergedCoeff(ps, qs, k, i)), ps, qs, k, i - 1)
  {
    var v := MergedCoeff(ps, qs, k, i);
    var r := Appended(ns, i, v);
    AppendedShape(ns, i, v);
    AppendedNormalized(ns, i, v);
    forall e
      ensures CoeffAt(r, e) == if e > i - 1 then MergedCoeff(ps, qs, k, e) else 0.0
    {
      AppendedCoefficient(ns, i, v, e);
    }
    if ns != [] {
      ContiguousIsStrictlyDecreasing(ns);
      CoeffAtIndex(ns, 0);
      AppendedCoefficient(ns, i, v, Deg(ns));
      ContiguousIsStrictlyDecreasing(r);
      if r != [] {
        HeadCoefficient(r);
      }
    }
  }

  /**
   * When the walk has passed degree 0 the chain holds the merged
   * coefficient at every degree, negative degrees included.
   */
  lemma MergeDone(ns: seq<Term>, ps: seq<Term>, qs: seq<Term>, k: real)
    requires StrictlyDecreasing(ps) && StrictlyDecreasing(qs)
    requires MergedAbove(ns, ps, qs, k, -1)
    ensures forall e :: CoeffAt(ns, e) == MergedCoeff(ps, qs, k, e)
  {
    forall e | e < 0
      ensures MergedCoeff(ps, qs, k, e) == 0.0
    {
      CoeffAtAboveHead(ps, e);
      CoeffAtAboveHead(qs, e);
    }
  }

  /**
   * A contiguous chain with a nonzero head is fixed by its coefficients:
   * two such chains that agree at every degree are the same chain.
   */
  lemma {:induction false} CanonicalChains(rs: seq<Term>, ts: seq<Term>)
    requires Contiguous(rs) && Normalized(rs) && Contiguous(ts) && Normalized(ts)
    requires forall e :: CoeffAt(rs, e) == CoeffAt(ts, e)
    ensures rs == ts
  {
    ContiguousIsStrictlyDecreasing(rs);
    ContiguousIsStrictlyDecreasing(ts);
    if rs != [] {
      HeadCoefficient(rs);
      assert CoeffAt(ts, Deg(rs)) != 0.0;
    }
    if ts != [] {
      HeadCoefficient(ts);
      assert CoeffAt(rs, Deg(ts)) != 0.0;
    }
    if rs != [] && ts != [] {
      assert |rs| == |ts|;
      forall i | 0 <= i < |rs|
        ensures rs[i] == ts[i]
      {
        CoeffAtIndex(rs, i);
        CoeffAtIndex(ts, i);
      }
    }
  }

  /**
   * Addition commutes on the chains themselves, not only on coefficients:
   * contiguous chains with nonzero heads carrying the merges of (ps, qs) and
   * of (qs, ps) with k = 1 are the same chain.
   */
  lemma AddCommutes(rs: seq<Term>, ss: seq<Term>, ps: seq<Term>, qs: seq<Term>)
    requires Contiguous(rs) && Normalized(rs) && Contiguous(ss) && Normalized(ss)
    requires forall e :: CoeffAt(rs, e) == MergedCoeff(ps, qs, 1.0, e)
    requires forall e :: CoeffAt(ss, e) == MergedCoeff(qs, ps, 1.0, e)
    ensures rs == ss
  {
    CanonicalChains(rs, ss);
  }

  /** A contiguous chain with a nonzero head carrying the merge of ps with itself, k = -1, is empty. */
  lemma SubSelfIsEmpty(rs: seq<Term>, ps: seq<Term>)
    requires Contiguous(rs) && Normalized(rs)
    requires forall e :: CoeffAt(rs, e) == MergedCoeff(ps, ps, -1.0, e)
    ensures rs == []
  {
    CanonicalChains(rs, []);
  }
}
