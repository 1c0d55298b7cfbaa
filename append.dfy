/**
 * Term-append on the abstract chain: the value-level meaning of the
 * internal mutator `_appendTerm`, and what it preserves. The mutator itself,
 * working on nodes, is Polynomials.Polynomial.AppendTerm, whose contract
 * says that the chain it leaves is Appended(old chain, degree, value).
 */
module TermAppend {
  import opened Terms

  /** Zero-coefficient filler terms at degrees hi, hi - 1, ..., lo (none when hi < lo). */
  function Fillers(hi: int, lo: nat): (fs: seq<Term>)
    decreases hi - lo
    ensures |fs| == if hi < lo then 0 else hi - lo + 1
    ensures forall i :: 0 <= i < |fs| ==> fs[i].deg == hi - i && fs[i].coef == 0.0
  {
    if hi < lo then [] else Fillers(hi, lo + 1) + [Term(lo, 0.0)]
  }

  /**
   * The trimming loop after an in-place update: drop the head while its
   * coefficient is 0 and its degree is above 1.
   */
  function TrimZeroHeads(ts: seq<Term>): (r: seq<Term>)
    ensures |r| <= |ts|
    // the trimming stopped at a head that may not be dropped
    ensures r == [] || r[0].coef != 0.0 || r[0].deg <= 1
  {
    if ts != [] && ts[0].coef == 0.0 && ts[0].deg > 1 then TrimZeroHeads(ts[1..]) else ts
  }

  /** What the trimming leaves is a suffix of the chain. */
  lemma {:induction false} TrimIsSuffix(ts: seq<Term>)
    ensures TrimZeroHeads(ts) == ts[|ts| - |TrimZeroHeads(ts)|..]
  {
    var r := TrimZeroHeads(ts);
    if ts != [] && ts[0].coef == 0.0 && ts[0].deg > 1 {
      var tail := ts[1..];
      assert r == TrimZeroHeads(tail);
      TrimIsSuffix(tail);
      var m := |tail| - |r|;
      assert tail[m..] == ts[m + 1..];
    } else {
      assert r == ts;
      assert ts[0..] == ts;
    }
  }

  /** Only zero heads of degree above 1 are dropped by the trimming. */
  lemma {:induction false} TrimDropsZeros(ts: seq<Term>, i: int)
    requires 0 <= i < |ts| - |TrimZeroHeads(ts)|
    ensures ts[i].coef == 0.0 && ts[i].deg > 1
  {
    if i > 0 {
      TrimDropsZeros(ts[1..], i - 1);
    }
  }

  /**
   * The chain left by appending `value` at `degree` to a contiguous chain:
   * a negative degree changes nothing (the mutator raises before any
   * change); a degree up to the current one adds into that node in place and
   * then trims zero heads; a zero value above the current degree changes
   * nothing; a nonzero value above it becomes the new head, with zero
   * fillers down to the old degree + 1 and the old chain linked below.
   */
  function Appended(ts: seq<Term>, degree: int, value: real): seq<Term>
    requires Contiguous(ts)
  {
    if degree < 0 then ts
    else if degree <= Deg(ts) then
      var k := |ts| - 1 - degree;
      TrimZeroHeads(ts[k := Term(degree, ts[k].coef + value)])
    else if value == 0.0 then ts
    else Extended(ts, degree, value)
  }

  /** The terms of degrees degree, degree - 1, ..., low: value at the top, 0 below. */
  function Run(degree: int, value: real, low: nat): seq<Term>
    requires low <= degree
  {
    [Term(degree, value)] + Fillers(degree - 1, low)
  }

  /** The extension branch's chain: the new head, zero fillers down to deg(ts) + 1, then ts. */
  function Extended(ts: seq<Term>, degree: int, value: real): seq<Term>
    requires degree > Deg(ts)
  {
    Run(degree, value, Deg(ts) + 1) + ts
  }

  /**
   * The extended chain term by term: degree - deg(ts) new terms, the first
   * holding value and the others 0, at degrees degree, degree - 1, ...,
   * followed by the old chain.
   */
  lemma ExtendedAt(ts: seq<Term>, degree: int, value: real, j: int)
    requires degree > Deg(ts)
    ensures |Extended(ts, degree, value)| == degree - Deg(ts) + |ts|
    ensures 0 <= j < |Extended(ts, degree, value)| ==>
              Extended(ts, degree, value)[j]
              == if j == 0 then Term(degree, value)
                 else if j < degree - Deg(ts) then Term(degree - j, 0.0)
                 else ts[j - (degree - Deg(ts))]
  {
    var fs := Fillers(degree - 1, Deg(ts) + 1);
    var r := [Term(degree, value)] + fs + ts;
    if 0 < j < degree - Deg(ts) {
      assert r[j] == fs[j - 1];
    } else if degree - Deg(ts) <= j < |r| {
      assert r[j] == ts[j - (degree - Deg(ts))];
    }
  }

  /** Replacing one coefficient changes the coefficient of that term's degree only. */
  lemma {:induction false} CoeffAtUpdate(ts: seq<Term>, k: nat, c: real, e: int)
    requires k < |ts|
    ensures CoeffAt(ts[k := Term(ts[k].deg, c)], e)
         == CoeffAt(ts, e) + (if e == ts[k].deg then c - ts[k].coef else 0.0)
  {
    var us := ts[k := Term(ts[k].deg, c)];
    if k > 0 {
      assert us[1..] == ts[1..][k - 1 := Term(ts[k].deg, c)];
      CoeffAtUpdate(ts[1..], k - 1, c, e);
    } else {
      assert us[1..] == ts[1..];
    }
  }

  /** Trimming drops only zero terms, so no coefficient changes. */
  lemma {:induction false} TrimKeepsCoefficients(ts: seq<Term>, e: int)
    ensures CoeffAt(TrimZeroHeads(ts), e) == CoeffAt(ts, e)
  {
    if ts != [] && ts[0].coef == 0.0 && ts[0].deg > 1 {
      TrimKeepsCoefficients(ts[1..], e);
    }
  }

  /** Zero-coefficient terms contribute nothing to any coefficient. */
  lemma {:induction false} CoeffAtZeros(fs: seq<Term>, e: int)
    requires forall i :: 0 <= i < |fs| ==> fs[i].coef == 0.0
    ensures CoeffAt(fs, e) == 0.0
  {
    if fs != [] {
      CoeffAtZeros(fs[1..], e);
    }
  }

  /** The in-place branch of term-append, unfolded. */
  lemma InPlaceUnfold(ts: seq<Term>, degree: int, value: real)
    requires Contiguous(ts)
    requires 0 <= degree <= Deg(ts)
    ensures |ts| - 1 - degree < |ts| && ts[|ts| - 1 - degree].deg == degree
    ensures Appended(ts, degree, value)
         == TrimZeroHeads(ts[|ts| - 1 - degree := Term(degree, ts[|ts| - 1 - degree].coef + value)])
  {
  }

  /** An in-place update followed by the trimming changes one coefficient only. */
  lemma UpdateThenTrim(ts: seq<Term>, k: nat, c: real, e: int)
    requires k < |ts|
    ensures CoeffAt(TrimZeroHeads(ts[k := Term(ts[k].deg, c)]), e)
         == CoeffAt(ts, e) + (if e == ts[k].deg then c - ts[k].coef else 0.0)
  {
    CoeffAtUpdate(ts, k, c, e);
    TrimKeepsCoefficients(ts[k := Term(ts[k].deg, c)], e);
  }

  /** The in-place branch: only the coefficient of `degree` changes. */
  lemma InPlaceCoefficient(ts: seq<Term>, degree: int, value: real, e: int)
    requires Contiguous(ts)
    requires 0 <= degree <= Deg(ts)
    ensures CoeffAt(Appended(ts, degree, value), e)
         == CoeffAt(ts, e) + (if e == degree then value else 0.0)
  {
    InPlaceUnfold(ts, degree, value);
    var k := |ts| - 1 - degree;
    UpdateThenTrim(ts, k, ts[k].coef + value, e);
  }

  /** The extension branch: the new head carries `value`, the fillers carry nothing. */
  lemma ExtensionCoefficient(ts: seq<Term>, degree: int, value: real, e: int)
    requires Contiguous(ts)
    requires degree > Deg(ts) && value != 0.0
    ensures CoeffAt(Appended(ts, degree, value), e)
         == CoeffAt(ts, e) + (if e == degree then value else 0.0)
  {
    var fs := Fillers(degree - 1, Deg(ts) + 1);
    assert Appended(ts, degree, value) == Extended(ts, degree, value) == [Term(degree, value)] + fs + ts;
    CoeffAtConcat([Term(degree, value)] + fs, ts, e);
    CoeffAtConcat([Term(degree, value)], fs, e);
    CoeffAtZeros(fs, e);
    assert CoeffAt([Term(degree, value)], e) == if e == degree then value else 0.0;
  }

  /**
   * Term-append adds `value` to the coefficient of `degree` and leaves every
   * other coefficient as it was, whichever branch it takes.
   */
  lemma AppendedCoefficient(ts: seq<Term>, degree: int, value: real, e: int)
    requires Contiguous(ts)
    requires degree >= 0
    ensures CoeffAt(Appended(ts, degree, value), e)
         == CoeffAt(ts, e) + (if e == degree then value else 0.0)
  {
    if degree <= Deg(ts) {
      InPlaceCoefficient(ts, degree, value, e);
    } else if value != 0.0 {
      ExtensionCoefficient(ts, degree, value, e);
    }
  }

  /** A suffix of a contiguous chain is contiguous. */
  lemma ContiguousSuffix(ts: seq<Term>, j: nat)
    requires Contiguous(ts)
    requires j <= |ts|
    ensures Contiguous(ts[j..])
  {
  }

  /** The extension branch keeps contiguity and puts the new term at the head. */
  lemma ExtensionShape(ts: seq<Term>, degree: int, value: real)
    requires Contiguous(ts)
    requires degree > Deg(ts)
    ensures Contiguous(Extended(ts, degree, value))
    ensures Extended(ts, degree, value)[0] == Term(degree, value)
  {
    var r := Extended(ts, degree, value);
    ContiguousIsStrictlyDecreasing(ts);
    forall i | 0 <= i < |r|
      ensures r[i].deg == |r| - 1 - i
    {
      ExtendedAt(ts, degree, value, i);
    }
    ExtendedAt(ts, degree, value, 0);
  }

  /** The in-place branch keeps contiguity and does not raise the degree. */
  lemma InPlaceShape(ts: seq<Term>, degree: int, value: real)
    requires Contiguous(ts)
    requires 0 <= degree <= Deg(ts)
    ensures Contiguous(Appended(ts, degree, value))
    ensures Deg(Appended(ts, degree, value)) <= Deg(ts)
  {
    InPlaceUnfold(ts, degree, value);
    var k := |ts| - 1 - degree;
    var us := ts[k := Term(degree, ts[k].coef + value)];
    assert Contiguous(us);
    var r := TrimZeroHeads(us);
    TrimIsSuffix(us);
    ContiguousSuffix(us, |us| - |r|);
  }

  /**
   * Term-append keeps a chain contiguous down to 0, and the reported degree
   * never rises above the larger of the old degree and the appended one; a
   * nonzero value above the old degree becomes the new head.
   */
  lemma AppendedShape(ts: seq<Term>, degree: int, value: real)
    requires Contiguous(ts)
    ensures Contiguous(Appended(ts, degree, value))
    ensures Deg(Appended(ts, degree, value)) <= if degree > Deg(ts) then degree else Deg(ts)
    ensures degree > Deg(ts) && value != 0.0 ==>
              Appended(ts, degree, value)[0] == Term(degree, value)
  {
    if 0 <= degree <= Deg(ts) {
      InPlaceShape(ts, degree, value);
    } else if degree > Deg(ts) && value != 0.0 {
      assert Appended(ts, degree, value) == Extended(ts, degree, value);
      ExtensionShape(ts, degree, value);
    }
  }

  /**
   * Appending below the head of a chain whose head coefficient is nonzero
   * (or to an empty chain) leaves a chain whose head coefficient is nonzero
   * (or an empty chain): the shape the signed merge builds.
   */
  lemma AppendedNormalized(ts: seq<Term>, degree: int, value: real)
    requires Contiguous(ts) && Normalized(ts)
    requires 0 <= degree && (ts == [] || degree < Deg(ts))
    ensures Normalized(Appended(ts, degree, value))
  {
    if ts != [] {
      var k := |ts| - 1 - degree;
      var us := ts[k := Term(degree, ts[k].coef + value)];
      assert us[0] == ts[0];
    }
  }

  /**
   * The trimming stops at degree 1: cancelling the head of 2x + 3 leaves a
   * zero head of degree 1, so the reported degree stays 1.
   */
  lemma TrimStopsAtDegreeOne()
    ensures Appended([Term(1, 2.0), Term(0, 3.0)], 1, -2.0) == [Term(1, 0.0), Term(0, 3.0)]
    ensures Deg(Appended([Term(1, 2.0), Term(0, 3.0)], 1, -2.0)) == 1
  {
  }
}
