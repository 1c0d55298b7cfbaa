/**
 * The polynomial ADT as a sorted singly linked chain of term nodes, the
 * head holding the highest degree. Each Polynomial keeps, as ghost state,
 * the node objects of its chain in walking order (Nodes), the terms they
 * hold (Terms) and the objects it owns (Repr); Valid() ties them to the
 * real head pointer and node fields.
 */
module Polynomials {
  import opened Terms
  import opened TermAppend
  import opened TermProducts
  import opened Evaluation
  import opened TermMerge
  import opened TermMultiply

  /** The two ways an operation of the ADT refuses its input. */
  datatype Error =
    | EmptyPolynomial   // the assertion guarding lookup and evaluation
    | NegativeDegree    // the ValueError raised by term-append

  /** The outcome of an operation that returns a value or fails. */
  datatype Result<T> = Success(value: T) | Failure(error: Error)

  /** The outcome of an operation that returns nothing or fails. */
  datatype Outcome = Pass | Fail(error: Error)

  /**
   * The nodes hold the terms in order, and each node but the last links to
   * the one after it.
   */
  ghost predicate Holds(nodes: seq<TermNode>, ts: seq<Term>)
    reads nodes
  {
    |nodes| == |ts| &&
    (forall i :: 0 <= i < |nodes| ==>
       nodes[i].degree == ts[i].deg && nodes[i].coefficient == ts[i].coef) &&
    (forall i :: 0 <= i < |nodes| - 1 ==> nodes[i].next == nodes[i + 1])
  }

  /** Two held chains, the first linked to the second, hold the concatenated terms. */
  lemma HoldsConcat(a: seq<TermNode>, ta: seq<Term>, b: seq<TermNode>, tb: seq<Term>)
    requires Holds(a, ta) && Holds(b, tb)
    requires a != [] && b != [] ==> a[|a| - 1].next == b[0]
    ensures Holds(a + b, ta + tb)
  {
    var ab, tab := a + b, ta + tb;
    forall i | 0 <= i < |ab|
      ensures ab[i].degree == tab[i].deg && ab[i].coefficient == tab[i].coef
    {
      if i >= |a| {
        assert ab[i] == b[i - |a|] && tab[i] == tb[i - |a|];
      }
    }
    forall i | 0 <= i < |ab| - 1
      ensures ab[i].next == ab[i + 1]
    {
      if i >= |a| {
        assert ab[i] == b[i - |a|] && ab[i + 1] == b[i + 1 - |a|];
      }
    }
  }

  /** Dropping the first node of a held chain leaves a held chain. */
  lemma HoldsDrop(nodes: seq<TermNode>, ts: seq<Term>)
    requires Holds(nodes, ts) && nodes != []
    ensures Holds(nodes[1..], ts[1..])
  {
  }

  /**
   * Nodes of degrees degree, degree - 1, ..., low, the first holding value
   * and the others 0, each linked to the next, hold that run of terms.
   */
  lemma RunHeld(chain: seq<TermNode>, degree: int, value: real, low: nat)
    requires low <= degree && |chain| == degree - low + 1
    requires forall j :: 0 <= j < |chain| ==>
               chain[j].degree == degree - j && chain[j].coefficient == (if j == 0 then value else 0.0)
    requires forall j :: 0 <= j < |chain| - 1 ==> chain[j].next == chain[j + 1]
    ensures Holds(chain, Run(degree, value, low))
  {
    var fs := Fillers(degree - 1, low);
    var r := Run(degree, value, low);
    assert r == [Term(degree, value)] + fs;
    forall j | 0 <= j < |chain|
      ensures chain[j].degree == r[j].deg && chain[j].coefficient == r[j].coef
    {
      if j > 0 {
        assert r[j] == fs[j - 1];
      }
    }
  }

  /** One node of the chain: a degree, its coefficient and the next lower node. */
  class TermNode {
    var degree: int
    var coefficient: real
    var next: TermNode?

    constructor (degree: int, coefficient: real)
      ensures this.degree == degree && this.coefficient == coefficient && next == null
    {
      this.degree := degree;
      this.coefficient := coefficient;
      next := null;
    }
  }

  class Polynomial {
    var head: TermNode?
    ghost var Nodes: seq<TermNode>
    ghost var Terms: seq<Term>
    ghost var Repr: set<object>

    /**
     * The chain from head follows Nodes, ends in null, holds Terms, and its
     * degrees strictly decrease from the head.
     */
    ghost predicate Valid()
      reads this, Repr
    {
      this in Repr &&
      (forall i :: 0 <= i < |Nodes| ==> Nodes[i] in Repr) &&
      head == (if Nodes == [] then null else Nodes[0]) &&
      Holds(Nodes, Terms) &&
      (Nodes != [] ==> Nodes[|Nodes| - 1].next == null) &&
      StrictlyDecreasing(Terms)
    }

    /** Distinct degrees make distinct nodes: the chain never visits a node twice. */
    lemma NodesDistinct()
      requires Valid()
      ensures forall i, j :: 0 <= i < j < |Nodes| ==> Nodes[i] != Nodes[j]
    {
    }

    /** The polynomial with no terms (the constructor called without a degree). */
    constructor Empty()
      ensures Valid() && fresh(Repr) && Terms == []
    {
      head := null;
      Nodes, Terms := [], [];
      Repr := {this};
    }

    /** The single term coefficient * x^degree (the constructor called with a degree). */
    constructor Single(degree: nat, coefficient: real)
      ensures Valid() && fresh(Repr) && Terms == [Term(degree, coefficient)]
    {
      var node := new TermNode(degree, coefficient);
      head := node;
      Nodes, Terms := [node], [Term(degree, coefficient)];
      Repr := {this, node};
    }

    /**
     * The degree: -1 for the empty polynomial, otherwise the head's degree,
     * which no term of the chain exceeds.
     */
    function Degree(): (d: int)
      reads this, Repr
      requires Valid()
      ensures d == -1 <==> Terms == []
      ensures Terms != [] ==> d == Terms[0].deg
      ensures forall i :: 0 <= i < |Terms| ==> Terms[i].deg <= d
    {
      if head == null then -1 else head.degree
    }

    /**
     * Lookup of the coefficient of a degree: refused on the empty
     * polynomial, otherwise the coefficient of the term of that degree, 0
     * when the chain holds no such term (CoeffAtSpec).
     */
    method Coefficient(d: int) returns (r: Result<real>)
      requires Valid()
      ensures Terms == [] ==> r == Failure(EmptyPolynomial)
      ensures Terms != [] ==> r == Success(CoeffAt(Terms, d))
    {
      if Degree() < 0 {
        return Failure(EmptyPolynomial);
      }
      var cur := head;
      ghost var i := 0;
      while cur != null && cur.degree > d
        invariant 0 <= i <= |Nodes|
        invariant cur == if i < |Nodes| then Nodes[i] else null
        invariant Valid()
        invariant CoeffAt(Terms[i..], d) == CoeffAt(Terms, d)
        decreases |Nodes| - i
      {
        assert Terms[i..][1..] == Terms[i + 1..];
        cur := cur.next;
        i := i + 1;
      }
      if i < |Terms| {
        assert StrictlyDecreasing(Terms[i..]);
      }
      if cur == null || cur.degree != d {
        if i < |Terms| {
          CoeffAtAboveHead(Terms[i..], d);
        }
        return Success(0.0);
      }
      CoeffAtIndex(Terms[i..], 0);
      return Success(cur.coefficient);
    }

    /**
     * Evaluation at a scalar: refused on the empty polynomial, otherwise
     * the sum of coefficient * scalar^degree over the chain.
     */
    method Evaluate(x: real) returns (r: Result<real>)
      requires Valid()
      ensures Terms == [] ==> r == Failure(EmptyPolynomial)
      ensures Terms != [] ==> r == Success(EvalTerms(Terms, x))
    {
      if Degree() < 0 {
        return Failure(EmptyPolynomial);
      }
      var result := 0.0;
      var cur := head;
      ghost var i := 0;
      while cur != null
        invariant 0 <= i <= |Nodes|
        invariant cur == if i < |Nodes| then Nodes[i] else null
        invariant Valid()
        invariant result + EvalTerms(Terms[i..], x) == EvalTerms(Terms, x)
        decreases |Nodes| - i
      {
        assert Terms[i..][1..] == Terms[i + 1..];
        var term := cur.coefficient * Pow(x, cur.degree);
        result := result + term;
        cur := cur.next;
        i := i + 1;
      }
      return Success(result);
    }

    /**
     * The signed merge: for every degree from the larger operand degree
     * down to 0, term-append this polynomial's coefficient plus k times the
     * right operand's. Refused when exactly one operand is empty (the lookup
     * of the empty one fails); otherwise a new contiguous polynomial with a
     * nonzero head (or none) whose coefficient of every degree e is this
     * one's plus k times the right operand's. Neither operand changes.
     */
    method SimpleAdd(rhs: Polynomial, k: real) returns (r: Result<Polynomial>)
      requires Valid() && rhs.Valid()
      ensures r.Success? <==> ((Terms == []) == (rhs.Terms == []))
      ensures r.Failure? ==> r.error == EmptyPolynomial
      ensures r.Success? ==>
                fresh(r.value.Repr) && r.value.Valid() &&
                Contiguous(r.value.Terms) && Normalized(r.value.Terms) &&
                forall e :: CoeffAt(r.value.Terms, e) == MergedCoeff(Terms, rhs.Terms, k, e)
    {
      ghost var ps, qs := Terms, rhs.Terms;
      var np := new Polynomial.Empty();
      var maxDegree := if Degree() > rhs.Degree() then Degree() else rhs.Degree();
      MergeStart(ps, qs, k, maxDegree);
      var i := maxDegree;
      while i >= 0
        invariant -1 <= i <= maxDegree
        invariant fresh(np.Repr) && np.Valid()
        invariant MergedAbove(np.Terms, ps, qs, k, i)
        invariant i < maxDegree ==> ps != [] && qs != []
      {
        var a := Coefficient(i);
        if a.Failure? {
          return Failure(a.error);
        }
        var b := rhs.Coefficient(i);
        if b.Failure? {
          return Failure(b.error);
        }
        np.AppendMerged(ps, qs, k, i, a.value, b.value);
        i := i - 1;
      }
      MergeDone(np.Terms, ps, qs, k);
      return Success(np);
    }

    /**
     * One step of the signed merge on the polynomial being built: append at
     * degree i the left coefficient a plus k times the right coefficient b.
     */
    method AppendMerged(ghost ps: seq<Term>, ghost qs: seq<Term>, k: real, i: nat, a: real, b: real)
      requires Valid() && MergedAbove(Terms, ps, qs, k, i)
      requires a == CoeffAt(ps, i) && b == CoeffAt(qs, i)
      modifies Repr
      ensures Valid() && fresh(Repr - old(Repr))
      ensures MergedAbove(Terms, ps, qs, k, i - 1)
    {
      MergeStep(Terms, ps, qs, k, i);
      var _ := AppendTerm(i, a + Times(b, k));
    }

    /** Addition: the signed merge with k = 1. */
    method Add(rhs: Polynomial) returns (r: Result<Polynomial>)
      requires Valid() && rhs.Valid()
      ensures r.Success? <==> ((Terms == []) == (rhs.Terms == []))
      ensures r.Failure? ==> r.error == EmptyPolynomial
      ensures r.Success? ==>
                fresh(r.value.Repr) && r.value.Valid() &&
                Contiguous(r.value.Terms) && Normalized(r.value.Terms) &&
                forall e :: CoeffAt(r.value.Terms, e) == CoeffAt(Terms, e) + CoeffAt(rhs.Terms, e)
    {
      r := SimpleAdd(rhs, 1.0);
    }

    /** Subtraction: the signed merge with k = -1. */
    method Sub(rhs: Polynomial) returns (r: Result<Polynomial>)
      requires Valid() && rhs.Valid()
      ensures r.Success? <==> ((Terms == []) == (rhs.Terms == []))
      ensures r.Failure? ==> r.error == EmptyPolynomial
      ensures r.Success? ==>
                fresh(r.value.Repr) && r.value.Valid() &&
                Contiguous(r.value.Terms) && Normalized(r.value.Terms) &&
                forall e :: CoeffAt(r.value.Terms, e) == CoeffAt(Terms, e) - CoeffAt(rhs.Terms, e)
    {
      r := SimpleAdd(rhs, -1.0);
    }

    /**
     * Multiplication: a new polynomial, built from empty by term-appending,
     * for each term of this polynomial from the head down and each term of
     * the right operand from the head down, their product whenever it is
     * nonzero. Its coefficient of every degree e is the sum of the products
     * whose degrees add up to e; an empty operand gives an empty product;
     * with nonzero heads on both operands its degree is the sum of theirs.
     * Neither operand changes.
     */
    method Mul(rhs: Polynomial) returns (ans: Polynomial)
      requires Valid() && rhs.Valid()
      ensures fresh(ans.Repr) && ans.Valid() && Contiguous(ans.Terms)
      ensures forall e :: CoeffAt(ans.Terms, e) == CoeffAt(Products(Terms, rhs.Terms), e)
      ensures ((forall i :: 0 <= i < |Terms| ==> Terms[i].coef == 0.0) ||
               (forall j :: 0 <= j < |rhs.Terms| ==> rhs.Terms[j].coef == 0.0)) ==> ans.Terms == []
      ensures ans.Terms == [] || Deg(ans.Terms) <= Deg(Terms) + Deg(rhs.Terms)
      ensures Terms != [] && rhs.Terms != [] && Terms[0].coef != 0.0 && rhs.Terms[0].coef != 0.0 ==>
                Deg(ans.Terms) == Deg(Terms) + Deg(rhs.Terms)
      ensures Normalized(ans.Terms)
    {
      ghost var ts, us := Terms, rhs.Terms;
      var cur1 := head;
      ans := new Polynomial.Empty();
      ghost var i := 0;
      CollectStart(ts, us);
      LeadStart(ts, us);
      while cur1 != null
        invariant 0 <= i <= |ts| && |ts| == |Nodes|
        invariant cur1 == if i < |ts| then Nodes[i] else null
        invariant fresh(ans.Repr) && ans.Valid()
        invariant Walked(ans.Terms, ts, us, i)
        decreases |ts| - i
      {
        ans.AppendRow(cur1.degree, cur1.coefficient, rhs, ts, i);
        cur1 := cur1.next;
        i := i + 1;
      }
      WalkDone(ans.Terms, ts, us);
    }

    /**
     * The inner walk of multiplication on the polynomial being built: for
     * each term of rhs from the head down, append its product with `node`,
     * the i-th term of ts, whenever that product is nonzero.
     */
    method AppendRow(degree: int, coefficient: real, rhs: Polynomial, ghost ts: seq<Term>, ghost i: nat)
      requires Valid() && rhs.Valid() && Repr !! rhs.Repr
      requires StrictlyDecreasing(ts) && i < |ts|
      requires degree == ts[i].deg && coefficient == ts[i].coef
      requires Walked(Terms, ts, rhs.Terms, i)
      modifies Repr
      ensures Valid() && fresh(Repr - old(Repr))
      ensures Walked(Terms, ts, rhs.Terms, i + 1)
    {
      ghost var ns, us := rhs.Nodes, rhs.Terms;
      RowStart(ts, us, i);
      var cur := rhs.head;
      ghost var j := 0;
      while cur != null
        invariant 0 <= j <= |ns|
        invariant cur == if j < |ns| then ns[j] else null
        invariant Valid() && fresh(Repr - old(Repr)) && Repr !! rhs.Repr
        invariant Collected(Terms, Pending(ts, us, i, j), ts, us)
        invariant Leading(Terms, ts, us, i, j)
        decreases |ns| - j
      {
        AppendProduct(ts, us, i, j, degree + cur.degree, Times(coefficient, cur.coefficient));
        cur := cur.next;
        j := j + 1;
      }
      RowEnd(ts, rhs.Terms, i);
      LeadRow(Terms, ts, us, i);
    }

    /**
     * One step of the product walk on the polynomial being built: append
     * the product c of ts[i] and us[j] at degree d when it is nonzero.
     */
    method AppendProduct(ghost ts: seq<Term>, ghost us: seq<Term>, ghost i: nat, ghost j: nat, d: int, c: real)
      requires Valid() && StrictlyDecreasing(ts) && StrictlyDecreasing(us)
      requires i < |ts| && j < |us| && Collected(Terms, Pending(ts, us, i, j), ts, us)
      requires d == ts[i].deg + us[j].deg && c == Times(ts[i].coef, us[j].coef)
      requires Leading(Terms, ts, us, i, j)
      modifies Repr
      ensures Valid() && fresh(Repr - old(Repr))
      ensures Collected(Terms, Pending(ts, us, i, j + 1), ts, us)
      ensures Leading(Terms, ts, us, i, j + 1)
    {
      CollectStep(Terms, ts, us, i, j);
      LeadStep(Terms, ts, us, i, j);
      if c != 0.0 {
        var _ := AppendTerm(d, c);
      }
    }

    /**
     * Term-append on a chain that holds every degree from its head down to
     * 0: refuses a negative degree without change, and otherwise leaves the
     * chain Appended(old chain, degree, value), still contiguous.
     */
    method AppendTerm(degree: int, value: real) returns (outcome: Outcome)
      requires Valid() && Contiguous(Terms)
      modifies Repr
      ensures Valid() && Contiguous(Terms) && fresh(Repr - old(Repr))
      ensures outcome == if degree < 0 then Fail(NegativeDegree) else Pass
      ensures Terms == Appended(old(Terms), degree, value)
    {
      if degree < 0 {
        return Fail(NegativeDegree);
      }
      outcome := Pass;
      ghost var ts := Terms;
      AppendedShape(ts, degree, value);
      if degree <= Degree() {
        InPlaceUnfold(ts, degree, value);
        AddAt(degree, value);
        TrimHeads();
        return;
      }
      if value == 0.0 {
        return;
      }
      Extend(degree, value);
    }

    /** The in-place branch: find the node of `degree` and add `value` to its coefficient. */
    method AddAt(degree: int, value: real)
      requires Valid() && Contiguous(Terms) && 0 <= degree <= Deg(Terms)
      modifies Repr
      ensures Valid() && Contiguous(Terms) && Repr == old(Repr) && Nodes == old(Nodes)
      ensures var k := |old(Terms)| - 1 - degree;
              0 <= k < |old(Terms)| &&
              Terms == old(Terms)[k := Term(degree, old(Terms)[k].coef + value)]
    {
      var cur, k := FindNode(degree);
      ghost var ts := Terms;
      SetCoefficient(cur, k, cur.coefficient + value);
      assert Terms == ts[k := Term(degree, ts[k].coef + value)];
      assert Contiguous(Terms);
    }

    /** Overwrite the coefficient of the k-th node, leaving every other field of the chain as it was. */
    method SetCoefficient(cur: TermNode, ghost k: nat, c: real)
      requires Valid() && k < |Nodes| && cur == Nodes[k]
      modifies this, cur
      ensures Valid() && Repr == old(Repr) && Nodes == old(Nodes)
      ensures Terms == old(Terms)[k := Term(old(Terms)[k].deg, c)]
    {
      NodesDistinct();
      ghost var ts := Terms;
      cur.coefficient := c;
      Terms := ts[k := Term(ts[k].deg, c)];
      forall j | 0 <= j < |Nodes|
        ensures Nodes[j].degree == Terms[j].deg && Nodes[j].coefficient == Terms[j].coef
      {
        if j != k {
          assert Nodes[j] != cur;
        }
      }
    }

    /** The walk of the in-place branch: the node of `degree`, at position deg(chain) - degree. */
    method FindNode(degree: int) returns (cur: TermNode, ghost k: nat)
      requires Valid() && Contiguous(Terms) && 0 <= degree <= Deg(Terms)
      ensures k == |Terms| - 1 - degree && k < |Nodes| && cur == Nodes[k]
    {
      cur := head;
      k := 0;
      while cur.degree != degree
        invariant 0 <= k <= |Terms| - 1 - degree
        invariant cur == Nodes[k]
        decreases |Terms| - k
      {
        assert cur.degree == |Terms| - 1 - k && cur.next == Nodes[k + 1];
        cur := cur.next;
        k := k + 1;
      }
    }

    /** The trimming loop: drop the head while its coefficient is 0 and the degree is above 1. */
    method TrimHeads()
      requires Valid() && Contiguous(Terms) && Terms != []
      modifies this
      ensures Valid() && Contiguous(Terms) && Repr == old(Repr)
      ensures Terms == TrimZeroHeads(old(Terms))
    {
      while head.coefficient == 0.0 && Degree() > 1
        invariant Valid() && Contiguous(Terms) && Terms != [] && Repr == old(Repr)
        invariant TrimZeroHeads(Terms) == TrimZeroHeads(old(Terms))
        decreases |Terms|
      {
        ContiguousSuffix(Terms, 1);
        ContiguousIsStrictlyDecreasing(Terms[1..]);
        HoldsDrop(Nodes, Terms);
        head := head.next;
        Nodes, Terms := Nodes[1..], Terms[1..];
      }
    }

    /**
     * The extension branch: a new head of `degree` holding `value`, zero
     * filler nodes down to the old degree + 1, and the old chain below.
     */
    method Extend(degree: int, value: real)
      requires Valid() && Contiguous(Terms) && degree > Deg(Terms) && value != 0.0
      modifies this
      ensures Valid() && Contiguous(Terms) && fresh(Repr - old(Repr))
      ensures Terms == Extended(old(Terms), degree, value)
      ensures |old(Nodes)| <= |Nodes| && Nodes[|Nodes| - |old(Nodes)|..] == old(Nodes)
    {
      ghost var ns, ts := Nodes, Terms;
      ghost var last := if ns == [] then null else ns[|ns| - 1];
      var first, chain, made := NewRun(degree, value, Degree() + 1, head);
      assert Holds(ns, ts) && (last != null ==> last.next == null);
      head := first;
      HoldsConcat(chain, Run(degree, value, Deg(ts) + 1), ns, ts);
      Nodes, Terms := chain + ns, Extended(ts, degree, value);
      Repr := Repr + made;
      forall i | 0 <= i < |Nodes|
        ensures Nodes[i] in Repr
      {
        if i >= |chain| {
          assert Nodes[i] == ns[i - |chain|];
        }
      }
      assert Nodes[|Nodes| - 1] == if ns == [] then chain[|chain| - 1] else last;
      ExtensionShape(ts, degree, value);
      ContiguousIsStrictlyDecreasing(Terms);
    }
  }

  /**
   * The loop of the extension branch and the link after it: fresh nodes of
   * degrees degree, degree - 1, ..., low, the first holding `value` and the
   * others 0, linked in that order, the last one linked to `tail`.
   */
  method NewRun(degree: int, value: real, low: nat, tail: TermNode?)
    returns (first: TermNode, ghost chain: seq<TermNode>, ghost made: set<object>)
    requires low <= degree
    ensures chain != [] && chain[0] == first && chain[|chain| - 1].next == tail
    ensures fresh(made) && forall j :: 0 <= j < |chain| ==> chain[j] in made
    ensures Holds(chain, Run(degree, value, low))
  {
    first := new TermNode(degree, value);
    var last := first;
    chain := [first];
    made := {first};
    while last.degree != low
      invariant low <= last.degree <= degree
      invariant chain != [] && chain[0] == first && chain[|chain| - 1] == last
      invariant fresh(made) && forall j :: 0 <= j < |chain| ==> chain[j] in made
      invariant forall j :: 0 <= j < |chain| ==>
                  chain[j].degree == degree - j && chain[j].coefficient == (if j == 0 then value else 0.0)
      invariant forall j :: 0 <= j < |chain| - 1 ==> chain[j].next == chain[j + 1]
      decreases last.degree
    {
      var node := new TermNode(last.degree - 1, 0.0);
      last.next := node;
      last := node;
      chain := chain + [node];
      made := made + {node};
    }
    last.next := tail;
    RunHeld(chain, degree, value, low);
  }
}
