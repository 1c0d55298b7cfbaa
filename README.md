# Polynomial ADT over a sorted linked chain, in Dafny

This project models the `Polynomial` abstract data type of
`polynomial/polynomial.py`. A polynomial is a singly linked chain of term
nodes `(degree, coefficient, next)` with the highest degree at the head. The
ADT offers the degree, lookup of the coefficient of a degree, evaluation at a
scalar, addition and subtraction (both through the signed merge
`simple_add(rhs, k)`), multiplication, and the internal mutator
`_appendTerm`, which every arithmetic result is built with.

The model keeps the source's imperative form:

- `Polynomials.TermNode` is a class with the three mutable node fields.
- `Polynomials.Polynomial` is a class with the real `head` pointer. As ghost
  state it also keeps the chain's nodes in walking order (`Nodes`), the terms
  they hold (`Terms`, a `seq<Term>`) and the objects it owns (`Repr`).
- `Valid()` ties the ghost state to the nodes: the chain from `head` follows
  `Nodes`, ends in `null`, holds `Terms` node by node, and its degrees
  strictly decrease.
- Every walk of the source is a `while` loop over the real nodes, with
  invariants. Every mutation writes real node fields or the real head pointer.

Each method is proved against value-level specification functions over
`seq<Term>`, split by concern:

- `Terms`: `CoeffAt(ts, d)`, the coefficient of degree `d`, defined as the
  sum of the coefficients of the terms of degree `d` (0 when there are none).
- `TermAppend`: `Appended(ts, degree, value)`, the chain `_appendTerm` leaves,
  with its three branches. The branches are the in-place add followed by
  leading-zero trimming, the zero no-op, and the extension with zero fillers.
- `TermMerge`: the signed merge behind `+` and `-`, stepped degree by degree.
- `TermProducts` and `TermMultiply`: the pairwise products in the order the
  nested walks of `__mul__` visit them, and the step-by-step collection of
  those products.
- `Evaluation`: the sum of `coef * x^deg` over a chain, and its linearity.

The source's exceptions are modelled as values:

- The assertion in lookup and evaluation on an empty polynomial is
  `Failure(EmptyPolynomial)`.
- The `ValueError` of `_appendTerm` on a negative degree is
  `Fail(NegativeDegree)`.

Two behaviours of the code differ from what a reader of the ADT might
expect, and the model follows the code:

- One might expect `p - p` and `2x + (-2x)` to evaluate to 0.0 and to look
  up 0.0. In the code, every merged value is 0, so no append ever stores a
  term. The result is the empty polynomial, on which lookup and evaluation
  refuse (`TermMerge.SubSelfIsEmpty`).
- One might expect the trimming to continue while more than one term
  remains. The code's loop condition is `degree() > 1`, so a zero head of
  degree 1 stays (`TermAppend.TrimStopsAtDegreeOne`). Through `+` and `-`
  this is never reached: the merge only appends below a nonzero head
  (`TermAppend.AppendedNormalized`). Through `*` it is not reached either.
  The first nonzero product appended becomes a nonzero head. Every nonzero
  product appended after it lies strictly below it, whatever the operands'
  heads are (`TermMultiply.LeadStep`). So the head is never cancelled. The
  trimming stop is reached only by calling the internal mutator directly.
- One might expect multiplying by a polynomial to multiply values. The
  product of `Polynomial(0, 1.0)` and `Polynomial(2, 0.0)` has a single
  product, 0, which is not appended. So the result is the empty polynomial,
  on which evaluation refuses, while `Polynomial(2, 0.0)` itself evaluates to
  0.0. In general an operand whose coefficients are all 0 gives the empty
  product (`TermMultiply.ZeroFactor`, `Polynomials.Polynomial.Mul`). The
  value-level identity `Evaluation.MultiplicativeIdentity` is about the
  chains' sums, which are 0 for the empty chain.

## Model

| member | source | states |
|---|---|---|
| Polynomials.TermNode.constructor | polynomial/polynomial.py:117-121 | a new node holds the given degree and coefficient and links to nothing |
| Polynomials.Polynomial.Empty | polynomial/polynomial.py:6-8 | the polynomial built without a degree is valid, owns only fresh objects and has no terms |
| Polynomials.Polynomial.Single | polynomial/polynomial.py:6-10 | the polynomial built with a degree is valid and holds the single term coefficient * x^degree |
| Polynomials.Polynomial.Degree | polynomial/polynomial.py:14-18 | the degree is -1 exactly when there are no terms; otherwise it is the head's degree, and no term exceeds it |
| Polynomials.Polynomial.Coefficient | polynomial/polynomial.py:21-30 | lookup fails with EmptyPolynomial on the empty polynomial; otherwise it returns CoeffAt(Terms, d), which CoeffAtSpec shows is the coefficient of the term of degree d, or 0 when there is none |
| Terms.CoeffAtSpec | polynomial/polynomial.py:24-30 | on a strictly decreasing chain, the coefficient of d is that of the term of degree d when there is one, and 0 when there is none |
| Terms.CoeffAtIndex | polynomial/polynomial.py:27-30 | on a strictly decreasing chain, looking up a stored degree returns that node's coefficient |
| Terms.CoeffAtAboveHead | polynomial/polynomial.py:24-28 | a degree above the head or below 0 has coefficient 0 |
| Terms.HeadCoefficient | polynomial/polynomial.py:14-18 | the head coefficient is the coefficient of the reported degree, and every degree with a nonzero coefficient lies between 0 and the reported degree |
| Terms.CoeffAtConcat | polynomial/polynomial.py:51-64 | the coefficient of a concatenation of term lists is the sum of the parts' coefficients |
| Terms.ScaledCoeff | polynomial/polynomial.py:75 | multiplying every coefficient of a chain by k multiplies every looked-up coefficient by k |
| Evaluation.Pow | polynomial/polynomial.py:38 | `scalar ** degree` for a natural exponent: 1 at exponent 0, also when the scalar is 0, and one more factor of the scalar per degree |
| Evaluation.Value | polynomial/polynomial.py:38 | the summand of one term in evaluation: coef * scalar ** degree |
| Evaluation.EvalTerms | polynomial/polynomial.py:33-40 | the value of a chain: coef * x^deg of the head term plus the value of the rest, 0 for the empty chain |
| Polynomials.Polynomial.Evaluate | polynomial/polynomial.py:33-40 | evaluation fails with EmptyPolynomial on the empty polynomial; otherwise it returns the head-to-end sum of coef * x^deg (EvalTerms) |
| Evaluation.EvalByCoefficients | polynomial/polynomial.py:33-40 | the head-to-end sum equals the sum of CoeffAt(ts, i) * x^i over all degrees below any bound on the chain's degrees |
| Evaluation.EvalSameCoefficients | polynomial/polynomial.py:33-40 | two chains with equal coefficients at every degree have equal values at every scalar, whatever zero fillers or term order they hold |
| Evaluation.EvalScaled | polynomial/polynomial.py:75 | scaling every coefficient by k scales the value by k |
| Evaluation.EvalConcat | polynomial/polynomial.py:37-39 | the sum over a concatenation is the sum of the sums |
| Evaluation.PowAdd | polynomial/polynomial.py:38 | x^(a + b) == x^a * x^b |
| Evaluation.EvalSignedMerge | polynomial/polynomial.py:66-78 | a chain whose coefficients are those of the signed merge of ps and qs with multiplier k evaluates to value(ps) + k * value(qs) |
| Polynomials.Polynomial.SimpleAdd | polynomial/polynomial.py:66-78 | the merge succeeds exactly when both operands are empty or both are non-empty, and fails with EmptyPolynomial otherwise. On success the result is new, valid, contiguous down to 0, has a nonzero head or no terms, and at every degree e has coefficient CoeffAt(this, e) + k * CoeffAt(rhs, e). Neither operand changes |
| Polynomials.Polynomial.AppendMerged | polynomial/polynomial.py:75-76 | one merge step: appending the merged value at degree i moves the merged frontier from i to i - 1 |
| TermMerge.MergeStart | polynomial/polynomial.py:67-73 | before the first step nothing is merged, and both operands have coefficient 0 above maxDegree |
| TermMerge.MergeStep | polynomial/polynomial.py:74-77 | appending the merged coefficient of degree i to a chain holding the merge above i gives a contiguous chain, with a nonzero head or no terms, holding the merge above i - 1 |
| TermMerge.MergeDone | polynomial/polynomial.py:74-78 | once the loop has passed degree 0, the chain holds the merged coefficient at every degree |
| TermMerge.CanonicalChains | polynomial/polynomial.py:66-78 | two contiguous chains with nonzero heads and equal coefficients are the same chain, so the merge's result is determined by its coefficients |
| TermMerge.AddCommutes | polynomial/polynomial.py:43-44 | p + q and q + p build the same chain |
| TermMerge.SubSelfIsEmpty | polynomial/polynomial.py:47-48 | p - p is the empty polynomial |
| Polynomials.Polynomial.Add | polynomial/polynomial.py:43-44 | addition is the merge with k = 1: it fails, with EmptyPolynomial only, exactly when one operand is empty; the coefficient of e is CoeffAt(this, e) + CoeffAt(rhs, e) |
| Polynomials.Polynomial.Sub | polynomial/polynomial.py:47-48 | subtraction is the merge with k = -1: it fails, with EmptyPolynomial only, exactly when one operand is empty; the coefficient of e is CoeffAt(this, e) - CoeffAt(rhs, e) |
| Polynomials.Polynomial.Mul | polynomial/polynomial.py:51-64 | the product is a new, valid, contiguous polynomial with a nonzero head or no terms; its coefficient of e is the sum of c1 * c2 over the pairs of terms whose degrees add up to e, so by CanonicalChains it is the one chain with those coefficients; an operand that is empty or has only zero coefficients gives the empty product; its degree never exceeds the sum of the operand degrees and equals it when both heads are nonzero. Neither operand changes |
| Polynomials.Polynomial.AppendRow | polynomial/polynomial.py:56-61 | the inner walk moves the products of the i-th left term with every right term from pending to collected, and keeps the collected head leading: nonzero, and above every nonzero product still to come |
| Polynomials.Polynomial.AppendProduct | polynomial/polynomial.py:58-60 | one step of the inner walk: the product is appended when it is nonzero and skipped otherwise; either way it moves from pending to collected and the collected head stays leading |
| TermProducts.Products | polynomial/polynomial.py:51-64 | every pairwise product, for each left term from the head down, the row of its products with the right terms from the head down |
| TermProducts.Row | polynomial/polynomial.py:56-61 | the products of one term with a chain are as many as the chain's terms |
| TermProducts.RowDegree | polynomial/polynomial.py:59 | the j-th product of a row has degree t.deg + us[j].deg |
| TermProducts.ProductsAbsent | polynomial/polynomial.py:51-64 | a degree that no pair of terms adds up to has product coefficient 0 |
| TermProducts.TopOfRow | polynomial/polynomial.py:57-60 | of one row over a strictly decreasing chain, only the first product reaches the row's top degree |
| TermProducts.TopOfRest | polynomial/polynomial.py:55-62 | no product of a lower left term reaches deg(ts) + deg(us) |
| TermProducts.TopProduct | polynomial/polynomial.py:51-64 | the coefficient of deg(ts) + deg(us) among all the products is the product of the two head coefficients |
| TermProducts.RowOfOne | polynomial/polynomial.py:56-61 | the row of the constant term 1 is the chain itself |
| TermProducts.ProductsOfEmpty | polynomial/polynomial.py:55-57 | multiplying by an empty chain on either side yields no products |
| TermMultiply.RowStart | polynomial/polynomial.py:56 | at the start of the inner walk on term i, the pending products are all products from term i on |
| TermMultiply.RowEnd | polynomial/polynomial.py:61-62 | at the end of the inner walk on term i, the pending products are those of the terms after i |
| TermMultiply.CollectStep | polynomial/polynomial.py:58-61 | skipping a zero product, or term-appending a product, keeps collected plus pending equal to all products, keeps the chain contiguous and keeps its degree within deg(ts) + deg(us) |
| TermMultiply.LeadStep | polynomial/polynomial.py:58-60 | while nothing is collected every product visited is 0; the first nonzero product appended becomes a nonzero head, and every later nonzero product has a lower degree than the head, so later appends never cancel the head |
| TermMultiply.WalkDone | polynomial/polynomial.py:55-64 | when the walk is over the collected chain is contiguous with a nonzero head or no terms, carries every product's coefficient, is empty when an operand is empty or all zero, and has degree deg(ts) + deg(us) when both heads are nonzero |
| TermMultiply.ZeroFactor | polynomial/polynomial.py:58-60 | a normalized product chain of an operand whose coefficients are all 0 is empty, because no product is ever appended |
| TermProducts.RowZero | polynomial/polynomial.py:56-61 | a row whose term or whose chain has only zero coefficients has coefficient 0 at every degree |
| TermProducts.ProductsZero | polynomial/polynomial.py:51-64 | when either operand has only zero coefficients, every product coefficient is 0 |
| TermMultiply.CollectDone | polynomial/polynomial.py:62-64 | once nothing is pending, the collected chain carries every product's coefficient, and with nonzero heads its degree is deg(ts) + deg(us) |
| Evaluation.ProductTerm | polynomial/polynomial.py:58-60 | the product term of two terms evaluates to the product of their values |
| Evaluation.EvalRow | polynomial/polynomial.py:56-61 | a row evaluates to the term's value times the chain's value |
| Evaluation.EvalProducts | polynomial/polynomial.py:51-64 | all pairwise products evaluate to the product of the two chains' values |
| Evaluation.EvalProduct | polynomial/polynomial.py:51-64 | the product polynomial evaluates, at every scalar, to the value of this times the value of rhs |
| Evaluation.MultiplicativeIdentity | polynomial/polynomial.py:51-64 | multiplying by the constant polynomial 1 preserves the chain's value (EvalTerms) at every scalar |
| TermAppend.Appended | polynomial/polynomial.py:80-102 | a negative degree, or a zero value above the degree, leaves the chain as it was; a degree up to the head degree adds value to the node at position deg - degree, then drops zero heads of degree above 1; otherwise the chain is Extended |
| TermAppend.Run | polynomial/polynomial.py:96-100 | the new nodes of the extension: value at degree, then zero terms at each degree down to low |
| TermAppend.Extended | polynomial/polynomial.py:96-102 | the extension: the run from degree down to the old degree + 1, followed by the old chain |
| Polynomials.Polynomial.AppendTerm | polynomial/polynomial.py:80-102 | on a contiguous chain: a negative degree fails with NegativeDegree and changes nothing; otherwise the chain becomes Appended(old chain, degree, value), still contiguous, with only fresh objects added |
| Polynomials.Polynomial.AddAt | polynomial/polynomial.py:84-88 | the node of `degree`, at position deg - degree, gets value added to its coefficient; no other node, link or owned object changes |
| Polynomials.Polynomial.FindNode | polynomial/polynomial.py:85-87 | the walk stops at the node of `degree`, which is at position deg - degree |
| Polynomials.Polynomial.SetCoefficient | polynomial/polynomial.py:88 | writing one node's coefficient changes that term's coefficient only |
| Polynomials.Polynomial.TrimHeads | polynomial/polynomial.py:89-90 | the chain becomes TrimZeroHeads of the old chain, still valid and contiguous |
| Polynomials.Polynomial.Extend | polynomial/polynomial.py:96-102 | the chain becomes the new head, the zero fillers down to the old degree + 1, then the old chain, whose nodes stay linked below the new ones with their terms unchanged |
| Polynomials.NewRun | polynomial/polynomial.py:96-101 | builds fresh nodes of degrees degree down to low, the first holding value and the others 0, linked in order, the last one linked to the old head |
| TermAppend.Fillers | polynomial/polynomial.py:98-100 | the fillers are zero terms at each degree from hi down to lo |
| TermAppend.TrimZeroHeads | polynomial/polynomial.py:89-90 | the trimming never lengthens the chain, and stops at an empty chain, a nonzero head or a head of degree at most 1 |
| TermAppend.TrimIsSuffix | polynomial/polynomial.py:89-90 | what the trimming leaves is a suffix of the chain |
| TermAppend.TrimDropsZeros | polynomial/polynomial.py:89-90 | every dropped head had coefficient 0 and degree above 1 |
| TermAppend.TrimKeepsCoefficients | polynomial/polynomial.py:89-90 | the trimming changes no coefficient |
| TermAppend.TrimStopsAtDegreeOne | polynomial/polynomial.py:89 | cancelling the head of 2x + 3 leaves a zero head of degree 1, so the degree stays 1 |
| TermAppend.CoeffAtUpdate | polynomial/polynomial.py:88 | replacing one term's coefficient changes the coefficient of that term's degree only |
| TermAppend.UpdateThenTrim | polynomial/polynomial.py:88-90 | an in-place update followed by the trimming changes one coefficient only |
| TermAppend.ExtendedAt | polynomial/polynomial.py:96-102 | the extended chain term by term: the new head, then zero terms at each skipped degree, then the old chain |
| TermAppend.InPlaceCoefficient | polynomial/polynomial.py:84-91 | the in-place branch adds value to the coefficient of degree and leaves every other coefficient unchanged |
| TermAppend.ExtensionCoefficient | polynomial/polynomial.py:93-102 | the extension branch adds value at degree and leaves every other coefficient unchanged |
| TermAppend.AppendedCoefficient | polynomial/polynomial.py:80-102 | for every degree >= 0 and in every branch, appending adds value to the coefficient of degree and leaves every other coefficient unchanged |
| TermAppend.InPlaceShape | polynomial/polynomial.py:84-91 | the in-place branch keeps the chain contiguous and does not raise its degree |
| TermAppend.ExtensionShape | polynomial/polynomial.py:96-102 | the extension branch keeps the chain contiguous and puts the new term at the head |
| TermAppend.AppendedShape | polynomial/polynomial.py:80-102 | appending keeps the chain contiguous; the degree never rises above the larger of the old degree and the appended one; a nonzero value above the old degree becomes the head |
| TermAppend.AppendedNormalized | polynomial/polynomial.py:84-94 | appending below a nonzero head, or to an empty chain, leaves a nonzero head or an empty chain |

## Left out

- Floating point: coefficients and scalars are exact reals. Rounding and the float-equality tests `!= 0` and `== 0` are modelled as exact comparisons.
- `__str__` of both classes: string rendering is not modelled.
- `_polyTail`: it is set by the constructor and never read, so the model does not keep it.
- Default arguments: `Polynomial(degree=None, coefficient=None)` is modelled as two constructors, `Empty` and `Single`. The case of a degree given without a coefficient (a `None` coefficient) is not modelled.
- Polynomials.Polynomial.Single: the degree is a `nat`. A negative degree is the caller's obligation; the source stores it unchecked.
- Operator dispatch (`+`, `-`, `*` calling `__add__`, `__sub__`, `__mul__`) is modelled as plain methods. Python's dynamic typing of operands is not modelled.
- Exceptions are modelled as `Result` and `Outcome` values. A failure inside the merge loop leaves the partly built result unreachable, so returning the failure alone is the same observable behaviour.
- Polynomials.Polynomial.AppendTerm: requires a contiguous chain, which is every chain built from empty by term-append (all arithmetic results). The source runs the mutator on any chain, and on a chain that is not contiguous, such as the single-term polynomial of degree 3 the constructor builds, three cases are not modelled. First, the in-place walk for a degree the chain lacks runs off the end of the chain (an AttributeError). Second, the trimming loop can read past the end: appending -c at degree 3 to c * x^3 empties the head and then reads the coefficient of a missing head (an AttributeError). Third, the extension branch, for example appending at degree 5 to c * x^3, is excluded by the same requires, although the source runs it. All three are reachable only by calling the internal mutator directly.
- Polynomials.Polynomial.Mul: the inner walk reads the outer node's degree and coefficient once per row rather than once per product. The node is not modified during the row, so the values read are the same.
