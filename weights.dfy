/** Edge weights as the routing code sees them: Python floats that are either a
    finite value or +infinity (a blocked road), and edge attribute bags that may
    or may not carry a 'weight' entry. */
module Weights {

  datatype Option<+T> = None | Some(value: T)

  /** An extended real: a finite weight or +infinity. */
  datatype Weight = Fin(r: real) | Inf

  /** The 'weight' attribute of an edge, which may be absent. */
  datatype Attr = Unweighted | Weighted(w: Weight)

  /** Float addition restricted to finite operands and +infinity:
      anything plus +infinity is +infinity. */
  function Add(a: Weight, b: Weight): (r: Weight)
    ensures r.Inf? <==> (a.Inf? || b.Inf?)
    ensures r.Fin? ==> r.r == a.r + b.r
  {
    if a.Inf? || b.Inf? then Inf else Fin(a.r + b.r)
  }

  /** Adds a finite modifier to a weight; +infinity stays +infinity. */
  function AddReal(a: Weight, d: real): (r: Weight)
    ensures a.Inf? ==> r == Inf
    ensures a.Fin? ==> r == Fin(a.r + d)
  {
    Add(a, Fin(d))
  }

  /** Multiplication of a weight by a strictly positive factor (for a
      positive factor, +infinity times it is +infinity). */
  function Scale(a: Weight, k: real): (r: Weight)
    requires k > 0.0
    ensures a.Inf? <==> r.Inf?
    ensures a.Fin? ==> r.r == a.r * k
  {
    if a.Inf? then Inf else Fin(a.r * k)
  }

  /** Python's `<` on the two kinds of value: +infinity is below nothing. */
  predicate Less(a: Weight, b: Weight)
  {
    match (a, b)
    case (Fin(x), Fin(y)) => x < y
    case (Fin(_), Inf) => true
    case (Inf, _) => false
  }

  predicate LessEq(a: Weight, b: Weight)
  {
    !Less(b, a)
  }

  /** `attrs.get('weight', default)`. */
  function WeightOr(a: Attr, default: Weight): (r: Weight)
    ensures a.Weighted? ==> r == a.w
    ensures a.Unweighted? ==> r == default
  {
    match a
    case Weighted(w) => w
    case Unweighted => default
  }

  /** Adding a modifier to an edge attribute: an edge without a weight keeps none. */
  function AddToAttr(a: Attr, d: real): (r: Attr)
    ensures a.Unweighted? <==> r.Unweighted?
    ensures a.Weighted? ==> r.w == AddReal(a.w, d)
  {
    match a
    case Weighted(w) => Weighted(AddReal(w, d))
    case Unweighted => Unweighted
  }

  /** Adding two modifiers in turn is adding their sum once. */
  lemma AddToAttrTwice(a: Attr, x: real, y: real)
    ensures AddToAttr(AddToAttr(a, x), y) == AddToAttr(a, x + y)
  {
  }

  /** Strict order on weights is irreflexive, transitive and total. */
  lemma LessIsStrictTotalOrder(a: Weight, b: Weight, c: Weight)
    ensures !Less(a, a)
    ensures Less(a, b) && Less(b, c) ==> Less(a, c)
    ensures Less(a, b) || a == b || Less(b, a)
  {
  }
}
