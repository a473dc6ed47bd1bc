/**
 * The edge value of the generator: a pair of node indices. The Java port
 * represents it by the immutable class `Edge`, the Python version by a
 * 2-tuple; both compare, hash and order it by its two fields.
 */
module Edges {
  import opened Wrappers

  datatype Edge = Edge(a: int, b: int) {
    /** Canonical form: the smaller index first. */
    predicate Canonical() { a < b }
  }

  /** The ascending ordering of two endpoints, `(x, y) if x < y else (y, x)`. */
  function Canonicalize(x: int, y: int): (e: Edge)
    ensures e.a <= e.b
    ensures (e.a == x && e.b == y) || (e.a == y && e.b == x)
    ensures x != y ==> e.Canonical()
  {
    if x < y then Edge(x, y) else Edge(y, x)
  }

  /**
   * The Java constructor with assertions enabled: it fails (an
   * `AssertionError`, here `None`) unless `a < b`.
   */
  function NewEdge(a: int, b: int): (r: Option<Edge>)
    ensures r.Some? <==> a < b
    ensures r.Some? ==> r.value.a == a && r.value.b == b
  {
    if a < b then Some(Edge(a, b)) else None
  }

  /** `transpose()` as written: it goes through the checked constructor. */
  function TransposeChecked(e: Edge): (r: Option<Edge>)
    ensures r.Some? <==> e.b < e.a
    ensures r.Some? ==> r.value.a == e.b && r.value.b == e.a
  {
    NewEdge(e.b, e.a)
  }

  /** Every canonical edge makes the written `transpose()` fail its assertion. */
  lemma TransposeCheckedFailsOnCanonical(e: Edge)
    requires e.Canonical()
    ensures TransposeChecked(e) == None
  {
  }

  /** A concrete witness: `new Edge(0, 1).transpose()`. */
  lemma TransposeCheckedCounterexample()
    ensures Edge(0, 1).Canonical() && TransposeChecked(Edge(0, 1)).None?
  {
  }

  /**
   * `transpose()` as the generator uses it: the same edge seen from its
   * other endpoint, an oriented (node, neighbour) pair that is not checked
   * for canonical form.
   */
  function Transpose(e: Edge): (t: Edge)
    ensures t.a == e.b && Canonicalize(t.a, t.b) == Canonicalize(e.a, e.b)
  {
    Edge(e.b, e.a)
  }

  lemma TransposeInvolutive(e: Edge)
    ensures Transpose(Transpose(e)) == e
    ensures Transpose(e) != e <==> e.a != e.b
    ensures e.Canonical() ==> !Transpose(e).Canonical()
  {
  }

  /** `compareTo`: -1, 0 or 1, lexicographic on `(a, b)`. */
  function CompareTo(x: Edge, y: Edge): (c: int)
    ensures -1 <= c <= 1
  {
    if x.a != y.a then (if x.a < y.a then -1 else 1)
    else if x.b != y.b then (if x.b < y.b then -1 else 1)
    else 0
  }

  /** Lexicographic strict order on edges. */
  predicate LexLess(x: Edge, y: Edge)
  {
    x.a < y.a || (x.a == y.a && x.b < y.b)
  }

  lemma CompareToIsLexicographic(x: Edge, y: Edge)
    ensures CompareTo(x, y) < 0 <==> LexLess(x, y)
    ensures CompareTo(x, y) > 0 <==> LexLess(y, x)
    ensures CompareTo(x, y) == 0 <==> x == y
  {
  }

  lemma CompareToAntisymmetric(x: Edge, y: Edge)
    ensures CompareTo(x, y) == -CompareTo(y, x)
  {
  }

  lemma CompareToTransitive(x: Edge, y: Edge, z: Edge)
    ensures CompareTo(x, y) < 0 && CompareTo(y, z) < 0 ==> CompareTo(x, z) < 0
    ensures CompareTo(x, y) <= 0 && CompareTo(y, z) <= 0 ==> CompareTo(x, z) <= 0
  {
  }

  /**
   * `Comparable`'s consistency rule: edges that compare as equal compare
   * alike against every third edge.
   */
  lemma CompareToZeroConsistent(x: Edge, y: Edge, z: Edge)
    ensures CompareTo(x, y) == 0 ==> CompareTo(x, z) == CompareTo(y, z)
  {
  }

  /**
   * `equals(Object)`: `None` stands for `null`. Objects of other classes
   * cannot arise in the generator.
   */
  function Equals(x: Edge, o: Option<Edge>): (r: bool)
    ensures r <==> o.Some? && o.value.a == x.a && o.value.b == x.b
  {
    match o
    case None => false
    case Some(y) => x.a == y.a && x.b == y.b
  }

  lemma EqualsAgreesWithCompareTo(x: Edge, y: Edge)
    ensures Equals(x, Some(y)) <==> CompareTo(x, y) == 0
    ensures Equals(x, Some(y)) <==> Equals(y, Some(x))
  {
  }

  const Int32Modulus: int := 0x1_0000_0000

  /** Java's 32-bit two's-complement wrap-around of an int expression. */
  function ToInt32(x: int): (r: int)
    ensures -0x8000_0000 <= r < 0x8000_0000
    ensures (r - x) % Int32Modulus == 0
  {
    (x + 0x8000_0000) % Int32Modulus - 0x8000_0000
  }

  /** `hashCode()`: `31 * a + b` in 32-bit int arithmetic. */
  function HashCode(e: Edge): (h: int)
    ensures -0x8000_0000 <= h < 0x8000_0000
    ensures (h - (31 * e.a + e.b)) % Int32Modulus == 0
  {
    ToInt32(31 * e.a + e.b)
  }

  lemma EqualEdgesHashEqually(x: Edge, y: Edge)
    ensures Equals(x, Some(y)) ==> HashCode(x) == HashCode(y)
  {
  }
}
