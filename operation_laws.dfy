/** The algebraic properties an operation interface claims (Associative, Commutative, Identity,
    Inverse, Distributive), stated over the values a structure wraps. `member` is the structure's
    membership predicate and `op` the operation on wrapped values. */
module OperationLaws {

  /** The tag returned by associativity(). */
  datatype Associativity = Associative | NonAssociative

  /** SemiringOperation1.associativity(): always ASSOCIATIVE. */
  function SemiringOperation1Associativity(): (r: Associativity)
  {
    Associative
  }

  ghost predicate Closed(member: int -> bool, op: (int, int) -> int)
  {
    forall a, b {:trigger op(a, b)} :: member(a) && member(b) ==> member(op(a, b))
  }

  ghost predicate IsAssociative(member: int -> bool, op: (int, int) -> int)
  {
    forall a, b, c {:trigger op(op(a, b), c)} :: member(a) && member(b) && member(c) ==> op(op(a, b), c) == op(a, op(b, c))
  }

  ghost predicate IsCommutative(member: int -> bool, op: (int, int) -> int)
  {
    forall a, b {:trigger op(a, b)} :: member(a) && member(b) ==> op(a, b) == op(b, a)
  }

  /** `e` is a member and a right identity: x . e == x. */
  ghost predicate IsIdentity(member: int -> bool, op: (int, int) -> int, e: int)
  {
    member(e) && forall x {:trigger op(x, e)} :: member(x) ==> op(x, e) == x
  }

  /** `inverse` maps members to members and x . inverse(x) == e. */
  ghost predicate HasInverses(member: int -> bool, op: (int, int) -> int, e: int, inverse: int -> int)
  {
    forall x {:trigger inverse(x)} :: member(x) ==> member(inverse(x)) && op(x, inverse(x)) == e
  }

  /** times distributes over plus on the left. */
  ghost predicate DistributesOver(member: int -> bool, times: (int, int) -> int, plus: (int, int) -> int)
  {
    forall a, b, c {:trigger times(a, plus(b, c))} :: member(a) && member(b) && member(c) ==> times(a, plus(b, c)) == plus(times(a, b), times(a, c))
  }

  /** SemiringOperation1: a closed, associative, commutative operation with an identity. */
  ghost predicate SemiringOperation1(member: int -> bool, op: (int, int) -> int, e: int)
  {
    Closed(member, op) && IsAssociative(member, op) && IsCommutative(member, op) && IsIdentity(member, op, e)
  }

  /** The laws of a Group's operation: closed and associative, with a right identity and inverses. */
  ghost predicate GroupOperation(member: int -> bool, op: (int, int) -> int, e: int, inverse: int -> int)
  {
    Closed(member, op) && IsAssociative(member, op) && IsIdentity(member, op, e) && HasInverses(member, op, e, inverse)
  }

  /** CommutativeGroupOperation: a SemiringOperation1 that also has inverses. */
  ghost predicate CommutativeGroupOperation(member: int -> bool, op: (int, int) -> int, e: int, inverse: int -> int)
  {
    SemiringOperation1(member, op, e) && HasInverses(member, op, e, inverse)
  }

  /** In a group the inverse is unique: any y with x . y == e is inverse(x). */
  lemma {:induction false} InverseIsUnique(member: int -> bool, op: (int, int) -> int, e: int, inverse: int -> int, x: int, y: int)
    requires CommutativeGroupOperation(member, op, e, inverse)
    requires member(x) && member(y) && op(x, y) == e
    ensures y == inverse(x)
  {
    var i := inverse(x);
    assert member(i) && op(x, i) == e;
    assert member(e) && op(y, e) == y;
    assert op(op(y, x), i) == op(y, op(x, i));
    assert op(y, x) == e;
    assert op(e, i) == op(i, e) == i;
  }
}
