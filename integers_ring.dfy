/** The ring of integers, (Z, +, x): a cyclic ring whose first operation is addition and whose second
    operation is declared to distribute over the first. */
module IntegersRing {
  import opened Outcomes
  import opened AlgebraicElement
  import CommonAlgebraicStructure
  import AlgebraicStructure
  import Semiring
  import OperationLaws

  type Element = IntElement<IntegersRingBase>

  /** hasElementSafe on wrapped values: every integer is a member. */
  function Member(value: int): (r: bool)
  {
    true
  }

  /** operation1 (AdditionOperation.perform) on wrapped values. */
  function Sum(augend: int, addend: int): (r: int)
  {
    augend + addend
  }

  /** operation1's inverse on wrapped values. */
  function Negate(value: int): (r: int)
  {
    -value
  }

  /** operation2 (MultiplicationOperation.perform) on wrapped values, as written: it adds. */
  function AsWrittenProduct(multiplicand: int, multiplier: int): (r: int)
  {
    multiplicand + multiplier
  }

  /** operation2 as a ring multiplication is meant to compute. */
  function Product(multiplicand: int, multiplier: int): (r: int)
  {
    multiplicand * multiplier
  }

  /** operation1 is a commutative group operation with identity 0 and inverse negation; in particular a
      SemiringOperation1, whose associativity tag is ASSOCIATIVE. */
  lemma AdditionIsCommutativeGroupOperation()
    ensures OperationLaws.CommutativeGroupOperation(Member, Sum, 0, Negate)
    ensures OperationLaws.SemiringOperation1(Member, Sum, 0)
    ensures OperationLaws.SemiringOperation1Associativity() == OperationLaws.Associative
  {
    SumIsClosedAndCommutative();
    SumIsAssociative();
    SumHasIdentityAndInverses();
  }

  lemma SumIsClosedAndCommutative()
    ensures OperationLaws.Closed(Member, Sum) && OperationLaws.IsCommutative(Member, Sum)
  {
    var member: int -> bool, op: (int, int) -> int := Member, Sum;
    forall a, b | member(a) && member(b)
      ensures member(op(a, b)) && op(a, b) == op(b, a)
    {
      assert op(a, b) == a + b == op(b, a);
    }
  }

  lemma SumIsAssociative()
    ensures OperationLaws.IsAssociative(Member, Sum)
  {
    var member: int -> bool, op: (int, int) -> int := Member, Sum;
    forall a, b, c | member(a) && member(b) && member(c)
      ensures op(op(a, b), c) == op(a, op(b, c))
    {
      assert op(op(a, b), c) == a + b + c == op(a, op(b, c));
    }
  }

  lemma SumHasIdentityAndInverses()
    ensures OperationLaws.IsIdentity(Member, Sum, 0)
    ensures OperationLaws.HasInverses(Member, Sum, 0, Negate)
  {
    var member: int -> bool, op: (int, int) -> int, inverse: int -> int := Member, Sum, Negate;
    forall x | member(x)
      ensures op(x, 0) == x && member(inverse(x)) && op(x, inverse(x)) == 0
    {
      assert op(x, inverse(x)) == x + -x;
    }
  }

  /** The multiplication as written does not distribute over addition: for every a != 0 and every
      b, c, a x (b + c) differs from (a x b) + (a x c). Its identity 0 is an identity only because it
      adds. */
  lemma {:induction false} AsWrittenProductIsNotDistributive(a: int, b: int, c: int)
    requires a != 0
    ensures AsWrittenProduct(a, Sum(b, c)) != Sum(AsWrittenProduct(a, b), AsWrittenProduct(a, c))
    ensures !OperationLaws.DistributesOver(Member, AsWrittenProduct, Sum)
    ensures OperationLaws.IsIdentity(Member, AsWrittenProduct, 0)
  {
    assert AsWrittenProduct(a, Sum(b, c)) == a + b + c;
    assert Sum(AsWrittenProduct(a, b), AsWrittenProduct(a, c)) == a + b + a + c;
    assert Member(a) && Member(b) && Member(c);
  }

  /** Integer multiplication distributes over addition and has identity 1, not 0: x x 0 is 0. */
  lemma {:induction false} ProductIsDistributive()
    ensures OperationLaws.DistributesOver(Member, Product, Sum)
    ensures OperationLaws.IsIdentity(Member, Product, 1)
    ensures !OperationLaws.IsIdentity(Member, Product, 0)
    ensures OperationLaws.Closed(Member, Product) && OperationLaws.IsAssociative(Member, Product)
    ensures OperationLaws.IsCommutative(Member, Product)
  {
    forall a, b, c | Member(a) && Member(b) && Member(c)
      ensures Product(a, Sum(b, c)) == Sum(Product(a, b), Product(a, c))
      ensures Product(Product(a, b), c) == Product(a, Product(b, c))
    {
      assert a * (b + c) == a * b + a * c;
      assert (a * b) * c == a * (b * c);
    }
    assert Member(1) && Product(1, 0) != 1;
  }

  /** The structure's answers to the optional queries: it overrides none, being infinite. Addition is a
      SemiringOperation1, and both the multiplication as written and integer multiplication are closed,
      so it is a semiring either way. */
  function Capabilities(): (c: AlgebraicStructure.Capabilities<Element>)
    ensures Semiring.IsSemiring(c, Member, Sum, 0, AsWrittenProduct)
    ensures Semiring.IsSemiring(c, Member, Sum, 0, Product)
    ensures AlgebraicStructure.Query(c.elements) == Err(Unsupported)
    ensures AlgebraicStructure.Query(c.elementCount) == Err(Unsupported)
    ensures AlgebraicStructure.Query(c.uniformRandomElement) == Err(Unsupported)
  {
    AlgebraicStructure.DefaultsMeetContract<Element>(Semiring.OperationCount());
    AlgebraicStructure.Defaults(Semiring.OperationCount())
  }

  class IntegersRingBase {
    var operation1: AdditionOperation?
    var operation2: MultiplicationOperation?
    var generator: Option<Element>

    /** The state after the constructor: both operations belong to this ring and hold the identity 0,
        operation2 records that it distributes over operation1, and the generator is an element of this
        ring. */
    ghost predicate Valid()
      reads this, operation1, operation2
    {
      && operation1 != null
      && operation1.ring == this
      && operation1.identity == IntElement(0, this)
      && operation2 != null
      && operation2.ring == this
      && operation2.identity == IntElement(0, this)
      && operation2.distributesOver == operation1
      && generator.Some?
      && generator.value.structure == this
    }

    /** The freshly allocated object, before the constructor body runs: every field is null. */
    constructor Unset()
      ensures operation1 == null && operation2 == null && generator == None
    {
      operation1 := null;
      operation2 := null;
      generator := None;
    }

    /** The constructor: reject a null generator, create operation1, then operation2 (which records
        the operation1 in place at that moment), then wrap the generator with getElement. */
    static method Create(generator: Option<int>) returns (r: Result<IntegersRingBase>)
      ensures generator.None? ==> r == Err(NullArgument)
      ensures generator.Some? ==> && r.Ok? && fresh(r.value) && fresh(r.value.operation1)
                                  && fresh(r.value.operation2) && r.value.Valid()
                                  && r.value.generator == Some(IntElement(generator.value, r.value))
    {
      if generator.None? {
        return Err(NullArgument);
      }
      var ring := new IntegersRingBase.Unset();
      var identity1 := ring.GetElement(Some(0));
      ring.operation1 := new AdditionOperation(ring, identity1.value);
      var identity2 := ring.GetElement(Some(0));
      ring.operation2 := new MultiplicationOperation(ring, ring.operation1, identity2.value);
      var wrapped := ring.GetElement(generator);
      ring.generator := Some(wrapped.value);
      r := Ok(ring);
    }

    function HasElementSafe(value: int): (r: Result<bool>)
      ensures r == Ok(Member(value))
    {
      Ok(Member(value))
    }

    /** getElementSafe: wrap the value in an element of this ring, unchecked. */
    function GetElementSafe(value: int): (e: Element)
      ensures e.value == value && e.structure == this
    {
      New(value, Some(this)).value
    }

    function HasElement(value: Option<int>): (r: Result<bool>)
      ensures r == Ok(value.Some?)
    {
      CommonAlgebraicStructure.HasElement(v => HasElementSafe(v), value)
    }

    /** getElement accepts every non-null integer and rejects null. */
    function GetElement(value: Option<int>): (r: Result<Element>)
      ensures value.Some? ==> r == Ok(IntElement(value.value, this))
      ensures value.None? ==> r == Err(NotAMember(None))
    {
      CommonAlgebraicStructure.GetElement(v => HasElementSafe(v), v => GetElementSafe(v), value)
    }

    function Generator(): (e: Element)
      reads this, operation1, operation2
      requires Valid()
      ensures e.structure == this
    {
      generator.value
    }
  }

  /** AdditionOperation, the ring's operation1. */
  class AdditionOperation {
    const ring: IntegersRingBase
    const identity: Element

    /** `identity` is what the constructor's getElement(0) produced for `ring`. */
    constructor (ring: IntegersRingBase, identity: Element)
      ensures this.ring == ring && this.identity == identity
    {
      this.ring := ring;
      this.identity := identity;
    }

    /** perform: getElementSafe of the sum. */
    function Perform(augend: Element, addend: Element): (r: Element)
      ensures r == IntElement(Sum(augend.value, addend.value), ring)
    {
      ring.GetElementSafe(augend.value + addend.value)
    }

    function Identity(): (r: Element)
    {
      identity
    }

    /** inverse: getElementSafe of the negation. */
    function Inverse(element: Element): (r: Element)
      ensures r == IntElement(Negate(element.value), ring)
    {
      ring.GetElementSafe(-element.value)
    }
  }

  /** MultiplicationOperation, the ring's operation2. */
  class MultiplicationOperation {
    const ring: IntegersRingBase
    /** The operation this one distributes over, as Distributivity.over recorded it. */
    const distributesOver: AdditionOperation?
    const identity: Element

    constructor (ring: IntegersRingBase, distributesOver: AdditionOperation?, identity: Element)
      ensures this.ring == ring && this.distributesOver == distributesOver && this.identity == identity
    {
      this.ring := ring;
      this.distributesOver := distributesOver;
      this.identity := identity;
    }

    /** perform as written: getElementSafe of the sum of the two values. */
    function Perform(multiplicand: Element, multiplier: Element): (r: Element)
      ensures r == IntElement(AsWrittenProduct(multiplicand.value, multiplier.value), ring)
    {
      ring.GetElementSafe(multiplicand.value + multiplier.value)
    }

    /** perform as a ring multiplication is meant to be: getElementSafe of the product. */
    function PerformCorrected(multiplicand: Element, multiplier: Element): (r: Element)
      ensures r == IntElement(Product(multiplicand.value, multiplier.value), ring)
    {
      ring.GetElementSafe(multiplicand.value * multiplier.value)
    }

    function Distributivity(): (r: AdditionOperation?)
    {
      distributesOver
    }

    function Identity(): (r: Element)
    {
      identity
    }
  }

  /** The element-level laws of a constructed ring. operation1 is commutative and associative, with
      identity 0 and inverse negation. operation2 names operation1 as the operation it distributes
      over, yet as written it breaks that law whenever the left factor is not 0 and has identity 0;
      the corrected product distributes over operation1 and 0 annihilates instead. */
  lemma RingLaws(ring: IntegersRingBase, a: Element, b: Element, c: Element)
    requires ring.Valid()
    requires a.structure == ring && b.structure == ring && c.structure == ring
    ensures ring.operation1.Perform(a, b) == ring.operation1.Perform(b, a)
    ensures ring.operation1.Perform(ring.operation1.Perform(a, b), c)
            == ring.operation1.Perform(a, ring.operation1.Perform(b, c))
    ensures ring.operation1.Identity() == IntElement(0, ring)
    ensures ring.operation1.Perform(a, ring.operation1.Identity()) == a
    ensures ring.operation1.Perform(a, ring.operation1.Inverse(a)) == ring.operation1.Identity()
    ensures ring.operation2.Distributivity() == ring.operation1
    ensures a.value != 0 <==> ring.operation2.Perform(a, ring.operation1.Perform(b, c))
                              != ring.operation1.Perform(ring.operation2.Perform(a, b), ring.operation2.Perform(a, c))
    ensures ring.operation2.Perform(a, ring.operation2.Identity()) == a
    ensures ring.operation2.PerformCorrected(a, ring.operation1.Perform(b, c))
            == ring.operation1.Perform(ring.operation2.PerformCorrected(a, b), ring.operation2.PerformCorrected(a, c))
    ensures ring.operation2.PerformCorrected(a, ring.operation2.Identity()) == ring.operation1.Identity()
  {
    var x, y, z := a.value, b.value, c.value;
    assert x * (y + z) == x * y + x * z;
    assert x * 0 == 0;
  }
}
