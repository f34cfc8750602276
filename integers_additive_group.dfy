/** The group of integers under addition, (Z, +): infinite, commutative, cyclic. */
module IntegersAdditiveGroup {
  import opened Outcomes
  import opened AlgebraicElement
  import CommonAlgebraicStructure
  import AlgebraicStructure
  import Magma
  import OperationLaws

  type Element = IntElement<IntegersAdditiveGroupBase>

  /** hasElementSafe on wrapped values: every integer is a member. */
  function Member(value: int): (r: bool)
  {
    true
  }

  /** AdditionOperation.perform on wrapped values. */
  function Sum(augend: int, addend: int): (r: int)
  {
    augend + addend
  }

  /** AdditionOperation.inverse on wrapped values. */
  function Negate(value: int): (r: int)
  {
    -value
  }

  /** The addition of (Z, +) is a commutative group operation with identity 0 and inverse negation,
      and its inverse is an involution. */
  lemma AdditionIsCommutativeGroupOperation()
    ensures OperationLaws.CommutativeGroupOperation(Member, Sum, 0, Negate)
    ensures forall x :: Negate(Negate(x)) == x
  {
    SumIsClosedAndCommutative();
    SumIsAssociative();
    SumHasIdentityAndInverses();
    NegateIsInvolution();
  }

  lemma SumIsClosedAndCommutative()
    ensures OperationLaws.Closed(Member, Sum) && OperationLaws.IsCommutative(Member, Sum)
  {
    var member: int -> bool, op: (int, int) -> int := Member, Sum;
    forall a, b | member(a) && member(b)
      ensures member(op(a, b)) && op(a, b) == op(b, a)
    {
      assert op(a, b) == a + b == op(b, a);
    }
  }

  lemma SumIsAssociative()
    ensures OperationLaws.IsAssociative(Member, Sum)
  {
    var member: int -> bool, op: (int, int) -> int := Member, Sum;
    forall a, b, c | member(a) && member(b) && member(c)
      ensures op(op(a, b), c) == op(a, op(b, c))
    {
      assert op(op(a, b), c) == a + b + c == op(a, op(b, c));
    }
  }

  lemma SumHasIdentityAndInverses()
    ensures OperationLaws.IsIdentity(Member, Sum, 0)
    ensures OperationLaws.HasInverses(Member, Sum, 0, Negate)
  {
    var member: int -> bool, op: (int, int) -> int, inverse: int -> int := Member, Sum, Negate;
    forall x | member(x)
      ensures op(x, 0) == x && member(inverse(x)) && op(x, inverse(x)) == 0
    {
      assert op(x, inverse(x)) == x + -x;
    }
  }

  lemma NegateIsInvolution()
    ensures forall x :: Negate(Negate(x)) == x
  {
    forall x
      ensures Negate(Negate(x)) == x
    {
      assert Negate(x) == -x;
    }
  }

  /** The structure's answers to the optional queries: it overrides none, being infinite. */
  function Capabilities(): (c: AlgebraicStructure.Capabilities<Element>)
    ensures Magma.IsMagma(c, Member, Sum)
    ensures AlgebraicStructure.Query(c.elements) == Err(Unsupported)
    ensures AlgebraicStructure.Query(c.elementCount) == Err(Unsupported)
    ensures AlgebraicStructure.Query(c.uniformRandomElement) == Err(Unsupported)
  {
    AlgebraicStructure.Defaults(Magma.OperationCount())
  }

  class IntegersAdditiveGroupBase {
    var operation: AdditionOperation?
    var generator: Option<Element>

    /** The state after the constructor: the operation belongs to this group and holds the identity 0,
        and the generator is an element of this group. */
    ghost predicate Valid()
      reads this, operation
    {
      && operation != null
      && operation.group == this
      && operation.identity == IntElement(0, this)
      && generator.Some?
      && generator.value.structure == this
    }

    /** The freshly allocated object, before the constructor body runs: every field is null. */
    constructor Unset()
      ensures operation == null && generator == None
    {
      operation := null;
      generator := None;
    }

    /** The constructor: reject a null generator, create the operation (which builds its identity with
        getElement(0)), then wrap the generator with getElement. */
    static method Create(generator: Option<int>) returns (r: Result<IntegersAdditiveGroupBase>)
      ensures generator.None? ==> r == Err(NullArgument)
      ensures generator.Some? ==> && r.Ok? && fresh(r.value) && fresh(r.value.operation) && r.value.Valid()
                                  && r.value.generator == Some(IntElement(generator.value, r.value))
    {
      if generator.None? {
        return Err(NullArgument);
      }
      var group := new IntegersAdditiveGroupBase.Unset();
      var identity := group.GetElement(Some(0));
      group.operation := new AdditionOperation(group, identity.value);
      var wrapped := group.GetElement(generator);
      group.generator := Some(wrapped.value);
      r := Ok(group);
    }

    function HasElementSafe(value: int): (r: Result<bool>)
      ensures r == Ok(Member(value))
    {
      Ok(Member(value))
    }

    /** getElementSafe: wrap the value in an element of this group, unchecked. */
    function GetElementSafe(value: int): (e: Element)
      ensures e.value == value && e.structure == this
    {
      New(value, Some(this)).value
    }

    function HasElement(value: Option<int>): (r: Result<bool>)
      ensures r == Ok(value.Some?)
    {
      CommonAlgebraicStructure.HasElement(v => HasElementSafe(v), value)
    }

    /** getElement accepts every non-null integer and rejects null. */
    function GetElement(value: Option<int>): (r: Result<Element>)
      ensures value.Some? ==> r == Ok(IntElement(value.value, this))
      ensures value.None? ==> r == Err(NotAMember(None))
    {
      CommonAlgebraicStructure.GetElement(v => HasElementSafe(v), v => GetElementSafe(v), value)
    }

    function Generator(): (e: Element)
      reads this, operation
      requires Valid()
      ensures e.structure == this
    {
      generator.value
    }

    /** IntegersAdditiveGroupBase.equals: the same runtime class and the same operation object. */
    predicate Equals(other: JavaObject<IntegersAdditiveGroupBase>): (r: bool)
      reads this, if other.SameClass? then {other.obj} else {}
      ensures !other.SameClass? ==> !r
      ensures other.SameClass? && other.obj == this ==> r
      ensures r && other.obj != this ==> other.obj.operation == operation
      ensures other.SameClass? && other.obj.operation == operation ==> r
    {
      match other
      case Null => false
      case OtherClass => false
      case SameClass(o) => o == this || o.operation == operation
    }
  }

  /** Every group owns its own operation object, so two groups are equal only when they are the same
      object, whatever their generators. */
  lemma EqualsIsIdentity(group: IntegersAdditiveGroupBase, other: IntegersAdditiveGroupBase)
    requires group.Valid() && other.Valid()
    ensures group.Equals(SameClass(other)) <==> group == other
    ensures !group.Equals(Null) && !group.Equals(OtherClass)
  {
  }

  /** The element's inherited equals, which compares owning structures, agrees with the group's own
      equals on the owning structures of two elements of constructed groups. */
  lemma StructureEqualsIsGroupEquals(a: Element, b: Element)
    requires a.structure.Valid() && b.structure.Valid()
    ensures StructureEquals(a, SameClass(b)) <==> a.structure.Equals(SameClass(b.structure))
  {
    EqualsIsIdentity(a.structure, b.structure);
  }

  /** AdditionOperation, the group's one operation. */
  class AdditionOperation {
    const group: IntegersAdditiveGroupBase
    const identity: Element

    /** `identity` is what the constructor's getElement(0) produced for `group`. */
    constructor (group: IntegersAdditiveGroupBase, identity: Element)
      ensures this.group == group && this.identity == identity
    {
      this.group := group;
      this.identity := identity;
    }

    /** perform: getElement of the sum, which never fails. */
    function Perform(augend: Element, addend: Element): (r: Result<Element>)
      ensures r == Ok(IntElement(Sum(augend.value, addend.value), group))
    {
      group.GetElement(Some(augend.value + addend.value))
    }

    function Identity(): (r: Element)
    {
      identity
    }

    /** inverse: getElementSafe of the negation. */
    function Inverse(element: Element): (r: Element)
      ensures r == IntElement(Negate(element.value), group)
    {
      group.GetElementSafe(-element.value)
    }
  }

  /** The element-level group laws of a constructed group's operation: commutative, associative,
      identity 0 on the right, x + inverse(x) == identity, inverse an involution. */
  lemma AdditionLaws(group: IntegersAdditiveGroupBase, a: Element, b: Element, c: Element)
    requires group.Valid()
    requires a.structure == group && b.structure == group && c.structure == group
    ensures group.operation.Perform(a, b) == group.operation.Perform(b, a)
    ensures group.operation.Perform(group.operation.Perform(a, b).value, c)
            == group.operation.Perform(a, group.operation.Perform(b, c).value)
    ensures group.operation.Identity() == IntElement(0, group)
    ensures group.operation.Perform(a, group.operation.Identity()) == Ok(a)
    ensures group.operation.Perform(a, group.operation.Inverse(a)) == Ok(group.operation.Identity())
    ensures group.operation.Inverse(group.operation.Inverse(a)) == a
  {
  }
}
