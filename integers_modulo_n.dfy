/** The group of integers modulo n under addition, (Z/n, +): finite, commutative, cyclic. */
module IntegersModuloNAdditiveGroup {
  import opened Outcomes
  import opened AlgebraicElement
  import BigIntegerUtils
  import CommonAlgebraicStructure
  import AlgebraicStructure
  import Magma
  import FiniteGroup
  import OperationLaws

  type Element = IntElement<IntegersModuloNAdditiveGroupBase>

  /** A modulus the constructor accepts. */
  type Modulus = n: int | n > 0 witness 1

  /** hasElementSafe with the modulus field as it is at the time of the call:
      isInRange(value, 0, n), which throws while n is still null. */
  function HasElementSafeFor(n: Option<int>, value: int): (r: Result<bool>)
    ensures n.None? ==> r == Err(NullArgument)
    ensures n.Some? ==> r == Ok(Member(n.value, value))
  {
    BigIntegerUtils.IsInRange(Some(value), Some(0), n)
  }

  /** Membership on wrapped values: 0 <= value < n. */
  function Member(n: int, value: int): (r: bool)
  {
    0 <= value < n
  }

  /** AdditionOperation.perform on wrapped values: (augend + addend) mod n, always a member. */
  function Sum(n: Modulus, augend: int, addend: int): (r: int)
    ensures Member(n, r)
  {
    (augend + addend) % n
  }

  /** Euclidean division has one quotient and one remainder. */
  lemma {:induction false} ModUnique(z: int, n: Modulus, d: int, s: int)
    requires 0 <= s < n && z == d * n + s
    ensures z % n == s
  {
    var q, t := z / n, z % n;
    assert (d - q) * n == t - s;
    MultipleBelowModulus(d - q, n);
  }

  /** The only multiple of n strictly between -n and n is 0. */
  lemma {:induction false} MultipleBelowModulus(k: int, n: int)
    requires n > 0
    ensures -n < k * n < n ==> k == 0
  {
    if k >= 1 {
      assert k * n == (k - 1) * n + n;
      assert (k - 1) * n >= 0;
    } else if k <= -1 {
      assert k * n == (k + 1) * n - n;
      assert (k + 1) * n <= 0;
    }
  }

  /** Reducing a summand first does not change the sum's remainder. */
  lemma {:induction false} ModOfSum(a: int, b: int, n: Modulus)
    ensures (a % n + b) % n == (a + b) % n
  {
    var q := a / n;
    assert a == q * n + a % n;
    var t, s := (a + b) / n, (a + b) % n;
    assert a % n + b == (t - q) * n + s;
    ModUnique(a % n + b, n, t - q, s);
  }

  lemma SumIsAssociative(n: Modulus, a: int, b: int, c: int)
    ensures Sum(n, Sum(n, a, b), c) == Sum(n, a, Sum(n, b, c))
  {
    ModOfSum(a + b, c, n);
    ModOfSum(b + c, a, n);
    assert a + (b + c) == (b + c) + a;
  }

  /** The additive inverse modulo n: (n - x) mod n. */
  function AdditiveInverse(n: Modulus, x: int): (r: int)
    ensures Member(n, r)
  {
    (n - x) % n
  }

  /** For members, the additive inverse undoes the addition and is an involution. */
  lemma AdditiveInverseCancels(n: Modulus, x: int)
    requires Member(n, x)
    ensures Sum(n, x, AdditiveInverse(n, x)) == 0
    ensures AdditiveInverse(n, AdditiveInverse(n, x)) == x
  {
    if x == 0 {
      assert n % n == 0;
    } else {
      assert AdditiveInverse(n, x) == n - x;
      assert n % n == 0;
    }
  }

  function MemberOf(n: Modulus): (member: int -> bool)
  {
    x => Member(n, x)
  }

  function SumOf(n: Modulus): (op: (int, int) -> int)
  {
    (a, b) => Sum(n, a, b)
  }

  function AdditiveInverseOf(n: Modulus): (inverse: int -> int)
  {
    x => AdditiveInverse(n, x)
  }

  /** Addition modulo n, with identity 0 and the additive inverse, is a commutative group operation. */
  lemma AdditionIsCommutativeGroupOperation(n: Modulus)
    ensures OperationLaws.CommutativeGroupOperation(MemberOf(n), SumOf(n), 0, AdditiveInverseOf(n))
  {
    SumIsClosedAndCommutative(n);
    SumIsAssociativeOnMembers(n);
    SumHasIdentityAndInverses(n);
  }

  lemma SumIsClosedAndCommutative(n: Modulus)
    ensures OperationLaws.Closed(MemberOf(n), SumOf(n))
    ensures OperationLaws.IsCommutative(MemberOf(n), SumOf(n))
  {
  }

  lemma SumIsAssociativeOnMembers(n: Modulus)
    ensures OperationLaws.IsAssociative(MemberOf(n), SumOf(n))
  {
    var member, op := MemberOf(n), SumOf(n);
    forall a, b, c | member(a) && member(b) && member(c)
      ensures op(op(a, b), c) == op(a, op(b, c))
    {
      SumIsAssociative(n, a, b, c);
    }
  }

  lemma SumHasIdentityAndInverses(n: Modulus)
    ensures OperationLaws.IsIdentity(MemberOf(n), SumOf(n), 0)
    ensures OperationLaws.HasInverses(MemberOf(n), SumOf(n), 0, AdditiveInverseOf(n))
  {
    var member, op, inverse := MemberOf(n), SumOf(n), AdditiveInverseOf(n);
    forall x | member(x)
      ensures op(x, 0) == x
    {
      ModUnique(x + 0, n, 0, x);
    }
    forall x | member(x)
      ensures member(inverse(x)) && op(x, inverse(x)) == 0
    {
      AdditiveInverseCancels(n, x);
    }
  }

  /** x * y is congruent to 1 modulo m. */
  predicate IsModInverse(x: int, y: int, m: Modulus): (r: bool)
  {
    (x * y) % m == 1 % m
  }

  /** Search y, y + 1, ..., m - 1 for the inverse of x modulo m. */
  function InverseSearch(x: int, m: Modulus, y: nat): (r: Result<int>)
    requires y <= m
    ensures r.Ok? ==> y <= r.value < m && IsModInverse(x, r.value, m)
    ensures r.Err? ==> r.error == NotInvertible && forall z :: y <= z < m ==> !IsModInverse(x, z, m)
    decreases m - y
  {
    if y == m then Err(NotInvertible)
    else if IsModInverse(x, y, m) then Ok(y)
    else InverseSearch(x, m, y + 1)
  }

  /** BigInteger.modInverse(m): the y in [0, m) with x * y congruent to 1, or an ArithmeticException
      when the modulus is not positive or there is no such y. */
  function ModInverse(x: int, m: int): (r: Result<int>)
    ensures m <= 0 ==> r == Err(NotInvertible)
    ensures r.Ok? ==> m > 0 && 0 <= r.value < m && IsModInverse(x, r.value, m)
    ensures r.Err? ==> r.error == NotInvertible
    ensures r.Err? && m > 0 ==> forall y :: 0 <= y < m ==> !IsModInverse(x, y, m)
  {
    if m <= 0 then Err(NotInvertible) else InverseSearch(x, m, 0)
  }

  /** A common factor d > 1 of x and m leaves x without an inverse modulo m. */
  lemma {:induction false} CommonFactorBlocksModInverse(x: int, m: Modulus, d: int)
    requires d > 1 && x % d == 0 && m % d == 0
    ensures ModInverse(x, m).Err?
  {
    if ModInverse(x, m).Ok? {
      var y := ModInverse(x, m).value;
      var q := (x * y) / m;
      assert x * y == q * m + (x * y) % m;
      DivisorIsAtMost(m, d);
      ModUnique(1, m, 0, 1);
      assert x * y - q * m == 1;
      CombinationIsNotOne(x, y, q, m, d);
    }
  }

  /** A positive multiple of d is at least d. */
  lemma {:induction false} DivisorIsAtMost(m: int, d: int)
    requires m > 0 && d > 0 && m % d == 0
    ensures m >= d
  {
    var k := m / d;
    assert m == k * d;
    MultipleBelowModulus(k, d);
  }

  /** x * y - q * m is a multiple of any common divisor d > 1 of x and m, so it cannot be 1. */
  lemma {:induction false} CombinationIsNotOne(x: int, y: int, q: int, m: int, d: int)
    requires d > 1 && x % d == 0 && m % d == 0
    ensures x * y - q * m != 1
  {
    var kx, km := x / d, m / d;
    assert x == kx * d && m == km * d;
    var w := kx * y - q * km;
    assert x * y == (kx * y) * d;
    assert q * m == (q * km) * d;
    assert x * y - q * m == w * d;
    MultipleBelowModulus(w, d);
  }

  /** The inverse the source computes: the multiplicative inverse modulo n. The identity 0 has none
      once n > 1, and where it exists it is not the additive inverse in general. */
  lemma ModInverseIsNotAdditiveInverse(n: Modulus)
    requires n > 1
    ensures ModInverse(0, n).Err?
    ensures ModInverse(1, 3) == Ok(1) && Sum(3, 1, 1) == 2 != 0
  {
    CommonFactorBlocksModInverse(0, n, n);
    assert IsModInverse(1, 1, 3);
  }

  /** Where the source's inverse answers, it is a group inverse exactly when it cancels x, and then,
      inverses being unique, it is the additive inverse. */
  lemma ModInverseIsGroupInverseOnlyWhenItCancels(n: Modulus, x: int)
    requires Member(n, x) && ModInverse(x, n).Ok?
    ensures ModInverse(x, n).value == AdditiveInverse(n, x) <==> Sum(n, x, ModInverse(x, n).value) == 0
  {
    var y := ModInverse(x, n).value;
    AdditiveInverseCancels(n, x);
    if Sum(n, x, y) == 0 {
      AdditionIsCommutativeGroupOperation(n);
      assert MemberOf(n)(y) && SumOf(n)(x, y) == 0;
      OperationLaws.InverseIsUnique(MemberOf(n), SumOf(n), 0, AdditiveInverseOf(n), x, y);
    }
  }

  /** For n > 2 no inverse function that agrees with the source's inverse wherever that one answers
      gives the group inverses: 1 is its own multiplicative inverse, but 1 + 1 is not 0. */
  lemma AsWrittenInverseIsNoGroupInverse(n: Modulus, inverse: int -> int)
    requires n > 2
    requires forall x :: Member(n, x) && ModInverse(x, n).Ok? ==> inverse(x) == ModInverse(x, n).value
    ensures !OperationLaws.HasInverses(MemberOf(n), SumOf(n), 0, inverse)
  {
    ModUnique(1, n, 0, 1);
    assert IsModInverse(1, 1, n);
    var y := ModInverse(1, n).value;
    assert (1 * y) % n == 1;
    ModUnique(y, n, 0, y);
    assert inverse(1) == 1;
    ModUnique(2, n, 0, 2);
    assert MemberOf(n)(1) && SumOf(n)(1, inverse(1)) == 2;
  }

  /** The values elements() enumerates from `from`: Stream.iterate(from, i < n, increment). */
  function ElementValues(from: int, n: int): (r: seq<int>)
    ensures |r| == if from < n then n - from else 0
    ensures forall k :: 0 <= k < |r| ==> r[k] == from + k
    decreases n - from
  {
    if from < n then [from] + ElementValues(BigIntegerUtils.Increment(from), n) else []
  }

  /** k copies of g added up modulo n, starting from the identity. */
  function Multiple(n: Modulus, g: int, k: nat): (r: int)
    ensures Member(n, r)
  {
    if k == 0 then 0 else Sum(n, Multiple(n, g, k - 1), g)
  }

  /** 1 mod n generates the group: its k-th multiple is k mod n, so every member is reached. */
  lemma {:induction false} OneGenerates(n: Modulus, k: nat)
    ensures Multiple(n, 1 % n, k) == k % n
  {
    if k > 0 {
      OneGenerates(n, k - 1);
      ModOfSum(k - 1, 1 % n, n);
      assert (k - 1 + 1 % n) % n == ((1 % n) + (k - 1)) % n;
      ModOfSum(1, k - 1, n);
    }
  }

  class IntegersModuloNAdditiveGroupBase {
    var operation: AdditionOperation?
    var n: Option<int>
    var generator: Option<Element>

    /** The state a completed constructor leaves: a positive modulus, this group's operation holding
        the identity 0, and a generator that is a member. */
    ghost predicate Valid()
      reads this, operation
    {
      && n.Some? && n.value > 0
      && operation != null
      && operation.group == this
      && operation.identity == IntElement(0, this)
      && generator.Some?
      && generator.value.structure == this
      && Member(n.value, generator.value.value)
    }

    /** The freshly allocated object, before the constructor body runs: every field is null. */
    constructor Unset()
      ensures operation == null && n == None && generator == None
    {
      operation := null;
      n := None;
      generator := None;
    }

    /** The constructor's steps: check the modulus, create the operation (whose identity comes from
        getElement(0)), assign n, then set the generator to getElement(generatorOf(n)). With
        `modulusFirst` the modulus is assigned before the operation is created as well. */
    static method Construct(n: Option<int>, modulusFirst: bool, generatorOf: int -> int)
      returns (r: Result<IntegersModuloNAdditiveGroupBase>)
      ensures n.None? ==> r == Err(NullArgument)
      ensures n.Some? && n.value <= 0 ==> r == Err(NonPositiveModulus)
      ensures n.Some? && n.value > 0 && !modulusFirst ==> r == Err(NullArgument)
      ensures n.Some? && n.value > 0 && modulusFirst && !Member(n.value, generatorOf(n.value))
              ==> r == Err(NotAMember(Some(generatorOf(n.value))))
      ensures n.Some? && n.value > 0 && modulusFirst && Member(n.value, generatorOf(n.value))
              ==> && r.Ok? && fresh(r.value) && fresh(r.value.operation) && r.value.Valid()
                  && r.value.n == n && r.value.generator == Some(IntElement(generatorOf(n.value), r.value))
    {
      if n.None? {
        return Err(NullArgument);
      }
      if n.value <= 0 {
        return Err(NonPositiveModulus);
      }
      var group := new IntegersModuloNAdditiveGroupBase.Unset();
      if modulusFirst {
        group.n := n;
      }
      var identity := group.GetElement(Some(0));
      if identity.Err? {
        return Err(identity.error);
      }
      group.operation := new AdditionOperation(group, identity.value);
      group.n := n;
      var wrapped := group.GetElement(Some(generatorOf(group.n.value)));
      if wrapped.Err? {
        return Err(wrapped.error);
      }
      group.generator := Some(wrapped.value);
      r := Ok(group);
    }

    /** The constructor as written: the operation, and with it getElement(0), comes before n is
        assigned, and the generator is getElement(n). It throws for every argument. */
    static method Create(n: Option<int>) returns (r: Result<IntegersModuloNAdditiveGroupBase>)
      ensures r == Err(if n.Some? && n.value <= 0 then NonPositiveModulus else NullArgument)
    {
      r := Construct(n, false, m => m);
    }

    /** The constructor with n assigned first and 1 mod n as the generator: it succeeds exactly for a
        positive modulus. */
    static method CreateCorrected(n: Option<int>) returns (r: Result<IntegersModuloNAdditiveGroupBase>)
      ensures r.Ok? <==> n.Some? && n.value > 0
      ensures n.None? ==> r == Err(NullArgument)
      ensures n.Some? && n.value <= 0 ==> r == Err(NonPositiveModulus)
      ensures r.Ok? ==> && fresh(r.value) && fresh(r.value.operation) && r.value.Valid() && r.value.n == n
                        && r.value.generator == Some(IntElement(1 % n.value, r.value))
    {
      r := Construct(n, true, m => if m > 0 then 1 % m else 0);
    }

    function HasElementSafe(value: int): (r: Result<bool>)
      reads this
    {
      HasElementSafeFor(n, value)
    }

    /** getElementSafe: wrap the value in an element of this group, unchecked. */
    function GetElementSafe(value: int): (e: Element)
      ensures e.value == value && e.structure == this
    {
      New(value, Some(this)).value
    }

    function HasElement(value: Option<int>): (r: Result<bool>)
      reads this
      ensures value.None? ==> r == Ok(false)
      ensures value.Some? ==> r == HasElementSafeFor(n, value.value)
    {
      var modulus := n;
      CommonAlgebraicStructure.HasElement(v => HasElementSafeFor(modulus, v), value)
    }

    /** getElement: null and values outside [0, n) are rejected, naming the value; while n is unset
        every non-null value makes the range test throw. */
    function GetElement(value: Option<int>): (r: Result<Element>)
      reads this
      ensures value.None? ==> r == Err(NotAMember(None))
      ensures value.Some? && n.None? ==> r == Err(NullArgument)
      ensures value.Some? && n.Some? && Member(n.value, value.value) ==> r == Ok(IntElement(value.value, this))
      ensures value.Some? && n.Some? && !Member(n.value, value.value) ==> r == Err(NotAMember(value))
    {
      var modulus := n;
      CommonAlgebraicStructure.GetElement(v => HasElementSafeFor(modulus, v), v => GetElementSafe(v), value)
    }

    /** elements(): the members 0, 1, ..., n - 1 in ascending order, each through getElementSafe. */
    function Elements(): (r: seq<Element>)
      reads this
      requires n.Some?
      ensures |r| == if n.value > 0 then n.value else 0
      ensures forall k :: 0 <= k < |r| ==> r[k] == IntElement(k, this)
    {
      var values := ElementValues(0, n.value);
      seq(|values|, k requires 0 <= k < |values| => GetElementSafe(values[k]))
    }

    /** The answers to the optional queries: elements() and elementCount() (which is n) are
        overridden, uniformRandomElement() is not. */
    function Capabilities(): (c: AlgebraicStructure.Capabilities<Element>)
      reads this
      requires n.Some?
      ensures c.operationCount == Magma.OperationCount()
      ensures AlgebraicStructure.Query(c.uniformRandomElement) == Err(Unsupported)
      ensures AlgebraicStructure.Query(c.elements) == Ok(Elements())
      ensures AlgebraicStructure.Query(c.elementCount) == Ok(n.value)
      ensures AlgebraicStructure.MeetsContract(c) <==> n.value >= 0
    {
      AlgebraicStructure.Capabilities(
        AlgebraicStructure.Inherited,
        AlgebraicStructure.Overridden(Ok(Elements())),
        AlgebraicStructure.Overridden(Ok(n.value)),
        Magma.OperationCount())
    }

    function Generator(): (e: Element)
      reads this, operation
      requires Valid()
      ensures e.structure == this && Member(n.value, e.value)
    {
      generator.value
    }
  }

  /** A group with a positive modulus is a finite group of order n whose elements are exactly its
      members, listed once each in ascending order; getElement succeeds on each of them. */
  lemma IsFiniteGroupOfOrderN(group: IntegersModuloNAdditiveGroupBase)
    requires group.n.Some? && group.n.value > 0
    ensures FiniteGroup.IsFiniteGroup(group.Capabilities(), MemberOf(group.n.value), SumOf(group.n.value), 0,
                                      AdditiveInverseOf(group.n.value))
    ensures FiniteGroup.Order(group.Capabilities()) == Ok(group.n.value)
    ensures |group.Elements()| == group.n.value
    ensures AlgebraicStructure.Query(group.Capabilities().uniformRandomElement) == Err(Unsupported)
    ensures forall k :: 0 <= k < |group.Elements()| ==> group.GetElement(Some(group.Elements()[k].value)) == Ok(group.Elements()[k])
    ensures forall v :: Member(group.n.value, v) ==> 0 <= v < |group.Elements()| && group.Elements()[v].value == v
  {
    AdditionIsCommutativeGroupOperation(group.n.value);
  }

  /** The round trip of getElement over getElementSafe for members, and its failure for the rest. */
  lemma GetElementRoundTrip(group: IntegersModuloNAdditiveGroupBase, value: int)
    requires group.n.Some?
    ensures group.HasElementSafe(value) == Ok(true)
            ==> group.GetElement(Some(group.GetElementSafe(value).value)) == Ok(group.GetElementSafe(value))
    ensures group.HasElementSafe(value) == Ok(false) <==> group.GetElement(Some(value)) == Err(NotAMember(Some(value)))
  {
  }

  /** While a group's modulus is unset, as it is during the constructor, hasElementSafe, hasElement
      and getElement throw on every non-null value. */
  lemma UnsetModulusRejectsEveryValue(group: IntegersModuloNAdditiveGroupBase, value: int)
    requires group.n.None?
    ensures group.HasElementSafe(value) == Err(NullArgument)
    ensures group.HasElement(Some(value)) == Err(NullArgument)
    ensures group.GetElement(Some(value)) == Err(NullArgument)
  {
  }

  /** The modulus itself is never a member, so getElement(n) always throws. */
  lemma ModulusIsNeverAMember(n: Modulus)
    ensures HasElementSafeFor(Some(n), n) == Ok(false)
  {
  }

  /** AdditionOperation of the modulo-n group. */
  class AdditionOperation {
    const group: IntegersModuloNAdditiveGroupBase
    const identity: Element

    /** `identity` is what the constructor's getElement(0) produced for `group`. */
    constructor (group: IntegersModuloNAdditiveGroupBase, identity: Element)
      ensures this.group == group && this.identity == identity
    {
      this.group := group;
      this.identity := identity;
    }

    /** perform: getElement of the sum modulo n, whose membership check always passes. */
    function Perform(augend: Element, addend: Element): (r: Result<Element>)
      reads group
      requires group.n.Some? && group.n.value > 0
      ensures r == Ok(IntElement(Sum(group.n.value, augend.value, addend.value), group))
    {
      group.GetElement(Some((augend.value + addend.value) % group.n.value))
    }

    function Identity(): (r: Element)
    {
      identity
    }

    /** inverse as written: getElementSafe of the multiplicative inverse modulo n, which throws when
        the value has none. */
    function Inverse(element: Element): (r: Result<Element>)
      reads group
      requires group.n.Some? && group.n.value > 0
      ensures r.Ok? <==> ModInverse(element.value, group.n.value).Ok?
      ensures r.Ok? ==> r.value == IntElement(ModInverse(element.value, group.n.value).value, group)
                        && IsModInverse(element.value, r.value.value, group.n.value)
    {
      match ModInverse(element.value, group.n.value)
      case Err(e) => Err(e)
      case Ok(v) => Ok(group.GetElementSafe(v))
    }

    /** The inverse the group law calls for: getElementSafe of (n - x) mod n. */
    function AdditiveInverseOf(element: Element): (r: Element)
      reads group
      requires group.n.Some? && group.n.value > 0
      ensures r == IntElement(AdditiveInverse(group.n.value, element.value), group)
    {
      group.GetElementSafe(AdditiveInverse(group.n.value, element.value))
    }
  }

  /** The element-level laws of a constructed group's operation on its members: commutative,
      associative, identity 0 on the right, and x + AdditiveInverseOf(x) == identity. */
  lemma AdditionLaws(group: IntegersModuloNAdditiveGroupBase, a: Element, b: Element, c: Element)
    requires group.Valid()
    requires a.structure == group && b.structure == group && c.structure == group
    requires Member(group.n.value, a.value) && Member(group.n.value, b.value) && Member(group.n.value, c.value)
    ensures group.operation.Perform(a, b) == group.operation.Perform(b, a)
    ensures group.operation.Perform(group.operation.Perform(a, b).value, c)
            == group.operation.Perform(a, group.operation.Perform(b, c).value)
    ensures group.operation.Perform(a, group.operation.Identity()) == Ok(a)
    ensures group.operation.Perform(a, group.operation.AdditiveInverseOf(a)) == Ok(group.operation.Identity())
  {
    var n, op := group.n.value, group.operation;
    var ab, bc := IntElement(Sum(n, a.value, b.value), group), IntElement(Sum(n, b.value, c.value), group);
    assert op.Perform(a, b) == Ok(ab) && op.Perform(b, c) == Ok(bc);
    assert Sum(n, a.value, b.value) == Sum(n, b.value, a.value);
    SumIsAssociative(n, a.value, b.value, c.value);
    assert op.Perform(ab, c) == op.Perform(a, bc);
    ModUnique(a.value + 0, n, 0, a.value);
    assert op.Perform(a, op.Identity()) == Ok(IntElement(a.value, group));
    AdditiveInverseCancels(n, a.value);
    assert op.Perform(a, op.AdditiveInverseOf(a)) == Ok(IntElement(0, group));
  }

  /** The inverse as written breaks the group law: the identity of every group with n > 1 has no
      inverse, and in Z/3 the inverse of 1 is 1, while 1 + 1 is 2, not the identity. */
  lemma InverseBreaksGroupLaw(group: IntegersModuloNAdditiveGroupBase)
    requires group.Valid() && group.n.value > 1
    ensures group.operation.Inverse(group.operation.Identity()).Err?
    ensures group.n.value == 3 ==>
              && group.operation.Inverse(IntElement(1, group)) == Ok(IntElement(1, group))
              && group.operation.Perform(IntElement(1, group), IntElement(1, group)) != Ok(group.operation.Identity())
  {
    ModInverseIsNotAdditiveInverse(group.n.value);
    if group.n.value == 3 {
      assert ModInverse(1, 3) == Ok(1);
    }
  }
}
