/** The optional queries every algebraic structure answers, and what the interface demands of them. */
module AlgebraicStructure {
  import opened Outcomes

  /** One optional query of a structure: either the interface default is inherited, or the structure
      overrides it and the override gives `answer`. */
  datatype Capability<T> = Inherited | Overridden(answer: Result<T>)

  /** What calling the query yields: the inherited default throws UnsupportedOperationException. */
  function Query<T>(c: Capability<T>): (r: Result<T>)
    ensures c.Inherited? ==> r == Err(Unsupported)
    ensures c.Overridden? ==> r == c.answer
  {
    match c
    case Inherited => Err(Unsupported)
    case Overridden(answer) => answer
  }

  /** A structure's answers to uniformRandomElement, elements and elementCount, and its
      operationCount (which every structure must give). */
  datatype Capabilities<E> = Capabilities(
    uniformRandomElement: Capability<E>,
    elements: Capability<seq<E>>,
    elementCount: Capability<int>,
    operationCount: int)

  /** A structure that overrides none of the optional queries. */
  function Defaults<E>(operationCount: int): (c: Capabilities<E>)
    ensures Query(c.uniformRandomElement) == Err(Unsupported)
    ensures Query(c.elements) == Err(Unsupported)
    ensures Query(c.elementCount) == Err(Unsupported)
    ensures c.operationCount == operationCount
  {
    Capabilities(Inherited, Inherited, Inherited, operationCount)
  }

  /** "If implemented, must not throw UnsupportedOperationException." */
  predicate Honest<T>(c: Capability<T>)
  {
    c.Overridden? ==> c.answer != Err(Unsupported)
  }

  /** The implementation requirements of the interface: overrides never report "unsupported",
      elementCount is only implemented together with elements, and when both answer, the count is
      the number of elements listed. */
  predicate MeetsContract<E>(c: Capabilities<E>)
  {
    && Honest(c.uniformRandomElement)
    && Honest(c.elements)
    && Honest(c.elementCount)
    && (c.elementCount.Overridden? ==> c.elements.Overridden?)
    && (Query(c.elementCount).Ok? && Query(c.elements).Ok?
        ==> Query(c.elementCount).value == |Query(c.elements).value|)
  }

  /** Under the contract, a query reports "unsupported" exactly when the structure did not implement it. */
  lemma UnsupportedExactlyWhenInherited<T>(c: Capability<T>)
    requires Honest(c)
    ensures Query(c) == Err(Unsupported) <==> c.Inherited?
  {
  }

  /** The defaults meet the contract on their own. */
  lemma DefaultsMeetContract<E>(operationCount: int)
    ensures MeetsContract(Defaults<E>(operationCount))
  {
  }
}

/** A set closed under one binary operation. */
module Magma {
  import AlgebraicStructure
  import OperationLaws

  /** Magma.operationCount(): a magma has exactly one operation. */
  function OperationCount(): (r: int)
    ensures r == 1
  {
    1
  }

  /** A structure that answers operationCount() with 1, meets the structure contract, and whose
      single operation is closed on its members. */
  ghost predicate IsMagma<E>(c: AlgebraicStructure.Capabilities<E>, member: int -> bool, operation: (int, int) -> int)
  {
    && c.operationCount == OperationCount()
    && AlgebraicStructure.MeetsContract(c)
    && OperationLaws.Closed(member, operation)
  }
}

/** A group with finitely many elements. */
module FiniteGroup {
  import opened Outcomes
  import opened AlgebraicStructure
  import Magma
  import OperationLaws

  /** FiniteGroup.order(): the default returns elementCount(). Under the structure contract, when
      elements() answers too, the order is the number of elements listed; a structure that does not
      implement elementCount() has no order. */
  function Order<E>(c: Capabilities<E>): (r: Result<int>)
    ensures MeetsContract(c) && r.Ok? && Query(c.elements).Ok? ==> r.value == |Query(c.elements).value|
    ensures MeetsContract(c) && r.Ok? ==> c.elements.Overridden?
    ensures c.elementCount.Inherited? ==> r == Err(Unsupported)
    ensures c.elementCount.Overridden? ==> r == c.elementCount.answer
  {
    Query(c.elementCount)
  }

  /** A finite group: a Group, so one operation with the group laws (closure, associativity, a right
      identity `e` and inverses given by `inverse`), whose elements() and elementCount() are both
      implemented and answer. */
  ghost predicate IsFiniteGroup<E>(c: Capabilities<E>, member: int -> bool, operation: (int, int) -> int,
                                   e: int, inverse: int -> int)
  {
    && c.operationCount == Magma.OperationCount()
    && MeetsContract(c)
    && OperationLaws.GroupOperation(member, operation, e, inverse)
    && c.elements.Overridden? && Query(c.elements).Ok?
    && c.elementCount.Overridden? && Query(c.elementCount).Ok?
  }

  /** In every finite group order() answers, with the same answer as elementCount(), and that answer
      is the number of elements listed. */
  lemma FiniteGroupOrderIsElementCount<E>(c: Capabilities<E>, member: int -> bool, operation: (int, int) -> int,
                                          e: int, inverse: int -> int)
    requires IsFiniteGroup(c, member, operation, e, inverse)
    ensures Order(c) == Query(c.elementCount)
    ensures Order(c).Ok? && Order(c).value == |Query(c.elements).value|
  {
  }
}

/** A set with two operations, the first associative, commutative and with an identity. */
module Semiring {
  import AlgebraicStructure
  import OperationLaws

  /** Semiring.operationCount(): a semiring has two operations, one more than a magma. */
  function OperationCount(): (r: int)
    ensures r == 2
  {
    2
  }

  /** A structure answering operationCount() with 2 whose operation1 is a SemiringOperation1 and whose
      operation2 is closed on its members. */
  ghost predicate IsSemiring<E>(c: AlgebraicStructure.Capabilities<E>, member: int -> bool,
                                operation1: (int, int) -> int, identity1: int, operation2: (int, int) -> int)
  {
    && c.operationCount == OperationCount()
    && AlgebraicStructure.MeetsContract(c)
    && OperationLaws.SemiringOperation1(member, operation1, identity1)
    && OperationLaws.Closed(member, operation2)
  }
}
