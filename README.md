# Integer algebraic structures

A Dafny model of the core of a Java library of algebraic structures over arbitrary-precision integers.
It models the structure and element hierarchy and its three integer realisations:

- **The capability interfaces.**
  - `AlgebraicStructure` has optional queries (`uniformRandomElement`, `elements`, `elementCount`) that throw `UnsupportedOperationException` unless overridden, plus a mandatory `operationCount`.
  - `Magma` has one operation; `FiniteGroup` gives `order() == elementCount()`; `Semiring` has two operations.
  - `SemiringOperation1` is associative and commutative and has an identity.
- **The construct-or-validate pattern of `CommonAlgebraicStructure`.** `hasElement` guards null and defers to `hasElementSafe`. `getElement` throws unless `hasElement`, then defers to `getElementSafe`.
- **The element classes.** The element's owning structure, its wrapped value, and the two levels of `equals` and `hashCode`.
- **`BigIntegerUtils`.** Range tests, `increment`/`decrement`, and the rejection-sampling loop of `random`.
- **(Z, +)** (`IntegersAdditiveGroupBase`), **(Z/n, +)** (`IntegersModuloNAdditiveGroupBase`) and the ring of integers (`IntegersRingBase`). Each has its constructor, membership, generator and nested operation classes.

How the Java maps onto Dafny:

- **Integers and null.** `BigInteger` is `int`. A Java `null` argument is `Option.None`.
- **Exceptions.** An exception is an `Err` of `Result`, whose `Failure` names its kind:
  - null argument;
  - non-positive modulus;
  - not a member, with the offending value;
  - unsupported operation;
  - no modular inverse.
- **Structures are classes.** Structures and operation objects are Dafny classes, because the library compares them by reference. Each constructor is a static `Create` method that performs the Java constructor's steps in the Java order on a freshly allocated object whose fields are still null. It returns the new object or the exception.
- **Elements are values.** Elements are the immutable value `IntElement(value, structure)`.
- **Interfaces are predicates.** The interfaces become predicates over a record of the structure's answers (`AlgebraicStructure.Capabilities`). Their algebraic laws become predicates over the wrapped values (`OperationLaws`).

Where the code does not do what the library's design describes, the model follows the code. The "## Findings" table lists these cases. Each has a corrected member beside the as-written one, and the laws are proved about the corrected member.

## Model

| member | source | states |
|---|---|---|
| AlgebraicStructure.Defaults | src/main/java/com/oliveryasuna/math/algebra/AlgebraicStructure.java:44-76 | a structure that overrides none of the optional queries gets UnsupportedOperationException from uniformRandomElement, elements and elementCount |
| AlgebraicStructure.UnsupportedExactlyWhenInherited | src/main/java/com/oliveryasuna/math/algebra/AlgebraicStructure.java:39-45 | when an override keeps the "must not throw UnsupportedOperationException" rule, a query reports unsupported exactly when the structure did not implement it |
| AlgebraicStructure.DefaultsMeetContract | src/main/java/com/oliveryasuna/math/algebra/AlgebraicStructure.java:53-76 | the inherited defaults satisfy the interface's implementation rules on their own: elementCount only together with elements, and overrides never unsupported |
| IntegersAdditiveGroup.Capabilities | src/main/java/com/oliveryasuna/math/algebra/group/Magma.java:44-52 | (Z, +) is a magma: operationCount is 1, the structure contract holds, addition is closed; it overrides none of the optional queries |
| FiniteGroup.Order | src/main/java/com/oliveryasuna/math/algebra/group/FiniteGroup.java:39-44 | order() returns the same as elementCount(): its answer when implemented, unsupported otherwise; under the structure contract an answering order() implies elements() is implemented and equals its length |
| FiniteGroup.FiniteGroupOrderIsElementCount | src/main/java/com/oliveryasuna/math/algebra/group/FiniteGroup.java:35-58 | in every finite group order() answers, equals elementCount(), and equals the number of elements listed |
| IntegersModuloNAdditiveGroup.IsFiniteGroupOfOrderN | src/main/java/com/oliveryasuna/math/algebra/group/FiniteGroup.java:39-58 | Z/n with n > 0 is a finite group: elements() and elementCount() answer, the contract holds, the addition with identity 0 and inverse (n - x) mod n obeys the group laws, and order() == elementCount() == number of elements == n |
| Magma.OperationCount | src/main/java/com/oliveryasuna/math/algebra/group/Magma.java:50-52 | a magma answers operationCount() with 1 |
| Semiring.OperationCount | src/main/java/com/oliveryasuna/math/algebra/ring/Semiring.java:35-37 | a semiring answers operationCount() with 2 |
| IntegersRing.Capabilities | src/main/java/com/oliveryasuna/math/algebra/ring/Semiring.java:25-37 | the ring of integers is a semiring: operationCount is 2, operation1 is a SemiringOperation1 with identity 0, operation2 is closed (as written and corrected alike) |
| IntegersRing.AdditionIsCommutativeGroupOperation | src/main/java/com/oliveryasuna/math/algebra/ring/operation/SemiringOperation1.java:28-33 | the ring's operation1 (addition, IntegersRingBase.AdditionOperation) is a SemiringOperation1 whose associativity tag is ASSOCIATIVE, and on values it is indeed closed, associative and commutative with identity 0, and with negation as inverse a commutative group operation |
| OperationLaws.InverseIsUnique | src/main/java/com/oliveryasuna/math/algebra/group/concrete/integers/IntegersModuloNAdditiveGroupBase.java:156-159 | in a commutative group any y with x.y == identity is the inverse of x, so the inverse a group operation returns is fixed by the operation |
| IntegersModuloNAdditiveGroup.ModInverseIsGroupInverseOnlyWhenItCancels | src/main/java/com/oliveryasuna/math/algebra/group/concrete/integers/IntegersModuloNAdditiveGroupBase.java:156-159 | where modInverse answers for a member x, its result is the additive inverse exactly when x plus it is 0 modulo n |
| IntegersModuloNAdditiveGroup.AsWrittenInverseIsNoGroupInverse | src/main/java/com/oliveryasuna/math/algebra/group/concrete/integers/IntegersModuloNAdditiveGroupBase.java:156-159 | for n > 2, no inverse function that agrees with modInverse wherever it answers satisfies x + inverse(x) == 0 on all members |
| BigIntegerUtils.IsInRange | src/main/java/com/oliveryasuna/math/util/BigIntegerUtils.java:52-58 | throws exactly when an argument is null; otherwise true exactly when lowerInclusive <= value < upperExclusive |
| BigIntegerUtils.IsInRangeInclusive | src/main/java/com/oliveryasuna/math/util/BigIntegerUtils.java:60-66 | throws exactly when an argument is null; otherwise true exactly when lowerInclusive <= value <= upperInclusive |
| BigIntegerUtils.InRangeIsInclusiveRangeBelowUpper | src/main/java/com/oliveryasuna/math/util/BigIntegerUtils.java:52-66 | the half-open test implies the closed one; the half-open test with bound u equals the closed test with bound decrement(u), and the closed test with u equals the half-open test with increment(u) |
| BigIntegerUtils.IncrementDecrementRoundTrip | src/main/java/com/oliveryasuna/math/util/BigIntegerUtils.java:68-78 | decrement undoes increment and increment undoes decrement; increment(v) > v > decrement(v) |
| BigIntegerUtils.BitLength | src/main/java/com/oliveryasuna/math/util/BigIntegerUtils.java:46 | the bit length w of a non-negative x is the least with x < 2^w: 0 for 0, and 2^(w-1) <= x otherwise |
| BigIntegerUtils.Random | src/main/java/com/oliveryasuna/math/util/BigIntegerUtils.java:39-50 | throws exactly when the bound or the source is null; otherwise returns a value in [0, bound), namely the first candidate the source yields below the bound, all earlier candidates having been rejected |
| BigIntegerUtils.AcceptanceAtLeastOneHalf | src/main/java/com/oliveryasuna/math/util/BigIntegerUtils.java:45-47 | for a positive bound, candidates are drawn from [0, 2^w) with bound < 2^w <= 2 * bound, so at least half of the candidates are accepted (exactly half when the bound is a power of two) |
| BigIntegerUtils.Candidate | src/main/java/com/oliveryasuna/math/util/BigIntegerUtils.java:46 | new BigInteger(bits, random) is a value in [0, 2^bits) |
| BigIntegerUtils.Increment | src/main/java/com/oliveryasuna/math/util/BigIntegerUtils.java:68-72 | increment gives the successor: larger by exactly one |
| BigIntegerUtils.Decrement | src/main/java/com/oliveryasuna/math/util/BigIntegerUtils.java:74-78 | decrement gives the predecessor: smaller, and increment of it gives the value back |
| BigIntegerUtils.NonPositiveBoundRejectsEveryCandidate | src/main/java/com/oliveryasuna/math/util/BigIntegerUtils.java:45-47 | for a bound <= 0 every candidate is rejected, so the loop never ends |
| CommonAlgebraicStructure.HasElement | src/main/java/com/oliveryasuna/math/algebra/CommonAlgebraicStructure.java:66-68 | null is never a member; for any other value hasElement is hasElementSafe's answer, exceptions included |
| CommonAlgebraicStructure.GetElement | src/main/java/com/oliveryasuna/math/algebra/CommonAlgebraicStructure.java:49-53 | getElement succeeds exactly when hasElement holds, and then gives getElementSafe(value); a non-member is rejected naming the value; an exception from hasElementSafe propagates |
| CommonAlgebraicStructure.GetElementAcceptsExactlyMembers | src/main/java/com/oliveryasuna/math/algebra/CommonAlgebraicStructure.java:49-68 | getElement of a non-null value succeeds exactly when hasElementSafe accepts it, giving getElementSafe(value); null is never a member |
| AlgebraicElement.New | src/main/java/com/oliveryasuna/math/algebra/AbstractAlgebraicElement.java:33-39 | an element's constructor rejects a null structure and otherwise records the structure and the value, unchecked |
| AlgebraicElement.StructureEquals | src/main/java/com/oliveryasuna/math/algebra/AbstractAlgebraicElement.java:60-70 | the inherited equals holds exactly when the other object is an element of the same class with the same owning structure |
| AlgebraicElement.Equals | src/main/java/com/oliveryasuna/math/algebra/group/concrete/integers/IntegersAdditiveGroupElementBase.java:64-75 | the element's equals holds exactly when the other object is of the same class with the same structure and the same value, and it implies the inherited equals |
| AlgebraicElement.StructureHash | src/main/java/com/oliveryasuna/math/algebra/AbstractAlgebraicElement.java:73-77 | the inherited hashCode is a Java int congruent modulo 2^32 to 17 * 37 plus the structure's hash |
| AlgebraicElement.Hash | src/main/java/com/oliveryasuna/math/algebra/group/concrete/integers/IntegersAdditiveGroupElementBase.java:78-83 | the element's hashCode is a Java int congruent modulo 2^32 to (17 * 37 + the inherited hash) * 37 plus the value's hash |
| AlgebraicElement.EqualsIsReflexiveAndClassStrict | src/main/java/com/oliveryasuna/math/algebra/AbstractAlgebraicElement.java:60-70 | equals is reflexive and false for null and for another runtime class, at both levels |
| AlgebraicElement.StructureEqualsIgnoresValue | src/main/java/com/oliveryasuna/math/algebra/AbstractAlgebraicElement.java:60-70 | the inherited equals compares only the owning structures, so any two elements of one structure are equal under it whatever their values |
| AlgebraicElement.EqualsIsStructureAndValue | src/main/java/com/oliveryasuna/math/algebra/group/concrete/integers/IntegersAdditiveGroupElementBase.java:64-75 | two elements are equal exactly when the inherited comparison holds and the values are equal, i.e. same structure and same value; equals is symmetric |
| AlgebraicElement.EqualElementsHashAlike | src/main/java/com/oliveryasuna/math/algebra/group/concrete/integers/IntegersAdditiveGroupElementBase.java:77-83 | equal elements have equal hash codes, at both levels |
| IntegersAdditiveGroup.IntegersAdditiveGroupBase.Create | src/main/java/com/oliveryasuna/math/algebra/group/concrete/integers/IntegersAdditiveGroupBase.java:47-55 | a null generator is rejected; any other integer yields a new group whose own new operation holds the identity 0 and whose generator wraps that integer |
| IntegersAdditiveGroup.IntegersAdditiveGroupBase.HasElement | src/main/java/com/oliveryasuna/math/algebra/group/concrete/integers/IntegersAdditiveGroupBase.java:70-73 | every non-null integer is a member, null is not |
| IntegersAdditiveGroup.IntegersAdditiveGroupBase.GetElement | src/main/java/com/oliveryasuna/math/algebra/group/concrete/integers/IntegersAdditiveGroupBase.java:70-73 | getElement wraps every non-null integer in an element of this group and rejects only null |
| IntegersAdditiveGroup.IntegersAdditiveGroupBase.Generator | src/main/java/com/oliveryasuna/math/algebra/group/concrete/integers/IntegersAdditiveGroupBase.java:86-89 | the generator of a constructed group is an element of that group |
| IntegersAdditiveGroup.IntegersAdditiveGroupBase.Equals | src/main/java/com/oliveryasuna/math/algebra/group/concrete/integers/IntegersAdditiveGroupBase.java:94-104 | a group equals itself, never equals null or an object of another class, and equals another group exactly when the two share one operation object |
| IntegersAdditiveGroup.StructureEqualsIsGroupEquals | src/main/java/com/oliveryasuna/math/algebra/AbstractAlgebraicElement.java:60-70 | for elements of constructed groups, the inherited element equals (which calls the structure's equals) agrees with the group's own equals on the two owning structures |
| IntegersAdditiveGroup.EqualsIsIdentity | src/main/java/com/oliveryasuna/math/algebra/group/concrete/integers/IntegersAdditiveGroupBase.java:94-104 | since each group creates its own operation object, two constructed groups are equal exactly when they are the same object; null and other classes are never equal |
| IntegersAdditiveGroup.AdditionOperation.Perform | src/main/java/com/oliveryasuna/math/algebra/group/concrete/integers/IntegersAdditiveGroupBase.java:145-148 | perform always succeeds and wraps the sum in the operation's group |
| IntegersAdditiveGroup.AdditionOperation.Inverse | src/main/java/com/oliveryasuna/math/algebra/group/concrete/integers/IntegersAdditiveGroupBase.java:161-164 | inverse wraps the negated value in the operation's group |
| IntegersAdditiveGroup.AdditionIsCommutativeGroupOperation | src/main/java/com/oliveryasuna/math/algebra/group/concrete/integers/IntegersAdditiveGroupBase.java:123-164 | on values, addition with identity 0 and negation is a commutative group operation, and negation is an involution |
| IntegersAdditiveGroup.AdditionLaws | src/main/java/com/oliveryasuna/math/algebra/group/concrete/integers/IntegersAdditiveGroupBase.java:128-164 | on the elements of a constructed group, perform is commutative and associative, the identity is 0 and neutral, x + inverse(x) is the identity, inverse is an involution |
| IntegersModuloNAdditiveGroup.IntegersModuloNAdditiveGroupBase.Construct | src/main/java/com/oliveryasuna/math/algebra/group/concrete/integers/IntegersModuloNAdditiveGroupBase.java:42-53 | the constructor's steps with the modulus assignment and generator as parameters: every outcome, from the null and non-positive checks to the membership of the generator |
| IntegersModuloNAdditiveGroup.IntegersModuloNAdditiveGroupBase.Create | src/main/java/com/oliveryasuna/math/algebra/group/concrete/integers/IntegersModuloNAdditiveGroupBase.java:42-53 | the constructor as written throws for every argument: null, non-positive, and, for a positive n, a null modulus inside getElement(0) |
| IntegersModuloNAdditiveGroup.IntegersModuloNAdditiveGroupBase.CreateCorrected | src/main/java/com/oliveryasuna/math/algebra/group/concrete/integers/IntegersModuloNAdditiveGroupBase.java:42-53 | the constructor with n assigned first and generator 1 mod n succeeds exactly for a positive n, giving a new valid group of modulus n |
| IntegersModuloNAdditiveGroup.HasElementSafeFor | src/main/java/com/oliveryasuna/math/algebra/group/concrete/integers/IntegersModuloNAdditiveGroupBase.java:70-73 | membership is 0 <= value < n; while n is still null the range test throws |
| IntegersModuloNAdditiveGroup.IntegersModuloNAdditiveGroupBase.HasElement | src/main/java/com/oliveryasuna/math/algebra/group/concrete/integers/IntegersModuloNAdditiveGroupBase.java:70-73 | null is not a member; a value is a member exactly when 0 <= value < n, and the test throws while n is unset |
| IntegersModuloNAdditiveGroup.IntegersModuloNAdditiveGroupBase.GetElement | src/main/java/com/oliveryasuna/math/algebra/group/concrete/integers/IntegersModuloNAdditiveGroupBase.java:70-73 | getElement wraps exactly the values in [0, n), rejects others naming them, and throws on every value while n is unset |
| IntegersModuloNAdditiveGroup.GetElementRoundTrip | src/main/java/com/oliveryasuna/math/algebra/group/concrete/integers/IntegersModuloNAdditiveGroupBase.java:70-73 | getElement of the value of a member's getElementSafe gives that element back; a value is rejected as a non-member exactly when hasElementSafe is false |
| IntegersModuloNAdditiveGroup.UnsetModulusRejectsEveryValue | src/main/java/com/oliveryasuna/math/algebra/group/concrete/integers/IntegersModuloNAdditiveGroupBase.java:70-73 | on a group whose n is not yet assigned, hasElementSafe, hasElement and getElement throw for every non-null value |
| IntegersModuloNAdditiveGroup.ModulusIsNeverAMember | src/main/java/com/oliveryasuna/math/algebra/group/concrete/integers/IntegersModuloNAdditiveGroupBase.java:52 | n is never a member of Z/n, so getElement(n) always throws |
| IntegersModuloNAdditiveGroup.ElementValues | src/main/java/com/oliveryasuna/math/algebra/group/concrete/integers/IntegersModuloNAdditiveGroupBase.java:88 | iterating from `from` with increment while below n yields exactly from, from + 1, ..., n - 1 |
| IntegersModuloNAdditiveGroup.IntegersModuloNAdditiveGroupBase.Elements | src/main/java/com/oliveryasuna/math/algebra/group/concrete/integers/IntegersModuloNAdditiveGroupBase.java:86-90 | elements() lists the n elements wrapping 0, 1, ..., n - 1, in ascending order |
| IntegersModuloNAdditiveGroup.IntegersModuloNAdditiveGroupBase.Capabilities | src/main/java/com/oliveryasuna/math/algebra/group/concrete/integers/IntegersModuloNAdditiveGroupBase.java:86-95 | elements() and elementCount() are implemented and answer, elementCount() is n, uniformRandomElement() is unsupported, operationCount() is 1, and the structure contract holds exactly when n is not negative |
| IntegersModuloNAdditiveGroup.IntegersModuloNAdditiveGroupBase.Generator | src/main/java/com/oliveryasuna/math/algebra/group/concrete/integers/IntegersModuloNAdditiveGroupBase.java:100-103 | the generator of a constructed group is a member of it |
| IntegersModuloNAdditiveGroup.OneGenerates | src/main/java/com/oliveryasuna/math/algebra/group/concrete/integers/IntegersModuloNAdditiveGroupBase.java:52 | the k-th multiple of 1 mod n is k mod n, so 1 mod n generates every member |
| IntegersModuloNAdditiveGroup.Sum | src/main/java/com/oliveryasuna/math/algebra/group/concrete/integers/IntegersModuloNAdditiveGroupBase.java:140-143 | the sum modulo n is always a member, so perform's getElement never fails |
| IntegersModuloNAdditiveGroup.AdditionOperation.Perform | src/main/java/com/oliveryasuna/math/algebra/group/concrete/integers/IntegersModuloNAdditiveGroupBase.java:140-143 | perform always succeeds and wraps (a + b) mod n in the operation's group |
| IntegersModuloNAdditiveGroup.SumIsAssociative | src/main/java/com/oliveryasuna/math/algebra/group/concrete/integers/IntegersModuloNAdditiveGroupBase.java:140-143 | addition modulo n is associative on all integers |
| IntegersModuloNAdditiveGroup.AdditionIsCommutativeGroupOperation | src/main/java/com/oliveryasuna/math/algebra/group/concrete/integers/IntegersModuloNAdditiveGroupBase.java:118-159 | addition modulo n with identity 0 and inverse (n - x) mod n is a commutative group operation on [0, n) |
| IntegersModuloNAdditiveGroup.AdditiveInverseCancels | src/main/java/com/oliveryasuna/math/algebra/group/concrete/integers/IntegersModuloNAdditiveGroupBase.java:156-159 | for a member x, x + (n - x) mod n is 0 modulo n, and the additive inverse is an involution |
| IntegersModuloNAdditiveGroup.ModInverse | src/main/java/com/oliveryasuna/math/algebra/group/concrete/integers/IntegersModuloNAdditiveGroupBase.java:158 | modInverse(m) throws for m <= 0; otherwise it gives a y in [0, m) with x * y congruent to 1, and throws exactly when no such y exists |
| IntegersModuloNAdditiveGroup.CommonFactorBlocksModInverse | src/main/java/com/oliveryasuna/math/algebra/group/concrete/integers/IntegersModuloNAdditiveGroupBase.java:158 | a value sharing a factor d > 1 with the modulus has no modular inverse |
| IntegersModuloNAdditiveGroup.ModInverseIsNotAdditiveInverse | src/main/java/com/oliveryasuna/math/algebra/group/concrete/integers/IntegersModuloNAdditiveGroupBase.java:156-159 | 0 has no modular inverse once n > 1, and modulo 3 the modular inverse of 1 is 1 although 1 + 1 is not 0 |
| IntegersModuloNAdditiveGroup.AdditionOperation.Inverse | src/main/java/com/oliveryasuna/math/algebra/group/concrete/integers/IntegersModuloNAdditiveGroupBase.java:156-159 | inverse as written succeeds exactly when the value has a modular inverse, and then wraps that multiplicative inverse |
| IntegersModuloNAdditiveGroup.AdditionOperation.AdditiveInverseOf | src/main/java/com/oliveryasuna/math/algebra/group/concrete/integers/IntegersModuloNAdditiveGroupBase.java:156-159 | the corrected inverse wraps (n - x) mod n in the operation's group |
| IntegersModuloNAdditiveGroup.AdditionLaws | src/main/java/com/oliveryasuna/math/algebra/group/concrete/integers/IntegersModuloNAdditiveGroupBase.java:118-159 | on the members of a constructed group, perform is commutative and associative, the identity 0 is neutral, and x plus the corrected inverse of x is the identity |
| IntegersModuloNAdditiveGroup.InverseBreaksGroupLaw | src/main/java/com/oliveryasuna/math/algebra/group/concrete/integers/IntegersModuloNAdditiveGroupBase.java:156-159 | for a constructed group with n > 1, the inverse as written throws on the identity, and for n = 3 it maps 1 to 1 though 1 + 1 is not the identity |
| IntegersRing.IntegersRingBase.Create | src/main/java/com/oliveryasuna/math/algebra/ring/concrete/integers/IntegersRingBase.java:38-47 | a null generator is rejected; otherwise the new ring's operation1 and operation2 are new, both hold identity 0, operation2 records operation1 as the operation it distributes over, and the generator wraps the integer |
| IntegersRing.IntegersRingBase.HasElement | src/main/java/com/oliveryasuna/math/algebra/ring/concrete/integers/IntegersRingBase.java:64-67 | every non-null integer is a member, null is not |
| IntegersRing.IntegersRingBase.GetElement | src/main/java/com/oliveryasuna/math/algebra/ring/concrete/integers/IntegersRingBase.java:64-67 | getElement wraps every non-null integer in an element of this ring and rejects only null |
| IntegersRing.IntegersRingBase.Generator | src/main/java/com/oliveryasuna/math/algebra/ring/concrete/integers/IntegersRingBase.java:85-88 | the generator of a constructed ring is an element of that ring |
| IntegersRing.AdditionOperation.Perform | src/main/java/com/oliveryasuna/math/algebra/ring/concrete/integers/IntegersRingBase.java:118-121 | operation1's perform wraps the sum in the operation's ring |
| IntegersRing.AdditionOperation.Inverse | src/main/java/com/oliveryasuna/math/algebra/ring/concrete/integers/IntegersRingBase.java:134-137 | operation1's inverse wraps the negated value |
| IntegersRing.MultiplicationOperation.Perform | src/main/java/com/oliveryasuna/math/algebra/ring/concrete/integers/IntegersRingBase.java:170-173 | operation2's perform as written wraps the sum of the values, not their product |
| IntegersRing.AsWrittenProductIsNotDistributive | src/main/java/com/oliveryasuna/math/algebra/ring/concrete/integers/IntegersRingBase.java:149-173 | the multiplication as written fails a x (b + c) == (a x b) + (a x c) for every a != 0, so it does not distribute over operation1; 0 is its identity only because it adds |
| IntegersRing.MultiplicationOperation.PerformCorrected | src/main/java/com/oliveryasuna/math/algebra/ring/concrete/integers/IntegersRingBase.java:170-173 | the corrected perform wraps the product of the values |
| IntegersRing.ProductIsDistributive | src/main/java/com/oliveryasuna/math/algebra/ring/concrete/integers/IntegersRingBase.java:149-173 | integer multiplication is closed, associative and commutative, distributes over addition, and has identity 1, while 0 is not an identity |
| IntegersRing.RingLaws | src/main/java/com/oliveryasuna/math/algebra/ring/concrete/integers/IntegersRingBase.java:101-189 | on a constructed ring: operation1 is commutative and associative with neutral identity 0 and inverse; operation2 names operation1 as what it distributes over; as written it breaks distributivity exactly when a != 0 and has identity 0; the corrected product distributes over operation1 |

## Left out

- `RealNumbersMultiplicativeGroupBase` and its element class are not part of this model. They are `BigDecimal` numerics whose behaviour lives in `java.math`.
- None of the modelled structures overrides `uniformRandomElement`, so only its unsupported default is modelled.
- `java.util.Random` is a parameter, a function from draw index to integer. Only the rejection loop over its draws is modelled, not its distribution.
- BigIntegerUtils.Random: the ghost parameter `accepted` names a draw that passes the bound, because the loop's termination depends on the random source. For a bound <= 0 the Java loop never ends, and the requires cannot be met; `NonPositiveBoundRejectsEveryCandidate` shows why.
- BigIntegerUtils.Increment: the null check is not modelled, because the only caller (the `elements()` iteration) never passes null.
- BigIntegerUtils.Decrement: the null check is not modelled; no caller of decrement is part of this model.
- Hash values are reduced to the relation "equal elements hash alike".
  - The structures' own `hashCode` depends on identity hashes of operation objects, so it is a parameter.
  - The Commons builders' arithmetic is modelled only up to Java `int` wrap-around (`Wrap32`).
  - `toString` is not modelled.
- `Arguments.require*` messages are not modelled, only the failure kind.
- `elements()` is a finite sequence, not a lazy `Stream`.
- An element's value cannot be null in the model, because `IntElement.value` is an `int`.
- The self-referential generic parameters and the concrete subclasses that close them are not part of this model. Elements are `IntElement` over the structure class.
- `MagmaCommon` is not part of this model. The group classes use `CommonAlgebraicStructure`'s `hasElement`/`getElement` directly.
- The trivial getters `operation()`, `operation1()`, `operation2()`, `getN()`, `getValue()`, `identity()` and `distributivity()` are field reads.
- `IntegersModuloNAdditiveGroupBase` and `IntegersRingBase` have no `equals` override. Their objects compare by reference, which is Dafny object identity.
- IntegersModuloNAdditiveGroup.AdditionOperation.Perform: requires a positive modulus, which every completed group has.
- IntegersModuloNAdditiveGroup.AdditionOperation.Inverse: requires a positive modulus, which every completed group has.
- IntegersModuloNAdditiveGroup.ModInverse: when no inverse exists, the error is stated as "no y in [0, m) works". A shared factor is proved to block an inverse (`CommonFactorBlocksModInverse`). The converse (coprime values have an inverse) is not proved.

## Findings

| source | as written | input that shows it | evidently intended | confidence | as-written member | corrected member |
|---|---|---|---|---|---|---|
| src/main/java/com/oliveryasuna/math/algebra/group/concrete/integers/IntegersModuloNAdditiveGroupBase.java:48-50 | the operation, whose constructor calls getElement(0), is created before `n` is assigned, so the range test runs against a null modulus and throws | n = 5 | assign `n` before creating the operation | not executed | IntegersModuloNAdditiveGroup.IntegersModuloNAdditiveGroupBase.Create | IntegersModuloNAdditiveGroup.IntegersModuloNAdditiveGroupBase.CreateCorrected |
| src/main/java/com/oliveryasuna/math/algebra/group/concrete/integers/IntegersModuloNAdditiveGroupBase.java:52 | the generator is getElement(n), and n is never in [0, n), so it throws even once the modulus is set | n = 5 | a member that generates Z/n, such as 1 mod n | not executed | IntegersModuloNAdditiveGroup.ModulusIsNeverAMember | IntegersModuloNAdditiveGroup.OneGenerates |
| src/main/java/com/oliveryasuna/math/algebra/group/concrete/integers/IntegersModuloNAdditiveGroupBase.java:158 | the inverse is the multiplicative inverse `modInverse(n)`, not the additive one | n = 3, element 1: inverse gives 1, and 1 + 1 = 2 is not the identity 0; element 0 with n > 1 throws | (n - x) mod n | not executed | IntegersModuloNAdditiveGroup.InverseBreaksGroupLaw | IntegersModuloNAdditiveGroup.AdditionLaws |
| src/main/java/com/oliveryasuna/math/algebra/ring/concrete/integers/IntegersRingBase.java:172 | the multiplication's perform adds the two values, and its identity (line 154) is 0 | a = 1, b = 0, c = 0: 1 x (0 + 0) = 1 but (1 x 0) + (1 x 0) = 2 | multiply the values, with identity 1 | not executed | IntegersRing.AsWrittenProductIsNotDistributive | IntegersRing.ProductIsDistributive |
