/** An element of a structure: the owning structure (AbstractAlgebraicElement) and the integer it
    wraps (IntegersAdditiveGroupElementBase), with the two levels of `equals` and `hashCode`. */
module AlgebraicElement {
  import opened Outcomes

  /** An immutable element object. `structure` is a reference to the owning structure. */
  datatype IntElement<S> = IntElement(value: int, structure: S)

  /** The element constructor: a null structure is rejected; the value is not checked for membership. */
  function New<S>(value: int, structure: Option<S>): (r: Result<IntElement<S>>)
    ensures r.Err? <==> structure.None?
    ensures r.Err? ==> r.error == NullArgument
    ensures r.Ok? ==> r.value.structure == structure.value && r.value.value == value
  {
    match structure
    case None => Err(NullArgument)
    case Some(s) => Ok(IntElement(value, s))
  }

  /** AbstractAlgebraicElement.equals: same runtime class and equal owning structures. The structures'
      equality is taken as reference equality; for (Z, +), whose equals compares operation objects,
      the two agree on constructed groups (IntegersAdditiveGroup.StructureEqualsIsGroupEquals). */
  predicate StructureEquals<S(==)>(self: IntElement<S>, other: JavaObject<IntElement<S>>): (r: bool)
    ensures r <==> other.SameClass? && other.obj.structure == self.structure
  {
    match other
    case Null => false
    case OtherClass => false
    case SameClass(o) => o == self || o.structure == self.structure
  }

  /** IntegersAdditiveGroupElementBase.equals: the inherited comparison and equal values. */
  predicate Equals<S(==)>(self: IntElement<S>, other: JavaObject<IntElement<S>>): (r: bool)
    ensures r <==> other.SameClass? && other.obj.structure == self.structure && other.obj.value == self.value
    ensures r ==> StructureEquals(self, other)
  {
    match other
    case Null => false
    case OtherClass => false
    case SameClass(o) => o == self || (StructureEquals(self, other) && o.value == self.value)
  }

  /** equals is reflexive and false for null or another class, at both levels. */
  lemma EqualsIsReflexiveAndClassStrict<S>(self: IntElement<S>)
    ensures Equals(self, SameClass(self)) && StructureEquals(self, SameClass(self))
    ensures !Equals(self, Null) && !Equals(self, OtherClass)
    ensures !StructureEquals(self, Null) && !StructureEquals(self, OtherClass)
  {
  }

  /** Two elements are equal exactly when they have the same structure and the same value. */
  lemma EqualsIsStructureAndValue<S>(self: IntElement<S>, other: IntElement<S>)
    ensures Equals(self, SameClass(other)) <==> other.structure == self.structure && other.value == self.value
    ensures Equals(self, SameClass(other)) <==> StructureEquals(self, SameClass(other)) && other.value == self.value
    ensures Equals(self, SameClass(other)) == Equals(other, SameClass(self))
  {
  }

  /** The inherited comparison ignores the wrapped values: a subclass that does not override it
      equates every two elements of one structure. */
  lemma StructureEqualsIgnoresValue<S>(self: IntElement<S>, other: IntElement<S>, v: int, w: int)
    ensures StructureEquals(self, SameClass(other))
            == StructureEquals(self.(value := v), SameClass(other.(value := w)))
    ensures StructureEquals(IntElement(v, self.structure), SameClass(IntElement(w, self.structure)))
  {
  }

  /** Java int arithmetic: reduce to the 32-bit two's-complement range. */
  function Wrap32(x: int): (r: int)
    ensures -0x8000_0000 <= r < 0x8000_0000
    ensures (x - r) % 0x1_0000_0000 == 0
  {
    (x + 0x8000_0000) % 0x1_0000_0000 - 0x8000_0000
  }

  /** AbstractAlgebraicElement.hashCode: a builder seeded with 17 and multiplier 37 fed the owning
      structure's hash, `structureHash`. */
  function StructureHash<S>(self: IntElement<S>, structureHash: S -> int): (r: int)
    ensures -0x8000_0000 <= r < 0x8000_0000
    ensures (r - structureHash(self.structure)) % 0x1_0000_0000 == 17 * 37
  {
    Wrap32(17 * 37 + structureHash(self.structure))
  }

  /** IntegersAdditiveGroupElementBase.hashCode: the same builder fed the inherited hash, then the
      value's hash, `valueHash`. */
  function Hash<S>(self: IntElement<S>, structureHash: S -> int, valueHash: int -> int): (r: int)
    ensures -0x8000_0000 <= r < 0x8000_0000
    ensures (r - (17 * 37 + StructureHash(self, structureHash)) * 37 - valueHash(self.value)) % 0x1_0000_0000 == 0
  {
    Wrap32((17 * 37 + StructureHash(self, structureHash)) * 37 + valueHash(self.value))
  }

  /** Equal elements have equal hashes, at both levels. */
  lemma EqualElementsHashAlike<S>(self: IntElement<S>, other: IntElement<S>, structureHash: S -> int, valueHash: int -> int)
    ensures StructureEquals(self, SameClass(other)) ==> StructureHash(self, structureHash) == StructureHash(other, structureHash)
    ensures Equals(self, SameClass(other)) ==> Hash(self, structureHash, valueHash) == Hash(other, structureHash, valueHash)
  {
  }
}
