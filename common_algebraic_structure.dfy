/** The construct-or-validate pattern shared by every concrete structure: `hasElement` guards
    against null and defers to the structure's `hasElementSafe`; `getElement` rejects a value that is
    not a member and otherwise defers to the structure's `getElementSafe`. The two structure-specific
    halves are passed in as functions; a `hasElementSafe` that throws is an `Err` result. */
module CommonAlgebraicStructure {
  import opened Outcomes

  /** hasElement(value): false for null, otherwise hasElementSafe(value). */
  function HasElement(hasElementSafe: int -> Result<bool>, value: Option<int>): (r: Result<bool>)
    ensures value.None? ==> r == Ok(false)
    ensures value.Some? ==> r == hasElementSafe(value.value)
  {
    if value.None? then Ok(false) else hasElementSafe(value.value)
  }

  /** getElement(value): throws, naming the value, unless hasElement(value); then getElementSafe(value). */
  function GetElement<E>(hasElementSafe: int -> Result<bool>, getElementSafe: int -> E, value: Option<int>): (r: Result<E>)
    ensures r.Ok? <==> HasElement(hasElementSafe, value) == Ok(true)
    ensures HasElement(hasElementSafe, value) == Ok(false) ==> r == Err(NotAMember(value))
    ensures HasElement(hasElementSafe, value).Err? ==> r == Err(HasElement(hasElementSafe, value).error)
    ensures r.Ok? ==> value.Some? && r.value == getElementSafe(value.value)
  {
    match HasElement(hasElementSafe, value)
    case Err(e) => Err(e)
    case Ok(member) => if member then Ok(getElementSafe(value.value)) else Err(NotAMember(value))
  }

  /** Whatever getElement returns wraps a value the membership test accepts, and getElement
      succeeds on every such value. */
  lemma GetElementAcceptsExactlyMembers<E>(hasElementSafe: int -> Result<bool>, getElementSafe: int -> E, value: int)
    ensures GetElement(hasElementSafe, getElementSafe, Some(value)).Ok? <==> hasElementSafe(value) == Ok(true)
    ensures GetElement(hasElementSafe, getElementSafe, Some(value)).Ok?
            ==> GetElement(hasElementSafe, getElementSafe, Some(value)).value == getElementSafe(value)
    ensures GetElement(hasElementSafe, getElementSafe, None) == Err(NotAMember(None))
  {
  }
}
