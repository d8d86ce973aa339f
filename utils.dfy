/** Identifier comparisons (internal/utils/utils.go). */
module Utils {
  import opened Wrappers
  import opened Blocks

  /** `EqualID`: two identifiers are equal when client and clock both match. */
  predicate EqualID(a: ID, b: ID)
  {
    a.client == b.client && a.clock == b.clock
  }

  /** `EqualIDPtr`: a nil pointer on either side is never equal to anything, not even another nil. */
  predicate EqualIDPtr(a: Option<ID>, b: Option<ID>)
  {
    if a.None? || b.None? then false else EqualID(a.value, b.value)
  }

  lemma EqualIDIsIdentity(a: ID, b: ID)
    ensures EqualID(a, b) <==> a == b
  {
  }

  lemma EqualIDReflexiveSymmetric(a: ID, b: ID)
    ensures EqualID(a, a)
    ensures EqualID(a, b) ==> EqualID(b, a)
  {
  }

  lemma EqualIDPtrNil(a: Option<ID>, b: Option<ID>)
    ensures a.None? || b.None? ==> !EqualIDPtr(a, b)
    ensures a.Some? && b.Some? ==> (EqualIDPtr(a, b) <==> a.value == b.value)
  {
  }
}
