/**
 * min and max of two possibly-null UUIDs under a comparator. The comparator
 * (UUIDComparator.staticCompare) is a parameter: only the sign of its result is used.
 */
module UuidOrdering {
  import opened Wrappers
  import opened TimestampCodec

  function Sign(x: int): int {
    if x < 0 then -1 else if x == 0 then 0 else 1
  }

  /** compare(x, y) and compare(y, x) always have opposite signs. */
  ghost predicate Antisymmetric(compare: (Uuid, Uuid) -> int) {
    forall x, y :: Sign(compare(x, y)) == -Sign(compare(y, x))
  }

  /**
   * min: a null argument yields the other one; otherwise first when it compares
   * below second, and second when the two compare equal or above.
   */
  function Min(first: Option<Uuid>, second: Option<Uuid>, compare: (Uuid, Uuid) -> int): (r: Option<Uuid>)
    ensures first.None? ==> r == second
    ensures first.Some? && second.None? ==> r == first
    ensures first.Some? && second.Some? ==> (compare(first.value, second.value) < 0 ==> r == first)
    ensures first.Some? && second.Some? ==> (compare(first.value, second.value) >= 0 ==> r == second)
    ensures r == first || r == second
  {
    if first.None? then second
    else if second.None? then first
    else if compare(first.value, second.value) < 0 then first
    else second
  }

  /**
   * max: a null argument yields the other one; otherwise second when first compares
   * below it, and first when the two compare equal or above.
   */
  function Max(first: Option<Uuid>, second: Option<Uuid>, compare: (Uuid, Uuid) -> int): (r: Option<Uuid>)
    ensures first.None? ==> r == second
    ensures first.Some? && second.None? ==> r == first
    ensures first.Some? && second.Some? ==> (compare(first.value, second.value) < 0 ==> r == second)
    ensures first.Some? && second.Some? ==> (compare(first.value, second.value) >= 0 ==> r == first)
    ensures r == first || r == second
  {
    if first.None? then second
    else if second.None? then first
    else if compare(first.value, second.value) < 0 then second
    else first
  }

  /**
   * When both are present, min and max hand back the two arguments between them,
   * whatever the comparator says, even when the two compare equal.
   */
  lemma MinMaxPartition(first: Uuid, second: Uuid, compare: (Uuid, Uuid) -> int)
    ensures multiset{Min(Some(first), Some(second), compare), Max(Some(first), Some(second), compare)}
         == multiset{Some(first), Some(second)}
  {
  }

  /** For an antisymmetric comparator, min compares at or below both arguments. */
  lemma MinIsLowerBound(first: Uuid, second: Uuid, compare: (Uuid, Uuid) -> int)
    requires Antisymmetric(compare)
    ensures var m := Min(Some(first), Some(second), compare).value;
      compare(m, first) <= 0 && compare(m, second) <= 0
  {
    assert Sign(compare(first, first)) == -Sign(compare(first, first));
    assert Sign(compare(second, second)) == -Sign(compare(second, second));
    assert Sign(compare(first, second)) == -Sign(compare(second, first));
  }

  /** For an antisymmetric comparator, max compares at or above both arguments. */
  lemma MaxIsUpperBound(first: Uuid, second: Uuid, compare: (Uuid, Uuid) -> int)
    requires Antisymmetric(compare)
    ensures var m := Max(Some(first), Some(second), compare).value;
      compare(m, first) >= 0 && compare(m, second) >= 0
  {
    assert Sign(compare(first, first)) == -Sign(compare(first, first));
    assert Sign(compare(second, second)) == -Sign(compare(second, second));
    assert Sign(compare(first, second)) == -Sign(compare(second, first));
  }

  /**
   * For an antisymmetric comparator, swapping the arguments changes neither min nor
   * max unless the two compare equal.
   */
  lemma SwapArguments(first: Uuid, second: Uuid, compare: (Uuid, Uuid) -> int)
    requires Antisymmetric(compare) && compare(first, second) != 0
    ensures Min(Some(first), Some(second), compare) == Min(Some(second), Some(first), compare)
    ensures Max(Some(first), Some(second), compare) == Max(Some(second), Some(first), compare)
  {
    assert Sign(compare(first, second)) == -Sign(compare(second, first));
  }
}
