/**
 * Earliest and latest entries as optional points in time. `None` stands for
 * "no entry": the `DateTime.MaxValue`/`MinValue` starting values of the
 * per-file loop and the `null` of a report without parsed lines.
 */
module Span {
  import opened Wrappers

  /** The earlier of two optional times; an absent time is ignored. */
  function MinOpt(a: Option<int>, b: Option<int>): (r: Option<int>)
    ensures r.None? <==> a.None? && b.None?
    ensures r.Some? ==> (r == a || r == b)
    ensures r.Some? && a.Some? ==> r.value <= a.value
    ensures r.Some? && b.Some? ==> r.value <= b.value
  {
    match (a, b)
    case (None, _) => b
    case (_, None) => a
    case (Some(x), Some(y)) => if y < x then b else a
  }

  /** The later of two optional times; an absent time is ignored. */
  function MaxOpt(a: Option<int>, b: Option<int>): (r: Option<int>)
    ensures r.None? <==> a.None? && b.None?
    ensures r.Some? ==> (r == a || r == b)
    ensures r.Some? && a.Some? ==> a.value <= r.value
    ensures r.Some? && b.Some? ==> b.value <= r.value
  {
    match (a, b)
    case (None, _) => b
    case (_, None) => a
    case (Some(x), Some(y)) => if y > x then b else a
  }

  lemma MinOptCommutative(a: Option<int>, b: Option<int>)
    ensures MinOpt(a, b) == MinOpt(b, a)
  {
  }

  lemma MinOptAssociative(a: Option<int>, b: Option<int>, c: Option<int>)
    ensures MinOpt(MinOpt(a, b), c) == MinOpt(a, MinOpt(b, c))
  {
  }

  lemma MaxOptCommutative(a: Option<int>, b: Option<int>)
    ensures MaxOpt(a, b) == MaxOpt(b, a)
  {
  }

  lemma MaxOptAssociative(a: Option<int>, b: Option<int>, c: Option<int>)
    ensures MaxOpt(MaxOpt(a, b), c) == MaxOpt(a, MaxOpt(b, c))
  {
  }

  /** An ordered span: both ends absent, or both present with the earliest first. */
  predicate Ordered(earliest: Option<int>, latest: Option<int>) {
    && (earliest.None? <==> latest.None?)
    && (earliest.Some? ==> earliest.value <= latest.value)
  }

  /** Widening two ordered spans gives an ordered span. */
  lemma OrderedWiden(e1: Option<int>, l1: Option<int>, e2: Option<int>, l2: Option<int>)
    requires Ordered(e1, l1) && Ordered(e2, l2)
    ensures Ordered(MinOpt(e1, e2), MaxOpt(l1, l2))
  {
  }
}
