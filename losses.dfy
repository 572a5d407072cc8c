/** Validation losses as the training driver compares them. */
module Losses {

  /** A per-member validation loss: a finite real or `+infinity`, the value every
      member's best loss starts from (`float('inf')`). */
  datatype Loss = Inf | Fin(value: real)

  /** The driver's `new_loss < old_loss`. */
  predicate Less(a: Loss, b: Loss) {
    match (a, b)
    case (Fin(x), Fin(y)) => x < y
    case (Fin(_), Inf) => true
    case (Inf, _) => false
  }

  predicate LessEq(a: Loss, b: Loss) {
    !Less(b, a)
  }

  /** `Less` is a strict total order with `Inf` on top. */
  lemma LessIsStrictTotalOrder(a: Loss, b: Loss, c: Loss)
    ensures !Less(a, a)
    ensures Less(a, b) ==> !Less(b, a)
    ensures Less(a, b) && Less(b, c) ==> Less(a, c)
    ensures a != b ==> Less(a, b) || Less(b, a)
    ensures LessEq(a, Inf)
  {
  }

  lemma LessEqTransitive(a: Loss, b: Loss, c: Loss)
    requires LessEq(a, b) && LessEq(b, c)
    ensures LessEq(a, c)
  {
  }
}
