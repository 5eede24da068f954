/**
 * The two C library functions the pipeline calls, exp and sqrt, cannot be
 * computed over the reals. They are parameters of the model, and these
 * predicates say all that the proofs assume about them.
 */
module Libm {

  /** exp is positive everywhere and at most 1 on non-positive arguments. */
  ghost predicate ExpLike(exp: real -> real)
  {
    && (forall x :: exp(x) > 0.0)
    && (forall x :: x <= 0.0 ==> exp(x) <= 1.0)
  }

  /** sqrt is positive on positive arguments. */
  ghost predicate SqrtLike(sqrt: real -> real)
  {
    forall x :: x > 0.0 ==> sqrt(x) > 0.0
  }
}
