/**
 Properties out of sight. Where a property is only passed on, its body costs the verifier much and helps it nothing.
 Such a property P(x) is also stated as

     forall y {:trigger Look(y)} :: Look(y) && y == x ==> P(y)

 which says the same, since Look holds of everything, but is put to use only where Look(x) is mentioned.
 */
module Hiding {
  ghost predicate Look<T>(x: T) {
    true
  }
}
