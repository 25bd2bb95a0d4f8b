/** Types shared by all parts of the model. */
module Basics {

  datatype Option<+T> = None | Some(value: T)

  newtype Byte = x: int | 0 <= x < 256

  /** The address of a buffer or of a memory mapping. */
  type Ptr = nat

  datatype ObjectId = ObjectId(high: int, low: int)

  /** How a call to the storage ends: it succeeds, or it fails after some bytes. */
  type Outcome = Option<nat>

  /** The call got as far as byte `i`. */
  predicate Reaches(o: Outcome, i: nat) { o.None? || i < o.value }

  /** None of the calls numbered `[from, upto)` fails. */
  ghost predicate Quiet(outcome: nat -> Outcome, from: nat, upto: nat) {
    forall n: nat | from <= n < upto :: outcome(n).None?
  }
}
