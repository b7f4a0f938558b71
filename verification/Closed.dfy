/** Closed definitions. A predicate written `forall eye :: Look(eye) ==> D` means D, but a proof sees D
    only where it mentions `Look(Eye)`: the lemma beside each such predicate does. This keeps large
    definitions out of proofs that merely pass them on. */
module Closed {
  datatype Eye = Eye

  predicate Look(eye: Eye) {
    true
  }
}
