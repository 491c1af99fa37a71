/** Shared vocabulary. Kernel outcomes: a call either returns a value or panics, and a panic halts
    the kernel (lib/print.c panics loop forever), so nothing is promised after one. */
module Outcomes {
  datatype Outcome<+T> = Returned(value: T) | Panicked {
    predicate IsFailure() { Panicked? }

    function PropagateFailure<U>(): Outcome<U>
      requires Panicked?
    {
      Panicked
    }

    function Extract(): T
      requires Returned?
    {
      value
    }
  }

  datatype Option<+T> = None | Some(value: T)

  /** The version of a piece of source code: as it stands, or with the repair that the
      design calls for. */
  datatype Version = AsWritten | Repaired

  /** Names of the large invariants that are kept closed. */
  datatype Closed = FreeLists | TreeWords | Meaning | Growth | Range | Mapping | Unmapping | NodeLinks | Links
    | Roster | Backing | Agreement | Cutting | Passing | Placing | Copying | Running

  /** Both are always true. A large invariant is stated as
      `forall k {:trigger Opened(Name, k)} :: Sealed(Name, k) ==> ...`: the verifier looks
      inside an assumed one only where a proof says `assert Opened(Name, 0)`. */
  ghost predicate Sealed(name: Closed, k: int) { true }

  ghost predicate Opened(name: Closed, k: int) { Sealed(name, k) }
}
