/** Outcomes of the modelled operations: the original's `Option`, and its `Result` with the errors it can return. */
module Results {

  datatype Option<+T> = None | Some(value: T)

  datatype Error =
    | MemorySetupFailed(reason: string)
    | PopulatePhysmapFailed
    | MmapFailed
    | MmapBatchFailed
    | UnmapFailed
    | HypercallFailed
    | DevIdExhausted
    | InvalidBusData
    | UnexpectedEof
    | InvalidUtf8
    | ElfXenNoteMissing(name: string)
    | ElfInvalidImage(reason: string)

  /** The errors of a call that should have mapped pages and did not. */
  predicate MappingError(e: Error) {
    e.MmapFailed? || e.MmapBatchFailed?
  }

  /** The errors of the hypervisor and of the mapping driver, which no input can rule out. */
  predicate HostError(e: Error) {
    MappingError(e) || e.PopulatePhysmapFailed? || e.HypercallFailed?
  }

  /** As well, a mapping that could not be removed. */
  predicate OutsideError(e: Error) {
    HostError(e) || e.UnmapFailed?
  }

  /** Of an operation that counts the failed calls below it: success means that none has failed, and an error from
      outside that one has. */
  predicate Faulted<T(!new)>(r: Result<T>, before: nat, after: nat) {
    before <= after && (r.Ok? ==> after == before) && (r.Err? && OutsideError(r.error) ==> after > before)
  }

  datatype Result<+T> = Ok(value: T) | Err(error: Error) {
    predicate IsFailure() {
      Err?
    }

    function PropagateFailure<U>(): Result<U>
      requires Err?
    {
      Err(error)
    }

    function Extract(): T
      requires Ok?
    {
      value
    }
  }
}
