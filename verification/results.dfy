/** Option and Result types shared by the data-source model, and the error
    kinds the construction of a data source can end in. */
module Results {

  datatype Option<+T> = None | Some(value: T)

  /** Why building a data source, or serving a batch from it, fails. */
  datatype Error =
    /** An utterance's floor label is neither "A" nor "B"; the position is
        (session index, utterance index) of the first such utterance. */
    | InvalidFloorLabel(floor: string, session: nat, index: nat)
    /** The supplied random draws ran out before an acceptable negative was
        found for the target at `end` of session `session`. */
    | NegativeSamplingStarvation(session: nat, end: nat)
    /** A call of `next` collected no sample; the reshape after it divides
        the X length by the batch size, which is then 0. */
    | EmptyBatch

  datatype Result<+T> = Ok(value: T) | Err(error: Error)
}
