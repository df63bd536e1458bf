/** Option and Result values, and the failures the changelog tool can raise. */
module Wrappers {

  datatype Option<T> = None | Some(value: T)

  datatype Result<T, E> = Ok(value: T) | Err(error: E)

  /** Every exception the modelled code can end a run with. */
  datatype Error =
    | NoRecords          // ValueError 'No records in changelog file'
    | NoCompareLinks     // ValueError 'No GitHub compare links found'
    | CompareAtStart     // ValueError 'GitHub comparison lines go to start of file'
    | NoCompareMarker    // ValueError: the compare line has no '/compare/' to split at
    | NoLabelColon       // IndexError: the head of the compare line has no ':'
    | EmptyEntry         // ValueError "You didn't provide any log entries"
    | NoVersionFound     // AttributeError: increment called on None
}
