/** Optional values and error-carrying results, in place of Java's null and exceptions. */
module Wrappers {

  /** A value that may be absent (a Java reference that may be null). */
  datatype Option<+T> = None | Some(value: T)

  /** The value of a call that either returns normally or throws. */
  datatype Result<+T, +E> = Ok(value: T) | Err(error: E)

  /** The outcome of a call that returns nothing or throws. */
  datatype Outcome<+E> = Pass | Fail(error: E)
}

/** The runtime exceptions the input format raises on its own account. */
module Faults {

  datatype Fault =
    /** `columnIndex.size()` on the list before `configure` built it (NullPointerException) */
    | NullColumnIndex
    /** a call on `recordReader` before `open` created one (NullPointerException) */
    | NullRecordReader
    /** `getCurrentValue` on a decoder that has not been advanced onto a record */
    | NoCurrentValue
    /** unboxing the null entry `column` of `columnIndex` (NullPointerException) */
    | NullIndexEntry(column: nat)
    /** `record[index]` for output column `column` past the record's end (ArrayIndexOutOfBoundsException) */
    | RecordIndexOutOfBounds(column: nat, index: nat)
    /** `carbonInputSplits.get(pos)` outside the group (IndexOutOfBoundsException) */
    | SplitIndexOutOfBounds(pos: int)
    /** `new InputSplit[splitNum]` with a negative `splitNum` (NegativeArraySizeException) */
    | NegativeArraySize(size: int)
}
