/** Error outcomes of the word-timestamp pipeline. Each constructor is one way the
    script stops with an exception; the model returns it instead of raising. */
module Results {

  datatype Error =
      /** `words[-1]` on an empty list: the first sub-word does not start a word. */
    | EmptyWordList
      /** `jump_times[...]` indexed by the empty float64 array that `np.cumsum([])` yields. */
    | FloatIndexArray
      /** `jump_times[...]` indexed past its end. */
    | JumpIndexOutOfRange

  datatype Result<T> = Success(value: T) | Failure(error: Error)
}
