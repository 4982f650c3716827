/** The two ways a solver run can end without a word list: a known-position
    list that names the same position twice (the source's `Dictionary.Add`
    throws), or a dictionary with no entries (the source prints a message and
    returns). */
module Outcome {

  datatype Error =
    | DuplicatePosition(position: int)
    | EmptyDictionary

  datatype Result<+T> = Success(value: T) | Failure(error: Error)
}
