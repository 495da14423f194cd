/**
 * Vocabulary shared by both balanced-tree maps: the outcomes of the
 * OrderedMap operations.  Every failure in the Java source is an
 * IllegalArgumentException; the kinds below are the reasons it is thrown
 * for (the exception messages tell them apart).
 */
module OrderedMap {

  /** The reason an operation is refused. */
  datatype Error =
    | NullKey       // "cannot handle null key"
    | DuplicateKey  // "Key already in map" / "duplicate key"
    | KeyNotFound   // "cannot find key"
    | NoChild       // "Left does not exist" / "Right does not exist" (treap test accessors)

  /** A nullable reference: `None` stands for a Java `null` argument. */
  datatype Option<T> = None | Some(value: T)

  /** The result of an operation that returns a value or throws. */
  datatype Result<T> = Ok(value: T) | Err(error: Error)

  /** The result of an operation that returns nothing or throws. */
  datatype Outcome = Pass | Fail(error: Error)

  /** Strictly ascending order of a key sequence. */
  predicate StrictlyAscending(s: seq<int>)
  {
    forall i, j :: 0 <= i < j < |s| ==> s[i] < s[j]
  }
}
