/** The Java-level values the hash table handles: references that may be
    null, the outcome of a call that may throw, and the "absent" indicator
    the model uses where the Java code overloads `null`. */
module Java {

  /** A Java reference: `null` or a reference to a value of type `T`. */
  datatype Ref<+T> = Null | Obj(value: T)

  /** The model's lookup result: absent, or present with a value. Kept
      distinct from `Ref` so that "no entry" and "entry holding null" are
      told apart. */
  datatype Option<+T> = None | Some(value: T)

  /** How a call ends: a normal return with a value, or a
      `NullPointerException` (the only exception the table can raise). */
  datatype Outcome<+T> = Normal(value: T) | NullPointer
}
