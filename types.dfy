/** Values shared by the dynamic array, the slice and the string builder. */
module Types {

  /** `struct type`: the byte width of one element of a type-erased buffer. */
  datatype Type = Type(size: nat)

  /** `type_new`: a descriptor carrying exactly the given width. */
  function TypeNew(size: nat): (t: Type)
    ensures t.size == size
  {
    Type(size)
  }

  datatype Option<+T> = None | Some(value: T)

  /**
   * Outcome of a bounds-checked access: the byte offset of the element, or
   * the "index out of bounds" panic together with the two numbers it reports.
   */
  datatype Access = At(offset: nat) | OutOfBounds(length: nat, index: nat)
}
