/** A pointer word in an allocator's memory. */
module Links {

  /** Null, the start of the trusted memory, or an offset in the arena behind it. */
  datatype Link = Null | Trusted | At(off: nat)
}
