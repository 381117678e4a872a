/** Types shared by the bootstrap, hop-counting and trial models. */
module Common {

  /** A libp2p peer identity (the string form of its multihash). */
  type PeerId = string

  /** A content key (the string form of an item's multihash); opaque here. */
  type Key = string

  /** A value that may be absent: a nil pointer, a missing map entry. */
  datatype Option<+T> = None | Some(value: T)
}
