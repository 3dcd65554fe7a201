/**
 * The values a trie node can hold. The C++ trie erases the value's type behind
 * `TrieNodeWithValue<T>` and recovers it with `dynamic_pointer_cast`; here each
 * value carries an explicit type tag, one per type the trie is instantiated with.
 */
module Values {
  import opened Wrappers

  newtype uint32 = x: int | 0 <= x < 0x1_0000_0000
  newtype uint64 = x: int | 0 <= x < 0x1_0000_0000_0000_0000

  /** One tag per explicit instantiation of `Trie::Get<T>` / `Trie::Put<T>`. */
  datatype TypeTag = Uint32Tag | Uint64Tag | StringTag | IntegerTag | MoveBlockedTag

  /**
   * A stored value together with its type. `Integer` is `std::unique_ptr<uint32_t>`,
   * which may be null; `MoveBlocked` is a marker type whose contents play no part
   * in the trie's behaviour.
   */
  datatype Value =
    | Uint32(u32: uint32)
    | Uint64(u64: uint64)
    | Str(s: string)
    | Integer(ptr: Option<uint32>)
    | MoveBlocked

  /** The runtime type that `dynamic_pointer_cast` compares against. */
  function TagOf(v: Value): TypeTag
  {
    match v
    case Uint32(_) => Uint32Tag
    case Uint64(_) => Uint64Tag
    case Str(_) => StringTag
    case Integer(_) => IntegerTag
    case MoveBlocked => MoveBlockedTag
  }
}
