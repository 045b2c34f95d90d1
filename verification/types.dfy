/** Machine-width integer types and the optional value shared by every module. */
module Types {

  /** An unsigned 8-bit value (`U8`). */
  newtype byte = x: int | 0 <= x < 0x100

  /** An unsigned 16-bit value; bgfx handles carry one as their index. */
  newtype u16 = x: int | 0 <= x < 0x1_0000

  /** An unsigned 32-bit value (`U32`). */
  newtype u32 = x: int | 0 <= x < 0x1_0000_0000

  /** A 32-bit float kept as its bit pattern: the model never does arithmetic on it. */
  type F32 = u32

  /** The bit pattern of `0.0f`. */
  const F32_ZERO: F32 := 0

  /** A pointer that may be NULL. */
  datatype Option<+T> = None | Some(value: T)

  /**
    The linear search the render lists share: the index of the first element
    of `s` whose `key` is `k`, or `None` when there is none.
  */
  function FirstIndex<T, K(==)>(s: seq<T>, key: T -> K, k: K): (r: Option<nat>)
    ensures r.Some? ==> (r.value < |s| && key(s[r.value]) == k
      && forall j :: 0 <= j < r.value ==> key(s[j]) != k)
    ensures r.None? ==> forall j :: 0 <= j < |s| ==> key(s[j]) != k
  {
    if s == [] then None
    else if key(s[0]) == k then Some(0)
    else match FirstIndex(s[1..], key, k)
      case Some(i) => Some(i + 1)
      case None => None
  }
}
