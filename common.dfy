/** Types shared by the containers: bytes, the 64-bit hash type and Option. */
module Common {

  /** One byte of an item's fixed-size value block. */
  type byte = x: int | 0 <= x < 0x100

  /** A C `unsigned long` on an LP64 platform (the map's hash type). */
  type u64 = x: int | 0 <= x < 0x1_0000_0000_0000_0000

  /** A nullable pointer or an optional result. */
  datatype Option<T> = None | Some(value: T)

  /** A freshly allocated item block: `malloc` leaves it undefined, the model fills it with zeros. */
  function Zeros(n: nat): (r: seq<byte>)
    ensures |r| == n
  {
    seq(n, _ => 0)
  }
}
