/** What several modules need. */
module Common {
  type Byte = b: int | 0 <= b < 256

  datatype Option<T> = None | Some(value: T)

  const W32: nat := 0x1_0000_0000

  /** `n` in `k` bytes, high byte first. */
  function BigEndian(n: nat, k: nat): (s: seq<Byte>)
    ensures |s| == k
  {
    if k == 0 then [] else BigEndian(n / 256, k - 1) + [n % 256]
  }
}
