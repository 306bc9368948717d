/** Fixed-width integers, handles and an Option type shared by every module. */
module CommonTypes {

  datatype Option<T> = None | Some(value: T)

  const TwoTo16: int := 0x1_0000
  const TwoTo32: int := 0x1_0000_0000
  const TwoTo64: int := 0x1_0000_0000_0000_0000

  type u16 = x: int | 0 <= x < TwoTo16
  type u32 = x: int | 0 <= x < TwoTo32
  type u64 = x: int | 0 <= x < TwoTo64

  /** An opaque Vulkan handle (a 64-bit value; 0 is VK_NULL_HANDLE). */
  type Handle = u64

  const NullHandle: Handle := 0

  /** Unsigned 32-bit addition as the C++ `u32` type performs it. */
  function AddU32(a: u32, b: u32): (r: u32)
    ensures r == a + b || r == a + b - TwoTo32
  {
    (a + b) % TwoTo32
  }
}
