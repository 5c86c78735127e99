/** The fixed-width integers of the C++ sources, and the small result types shared by the models. */
module Words {
  const TWO_32: int := 0x1_0000_0000
  const TWO_64: int := 0x1_0000_0000_0000_0000

  type u8 = x: int | 0 <= x < 0x100
  type u32 = x: int | 0 <= x < 0x1_0000_0000
  type u64 = x: int | 0 <= x < 0x1_0000_0000_0000_0000

  /** The value of a number in a std::uint64_t: its remainder modulo 2^64. */
  function Wrap(n: nat): u64 {
    if n < 0x1_0000_0000_0000_0000 then n else Wrap(n - 0x1_0000_0000_0000_0000)
  }

  lemma {:induction false} WrapIsRemainder(n: nat)
    ensures Wrap(n) == n % TWO_64
  {
    if n >= TWO_64 {
      WrapIsRemainder(n - TWO_64);
      assert n % TWO_64 == (n - TWO_64) % TWO_64;
    }
  }

  /** Addition on std::uint64_t: the carry out of bit 63 is dropped. */
  function Plus(a: u64, b: u64): u64 {
    if a + b < 0x1_0000_0000_0000_0000 then a + b else a + b - 0x1_0000_0000_0000_0000
  }

  /** The sum is the one modulo 2^64, whether or not the operands had wrapped before. */
  lemma {:induction false} PlusWraps(n: nat, amount: u64)
    ensures Plus(Wrap(n), amount) == Wrap(n + amount)
  {
    if n >= TWO_64 {
      PlusWraps(n - TWO_64, amount);
    }
  }

  /** A conversion from std::uint64_t to std::uint32_t keeps the low half. */
  function Narrow(n: u64): u32 {
    n % 0x1_0000_0000
  }

  function Min(a: int, b: int): int {
    if a <= b then a else b
  }

  datatype Option<+T> = None | Some(value: T)

  datatype Result<+T, +E> = Ok(value: T) | Err(error: E)
}
