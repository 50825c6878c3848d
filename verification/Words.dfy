/** Machine words. The C code stores bytes in `U8`/`char` and offsets in 32-bit
    `unsigned`; wrap-around is written out wherever the code can reach it. */
module Words {
  type Byte = b: int | 0 <= b < 256

  type U32 = x: int | 0 <= x < 0x1_0000_0000

  const TWO32: int := 0x1_0000_0000

  datatype Option<T> = None | Some(value: T)

  function Sub32(a: U32, b: U32): U32 {
    if a >= b then a - b else a - b + TWO32
  }

  function Add32(a: U32, b: U32): U32 {
    if a + b < TWO32 then a + b else a + b - TWO32
  }

  function Min(a: int, b: int): int {
    if a < b then a else b
  }

  function Max(a: int, b: int): int {
    if a > b then a else b
  }

  lemma MulLe(a: nat, b: nat, c: nat)
    requires a <= b
    ensures a * c <= b * c
  {
    assert (b - a) * c >= 0;
  }

  lemma Assoc<T>(a: seq<T>, b: seq<T>, c: seq<T>)
    ensures a + (b + c) == (a + b) + c
  {
  }
}
