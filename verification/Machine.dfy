/** Machine words and the few helpers every component shares. */
module Machine {

  datatype Option<+T> = None | Some(value: T)

  const TWO_32: int := 0x1_0000_0000
  const TWO_63: int := 0x8000_0000_0000_0000
  const TWO_64: int := 0x1_0000_0000_0000_0000

  type byte = x: int | 0 <= x < 0x100
  type word32 = x: int | 0 <= x < 0x1_0000_0000
  type word = x: int | 0 <= x < 0x1_0000_0000_0000_0000

  /** Truncation to an unsigned machine word. */
  function U32(x: int): word32 {
    x % TWO_32
  }

  function U64(x: int): word {
    x % TWO_64
  }

  lemma U32Wraps(x: int, q: int)
    ensures U32(x + TWO_32 * q) == U32(x)
  {
    assert (x + TWO_32 * q) / TWO_32 == x / TWO_32 + q;
  }

  lemma U32Adds(x: int, y: int)
    ensures U32(U32(x) + y) == U32(x + y)
  {
    U32Wraps(x + y, -(x / TWO_32));
  }

  lemma U64Adds(x: int, y: int)
    ensures U64(U64(x) + y) == U64(x + y)
  {
  }

  /** The two's complement reading of a 64-bit word (a cast to `long`). */
  function S64(x: word): int {
    if x < TWO_63 then x else x - TWO_64
  }

  lemma Regroup<T>(a: seq<T>, b: seq<T>, c: seq<T>)
    ensures a + (b + c) == (a + b) + c
  {
  }

  function Pow2(n: nat): (r: nat)
    ensures r > 0
  {
    if n == 0 then 1 else 2 * Pow2(n - 1)
  }

  lemma {:induction false} Pow2Add(a: nat, b: nat)
    ensures Pow2(a + b) == Pow2(a) * Pow2(b)
  {
    if b > 0 {
      Pow2Add(a, b - 1);
      assert Pow2(a + b) == 2 * (Pow2(a) * Pow2(b - 1));
    }
  }

  /** C's truncating division by a positive divisor. */
  function CDiv(a: int, b: int): int
    requires b > 0
  {
    if a >= 0 then a / b else -((-a) / b)
  }
}
