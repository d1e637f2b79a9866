/** Where the frame cache looks for a pc first. */
module CacheHash {
  import opened Machine
  import opened Bits
  import opened TraceCache

  /** The mask of a table's size keeps the remainder by it. */
  lemma {:induction false} LowBitsAreMod(x: nat, bits: nat)
    ensures LowBits(x, bits) == x % Pow2(bits)
  {
    if bits > 0 {
      LowBitsAreMod(x / 2, bits - 1);
      DoubleMod(x / 2, Pow2(bits - 1), x % 2);
    }
  }

  lemma DoubleMod(h: nat, m: nat, b: nat)
    requires m > 0 && b < 2
    ensures (2 * h + b) % (2 * m) == 2 * (h % m) + b
  {
    var q, r := h / m, h % m;
    assert h == m * q + r;
    DoubleProduct(m, q);
    ModUnique(2 * h + b, 2 * m, q, 2 * r + b);
  }

  lemma DoubleProduct(m: nat, q: nat)
    ensures 2 * m * q == 2 * (m * q)
  {
  }

  /** The slot a pc is looked for first: bits 43 and up of the product, by the table's size. */
  lemma HomeNamed(pc: word, logSize: nat)
    ensures Home(pc, logSize) ==
      pc * 0x9e37_79b9_7f4a_7c16 % 0x1_0000_0000_0000_0000 / 0x800_0000_0000 % Pow2(logSize)
  {
    LowBitsAreMod(U64(pc * HASH_MULTIPLIER) / 0x800_0000_0000, logSize);
  }
}
