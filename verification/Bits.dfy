/** Bitwise or and shifts on unbounded naturals, and when they are just arithmetic. */
module Bits {
  import opened Machine

  function Or(a: nat, b: nat): nat
    decreases a + b
  {
    if a == 0 then b
    else if b == 0 then a
    else (if a % 2 == 1 || b % 2 == 1 then 1 else 0) + 2 * Or(a / 2, b / 2)
  }

  function Shl(a: nat, k: nat): nat {
    a * Pow2(k)
  }

  /** A number above bit k and one below it share no bit, so that `|` adds them. */
  lemma {:induction false} OrDisjoint(high: nat, low: nat, k: nat)
    requires low < Pow2(k)
    ensures Or(Shl(high, k), low) == Shl(high, k) + low
    ensures Or(low, Shl(high, k)) == Shl(high, k) + low
  {
    if k > 0 && low > 0 && high > 0 {
      var h := Shl(high, k - 1);
      assert Shl(high, k) == 2 * h;
      OrDisjoint(high, low / 2, k - 1);
      assert 2 * h / 2 == h && 2 * h % 2 == 0;
    }
  }

  lemma ModUnique(x: int, m: int, q: int, r: int)
    requires m > 0 && x == m * q + r && 0 <= r < m
    ensures x % m == r
  {
    var d := x / m - q;
    assert m * d == r - x % m by {
      assert x == m * (x / m) + x % m;
    }
    assert d >= 1 ==> m * d >= m;
    assert d <= -1 ==> m * d <= -m;
  }

  lemma ModScale(a: nat, m: nat, k: nat)
    requires m > 0 && k > 0
    ensures m * k > 0 && a * k % (m * k) == a % m * k
    ensures a % m * k + k <= m * k
  {
    var r := a % m;
    assert r * k + k == (r + 1) * k <= m * k;
    assert a * k == (m * k) * (a / m) + r * k by {
      assert a == m * (a / m) + r;
    }
    ModUnique(a * k, m * k, a / m, r * k);
  }

  /** Shifting left in a word of w bits drops the bits that leave it. */
  lemma ShlInWord(a: nat, k: nat, w: nat)
    requires k <= w
    ensures Shl(a, k) % Pow2(w) == Shl(a % Pow2(w - k), k)
    ensures Shl(a % Pow2(w - k), k) + Pow2(k) <= Pow2(w)
  {
    Pow2Add(w - k, k);
    ModScale(a, Pow2(w - k), Pow2(k));
  }

  lemma ShlOutOfWord(a: nat, k: nat, w: nat)
    requires k >= w
    ensures Shl(a, k) % Pow2(w) == 0
  {
    Pow2Add(k - w, w);
    var p, m := Pow2(k - w), Pow2(w);
    Products(a, p, m);
    ModUnique(a * (p * m), m, a * p, 0);
  }

  lemma Products(a: nat, p: nat, m: nat)
    ensures a * (p * m) == m * (a * p)
  {
  }

  lemma ModAdds(x: nat, y: nat, m: nat)
    requires m > 0
    ensures (x % m + y % m) % m == (x + y) % m
  {
    var r := (x % m + y % m) % m;
    var q := x / m + y / m + (x % m + y % m) / m;
    assert x + y == m * q + r by {
      assert x == m * (x / m) + x % m && y == m * (y / m) + y % m;
    }
    ModUnique(x + y, m, q, r);
  }

  lemma WordStays(x: word)
    ensures U64(x) == x
  {
  }

  /** One more group of bits or-ed into a word of w bits that has only bits below k. */
  lemma OrInWord(p: nat, d: nat, k: nat, w: nat)
    requires p < Pow2(k)
    ensures Or(p % Pow2(w), Shl(d, k) % Pow2(w)) == (p + Shl(d, k)) % Pow2(w)
  {
    ModAdds(p, Shl(d, k), Pow2(w));
    if k <= w {
      ShlInWord(d, k, w);
      var high := d % Pow2(w - k);
      OrDisjoint(high, p, k);
      ModUnique(p, Pow2(w), 0, p);
      ModUnique(Shl(high, k) + p, Pow2(w), 0, Shl(high, k) + p);
    } else {
      ShlOutOfWord(d, k, w);
      ModUnique(p % Pow2(w), Pow2(w), 0, p % Pow2(w));
    }
  }

  /** Low bits or-ed into a word shifted to make room for them. */
  lemma OrBelow(val: nat, d: nat, k: nat, w: nat)
    requires d < Pow2(k) && k <= w
    ensures Or(Shl(val, k) % Pow2(w), d) == (Shl(val, k) + d) % Pow2(w)
  {
    var high := val % Pow2(w - k);
    ShlInWord(val, k, w);
    OrDisjoint(high, d, k);
    ModAddSmall(Shl(val, k), d, Pow2(w));
  }

  lemma ModAddSmall(x: nat, d: nat, m: nat)
    requires m > 0 && x % m + d < m
    ensures (x + d) % m == x % m + d
  {
    assert x == m * (x / m) + x % m;
    ModUnique(x + d, m, x / m, x % m + d);
  }

  const WORD_BITS: nat := 64

  const HALF_WORD_BITS: nat := 32

  lemma HalfWordIsPow2()
    ensures Pow2(HALF_WORD_BITS) == TWO_32
  {
    assert Pow2(4) == 16;
    Pow2Add(4, 4);
    Pow2Add(8, 8);
    Pow2Add(16, 16);
  }

  lemma WordIsPow2()
    ensures Pow2(WORD_BITS) == TWO_64
  {
    HalfWordIsPow2();
    Pow2Add(HALF_WORD_BITS, HALF_WORD_BITS);
  }

  lemma OrStep(p: nat, d: nat, k: nat)
    requires p < Pow2(k)
    ensures Or(U64(p), U64(Shl(d, k))) == U64(p + Shl(d, k))
  {
    WordIsPow2();
    OrInWord(p, d, k, WORD_BITS);
  }
}
