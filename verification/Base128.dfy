/** Groups of seven bits, least significant first, with a continuation bit in each byte. */
module Base128 {
  import opened Machine
  import opened Bits

  /** The low seven bits of each byte, the first byte lowest. */
  function Payload(bs: seq<byte>): (p: nat)
    ensures p < Pow2(7 * |bs|)
  {
    if bs == [] then 0
    else
      var n := |bs| - 1;
      var d := bs[n] % 0x80;
      PayloadFits(Payload(bs[..n]), d, n);
      Payload(bs[..n]) + Shl(d, 7 * n)
  }

  lemma SevenBits(n: nat)
    ensures Pow2(7 * (n + 1)) == 0x80 * Pow2(7 * n)
  {
    var k := 7 * n;
    assert Pow2(k + 2) == 4 * Pow2(k);
    assert Pow2(k + 4) == 16 * Pow2(k);
    assert Pow2(k + 6) == 64 * Pow2(k);
  }

  lemma PayloadFits(p: nat, d: nat, n: nat)
    requires p < Pow2(7 * n) && d < 0x80
    ensures p + Shl(d, 7 * n) < Pow2(7 * (n + 1))
  {
    SevenBits(n);
    assert d * Pow2(7 * n) <= 0x7f * Pow2(7 * n);
  }

  /** Every byte but the last says that another follows. */
  predicate WellFormed(bs: seq<byte>) {
    && bs != [] && bs[|bs| - 1] < 0x80
    && forall i :: 0 <= i < |bs| - 1 ==> bs[i] >= 0x80
  }

  lemma {:induction false} PayloadCons(b: byte, rest: seq<byte>)
    ensures Payload([b] + rest) == b % 0x80 + 0x80 * Payload(rest)
  {
    var all := [b] + rest;
    if rest == [] {
      assert Payload(all) == Payload(all[..0]) + Shl(b % 0x80, 7 * 0);
    } else {
      var n := |rest| - 1;
      var d := rest[n] % 0x80;
      PayloadCons(b, rest[..n]);
      assert all[..|all| - 1] == [b] + rest[..n];
      SevenBits(n);
      assert d * (0x80 * Pow2(7 * n)) == 0x80 * (d * Pow2(7 * n));
    }
  }

  lemma WellFormedCons(b: byte, rest: seq<byte>)
    requires b >= 0x80 && rest != []
    ensures WellFormed([b] + rest) <==> WellFormed(rest)
  {
    var bs := [b] + rest;
    assert forall i :: 0 <= i < |rest| ==> bs[i + 1] == rest[i];
    assert bs[|bs| - 1] == rest[|rest| - 1];
    if WellFormed(bs) {
      assert forall i :: 0 <= i < |rest| - 1 ==> rest[i] == bs[i + 1];
    }
  }

  /** The value with the low seven bits of a byte or-ed in above `shift`, in a word of `width` bits. */
  function WithGroup(val: nat, b: byte, shift: nat, width: nat): nat {
    Or(val, Shl(b % 0x80, shift) % Pow2(width))
  }

  lemma GroupJoins(bs: seq<byte>, b: byte, shift: nat, width: nat)
    requires shift == 7 * |bs|
    ensures WithGroup(Payload(bs) % Pow2(width), b, shift, width) == Payload(bs + [b]) % Pow2(width)
  {
    PayloadAppends(bs, b);
    OrInWord(Payload(bs), b % 0x80, shift, width);
  }

  /** The payload of one more byte. */
  lemma PayloadAppends(bs: seq<byte>, b: byte)
    ensures Payload(bs + [b]) == Payload(bs) + Shl(b % 0x80, 7 * |bs|)
  {
    assert (bs + [b])[..|bs|] == bs;
  }
}
