/** The hash of a trigram as a remainder of polynomials over the integers modulo 2. */
module CrcPolynomial {
  import opened Bits
  import HashTable

  /** The product of polynomials: coefficients are bits, and sums have no carries. */
  function Carryless(q: nat, p: nat): nat {
    if q == 0 then 0 else Xor(2 * Carryless(q / 2, p), if q % 2 == 1 then p else 0)
  }

  lemma {:induction false} XorAssociative(a: nat, b: nat, c: nat)
    ensures Xor(Xor(a, b), c) == Xor(a, Xor(b, c))
    decreases a + b + c
  {
    if a + b + c > 0 {
      XorAssociative(a / 2, b / 2, c / 2);
      HalfXor(a, b);
      HalfXor(b, c);
      HalfXor(Xor(a, b), c);
      HalfXor(a, Xor(b, c));
    }
  }

  lemma {:induction false} HalfXor(a: nat, b: nat)
    ensures Xor(a, b) / 2 == Xor(a / 2, b / 2) && Xor(a, b) % 2 == (a + b) % 2
    ensures Xor(2 * a, 2 * b) == 2 * Xor(a, b)
  {
  }

  lemma {:induction false} XorFromHalves(a: nat, b: nat, c: nat, d: nat)
    requires Xor(a / 2, b / 2) == Xor(c / 2, d / 2) && a % 2 == c % 2 && b % 2 == d % 2
    ensures Xor(a, b) == Xor(c, d)
  {
    hide Xor;
    HalfXor(a, b);
    HalfXor(c, d);
  }

  lemma {:induction false} HalfOfSum(p: nat, y: nat)
    ensures (2 * p + y) / 2 == p + y / 2 && (2 * p + y) % 2 == y % 2
  {
  }

  /** A common top bit cancels. */
  lemma {:induction false} XorTop(y: nat, z: nat, k: nat)
    requires y < Pow2(k) && z < Pow2(k)
    ensures Xor(Pow2(k) + y, Pow2(k) + z) == Xor(y, z)
    decreases k
  {
    hide Xor;
    if k == 0 {
      HalfXor(1, 1);
      XorZero(0);
    } else {
      XorTop(y / 2, z / 2, k - 1);
      HalfOfSum(Pow2(k - 1), y);
      HalfOfSum(Pow2(k - 1), z);
      XorFromHalves(Pow2(k) + y, Pow2(k) + z, y, z);
    }
  }

  lemma {:induction false} CrcRemainder(t: uint32, n: nat) returns (q: nat)
    ensures HashTable.Crc(t, n) == Xor(Shl(t, n), Carryless(q, 0x1_1edc_6f41))
  {
    hide Xor;
    if n == 0 {
      q := 0;
      XorZero(t);
    } else {
      var before := CrcRemainder(t, n - 1);
      var crc := HashTable.Crc(t, n - 1);
      var a, b := Shl(t, n - 1), Carryless(before, 0x1_1edc_6f41);
      HalfXor(a, b);
      HashTable.CrcNext(t, n - 1);
      XorZero(2 * b);
      if crc < 0x8000_0000 {
        q := 2 * before;
        if before == 0 { assert Carryless(q, 0x1_1edc_6f41) == 2 * b; }
      } else {
        q := 2 * before + 1;
        Pow2Values();
        XorTop(2 * (crc - 0x8000_0000), 0x1edc_6f41, 32);
        XorAssociative(2 * a, 2 * b, 0x1_1edc_6f41);
      }
    }
  }

  /** The home bucket: the trigram times x to the 32nd, modulo the generator of CRC-32C, whose
      coefficients are the bits of 0x1_1edc_6f41, and then modulo the size of the table. */
  lemma {:induction false} HashIsRemainder(trgm: uint32, size: nat) returns (q: nat, r: uint32)
    requires size > 0
    ensures r == Xor(Shl(trgm, 32), Carryless(q, 0x1_1edc_6f41))
    ensures HashTable.Hash(trgm, size) == r % size
  {
    hide Xor, Shl, HashTable.Crc, Carryless;
    q := CrcRemainder(trgm, 32);
    r := HashTable.Crc(trgm, 32);
  }
}
