/** Operations on 64-bit words. */
module Words {
  function Xor(a: bv64, b: bv64): bv64 {
    a ^ b
  }

  lemma XorSwaps(h: bv64, a: bv64, b: bv64)
    ensures Xor(Xor(h, a), b) == Xor(Xor(h, b), a)
  {
    Swaps(h, a, b);
    assert Xor(h, a) == h ^ a && Xor(h, b) == h ^ b;
  }

  lemma Swaps(h: bv64, a: bv64, b: bv64)
    ensures (h ^ a) ^ b == (h ^ b) ^ a
  {
  }

  // The masks that set the type flags of a number test whether a machine word is below a power of two.

  lemma SignBit32(u: bv64)
    ensures u < 0x1_0000_0000 ==> (u & 0x8000_0000 == 0 <==> u < 0x8000_0000)
  {
  }

  lemma SignBit64(u: bv64)
    ensures u & 0x8000_0000_0000_0000 == 0 <==> u < 0x8000_0000_0000_0000
  {
  }

  lemma High32(u: bv64)
    ensures u & 0xFFFF_FFFF_0000_0000 == 0 <==> u < 0x1_0000_0000
  {
  }

  lemma High33(u: bv64)
    ensures u & 0xFFFF_FFFF_8000_0000 == 0 <==> u < 0x8000_0000
  {
  }
}
