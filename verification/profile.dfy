/**
 The two compile-time width profiles of the cipher. The default profile
 works on 64-bit words; the `DRGC_32BIT` profile works on 32-bit words.
 Both are modelled over `bv64`: a 32-bit word is a `bv64` whose upper half
 is zero (see `Fits`).
 */
module Profile {

  /** A key, seed, accumulator or tag value. */
  type Word = bv64

  datatype Width = Bits64 | Bits32

  /** `sizeof(keyType)`: the key size and the tag length in bytes. */
  function KeySize(w: Width): (n: nat)
    ensures n == 4 || n == 8
  {
    match w
    case Bits64 => 8
    case Bits32 => 4
  }

  /** The inner pad constant of the profile. */
  function Ipad(w: Width): (c: Word)
    ensures Fits(w, c)
  {
    match w
    case Bits64 => 0x4613_A6F6_B459_51C6
    case Bits32 => 0xB459_51C6
  }

  /** The outer pad constant of the profile. */
  function Opad(w: Width): (c: Word)
    ensures Fits(w, c)
  {
    match w
    case Bits64 => 0x29E8_FF49_49B2_863D
    case Bits32 => 0x49B2_863D
  }

  /** A value of `keyType` under the profile. */
  predicate Fits(w: Width, x: Word) {
    w.Bits64? || x <= 0xFFFF_FFFF
  }

  /** Bitwise XOR of two words. */
  function Xor(a: Word, b: Word): Word {
    a ^ b
  }

  /** XOR keeps values inside the profile's width. */
  lemma XorFits(w: Width, a: Word, b: Word)
    requires Fits(w, a) && Fits(w, b)
    ensures Fits(w, Xor(a, b))
  {
    if w.Bits32? {
      LowHalvesXor(a, b);
      assert Xor(a, b) == a ^ b;
    }
  }

  /** Two words within the low 32 bits XOR to a word within them. */
  lemma LowHalvesXor(a: Word, b: Word)
    requires a <= 0xFFFF_FFFF && b <= 0xFFFF_FFFF
    ensures a ^ b <= 0xFFFF_FFFF
  {
    assert a ^ b == ((a as bv32) ^ (b as bv32)) as bv64;
  }
}
