/**
 The xorshift keystream primitive `shuffle`: three XOR-shift steps with a
 fixed shift triple per profile, all modulo the word width.
 */
module Xorshift {
  import opened Profile

  /** One application of `shuffle`. Under the 32-bit profile the word is
      taken as its low 32 bits, which is all a 32-bit `keyType` holds. */
  function Shuffle(w: Width, x: Word): (r: Word)
    ensures Fits(w, r)
    ensures x == 0 ==> r == 0
  {
    match w
    case Bits64 =>
      var a := x ^ (x << 13);
      var b := a ^ (a >> 7);
      b ^ (b << 17)
    case Bits32 =>
      var y := (x & 0xFFFF_FFFF) as bv32;
      var a := y ^ (y << 13);
      var b := a ^ (a >> 17);
      (b ^ (b << 5)) as bv64
  }

  /** Zero is the only word `shuffle` sends to zero: a zero seed stays zero
      for ever, and a nonzero seed never becomes zero. */
  lemma ZeroOnlyFromZero(w: Width, x: Word)
    requires Fits(w, x)
    ensures Shuffle(w, x) == 0 <==> x == 0
  {
  }
}
