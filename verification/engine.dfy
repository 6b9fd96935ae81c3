/**
 The per-byte cipher engine: the tag fold `calcHash`, the byte transforms
 `encrypt` and `decrypt`, and the session set-up `head` and finalisation
 `tail`. The keystream seed, which the C keeps in a file-level static, is
 part of an explicit `Session` value threaded through every step.
 */
module Engine {
  import opened Profile
  import opened Xorshift

  /** Per-call cipher state: keystream seed, running tag, outer pad. */
  datatype Session = Session(seed: Word, hmac: Word, opad: Word)

  /** Result of transforming one byte. */
  datatype Step = Step(session: Session, out: bv8)

  /** Every part of the session is a `keyType` value of the profile. */
  predicate Valid(w: Width, s: Session) {
    Fits(w, s.seed) && Fits(w, s.hmac) && Fits(w, s.opad)
  }

  /** The low 8 bits of a freshly shuffled seed: the byte mask. */
  function Keystream(seed: Word): bv8 {
    (seed & 0xFF) as bv8
  }

  /** A byte masked with a keystream byte. */
  function Mask(b: bv8, k: bv8): bv8 {
    b ^ k
  }

  /** Masking twice with the same keystream byte is the identity. */
  lemma MaskTwice(b: bv8, k: bv8)
    ensures Mask(Mask(b, k), k) == b
  {
  }

  /** Bit position at which `calcHash` places the next byte: the seed
      modulo `8 * sizeof(keyType) - 8`. */
  function Lane(w: Width, seed: Word): (k: nat)
    ensures k < 8 * KeySize(w) - 8
  {
    (seed as int) % (8 * KeySize(w) - 8)
  }

  /** The byte shifted into its lane, as a word. In every lane `Lane` can
      choose the byte fits in the profile's word and can be shifted back out
      intact: no bit of it is lost off the top. */
  function Place(w: Width, b: bv8, lane: nat): (x: Word)
    requires lane < 8 * KeySize(w) - 8
    ensures Fits(w, x)
    ensures x >> lane == b as Word
  {
    (b as Word) << lane
  }

  /** `calcHash`: XOR the byte into the accumulator at the lane chosen by
      the current seed, then diffuse the accumulator with `shuffle`. */
  function CalcHash(w: Width, seed: Word, b: bv8, hmac: Word): (r: Word)
    ensures Fits(w, r)
  {
    Shuffle(w, Xor(hmac, Place(w, b, Lane(w, seed))))
  }

  /** `head`: the inner-padded key, shuffled once, starts the tag; the outer
      pad is kept for `tail`; the seed is the key itself, not clamped. */
  function Head(w: Width, key: Word): (s: Session)
    requires Fits(w, key)
    ensures Valid(w, s)
    ensures s.seed == key
  {
    XorFits(w, key, Opad(w));
    Session(key, Shuffle(w, Xor(key, Ipad(w))), Xor(key, Opad(w)))
  }

  /** `tail`: XOR the outer pad into the tag and shuffle once more. */
  function Tail(w: Width, s: Session): (tag: Word)
    ensures Fits(w, tag)
  {
    Shuffle(w, Xor(s.hmac, s.opad))
  }

  /** The step shared by both directions once the plaintext byte is known:
      fold the plaintext into the tag at the lane of the shuffled seed, then
      mix the new tag into the seed. */
  function Absorb(w: Width, shuffled: Word, plain: bv8, s: Session): Session {
    var hmac := CalcHash(w, shuffled, plain, s.hmac);
    Session(Xor(shuffled, hmac), hmac, s.opad)
  }

  /** `encrypt`: mask the byte with the shuffled seed and fold the
      plaintext byte into the tag. The same keystream byte unmasks the
      output, and `decrypt` of the output reaches the same session. */
  function EncryptByte(w: Width, s: Session, b: bv8): (r: Step)
    ensures Mask(r.out, Keystream(Shuffle(w, s.seed))) == b
    ensures DecryptByte(w, s, r.out).session == r.session
  {
    var shuffled := Shuffle(w, s.seed);
    Step(Absorb(w, shuffled, b, s), Mask(b, Keystream(shuffled)))
  }

  /** `decrypt`: unmask the byte with the shuffled seed and fold the
      recovered plaintext byte, not the ciphertext byte, into the tag.
      Masking the output with the same keystream byte gives the input
      back. */
  function DecryptByte(w: Width, s: Session, c: bv8): (r: Step)
    ensures Mask(r.out, Keystream(Shuffle(w, s.seed))) == c
  {
    var shuffled := Shuffle(w, s.seed);
    var plain := Mask(c, Keystream(shuffled));
    Step(Absorb(w, shuffled, plain, s), plain)
  }

  /** Decrypting the output of `encrypt` from the same session gives back
      the plaintext byte and the very same next session. */
  lemma EncryptThenDecrypt(w: Width, s: Session, b: bv8)
    ensures DecryptByte(w, s, EncryptByte(w, s, b).out) == Step(EncryptByte(w, s, b).session, b)
  {
    MaskTwice(b, Keystream(Shuffle(w, s.seed)));
  }

  /** Encrypting the byte that decryption recovered from `c` gives `c`
      back, and the two directions reach the same session. */
  lemma DecryptThenEncrypt(w: Width, s: Session, c: bv8)
    ensures EncryptByte(w, s, DecryptByte(w, s, c).out) == Step(DecryptByte(w, s, c).session, c)
  {
    MaskTwice(c, Keystream(Shuffle(w, s.seed)));
  }

  /** Both directions fold the same plaintext byte: the session after a
      step depends on the plaintext only, never on the ciphertext. */
  lemma SameSessionForSamePlaintext(w: Width, s: Session, b: bv8, c: bv8)
    ensures DecryptByte(w, s, c).out == b <==> EncryptByte(w, s, b).out == c
    ensures DecryptByte(w, s, c).out == b ==> DecryptByte(w, s, c).session == EncryptByte(w, s, b).session
  {
    var shuffled := Shuffle(w, s.seed);
    var k := Keystream(shuffled);
    MaskTwice(b, k);
    MaskTwice(c, k);
    if Mask(c, k) == b {
      assert DecryptByte(w, s, c).session == Absorb(w, shuffled, b, s);
    }
  }

  /** A byte transform: the next session and the output byte. */
  type StepFn = (Session, bv8) -> Step

  /** The `encrypt` transform of a profile, as a value. */
  function Encryptor(w: Width): StepFn {
    (s, b) => EncryptByte(w, s, b)
  }

  /** The `decrypt` transform of a profile, as a value. */
  function Decryptor(w: Width): StepFn {
    (s, c) => DecryptByte(w, s, c)
  }

  /** `undo` inverts `step`: from the same session it maps the output of
      `step` back to the input, reaching the same next session. */
  ghost predicate Undoes(undo: StepFn, step: StepFn) {
    forall s: Session, b: bv8 :: undo(s, step(s, b).out) == Step(step(s, b).session, b)
  }

  /** From a session within the profile's width, `step` on `b` reaches a
      session within it again and leaves the outer pad alone. */
  ghost predicate StepKeepsValid(w: Width, step: StepFn, s: Session, b: bv8) {
    Valid(w, s) ==> Valid(w, step(s, b).session) && step(s, b).session.opad == s.opad
  }

  /** `step` keeps every session within the profile's width. */
  ghost predicate KeepsValid(w: Width, step: StepFn) {
    forall s: Session, b: bv8 :: StepKeepsValid(w, step, s, b)
  }

  /** Each direction undoes the other. */
  lemma DirectionsUndoEachOther(w: Width)
    ensures Undoes(Decryptor(w), Encryptor(w))
    ensures Undoes(Encryptor(w), Decryptor(w))
  {
    forall s, b ensures Decryptor(w)(s, Encryptor(w)(s, b).out) == Step(Encryptor(w)(s, b).session, b) {
      EncryptThenDecrypt(w, s, b);
    }
    forall s, c ensures Encryptor(w)(s, Decryptor(w)(s, c).out) == Step(Decryptor(w)(s, c).session, c) {
      DecryptThenEncrypt(w, s, c);
    }
  }

  /** Both directions keep the session within the profile's width and
      leave the outer pad alone. */
  lemma DirectionsKeepValid(w: Width)
    ensures KeepsValid(w, Encryptor(w))
    ensures KeepsValid(w, Decryptor(w))
  {
    forall s, b | Valid(w, s) ensures Valid(w, EncryptByte(w, s, b).session) {
      XorFits(w, Shuffle(w, s.seed), CalcHash(w, Shuffle(w, s.seed), b, s.hmac));
    }
    forall s, c | Valid(w, s) ensures Valid(w, DecryptByte(w, s, c).session) {
      var shuffled := Shuffle(w, s.seed);
      XorFits(w, shuffled, CalcHash(w, shuffled, Mask(c, Keystream(shuffled)), s.hmac));
    }
  }

  /** With key 0 the seed starts at the fixed point of `shuffle`, so the
      first byte is masked with 0 and leaves in clear. */
  lemma ZeroKeyFirstByteInClear(w: Width, b: bv8)
    ensures EncryptByte(w, Head(w, 0), b).out == b
  {
  }
}
