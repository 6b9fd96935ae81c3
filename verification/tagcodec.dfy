/**
 Storage of the tag in the byte frame. The C writes and reads the tag
 through a `keyType*` cast, that is, in the machine's native byte order;
 this model fixes that order to little-endian. A word is split into
 halves, least significant half first, down to bytes.
 */
module TagCodec {
  import opened Profile

  function Bytes16(x: bv16): (bs: seq<bv8>)
    ensures |bs| == 2
  {
    [(x & 0xFF) as bv8, (x >> 8) as bv8]
  }

  function Load16(bs: seq<bv8>): bv16
    requires |bs| == 2
  {
    (bs[0] as bv16) | ((bs[1] as bv16) << 8)
  }

  function Bytes32(x: bv32): (bs: seq<bv8>)
    ensures |bs| == 4
  {
    Bytes16((x & 0xFFFF) as bv16) + Bytes16((x >> 16) as bv16)
  }

  function Load32(bs: seq<bv8>): bv32
    requires |bs| == 4
  {
    (Load16(bs[..2]) as bv32) | ((Load16(bs[2..]) as bv32) << 16)
  }

  function Bytes64(x: bv64): (bs: seq<bv8>)
    ensures |bs| == 8
  {
    Bytes32((x & 0xFFFF_FFFF) as bv32) + Bytes32((x >> 32) as bv32)
  }

  function Load64(bs: seq<bv8>): bv64
    requires |bs| == 8
  {
    (Load32(bs[..4]) as bv64) | ((Load32(bs[4..]) as bv64) << 32)
  }

  lemma RoundTrip16(x: bv16, bs: seq<bv8>)
    requires |bs| == 2
    ensures Load16(Bytes16(x)) == x
    ensures Bytes16(Load16(bs)) == bs
  {
  }

  lemma RoundTrip32(x: bv32, bs: seq<bv8>)
    requires |bs| == 4
    ensures Load32(Bytes32(x)) == x
    ensures Bytes32(Load32(bs)) == bs
  {
    var lo, hi := (x & 0xFFFF) as bv16, (x >> 16) as bv16;
    RoundTrip16(lo, bs[..2]);
    RoundTrip16(hi, bs[2..]);
    assert Bytes32(x)[..2] == Bytes16(lo);
    assert Bytes32(x)[2..] == Bytes16(hi);
    assert bs == bs[..2] + bs[2..];
  }

  lemma RoundTrip64(x: bv64, bs: seq<bv8>)
    requires |bs| == 8
    ensures Load64(Bytes64(x)) == x
    ensures Bytes64(Load64(bs)) == bs
  {
    var lo, hi := (x & 0xFFFF_FFFF) as bv32, (x >> 32) as bv32;
    RoundTrip32(lo, bs[..4]);
    RoundTrip32(hi, bs[4..]);
    assert Bytes64(x)[..4] == Bytes32(lo);
    assert Bytes64(x)[4..] == Bytes32(hi);
    assert bs == bs[..4] + bs[4..];
  }

  /** The tag field as written after the ciphertext, `sizeof(keyType)`
      bytes, least significant byte first. */
  function StoreTag(w: Width, tag: Word): (bs: seq<bv8>)
    requires Fits(w, tag)
    ensures |bs| == KeySize(w)
    ensures LoadTag(w, bs) == tag
  {
    match w
    case Bits64 =>
      RoundTrip64(tag, Bytes64(tag));
      Bytes64(tag)
    case Bits32 =>
      RoundTrip32(tag as bv32, Bytes32(tag as bv32));
      Bytes32(tag as bv32)
  }

  /** The tag read back from a field of `sizeof(keyType)` bytes. */
  function LoadTag(w: Width, bs: seq<bv8>): (tag: Word)
    requires |bs| == KeySize(w)
    ensures Fits(w, tag)
  {
    match w
    case Bits64 => Load64(bs)
    case Bits32 => Load32(bs) as bv64
  }

  /** Every field of the right length is the stored form of the tag it
      loads as: distinct fields load as distinct tags. */
  lemma StoreLoadedTag(w: Width, bs: seq<bv8>)
    requires |bs| == KeySize(w)
    ensures StoreTag(w, LoadTag(w, bs)) == bs
  {
    match w
    case Bits64 =>
      RoundTrip64(0, bs);
    case Bits32 =>
      RoundTrip32(0, bs);
      assert (Load32(bs) as bv64) as bv32 == Load32(bs);
  }
}
