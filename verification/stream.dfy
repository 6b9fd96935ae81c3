/**
 The stream entry points `fencrypt` and `fdecrypt`, over the finite byte
 sequence the input stream would deliver. Both read at most
 `size - sizeof(keyType)` bytes, computed in `unsigned long`, and stop early
 when the input ends; `fdecrypt` then reads the stored tag from the bytes
 that follow.
 */
module Stream {
  import opened Profile
  import opened Engine
  import opened TagCodec
  import opened Buffer

  /** One more than the largest `unsigned long`. The model takes
      `unsigned long` and `size_t` to be as wide as `keyType`: 64 bits for
      the default profile (an LP64 platform) and 32 bits for `DRGC_32BIT`,
      whose `keyType` is an `unsigned long` meant to be 32 bits wide. */
  function ULongModulus(w: Width): nat {
    match w
    case Bits64 => 0x1_0000_0000_0000_0000
    case Bits32 => 0x1_0000_0000
  }

  /** `size - sizeof(keyType)` as the C computes it: unsigned, so a `size`
      shorter than the tag wraps round to a huge byte budget. */
  function Budget(w: Width, size: nat): (n: nat)
    requires size < ULongModulus(w)
    ensures n < ULongModulus(w)
    ensures size < KeySize(w) ==> n >= ULongModulus(w) - KeySize(w)
  {
    if size >= KeySize(w) then size - KeySize(w) else size - KeySize(w) + ULongModulus(w)
  }

  /** The budget is the difference taken modulo the width of
      `unsigned long`. */
  lemma BudgetIsUnsignedDifference(w: Width, size: nat)
    requires size < ULongModulus(w)
    ensures Budget(w, size) == (size - KeySize(w)) % ULongModulus(w)
  {
  }

  function Min(a: int, b: int): int {
    if a <= b then a else b
  }

  /** The read loop: `i++ < budget && (c = fgetc(input)) != EOF`. The budget
      is compared first, so no byte is read once it is spent. */
  function StreamRun(step: StepFn, s: Session, budget: nat, source: seq<bv8>): (r: Run)
    ensures |r.out| == Min(budget, |source|)
    decreases |source|
  {
    if budget == 0 || |source| == 0 then Run(s, [])
    else
      var st := step(s, source[0]);
      var rest := StreamRun(step, st.session, budget - 1, source[1..]);
      Run(rest.session, [st.out] + rest.out)
  }

  /** The read loop is the buffer loop over the bytes it manages to read:
      the first `budget` bytes, or the whole source if it is shorter. */
  lemma {:induction false} StreamRunIsProcess(step: StepFn, s: Session, budget: nat, source: seq<bv8>)
    ensures StreamRun(step, s, budget, source) == Process(step, s, source[..Min(budget, |source|)])
    decreases |source|
  {
    var n := Min(budget, |source|);
    if budget == 0 || |source| == 0 {
      assert source[..n] == [];
    } else {
      var read := source[..n];
      assert read[0] == source[0];
      assert read[1..] == source[1..][..Min(budget - 1, |source| - 1)];
      StreamRunIsProcess(step, step(s, source[0]).session, budget - 1, source[1..]);
    }
  }

  /** `fencrypt`: the ciphertext of the bytes read, then the tag. */
  function EncryptStream(w: Width, key: Word, size: nat, source: seq<bv8>): (written: seq<bv8>)
    requires Fits(w, key)
    requires size < ULongModulus(w)
    ensures |written| == Min(Budget(w, size), |source|) + KeySize(w)
  {
    var r := StreamRun(Encryptor(w), Head(w, key), Budget(w, size), source);
    r.out + StoreTag(w, Tail(w, r.session))
  }

  /** `fencrypt` writes exactly what `sencrypt` writes for the bytes it
      read: with a full source and `size` no shorter than the tag, that is
      `sencrypt` of the first `size - sizeof(keyType)` bytes. */
  lemma EncryptStreamIsBuffer(w: Width, key: Word, size: nat, source: seq<bv8>)
    requires Fits(w, key)
    requires size < ULongModulus(w)
    ensures EncryptStream(w, key, size, source) == EncryptBuffer(w, key, source[..Min(Budget(w, size), |source|)])
    ensures size >= KeySize(w) ==>
      EncryptStream(w, key, size, source) == EncryptBuffer(w, key, source[..Min(size - KeySize(w), |source|)])
  {
    StreamRunIsProcess(Encryptor(w), Head(w, key), Budget(w, size), source);
  }

  /** How `fdecrypt` ends: the tag matched, it did not, or fewer than
      `sizeof(keyType)` bytes were left for `fread`, so the stored tag was
      never read and the return value is not determined. */
  datatype Verdict = Accepted | Rejected | TagUnread

  /** The plaintext `fdecrypt` wrote, and how it ended. */
  datatype Opened = Opened(plain: seq<bv8>, verdict: Verdict)

  /** `fdecrypt`: decrypt the bytes read, then compare the recomputed tag
      with the `sizeof(keyType)` bytes that follow them. */
  function DecryptStream(w: Width, key: Word, size: nat, source: seq<bv8>): (r: Opened)
    requires Fits(w, key)
    requires size < ULongModulus(w)
    ensures |r.plain| == Min(Budget(w, size), |source|)
    ensures size >= KeySize(w) ==> (r.verdict == TagUnread <==> |source| < size)
    ensures size < KeySize(w) && |source| <= Budget(w, size) ==> r.verdict == TagUnread
  {
    var n := Min(Budget(w, size), |source|);
    var p := StreamRun(Decryptor(w), Head(w, key), Budget(w, size), source);
    if |source| - n < KeySize(w) then Opened(p.out, TagUnread)
    else if LoadTag(w, source[n..n + KeySize(w)]) == Tail(w, p.session) then Opened(p.out, Accepted)
    else Opened(p.out, Rejected)
  }

  /** With `size` covering the tag and a source that holds it, `fdecrypt`
      reads exactly `size - sizeof(keyType)` bytes and checks the tag
      against the `sizeof(keyType)` bytes after them. */
  lemma DecryptStreamReadsFrame(w: Width, key: Word, size: nat, source: seq<bv8>)
    requires Fits(w, key)
    requires size < ULongModulus(w)
    requires KeySize(w) <= size <= |source|
    ensures
      var p := Process(Decryptor(w), Head(w, key), source[..size - KeySize(w)]);
      var ok := LoadTag(w, source[size - KeySize(w)..size]) == Tail(w, p.session);
      DecryptStream(w, key, size, source) == Opened(p.out, if ok then Accepted else Rejected)
  {
    var n := size - KeySize(w);
    assert Budget(w, size) == n && Min(n, |source|) == n;
    assert n + KeySize(w) == size;
    assert source[n..n + KeySize(w)] == source[n..size];
    StreamRunIsProcess(Decryptor(w), Head(w, key), n, source);
  }

  /** With `size` covering the tag and a source that holds the whole frame,
      `fdecrypt` agrees with `sdecrypt` on the first `size` bytes; whatever
      follows the frame is never read. */
  lemma DecryptStreamIsBuffer(w: Width, key: Word, size: nat, source: seq<bv8>)
    requires Fits(w, key)
    requires size < ULongModulus(w)
    requires KeySize(w) <= size <= |source|
    ensures
      var d := DecryptBuffer(w, key, source[..size]);
      DecryptStream(w, key, size, source) == Opened(d.plain, if d.valid then Accepted else Rejected)
  {
    var n := size - KeySize(w);
    var frame := source[..size];
    assert |frame| - KeySize(w) == n;
    assert frame[..|frame| - KeySize(w)] == source[..n];
    assert frame[|frame| - KeySize(w)..] == source[n..size];
    DecryptStreamReadsFrame(w, key, size, source);
  }

  /** A genuine `sencrypt` frame, followed by anything, opens from the
      stream: `fdecrypt` with the frame's length recovers the plaintext and
      accepts the tag. */
  lemma FrameOpensFromStream(w: Width, key: Word, plain: seq<bv8>, frame: seq<bv8>, trailing: seq<bv8>)
    requires Fits(w, key)
    requires frame == EncryptBuffer(w, key, plain)
    requires |frame| < ULongModulus(w)
    ensures DecryptStream(w, key, |frame|, frame + trailing) == Opened(plain, Accepted)
  {
    var stream := frame + trailing;
    assert stream[..|frame|] == frame;
    DecryptStreamIsBuffer(w, key, |frame|, stream);
  }

  /** Stream round trip: `fdecrypt`, given the length of what `fencrypt`
      wrote, recovers the bytes `fencrypt` read and accepts the tag, even
      when more bytes follow in the stream. */
  lemma StreamRoundTrip(w: Width, key: Word, size: nat, source: seq<bv8>, trailing: seq<bv8>)
    requires Fits(w, key)
    requires size < ULongModulus(w)
    requires size >= KeySize(w)
    ensures
      var frame := EncryptStream(w, key, size, source);
      |frame| <= size &&
      DecryptStream(w, key, |frame|, frame + trailing) == Opened(source[..Min(size - KeySize(w), |source|)], Accepted)
  {
    var read := source[..Min(size - KeySize(w), |source|)];
    var frame := EncryptStream(w, key, size, source);
    EncryptStreamIsBuffer(w, key, size, source);
    FrameOpensFromStream(w, key, read, frame, trailing);
  }
}
