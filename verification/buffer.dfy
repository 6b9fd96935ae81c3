/**
 The buffer entry points `sencrypt` and `sdecrypt`, and the byte loop they
 share. A frame is the ciphertext followed by the stored tag; its length is
 the `size` that `sdecrypt` receives.
 */
module Buffer {
  import opened Profile
  import opened Engine
  import opened TagCodec

  /** The session reached after a sequence of bytes, and the bytes output. */
  datatype Run = Run(session: Session, out: seq<bv8>)

  /** Outcome of `sdecrypt`: the plaintext it wrote, and its return value
      (1 when the stored tag matches). The plaintext is produced whatever
      the verdict. */
  datatype Decrypted = Decrypted(plain: seq<bv8>, valid: bool)

  /** The byte loop of either direction: one byte transform per input byte,
      in order, each starting from the session the previous one left. */
  function Process(step: StepFn, s: Session, input: seq<bv8>): (r: Run)
    ensures |r.out| == |input|
    decreases |input|
  {
    if |input| == 0 then Run(s, [])
    else
      var st := step(s, input[0]);
      var rest := Process(step, st.session, input[1..]);
      Run(rest.session, [st.out] + rest.out)
  }

  /** A loop of width-preserving steps keeps the session within the
      profile's width and never changes the outer pad. */
  lemma {:induction false} ProcessKeepsValid(w: Width, step: StepFn, s: Session, input: seq<bv8>)
    requires KeepsValid(w, step)
    requires Valid(w, s)
    ensures Valid(w, Process(step, s, input).session)
    ensures Process(step, s, input).session.opad == s.opad
    decreases |input|
  {
    if |input| > 0 {
      var st := step(s, input[0]);
      assert StepKeepsValid(w, step, s, input[0]);
      ProcessKeepsValid(w, step, st.session, input[1..]);
    }
  }

  /** The loop extended by one byte is one more step from the session the
      shorter loop reached. */
  lemma {:induction false} ProcessSnoc(step: StepFn, s: Session, input: seq<bv8>, b: bv8)
    ensures
      var r := Process(step, s, input);
      var st := step(r.session, b);
      Process(step, s, input + [b]) == Run(st.session, r.out + [st.out])
    decreases |input|
  {
    var longer := input + [b];
    if |input| == 0 {
      assert longer[1..] == [];
    } else {
      var st := step(s, input[0]);
      assert longer[0] == input[0];
      assert longer[1..] == input[1..] + [b];
      ProcessSnoc(step, st.session, input[1..], b);
      var rest := Process(step, st.session, input[1..]);
      var last := step(rest.session, b);
      assert [st.out] + (rest.out + [last.out]) == ([st.out] + rest.out) + [last.out];
    }
  }

  /** Running the inverse step over the output replays the forward loop:
      it recovers the input and reaches the same session. */
  lemma {:induction false} ProcessUndo(undo: StepFn, step: StepFn, s: Session, input: seq<bv8>)
    requires Undoes(undo, step)
    ensures
      var e := Process(step, s, input);
      Process(undo, s, e.out) == Run(e.session, input)
    decreases |input|
  {
    if |input| > 0 {
      var st := step(s, input[0]);
      var rest := Process(step, st.session, input[1..]);
      var e := Process(step, s, input);
      assert e == Run(rest.session, [st.out] + rest.out);
      assert e.out[0] == st.out && e.out[1..] == rest.out;
      assert undo(s, st.out) == Step(st.session, input[0]);
      ProcessUndo(undo, step, st.session, input[1..]);
      assert [input[0]] + input[1..] == input;
    }
  }

  /** Decryption replays encryption byte for byte, and encryption replays
      decryption: from the same session each recovers the other's input
      and reaches the same session. */
  lemma ProcessRoundTrip(w: Width, s: Session, p: seq<bv8>, c: seq<bv8>)
    ensures
      var e := Process(Encryptor(w), s, p);
      Process(Decryptor(w), s, e.out) == Run(e.session, p)
    ensures
      var d := Process(Decryptor(w), s, c);
      Process(Encryptor(w), s, d.out) == Run(d.session, c)
  {
    DirectionsUndoEachOther(w);
    ProcessUndo(Decryptor(w), Encryptor(w), s, p);
    ProcessUndo(Encryptor(w), Decryptor(w), s, c);
  }

  /** `sencrypt`: the ciphertext of `input`, then the tag. Decrypting the
      frame under the same key gives `input` back and reports it valid. */
  function EncryptBuffer(w: Width, key: Word, input: seq<bv8>): (frame: seq<bv8>)
    requires Fits(w, key)
    ensures |frame| == |input| + KeySize(w)
    ensures DecryptBuffer(w, key, frame) == Decrypted(input, true)
  {
    var r := Process(Encryptor(w), Head(w, key), input);
    var frame := r.out + StoreTag(w, Tail(w, r.session));
    ProcessRoundTrip(w, Head(w, key), input, []);
    assert frame[..|input|] == r.out;
    assert frame[|input|..] == StoreTag(w, Tail(w, r.session));
    frame
  }

  /** `sdecrypt` on a frame of `size` bytes: decrypt all but the last
      `sizeof(keyType)` bytes and compare the recomputed tag with the tag
      stored in those. */
  function DecryptBuffer(w: Width, key: Word, frame: seq<bv8>): (r: Decrypted)
    requires Fits(w, key)
    requires |frame| >= KeySize(w)
    ensures |r.plain| == |frame| - KeySize(w)
  {
    var n := |frame| - KeySize(w);
    var p := Process(Decryptor(w), Head(w, key), frame[..n]);
    Decrypted(p.out, LoadTag(w, frame[n..]) == Tail(w, p.session))
  }

  /** A frame is accepted exactly when it is the genuine encryption, under
      the same key, of the plaintext its decryption yields. */
  lemma AcceptsExactlyGenuineFrames(w: Width, key: Word, frame: seq<bv8>)
    requires Fits(w, key)
    requires |frame| >= KeySize(w)
    ensures DecryptBuffer(w, key, frame).valid <==> frame == EncryptBuffer(w, key, DecryptBuffer(w, key, frame).plain)
  {
    var n := |frame| - KeySize(w);
    var c, field := frame[..n], frame[n..];
    assert frame == c + field;
    var p := Process(Decryptor(w), Head(w, key), c);
    ProcessRoundTrip(w, Head(w, key), [], c);
    var tag := Tail(w, p.session);
    var genuine := EncryptBuffer(w, key, p.out);
    assert genuine == c + StoreTag(w, tag);
    StoreLoadedTag(w, field);
    if frame == genuine {
      assert field == StoreTag(w, tag);
    }
  }

  /** `sencrypt` into a caller's buffer: the `encrypt` loop writes the
      ciphertext at `[0, size)`, the tag is written at
      `[size, size + sizeof(keyType))`, and no byte past that changes. */
  method EncryptInto(w: Width, key: Word, input: seq<bv8>, output: array<bv8>)
    requires Fits(w, key)
    requires |input| + KeySize(w) <= output.Length
    modifies output
    ensures output[..|input| + KeySize(w)] == EncryptBuffer(w, key, input)
    ensures forall j | |input| + KeySize(w) <= j < output.Length :: output[j] == old(output[j])
  {
    var n := |input|;
    var s := ProcessInto(Encryptor(w), Head(w, key), input, output);
    ghost var cipher := output[..n];
    var field := StoreTag(w, Tail(w, s));
    WriteAt(output, n, field);
    SplitAt(output[..], n, cipher, field);
    assert output[..][..n + KeySize(w)] == output[..n + KeySize(w)];
    EncryptBufferIsLoopThenTag(w, key, input, s, cipher);
  }

  /** The frame `sencrypt` writes is the byte loop's output followed by the
      stored tag of the session it reached. */
  lemma EncryptBufferIsLoopThenTag(w: Width, key: Word, input: seq<bv8>, s: Session, cipher: seq<bv8>)
    requires Fits(w, key)
    requires Run(s, cipher) == Process(Encryptor(w), Head(w, key), input)
    ensures EncryptBuffer(w, key, input) == cipher + StoreTag(w, Tail(w, s))
  {
  }

  /** A sequence whose slices at `[0, n)` and `[n, n + |field|)` are
      `prefix` and `field` starts with `prefix + field`. */
  lemma SplitAt(a: seq<bv8>, n: nat, prefix: seq<bv8>, field: seq<bv8>)
    requires n + |field| <= |a|
    requires a[..n] == prefix && a[n..n + |field|] == field
    ensures a[..n + |field|] == prefix + field
  {
    assert a[..n + |field|] == a[..n] + a[n..n + |field|];
  }

  /** The byte loop writing into an array: `output[i]` receives the
      transform of `input[i]`, and nothing past `|input|` changes. */
  method ProcessInto(step: StepFn, s0: Session, input: seq<bv8>, output: array<bv8>) returns (s: Session)
    requires |input| <= output.Length
    modifies output
    ensures Run(s, output[..|input|]) == Process(step, s0, input)
    ensures forall j | |input| <= j < output.Length :: output[j] == old(output[j])
  {
    s := s0;
    for i := 0 to |input|
      invariant Run(s, output[..i]) == Process(step, s0, input[..i])
      invariant forall j | |input| <= j < output.Length :: output[j] == old(output[j])
    {
      assert input[..i + 1] == input[..i] + [input[i]];
      ProcessSnoc(step, s0, input[..i], input[i]);
      var st := step(s, input[i]);
      ghost var written := output[..i];
      output[i] := st.out;
      assert output[..i + 1] == written + [st.out];
      s := st.session;
    }
    assert input[..|input|] == input;
  }

  /** Copy `field` into `output` at offset `at`, as the tag store does;
      the bytes before and after the field keep their values. */
  method WriteAt(output: array<bv8>, at: nat, field: seq<bv8>)
    requires at + |field| <= output.Length
    modifies output
    ensures output[..at] == old(output[..at])
    ensures output[at..at + |field|] == field
    ensures forall j | at + |field| <= j < output.Length :: output[j] == old(output[j])
  {
    for k := 0 to |field|
      invariant output[..at] == old(output[..at])
      invariant output[at..at + k] == field[..k]
      invariant forall j | at + |field| <= j < output.Length :: output[j] == old(output[j])
    {
      output[at + k] := field[k];
      assert output[at..at + k + 1] == output[at..at + k] + [field[k]];
    }
  }

  /** The byte loop as the C writes it: an index over the input, one
      transform per byte, the session carried in a variable. */
  method ProcessLoop(step: StepFn, s0: Session, input: seq<bv8>) returns (s: Session, out: seq<bv8>)
    ensures Run(s, out) == Process(step, s0, input)
  {
    s, out := s0, [];
    for i := 0 to |input|
      invariant Run(s, out) == Process(step, s0, input[..i])
    {
      assert input[..i + 1] == input[..i] + [input[i]];
      ProcessSnoc(step, s0, input[..i], input[i]);
      var st := step(s, input[i]);
      s, out := st.session, out + [st.out];
    }
    assert input[..|input|] == input;
  }

  /** `sencrypt`: `head`, the loop of `encrypt`, `tail`, the tag store. */
  method EncryptBufferLoop(w: Width, key: Word, input: seq<bv8>) returns (output: seq<bv8>)
    requires Fits(w, key)
    ensures output == EncryptBuffer(w, key, input)
  {
    var s, out := ProcessLoop(Encryptor(w), Head(w, key), input);
    output := out + StoreTag(w, Tail(w, s));
  }

  /** `sdecrypt`: `head`, the loop of `decrypt` up to
      `size - sizeof(keyType)`, `tail`, the tag comparison. */
  method DecryptBufferLoop(w: Width, key: Word, frame: seq<bv8>) returns (plain: seq<bv8>, valid: bool)
    requires Fits(w, key)
    requires |frame| >= KeySize(w)
    ensures Decrypted(plain, valid) == DecryptBuffer(w, key, frame)
  {
    var n := |frame| - KeySize(w);
    var s;
    s, plain := ProcessLoop(Decryptor(w), Head(w, key), frame[..n]);
    valid := LoadTag(w, frame[n..]) == Tail(w, s);
  }
}
