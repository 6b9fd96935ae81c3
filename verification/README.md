# dragoncrypt cipher engine in Dafny

This project models the cipher engine of dragoncrypt, a small C library for a
stream cipher with an HMAC-style authentication tag. It proves properties of
that model.

The engine has these parts:

- an xorshift generator, `shuffle`, that drives a keystream seed;
- each byte is masked with the low 8 bits of the freshly shuffled seed;
- the plaintext byte is folded into a running tag (`calcHash`), at a bit lane chosen by the seed (this holds when the input and output buffers are distinct; see "Left out");
- the tag is XORed back into the seed, so every later byte depends on all earlier plaintext;
- `head` starts a session: the key goes through an inner pad, and the seed is the key itself;
- `tail` finishes it: the tag goes through the outer pad and one more shuffle.

There are two pairs of entry points. `sencrypt`/`sdecrypt` work on buffers. `fencrypt`/`fdecrypt` work on streams.

Both key widths are modelled as a `Width` value: the default 64-bit `keyType` and the `DRGC_32BIT` profile.

Modules, one per component:

- `Profile` (`profile.dfy`): the width profiles and their constants. It also defines the `Xor` wrapper for 64-bit words.
- `Xorshift` (`xorshift.dfy`): `shuffle` for both profiles.
- `Engine` (`engine.dfy`):
  - the session state `{seed, hmac, opad}`;
  - `calcHash`, `head`, `tail`;
  - the per-byte `encrypt` and `decrypt` transforms, also as function values (`Encryptor`, `Decryptor`).
- `TagCodec` (`tagcodec.dfy`): the tag written into and read from the byte frame.
- `Buffer` (`buffer.dfy`):
  - the byte loop (`Process`), generic over a per-byte transform;
  - `sencrypt` and `sdecrypt`, plus index-loop methods that mirror the C loops.
- `Stream` (`stream.dfy`): `fencrypt` and `fdecrypt` over the finite byte sequence the input stream would deliver.

The C keeps the keystream seed in a file-level static. Every entry point resets it with `head`, so the model threads an explicit `Session` value through each step. Nothing is lost by doing so.

Points where the code's behaviour is easy to misread, and which the model follows exactly:

- `head` sets the seed to the key unchanged (dragoncrypt.c:50). It does not clamp or otherwise adjust the key. A key of 0 therefore gives a seed that `shuffle` keeps at 0, and the first byte leaves in clear (`Engine.ZeroKeyFirstByteInClear`).
- `calcHash` reads its lane from the seed as it is after the current byte's `shuffle` (dragoncrypt.c:25, 30-32). The lane is not an independent counter.
- The library itself has no IV. An IV exists only in the Python wrapper, which prepends it to the plaintext.

## Model

| member | source | states |
|---|---|---|
| `Profile.KeySize` | dragoncrypt.h:14-20 | `sizeof(keyType)` is 8 bytes for the default profile and 4 for `DRGC_32BIT`; it is also the tag length |
| `Profile.Ipad` | dragoncrypt.c:10-18 | the inner pad constant of each profile is a value of that profile's `keyType` |
| `Profile.Opad` | dragoncrypt.c:10-18 | the outer pad constant of each profile is a value of that profile's `keyType` |
| `Xorshift.Shuffle` | dragoncrypt.c:10-18 | `shuffle` keeps a word within the profile's width and maps 0 to 0 |
| `Xorshift.ZeroOnlyFromZero` | dragoncrypt.c:20 | 0 is the only word `shuffle` maps to 0: a nonzero seed never shuffles to zero, and a zero seed stays zero, which is why the seed must never start at zero |
| `Engine.MaskTwice` | dragoncrypt.c:29-41 | masking a byte twice with the same keystream byte returns the byte |
| `Engine.Lane` | dragoncrypt.c:25 | the lane shift is below `8 * sizeof(keyType) - 8`, that is at most 55 (64-bit) or 23 (32-bit) |
| `Engine.Place` | dragoncrypt.c:25 | in every lane the lane computation can yield, the shifted byte fits in `keyType` and shifts back out unchanged: no bit of it is lost |
| `Engine.CalcHash` | dragoncrypt.c:25 | the folded tag stays within the profile's width |
| `Engine.Head` | dragoncrypt.c:45-50 | `head` yields a session whose parts all fit the profile, with the seed equal to the key (no clamping) |
| `Engine.Tail` | dragoncrypt.c:54-56 | the final tag is a value of `keyType` |
| `Engine.EncryptByte` | dragoncrypt.c:29-33 | masking `encrypt`'s output with the low 8 bits of the shuffled seed gives the plaintext byte back, and `decrypt` of that output from the same session reaches the same next session |
| `Engine.DecryptByte` | dragoncrypt.c:37-41 | masking `decrypt`'s output with the low 8 bits of the shuffled seed gives the ciphertext byte back |
| `Engine.EncryptThenDecrypt` | dragoncrypt.c:29-41 | from the same session, `decrypt` of `encrypt`'s output returns the plaintext byte and reaches the identical session |
| `Engine.DecryptThenEncrypt` | dragoncrypt.c:29-41 | from the same session, `encrypt` of `decrypt`'s output returns the ciphertext byte and reaches the identical session |
| `Engine.SameSessionForSamePlaintext` | dragoncrypt.c:29-41 | `decrypt` maps `c` to `b` exactly when `encrypt` maps `b` to `c`, and then both reach the same session |
| `Engine.DirectionsUndoEachOther` | dragoncrypt.c:29-41 | as transforms, `decrypt` undoes `encrypt` and `encrypt` undoes `decrypt` on every session and byte |
| `Engine.DirectionsKeepValid` | dragoncrypt.c:29-41 | both transforms keep every part of the session within the profile's width and never change the outer pad |
| `Engine.ZeroKeyFirstByteInClear` | dragoncrypt.c:45-50 | with key 0 the first byte is masked with 0 and is output unchanged |
| `TagCodec.RoundTrip64` | dragoncrypt.c:112 | storing a 64-bit tag into 8 bytes and loading it back gives the tag; loading then storing gives the bytes |
| `TagCodec.StoreTag` | dragoncrypt.c:112 | the stored tag field is `sizeof(keyType)` bytes long and loads back as the tag |
| `TagCodec.LoadTag` | dragoncrypt.c:127 | a tag loaded from a field is a value of the profile's `keyType` |
| `TagCodec.StoreLoadedTag` | dragoncrypt.c:127 | every field of `sizeof(keyType)` bytes is the stored form of the tag it loads as, so distinct fields give distinct tags |
| `Buffer.Process` | dragoncrypt.c:107-110 | the byte loop outputs exactly one byte per input byte |
| `Buffer.ProcessKeepsValid` | dragoncrypt.c:107-110 | a loop of width-preserving transforms keeps the session within the profile and the outer pad unchanged |
| `Buffer.ProcessUndo` | dragoncrypt.c:102-130 | running an inverse transform over a loop's output recovers its input and reaches the same session |
| `Buffer.ProcessRoundTrip` | dragoncrypt.c:107-124 | the `decrypt` loop over the `encrypt` loop's output gives the plaintext and the same final session, and the other way round |
| `Buffer.EncryptBuffer` | dragoncrypt.c:102-114 | `sencrypt` writes `size + sizeof(keyType)` bytes, and `sdecrypt` of them under the same key returns the input and reports it valid |
| `Buffer.DecryptBuffer` | dragoncrypt.c:116-130 | `sdecrypt` writes `size - sizeof(keyType)` plaintext bytes |
| `Buffer.AcceptsExactlyGenuineFrames` | dragoncrypt.c:116-130 | `sdecrypt` returns 1 exactly when the frame is the `sencrypt` output, under the same key, of the plaintext it decrypts to |
| `Buffer.EncryptInto` | dragoncrypt.c:102-114 | `sencrypt` writing into an array at least `size + sizeof(keyType)` long leaves the `sencrypt` frame in `[0, size + sizeof(keyType))` and every later element unchanged |
| `Buffer.ProcessInto` | dragoncrypt.c:106-110 | the indexed loop writing `output[i]` for each `input[i]` leaves the byte loop's output in `[0, size)`, reaches the byte loop's session, and changes no element past `size` |
| `Buffer.WriteAt` | dragoncrypt.c:112 | storing the tag bytes at offset `size` puts them at `[size, size + sizeof(keyType))` and changes no element before or after |
| `Buffer.ProcessLoop` | dragoncrypt.c:107-110 | an index loop carrying the session in a variable computes the byte loop |
| `Buffer.EncryptBufferLoop` | dragoncrypt.c:102-114 | the `sencrypt` loop with tag store computes the `sencrypt` frame |
| `Buffer.DecryptBufferLoop` | dragoncrypt.c:116-130 | the `sdecrypt` loop with tag comparison computes the `sdecrypt` plaintext and verdict |
| `Stream.Budget` | dragoncrypt.c:73 | the byte budget is a value of `unsigned long`; when `size` is smaller than the tag, `size - sizeof(keyType)` wraps to at least `2^64 - sizeof(keyType)` (default profile) or `2^32 - sizeof(keyType)` (`DRGC_32BIT`) |
| `Stream.BudgetIsUnsignedDifference` | dragoncrypt.c:73 | the byte budget is `size - sizeof(keyType)` modulo the range of `unsigned long`: `2^64` for the default profile, `2^32` for `DRGC_32BIT` |
| `Stream.StreamRun` | dragoncrypt.c:73-77 | the read loop emits `min(budget, bytes available)` bytes |
| `Stream.StreamRunIsProcess` | dragoncrypt.c:73-77 | the read loop is the byte loop over the first `min(budget, bytes available)` bytes |
| `Stream.EncryptStream` | dragoncrypt.c:66-80 | `fencrypt` writes the bytes it read, encrypted, plus `sizeof(keyType)` tag bytes |
| `Stream.EncryptStreamIsBuffer` | dragoncrypt.c:66-80 | `fencrypt` writes exactly what `sencrypt` writes for the bytes it read; with `size` covering the tag, that is at most `size - sizeof(keyType)` bytes |
| `Stream.DecryptStream` | dragoncrypt.c:82-100 | `fdecrypt` writes one plaintext byte per byte read; when `size` covers the tag, the stored tag goes unread exactly when the input is shorter than `size` |
| `Stream.DecryptStreamReadsFrame` | dragoncrypt.c:89-98 | with a full input, `fdecrypt` decrypts `size - sizeof(keyType)` bytes and compares the tag against the next `sizeof(keyType)` bytes |
| `Stream.DecryptStreamIsBuffer` | dragoncrypt.c:82-100 | with a full input, `fdecrypt` agrees with `sdecrypt` on the first `size` bytes, plaintext and verdict; later bytes are never read |
| `Stream.FrameOpensFromStream` | dragoncrypt.c:82-100 | a genuine `sencrypt` frame, followed by anything, is decrypted and accepted by `fdecrypt` given the frame's length |
| `Stream.StreamRoundTrip` | dragoncrypt.c:66-100 | `fdecrypt`, given the length `fencrypt` wrote, recovers the bytes `fencrypt` read and accepts the tag, whatever follows |

## Left out

- Bijectivity of `shuffle` is not proved. The identities that invert an xorshift step defeat the solver once they are reached through function definitions. Only the zero case is proved (`Xorshift.ZeroOnlyFromZero`).
- Native byte order: the C stores and loads the tag through a `keyType*` cast at `output + size` and `input + size - sizeof(keyType)`. The model fixes little-endian order. Unaligned access is not modelled.
- `FILE*` handling: `fgetc`, `fputc`, `fread` and `fwrite` become a finite input sequence and an output sequence.
  - Errors other than end of input are not modelled.
  - If `fread` of the tag finds fewer than `sizeof(keyType)` bytes, the return value of `fdecrypt` depends on an uninitialised variable. The model reports this as the verdict `TagUnread` and does not predict the return value.
- `sdecrypt` with `size < sizeof(keyType)`: the unsigned loop bound wraps and the C reads far outside the buffer, which is undefined behaviour. `Buffer.DecryptBuffer` requires the frame to hold at least the tag. The stream pair handles the same wrap explicitly (`Stream.Budget`).
- The file-level static seed is left out. So are any interleaving of concurrent calls and any thread safety: each call carries its own `Session`.
- The `DRGC_32BIT` profile is modelled with a 32-bit `keyType`, as the header intends, so its `unsigned long` is 32 bits wide. On an LP64 platform `unsigned long` would actually be 64 bits wide; that combination is not modelled.
- `Stream.Budget`: takes `unsigned long` and `size_t` to be as wide as `keyType`, so `size - sizeof(keyType)` wraps modulo 2^64 for the default profile (LP64) and modulo 2^32 for `DRGC_32BIT` (ILP32). Platforms where the two types differ in width are not modelled. One example is LLP64, where `unsigned long` is 32 bits and `size_t` 64, so the subtraction would wrap modulo 2^64.
- The declaration of `fencrypt` in dragoncrypt.h:26 omits the `size` parameter that the definition takes. The model follows the definition.
- `sdecrypt` and `fdecrypt` write the plaintext whatever the verdict. The model returns it alongside the verdict and does not withhold it.
- Tamper detection, key sensitivity and any strength claim are probabilistic. They are not modelled.
- memtest.c is a benchmark program that uses files, `rand`, clocks and floating point. It calls entry points with an IV parameter that this library does not have. It is not part of this model.
- dragoncrypt.py is a foreign-call wrapper with OS randomness. Its IV handling only prepends bytes to the plaintext before `sencrypt` and strips them after `sdecrypt`. It is not part of this model.
- `Buffer.EncryptBuffer`: `size` is the length of the input sequence. The limit that `unsigned long` puts on the buffer length is not modelled.
- `Buffer.EncryptBuffer`: input and output are assumed disjoint; the input is a sequence that no write can reach. The C allows `sencrypt(buf, buf, …)`. The `encrypt` step at dragoncrypt.c:109 then writes `output[i]` before `calcHash` reads `input[i]` again (dragoncrypt.c:31-32). So in-place `sencrypt` folds the ciphertext byte into the tag, while `sdecrypt` folds the plaintext (dragoncrypt.c:39-40). An in-place frame then generally decrypts wrongly from its second byte on and fails its tag check. In-place `sdecrypt` reads each byte before it overwrites it, so it behaves as modelled.
