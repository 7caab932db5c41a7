# Key derivation and MAC verification of libsignal-node's crypto layer

This project models the two pieces of logic in `src/crypto.js` that are more than a
single call into Node's crypto provider:

- `deriveSecrets(input, salt, info, chunks)`: a bounded HKDF (RFC 5869). Extract
  (section 2.2 of RFC 5869) computes `PRK = HMAC-SHA256(key = salt, msg = input)`.
  Expand (section 2.3) produces at most three 32-byte blocks with
  `T(k) = HMAC(PRK, T(k-1) | info | k)`, where `T(0)` is empty. The salt must be
  32 bytes. `chunks` defaults to 3 and must lie in [1, 3]. The code builds each
  round's message in one scratch buffer laid out as
  `[32-byte previous block | info | counter]` and overwrites that buffer in place
  between rounds.
- `verifyMAC(data, key, mac, length)`: recomputes the MAC and truncates it to
  `length` bytes. It throws "Bad MAC length" on any length mismatch, then
  "Bad MAC" if the tags differ.

HMAC-SHA256 (`calculateMAC`) is a parameter `hmac: Hmac` of every operation. The
model assumes only that it is deterministic and returns 32 bytes (`Primitives.Digest`).
So every property proved here holds for any such function.

Files:
- `wrappers.dfy`: `Option`, `Result` and `Outcome`.
- `primitives.dfy`: bytes (`bv8`), `Digest`, `Hmac`, the record `MacCall` of one
  `calculateMAC` invocation, the method `CalculateMac` through which every HMAC of
  `DeriveSecrets` is made and logged, and the thrown errors with their messages.
- `buffers.dfy`: the Node Buffer operations applied to the scratch array
  (`fill`, `copy`, `set`), each stated by its effect on the whole array.
- `hkdf.dfy`: the functional specification of `deriveSecrets`
  (`DeriveSecretsSpec`, `Expand`, `Block`, `Message`), its properties as lemmas, and
  the imperative `DeriveSecrets` over an `array<byte>`. That method is proved equal
  to the specification. It also returns a ghost trace of every HMAC call.
- `mac.dfy`: `VerifyMac`, including the clamping rules of `Buffer.slice`, and its
  properties.

Notes on the code:
- Extract keys the HMAC with the salt and hashes the input
  (src/crypto.js:64). This is the HKDF-Extract of section 2.2 of RFC 5869,
  `PRK = HMAC-Hash(salt, IKM)`, and the model keeps this order.
- Only the recomputed MAC is sliced. The supplied `mac` must already be `length`
  bytes long (src/crypto.js:88-89).
- `chunks || 3` keeps negative counts, because negative numbers are truthy in
  JavaScript. So `chunks = -1` fails the assertion, while `chunks = 0` means 3.

## Model

| member | source | states |
|---|---|---|
| Buffers.Overwrite | src/crypto.js:72 | writing a block at offset 0 replaces exactly the first `|src|` bytes; every later byte keeps its value |
| Buffers.Filled | src/crypto.js:67 | bytes in [start, end) equal the fill value; the other bytes are unchanged |
| Buffers.Fill | src/crypto.js:67 | `infoArray.fill(0, 0, 32)` leaves the array equal to `Filled` of its old contents |
| Buffers.Copy | src/crypto.js:68 | `info.copy(infoArray, 32)` copies as many bytes as fit, returns that count, and leaves the other bytes unchanged |
| Buffers.Set | src/crypto.js:72 | `infoArray.set(block)` leaves the array equal to `Overwrite(old contents, block)` |
| Buffers.OverwriteKeepsInfo | src/crypto.js:72-73 | on a buffer `prev | info | counter`, writing a 32-byte block gives `block | info | counter`: the info and counter bytes are unchanged |
| Primitives.ErrorMessage | src/crypto.js:60-93 | the texts of the thrown Errors: "Got salt of incorrect length" (line 60), "Bad MAC length" (line 90), "Bad MAC" (line 93); no fixed text for the failed assertion, whose message Node generates |
| Primitives.CalculateMac | src/crypto.js:36-42 | returns `hmac(key, data)` and appends exactly that call to the log of HMAC invocations |
| Hkdf.EffectiveChunks | src/crypto.js:62 | `chunks || 3`: an absent count or 0 becomes 3; any other value, negative ones included, is kept; its use is stated by `ChunkAssertionExactly` and `ZeroDefaultsFourFails` |
| Hkdf.ValidChunks | src/crypto.js:63 | the assertion `chunks >= 1 && chunks <= 3`: true exactly when 1 <= n <= 3; its use is stated by `ChunkAssertionExactly` |
| Hkdf.Prk | src/crypto.js:64 | the pseudorandom key `HMAC(key = salt, msg = input)`; its use is stated by `FirstChunk`, `NextChunk` and `DeriveSecrets` |
| Hkdf.Message | src/crypto.js:66-79 | round 1's message is `info | 0x01`; a later round k's message is the whole scratch buffer: `T(k-1)` in bytes 0..31, then `info`, then the counter k |
| Hkdf.DeriveSecretsSpec | src/crypto.js:54-82 | what deriveSecrets returns or throws; stated by `SaltCheckedFirst`, `ChunkAssertionExactly`, `ZeroDefaultsFourFails`, `DerivedShape`, `FirstChunk`, `NextChunk` and `DerivePrefix` |
| Hkdf.Block | src/crypto.js:70-79 | `T(0)` is empty and every block `T(1)..T(3)` is 32 bytes |
| Hkdf.Expand | src/crypto.js:70-81 | the block list for count n has exactly n entries |
| Hkdf.ExpandAt | src/crypto.js:70-81 | entry i of the block list is `T(i+1)` |
| Hkdf.ExpandPrefix | src/crypto.js:70-81 | for m <= n, the first m blocks are a prefix of the first n blocks |
| Hkdf.SaltCheckedFirst | src/crypto.js:59-61 | a salt that is not 32 bytes fails with "Got salt of incorrect length", whatever `chunks` is |
| Hkdf.ChunkAssertionExactly | src/crypto.js:62-63 | with a 32-byte salt, the assertion fails exactly when `chunks` is given, non-zero and outside [1, 3]; in every other case the call succeeds |
| Hkdf.ZeroDefaultsFourFails | src/crypto.js:62-63 | `chunks = 0` gives the same result as an absent count and as 3; `chunks = 4` fails the assertion |
| Hkdf.DerivedShape | src/crypto.js:62-81 | on success, the result has exactly the effective count of chunks (1 to 3), each 32 bytes |
| Hkdf.FirstChunk | src/crypto.js:64-70 | chunk 1 is `HMAC(HMAC(salt, input), info | 0x01)`; the 32 reserved bytes are not in its message |
| Hkdf.NextChunk | src/crypto.js:71-79 | chunk k (k = 2, 3) is `HMAC(PRK, chunk k-1 | info | k)` |
| Hkdf.DerivePrefix | src/crypto.js:70-81 | for the same input, salt and info, the result for a smaller count is a prefix of the result for a larger count |
| Hkdf.FirstRound | src/crypto.js:65-70 | round 1: the buffer is 32 zero bytes, then `info`, then the counter 1; the block is the HMAC of only the part after the 32 reserved bytes (`info | 0x01`), and it is the first entry of the block list |
| Hkdf.NextRound | src/crypto.js:71-79 | one later round: the buffer ends up holding round k's message `T(k-1) | info | k`, the returned block is the HMAC of that buffer, and it extends the block list by `T(k)` |
| Hkdf.DeriveSecrets | src/crypto.js:54-82 | the scratch-buffer code returns exactly `DeriveSecretsSpec`. On either error it calls no HMAC. On success it makes `EffectiveChunks(chunks) + 1` HMAC calls: first `(salt, input)`, then `(PRK, message of round k)` for each k |
| Mac.SliceEnd | src/crypto.js:88 | the end index of `slice(0, end)`: never past the length, clamped to it, and counted back from the end when negative; its use is stated by `Truncate` and `BadLengthExactly` |
| Mac.Truncate | src/crypto.js:88 | the truncated MAC is a prefix of the MAC, and its length equals `length` exactly when 0 <= length <= 32 |
| Mac.TimingSafeEqual | src/crypto.js:92 | for equal-length buffers, true exactly when they agree at every byte |
| Mac.VerifyMac | src/crypto.js:84-95 | what verifyMAC returns or throws; stated by `BadLengthExactly`, `LengthCheckedBeforeComparison`, `AcceptsExactlyTruncatedMac` and `RejectsBitFlip` |
| Mac.BadLengthExactly | src/crypto.js:88-91 | verifyMAC throws "Bad MAC length" exactly when the supplied tag is not `length` long or `length` is outside [0, 32] |
| Mac.LengthCheckedBeforeComparison | src/crypto.js:88-91 | when `length` > 32, even the full correct MAC is rejected with "Bad MAC length": the length check comes before the comparison |
| Mac.AcceptsExactlyTruncatedMac | src/crypto.js:88-94 | verifyMAC returns normally exactly when `mac` equals the first `length` bytes of `HMAC(key, data)`; it throws "Bad MAC" exactly when the lengths pass and the tags differ |
| Mac.RejectsBitFlip | src/crypto.js:92-94 | a correct truncated tag is accepted, and flipping any one of its bits makes verifyMAC throw "Bad MAC" |

## Left out

- `encrypt` / `decrypt` (src/crypto.js:18-33): AES-256-CBC runs entirely inside Node's crypto provider. Key, IV and padding checks belong to the provider.
- `hash` (src/crypto.js:45-50): a single SHA-512 library call.
- `calculateMAC` (src/crypto.js:36-42): HMAC-SHA256 from the library. It is the parameter `hmac`, known only to be deterministic and to return 32 bytes. As a result, concrete output values (golden vectors) cannot be stated.
- `assertBuffer` and its TypeError (src/crypto.js:9-15): a runtime type check. Here the static types `seq<byte>` and `array<byte>` give the same guarantee.
- Constant-time comparison in `timingSafeEqual`: timing cannot be expressed. The comparison is modelled as byte-wise equality.
- JavaScript numeric quirks of `chunks` and `length`: non-integer values (for example 1.5), `NaN`, and `undefined` going through `||` or `slice`. `chunks` is an optional integer where absent or 0 means 3. `length` is an integer.
- Nothing about the uninitialised memory of `Buffer.allocUnsafe` (src/crypto.js:66) is lost: the elements of a new Dafny array are arbitrary too. `DeriveSecrets` verifies whatever they are, because `Fill`, `Copy` and the counter write overwrite every byte before the first HMAC of the buffer.
- Aliasing of `infoArray.slice(32)` (src/crypto.js:70): Node returns a view that shares memory with the scratch buffer. The model takes the view's contents at the moment of the call, which is all that `calculateMAC` reads.
- Rounds 2 and 3 (src/crypto.js:71-79) have the same code, so the model runs both through the one method `NextRound`. Round 1's setup (src/crypto.js:65-70) is the method `FirstRound`.
- Determinism: in the model it holds by construction, because every operation is a function of its arguments and of `hmac`.
- The text of Node's generated AssertionError message: `ErrorMessage` gives no text for it, and only the kind of error is modelled.
