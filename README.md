# License Gate key validator in Dafny

License Gate is a small desktop application. It unlocks once the user enters a license key that
`verify_key` accepts. This project models that predicate and its helper `mix`. It then proves
which keys are accepted and what the checksum loop computes.

A candidate key is the sequence of its UTF-8 bytes (`seq<bv8>`). It passes three gates:

* the length gate: exactly 14 bytes;
* the dash gate: `-` at offsets 4 and 9;
* the blacklist gate: it does not start with `TEST` and does not contain `AAAA`.

A key that passes the gates is checked by a 32-bit checksum. The accumulator starts at `0x12345678`.
A three-state loop runs over every byte, dashes included. State 0 mixes the byte in, state 1 XORs
`0x11111111`, and state 2 moves to the next byte. The key is accepted exactly when the final value
is `0x85FD063D`. `mix` XORs the byte in, rotates left by 5, adds `0x9E3779B9` modulo 2^32 and XORs
`0xA5A5_5A5A`. Dafny's `bv32` gives Rust's `u32` semantics for XOR, wrapping addition and rotation.
So `mix` is a total function and cannot fault.

Layout:

* `byte_strings.dfy` (module `ByteStrings`): the byte-level prefix and substring tests that stand
  for `str::starts_with` and `str::contains` with an ASCII pattern.
* `license_gate.dfy` (module `LicenseGate`), which holds:
  * the constants;
  * `Mix` and its inverse `Unmix`;
  * `Round`, one byte's worth of the loop;
  * the reference fold `FoldFrom` / `Checksum`;
  * the gate predicates and the acceptance condition `Accepted`;
  * the imperative `VerifyKey`, with the source's `while` / `match state` loop;
  * lemmas about all of the above.

## Model

| member | source | states |
|---|---|---|
| LicenseGate.VerifyKey | license_gate/src/main.rs:89-110 | returns true exactly when the key passes all three gates and its fold checksum equals 0x85FD063D; the loop terminates (measure 3*(len-i)-state), keeps state in 0..2 and i <= len, reads b[i] only while i < len, and at every state-0 point holds the fold of the first i bytes; mix is applied once per byte of a key that passes the gates and never for a key that a gate rejects |
| LicenseGate.MixInverse | license_gate/src/main.rs:112-116 | for every byte, Unmix undoes mix, so no information about the accumulator is lost |
| LicenseGate.MixOnto | license_gate/src/main.rs:112-116 | for every byte, every 32-bit word is the mix of some accumulator |
| LicenseGate.MixInjective | license_gate/src/main.rs:112-116 | for a fixed byte, distinct accumulators mix to distinct words |
| LicenseGate.MixInjectiveInByte | license_gate/src/main.rs:112-116 | for a fixed accumulator, distinct bytes mix to distinct words |
| LicenseGate.RoundInjective | license_gate/src/main.rs:102-103 | for a fixed byte, a round (mix then XOR 0x11111111) maps distinct accumulators to distinct words |
| LicenseGate.RoundInjectiveInByte | license_gate/src/main.rs:102-103 | for a fixed accumulator, a round maps distinct bytes to distinct words |
| LicenseGate.FoldFromSnoc | license_gate/src/main.rs:100-106 | the checksum of a sequence extended by one byte is one more round on the previous checksum, which is the loop's step |
| LicenseGate.FoldFromAppend | license_gate/src/main.rs:100-106 | the fold over a concatenation is the fold over the second part, started from the fold over the first part |
| LicenseGate.FoldFromInjective | license_gate/src/main.rs:96-106 | over a fixed byte sequence, distinct starting accumulators give distinct results |
| LicenseGate.ChecksumAround | license_gate/src/main.rs:96-106 | the checksum of p + [c] + q continues from one round of c on the checksum of p |
| LicenseGate.SingleByteDeterminesChecksum | license_gate/src/main.rs:96-106 | two keys that differ in exactly one byte have different checksums |
| LicenseGate.TraceEndsInFold | license_gate/src/main.rs:96-106 | a sequence of accumulator values in which each is one round on the previous ends in the fold checksum |
| LicenseGate.WrongLengthRejected | license_gate/src/main.rs:91 | every key whose byte length is not 14 is rejected |
| LicenseGate.MissingDashRejected | license_gate/src/main.rs:92 | a 14-byte key without '-' at offset 4 or at offset 9 is rejected |
| LicenseGate.TestPrefixRejected | license_gate/src/main.rs:94 | a key beginning with the bytes TEST is rejected whatever its checksum |
| LicenseGate.ForbiddenRunRejected | license_gate/src/main.rs:94 | a key containing AAAA at any offset is rejected whatever its checksum |
| LicenseGate.ForbiddenRunInGroup | license_gate/src/main.rs:92-94 | a well-formed key contains AAAA exactly when one of its three dash-separated groups is AAAA |
| LicenseGate.WindowsCrossingDash | license_gate/src/main.rs:92-94 | in a well-formed key, no four-byte window that covers a dash is AAAA |
| LicenseGate.EmptyRejected | license_gate/src/main.rs:91 | the empty key is rejected |
| LicenseGate.AllARejected | license_gate/src/main.rs:91-94 | AAAA-AAAA-AAAA is well formed but rejected by the blacklist |
| LicenseGate.TestKeyRejected | license_gate/src/main.rs:91-94 | TEST-0000-0000 is well formed but rejected by the prefix test |
| LicenseGate.SampleKeyPassesGates | license_gate/src/main.rs:91-94 | 1234-5678-9012 passes all three gates |
| LicenseGate.SampleKeyChecksum | license_gate/src/main.rs:96-106 | the checksum of 1234-5678-9012 is 0x3DEB5D2F |
| LicenseGate.SampleKeyRejected | license_gate/src/main.rs:89-110 | 1234-5678-9012 passes the gates, but its checksum misses the target, so it is rejected |
| ByteStrings.Contains | license_gate/src/main.rs:94 | the sliding-window search answers true exactly when the pattern occurs at some offset |

## Left out

- `main` and the egui/eframe `LicenseApp` (`license_gate/src/main.rs:1-87`): window rendering and button handling through a foreign GUI library. The `tries`, `unlocked` and `status` fields are presentation state only.
- The `eprintln!` of the accumulator (`license_gate/src/main.rs:107`): output to standard error, with no effect on the result.
- The commented-out `0xDEAD_BEEF` target (`license_gate/src/main.rs:108`): dead code. Only the live constant `0x85FD063D` is modelled.
- Text decoding: the key is taken as its byte sequence. The model accepts any byte sequence, including ones that are not valid UTF-8 and that a Rust `&str` could not hold. The patterns `TEST` and `AAAA` are ASCII, so the byte tests agree with `starts_with` and `contains` on every valid string.
- Existence of an accepted key: nothing in the code constructs one, so the model states the acceptance condition and does not search for a key that meets it.
- Concurrency and timing: the routine has neither, and constant-time behaviour is not claimed.
- VerifyKey: the loop counter `state` is a Rust `u8`; the model uses `nat`. The invariant keeps it in 0..2, so no wrap-around can occur. The count of `mix` calls is a ghost out-parameter, because the source has no such counter.
- Mix: it carries no `ensures` of its own. Its properties (inverse, onto, injective in each argument) are the lemmas listed above.
