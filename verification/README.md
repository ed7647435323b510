# Replay-resistant HMAC authenticator — a Dafny model

This project models `hmac-deny-replay-example`, a small Rust program that
authenticates messages with HMAC-SHA256 and rejects replays. The program keeps
a `Private` state made of a shared key and a `u64` counter.

- `send_message` tags a message. The tag is the MAC of the message bytes
  followed by the counter as 8 little-endian bytes.
- `receive_message` recomputes that tag at the receiver's own counter. It
  compares the result with the candidate tag and bumps the counter (wrapping
  at 2^64) only on a match.
- A mismatch yields `BadSignature`. A key that the MAC library rejects yields
  `BadKey` (or `InvalidLength` from `send_message`).

A tag made at counter `n` therefore fails once the receiver has moved to
`n + 1`, provided `mac` does not collide on the two MAC inputs (and fewer
than 2^64 acceptances have wrapped the counter back to `n`).

The model is functional. The state is an immutable `State(key, counter)`.
`Send` returns a tag and no new state, so it cannot change the state.
`Receive` returns the outcome together with the next state.

HMAC-SHA256 is a foreign library, so it is represented by a `MacPrimitive`
value that every operation receives as a parameter. That value has two parts:

- `keyOk`: whether `Hmac::<Sha256>::new_from_slice` accepts a key.
- `mac`: the keyed function from data to a 32-byte tag. The 32-byte length is
  part of its type.

Nothing else is assumed about the primitive. The replay, stale-tag and
cross-message lemmas each state one cryptographic hypothesis explicitly:
`CollisionFreeOn`, meaning `mac` does not collide on the two specific MAC
inputs the lemma compares. Injectivity on all data cannot hold for a 32-byte
output, so the hypothesis is deliberately this narrow.

Files:

- `arithmetic.dfy` (`Arithmetic`): division and remainder facts used below.
- `little_endian.dfy` (`LittleEndian`): the `Byte` and `U64` types, and
  `u64::to_le_bytes` (`LE8`) with its inverse.
- `private.dfy` (`Private`): the state, `new`, `bump` and `wrapping_add`.
- `protocol.dfy` (`Protocol`): the MAC input encoding, `send_message`,
  `receive_message` and `ReceiveError`, with the replay lemmas.
- `trace.dfy` (`Trace`): successive `receive_message` calls on one state.
- `demo.dfy` (`Demo`): the `main` driver. Its printed lines become a returned
  list.
- `results.dfy` (`Results`): Rust's `Result`.

## Model

| member | source | states |
|---|---|---|
| `LittleEndian.LE8` | src/main.rs:31 | `to_le_bytes` of a `u64` is exactly 8 bytes long |
| `LittleEndian.LE8Digits` | src/main.rs:31 | byte `i` of the encoding is base-256 digit `i` of the counter (least significant byte first) |
| `LittleEndian.LE8RoundTrip` | src/main.rs:31 | decoding the 8 bytes gives the counter back |
| `LittleEndian.LE8RoundTripBytes` | src/main.rs:31 | every 8-byte sequence is the encoding of the counter it decodes to, so the encoding is a bijection onto 8-byte sequences |
| `LittleEndian.LE8Injective` | src/main.rs:42 | two counters have the same encoding if and only if they are equal |
| `Private.New` | src/main.rs:16-21 | a new state holds exactly the given key, and its counter is 0 (`u64::MIN`) |
| `Private.Bump` | src/main.rs:23-25 | the key is unchanged; the counter goes up by one below `u64::MAX`; `u64::MAX` wraps to 0; the state always changes |
| `Private.WrappingAddIsModular` | src/main.rs:24 | the wrapping addition equals addition modulo 2^64 |
| `Private.BumpNCounter` | src/main.rs:23-25 | `k` bumps leave the key alone and set the counter to the start plus `k`, modulo 2^64 |
| `Private.BumpNReturns` | src/main.rs:24 | `k` bumps return to the starting state if and only if `k` is a multiple of 2^64 |
| `Protocol.MacInput` | src/main.rs:30-31 | the MAC input is the message followed by 8 bytes; the first part is the message; the last 8 bytes decode to the counter |
| `Protocol.MacInputInjective` | src/main.rs:30-31 | two (message, counter) pairs give the same MAC input if and only if both parts are equal |
| `Protocol.Send` | src/main.rs:28-33 | fails with `InvalidLength` exactly when the key is rejected; otherwise returns the MAC, under the key, of the MAC input for the current counter |
| `Protocol.Receive` | src/main.rs:35-51 | the key never changes; `BadKey` occurs exactly when the key is rejected, for a candidate of any length; acceptance occurs exactly when `Send` on the same state and message returns this tag; acceptance bumps the counter; any failure leaves the state unchanged |
| `Protocol.ReceiveAcceptsSentTag` | src/main.rs:40-48 | with an accepted key, the tag `Send` produces is accepted by `Receive` on the same state, and the counter moves to its successor modulo 2^64 |
| `Protocol.BadKeyFailsBoth` | src/main.rs:40 | a rejected key makes `Send` fail (line 29) and makes `Receive` return `BadKey`, never `BadSignature`, with the state unchanged, whatever the tag and whatever its length |
| `Protocol.TamperedTagRejected` | src/main.rs:44-49 | any candidate other than the expected tag is rejected with `BadSignature`, and the state is unchanged |
| `Protocol.StaleTagRejected` | src/main.rs:40-49 | if `mac` does not collide on the two inputs, a tag made at any counter other than the receiver's current one is rejected and the state is unchanged |
| `Protocol.OtherMessageRejected` | src/main.rs:41-49 | if `mac` does not collide on the two inputs, a tag for one message does not authenticate a different message at the same counter |
| `Protocol.ReplayRejected` | src/main.rs:44-48 | after `(message, tag)` is accepted, the same pair is rejected by the advanced state with `BadSignature`, and that state is unchanged (assumes no collision between counters n and n+1) |
| `Trace.BumpPerAcceptance` | src/main.rs:45-49 | bumping exactly on an acceptance keeps the state equal to the start bumped once per acceptance so far |
| `Trace.ReceiveAll` | src/main.rs:35-51 | after a sequence of receives there is one outcome per delivery, and the final state is the initial one bumped exactly once per acceptance (so failures never move the counter) |
| `Trace.JudgedInOrder` | src/main.rs:40-44 | each delivery in a sequence is judged against exactly the state its predecessors left, never against another counter |
| `Demo.AsciiBytes` | src/main.rs:54-55 | `as_bytes` of an ASCII string keeps its length and maps each character to its code |
| `Demo.SendAndReplay` | src/main.rs:59-70 | the first block of `main` keeps the key; with an accepted key it prints First `Ok` (the "Should succeed" of line 61) and a Replay line, and ends one bump further if the replay failed, two if it succeeded; with a rejected key it reports only the send error and leaves the state alone |
| `Demo.ReplayLineFails` | src/main.rs:64-65 | for any state with an accepted key and no collision between the current counter and its successor, the replay line is `BadSignature` and the block ends exactly one bump further |
| `Demo.Resend` | src/main.rs:72-79 | the second block of `main` keeps the key; with an accepted key the fresh tag is accepted and the counter bumped; with a rejected key it reports the send error and leaves the state alone |
| `Demo.Driver` | src/main.rs:53-80 | `main` keeps the secret and reports three lines with an accepted key, otherwise two |
| `Demo.DriverScenario` | src/main.rs:57-74 | with an accepted key and no collision between counters 0 and 1, `main` reports First `Ok`, then Replay `BadSignature`, then Resent `Ok`, and ends at counter 2 |
| `Demo.DriverBadKey` | src/main.rs:67-78 | with a rejected key, both sends report `InvalidLength` and the counter stays at 0 |
| `Demo.MainScenario` | src/main.rs:54-74 | the same sequence of outcomes, using the program's own message and secret |

## Left out

- HMAC-SHA256 internals (`Hmac::<Sha256>`, `update`, `finalize`) are not modelled; they are the `mac` field of `MacPrimitive`. Feeding `message` and then the counter bytes through two `update` calls is modelled as one MAC over their concatenation, because the library is incremental.
- Which keys `new_from_slice` rejects is not visible in this code, so `keyOk` is left abstract. No length rule is invented.
- The constant-time comparison inside `mac.verify` is modelled as plain sequence equality. Timing cannot be expressed here.
- Protocol.Receive: requires the candidate tag to be 32 bytes long when the key is accepted. Only then is the `.into()` conversion at src/main.rs:44 reached. A candidate slice of any other length goes through that library conversion, and whether the library reports it as a verification failure or panics is not visible in this code, so that case is left unmodelled. With a rejected key, src/main.rs:40 returns `BadKey` first, and that is modelled for a candidate of any length.
- `println!` and `eprint!` in `main` are not modelled as I/O; `Demo.Driver` returns the lines they would print instead. The error payload printed by `eprint!` is reduced to the `InvalidLength` value.
- Borrowing and lifetimes of the key slice are not modelled. `Private` holds a shared borrow `&'a [u8]` (src/main.rs:4-5, 16), so the key cannot change while a `Private` exists, and storing it as a value `seq<Byte>` is equivalent.
- Zeroing of the secret and persistence of the counter across restarts are not modelled; the code does neither.
- Replay rejection needs a property of the MAC. It is stated per lemma as `CollisionFreeOn` for the two inputs involved, not as a global injectivity axiom.
- Trace.ReceiveAll: threads only 32-byte candidate tags (`Delivery.tag` is a `Tag`); a trace under a rejected key with candidates of other lengths is covered per call by `Protocol.BadKeyFailsBoth`, not by `ReceiveAll`.
- Trace.ReceiveAll: states the final counter as `BumpN(p, accepted)`. The modulo-2^64 form follows by combining it with `Private.BumpNCounter`; it is not restated on `ReceiveAll`.
- As `Private.BumpNReturns` shows, the counter wraps. After 2^64 acceptances, a tag from the first counter value would match again. The code accepts this, and so does the model.
