# Verification of the record-protection protocol

This project models the record-protection protocol of `srp/` in Dafny and proves
what it promises over every run: a sender that allocates nonces and seals records,
a network that may deliver any bytes at any time, and a receiver that verifies
records and keeps replay state per stream.

`dafny verify dfyconfig.toml` checks everything.

## Layers

| file | part of the protocol |
|---|---|
| `Basics.dfy` | options, results, bytes, the error and reason types of `srp/errors.py` |
| `Bits.dfy` | Python's `<<`, `&`, `\|`, `^` and binary rendering on unbounded naturals |
| `BigEndian.dfy` | fixed-width big-endian integers |
| `ReplaySpec.dfy`, `Replay.dfy` | the replay window and guard: recorded sets, and the classes that keep them as bitmaps |
| `Header.dfy` | header and record codec |
| `Suites.dfy` | the AEAD interface over an ideal table |
| `Nonce.dfy`, `Sender.dfy` | nonce manager and sender |
| `ReceiverSpec.dfy`, `ReceiverRuns.dfy`, `ReceiverLedger.dfy`, `Receiver.dfy` | the verification pipeline, its runs, its books, and the class |
| `Session.dfy`, `EndToEnd.dfy` | senders, network and receiver together; their invariant; safety over every run |
| `Delivery.dfy`, `Necessity.dfy` | delivery of what was sent; that it holds exactly for deployments |
| `Adversary.dfy` | the malicious actor's byte transformations |
| `Refinement.dfy` | the abstract machine that the whole system refines |
| `Channel.dfy` | the `Channel` class |

The classes `ReplayWindow`, `ReplayGuard`, `NonceManager`, `Sender`, `Receiver` and
`Channel` hold the source's fields and update them in place. A window's ghost field
`recorded` is the set of numbers it has accepted and `history` the sequence of all
`commit` arguments; its invariant says that the integer bitmap encodes that set.
Each method is proved to move the object's state exactly as a function of its old
state says, and the theorems about runs are about those functions. What the
functions compute is in turn stated in numbers and bytes, without the names they are
defined by: `SealExactly` and `SealedWire` for sending, `ReceiveExactly` for the
receiver's pipeline, `ParseExactly`, `TypeByte` and `Fields` for the format, and the
`…Bytes` lemmas of `Adversary.dfy` for the actor's moves.

The AEAD is ideal (interface: sections 2.1 and 2.2 of RFC 5116). `seal` applies an
arbitrary function whose output is 16 bytes longer than the plaintext and records
the call in a table; `open` searches the table for the nonce, output and associated
data. That `open` has one answer is not assumed: it follows from nonce uniqueness,
and `NonceReuseIsAmbiguous` shows what is lost without it. The theorems of
`ReceiverRuns.dfy` and `ReceiverLedger.dfy` do not use the table: they hold for any
decryption function, a different one at each delivery if need be.

`System` allows several senders under one key, as the concurrent-stream tests do; a
`Channel` is the case of one. Safety needs no more than that no two senders can
issue the same nonce: an accepted wire was sent by exactly one event, because two
sends never yield the same wire.

Delivery needs a deployment, and `DeliversIffDeployed` says that it needs exactly
that. A wire is due when it was sent, was never accepted, and is fewer than the
window size behind everything sent on its stream. `Deployed` is a condition on the
configuration before its first call, over the senders that have budget left on a
stream that fits its field: the receiver is not pinned to another session, its
stream cap covers their distinct streams, and those that share a stream have
disjoint ranges of numbers left. In every run of a deployment, whatever the network
does, every wire that is due is accepted with its payload; and for each clause that
fails there is a run that refuses one.

## Where the code and its prose differ

The model follows the code.

- At the stream cap the guard refuses new streams (`srp/replay.py:270-271`,
  `srp/replay.py:285-286`). `report/REPORT.md:922-926` speaks of eviction of the
  least recently used stream; nothing is ever evicted.
- The replay verdict INVALID is reported as STALE_RECORD (`srp/receiver.py:249-257`).
- The window shifts a bitmap, as in section 3.4.3 of RFC 4303, and not the
  shift-free variant of RFC 6479 that the docstring names.
- The replay key is (session_id, stream_id) and leaves out the nonce prefix, so two
  senders on one stream shut out each other's records although their nonces differ:
  both send, the first's record is accepted, and the second's, delivered for the
  first time, is refused as a replay (`SharedStreamRun`, and `SharedStreamExample`
  for two senders with the default policy). `README.md:257-261` says that a sender
  owns its stream, but nothing enforces it. Sharing is harmless exactly when the
  senders' numbers cannot meet, which `start_seq` allows (`DeliversIffDeployed`).
- `seal` finds out only after allocating that the stream id, type or flags do not
  fit their fields. The number is spent and no record is made.
- A window of size 0 is accepted by the code and behaves as a strict successor
  check; `describe` then prints one digit for an empty range (`DescribeDigitCount`).
- `truncate_tag` with count 0 returns the empty string, because `-0` is `0`.

## Model

| member | source | states |
|---|---|---|
| ReplaySpec.EncodeBit | srp/replay.py:106-115 | Digit i of the bitmap that stands for a recorded set is set exactly when highest - i was recorded and i lies inside the window. |
| ReplaySpec.EncodeUnique | srp/replay.py:106-115 | No other number has that meaning, so the bitmap is determined by the recorded set. |
| ReplaySpec.SlideUpdate | srp/replay.py:183-189 | Shifting by seq - highest, setting bit 0 and masking to the window yields the bitmap of the enlarged set. |
| ReplaySpec.EncodeOfLeader | srp/replay.py:185-191 | When everything older has left the window, the bitmap is 1. |
| ReplaySpec.MarkUpdate | srp/replay.py:201-208 | Or-ing in bit highest - seq yields the bitmap of the set with seq added. |
| ReplaySpec.RecordAllKeeps | srp/replay.py:172-208 | After any commits, the window has the maximum of everything committed and, inside the window, exactly the committed numbers, although stale ones were dropped on the way. |
| ReplaySpec.KeepsIsEnough | srp/replay.py:130-168 | A window answers every query, and holds the same bitmap, as if it remembered everything ever committed. |
| ReplaySpec.CommitConfluence | srp/replay.py:172-208 | Highest number and bitmap after a sequence of commits depend only on the set of values, not on order or repeats. |
| ReplaySpec.VerdictsOnlyAge | srp/replay.py:130-157 | As a window records more, the verdict on a fixed number moves only along FRESH, DUPLICATE, TOO_OLD. |
| ReplaySpec.BitmapBounds | srp/replay.py:183-206 | In a non-empty window of size at least 1, bit 0 is set, the bitmap fits in min(size, highest + 1) bits, and masking it changes nothing. |
| ReplaySpec.PopcountBound | srp/replay.py:193-208 | The bitmap has no more bits set than numbers were accepted. |
| ReplaySpec.CommitFollowsCheck | srp/replay.py:263-289 | `check` says FRESH exactly when `commit` records the number; otherwise the guard is unchanged, except that a negative number on a new stream below the cap leaves an empty window. |
| Replay.ReplayWindow.constructor | srp/replay.py:121-126 | A new window has recorded nothing, for any size, 0 included. |
| Replay.ReplayWindow.Check | srp/replay.py:130-157 | The answer computed from the bitmap is the set-based classification: negative is invalid, ahead is fresh, size or more behind is too old, in between a duplicate iff recorded. |
| Replay.ReplayWindow.Seen | srp/replay.py:159-168 | True exactly for recorded numbers fewer than size behind the highest, and exactly when `check` says DUPLICATE. |
| Replay.ReplayWindow.Commit | srp/replay.py:172-208 | Keeps the bitmap invariant, reports a change exactly when the number was FRESH, adds exactly that number to the recorded set, and changes nothing otherwise. |
| Replay.ReplayWindow.BitmapRefinesHistory | srp/replay.py:106-115 | In every reachable window, bit i says whether highest - i is among the arguments ever committed, and highest is their maximum. |
| Replay.ReplayWindow.Confluence | srp/replay.py:172-208 | Two window objects given the same values in different orders hold the same highest number and bitmap. |
| Replay.ReplayWindow.Bounds | srp/replay.py:225-231 | Every reachable non-empty window of size at least 1 meets the bitmap bounds, and a snapshot masks nothing away. |
| Replay.ReplayWindow.SnapshotShows | srp/replay.py:225-231 | A snapshot shows the highest number accepted, how many were, and the bitmap unchanged, except that a window of size 0 shows none. |
| Replay.ReplayWindow.DescribeShowsRecorded | srp/replay.py:93-103 | The rendering prints one digit per number of its stated range, and each digit says whether that number was accepted. |
| Replay.ReplayWindow.DescribeEmpty | srp/replay.py:93-96 | The empty rendering appears exactly while nothing was recorded, with the window's own size. |
| Replay.ReplayWindow.DescribeDigitCount | srp/replay.py:93-103 | One digit per number of the stated range holds exactly when the window size is at least 1. |
| Replay.ReplayGuard.Check | srp/replay.py:263-275 | The guard's answer is that of the stream's recorded set, or INVALID for a new stream at the cap. |
| Replay.ReplayGuard.CheckExactly | srp/replay.py:263-275 | A tracked stream's own window answers; a new stream is FRESH below the cap for a number that is not negative, and INVALID otherwise. |
| Replay.ReplayGuard.Commit | srp/replay.py:277-289 | Records on that stream alone, starting it if the cap allows; all other window objects keep identity and contents; True exactly when `check` would have said FRESH. |
| Replay.ReplayGuard.Reset | srp/replay.py:308-311 | Drops all streams. |
| BigEndian.DecodeEncode | srp/header.py:100-101 | Decoding inverts encoding for every in-range number, at any width. |
| BigEndian.EncodeIsBigEndian | srp/header.py:100-101 | Byte i of a width-byte integer has weight 256 to the width - 1 - i. |
| BigEndian.EncodeDecode | srp/header.py:100-101 | Encoding inverts decoding for every byte string. |
| Header.CoerceType | srp/header.py:259-272 | Naming a type code never changes the code; 1, 2 and 3 are DATA, CONTROL and CLOSE, and no other number has a name. |
| Header.TypeByte | srp/header.py:123-128 | A DATA, CONTROL or CLOSE record travels with type byte 1, 2 or 3, and any other code as itself. |
| Header.Fields | srp/header.py:202-242 | What every one of 40 bytes is read as, type names in both directions, flag bits unchanged. |
| Header.FromBytes | srp/header.py:203-242 | Only a wrong length or version fails, always as malformed; the header constructor never refuses unpacked fields. |
| Header.ParseExactly | srp/header.py:302-332 | Byte strings are records exactly if they have at least 56 bytes, version byte 1 and a length field of at most 2^24 that counts all but 56 of them; every other is malformed. |
| Header.FlagsSurvive | srp/header.py:239 | Masking a flag byte with 0xFF loses nothing, unknown bits included. |
| Header.EncodingOfUnpack | srp/header.py:178-242 | Print after parse is the identity on all 40-byte strings. |
| Header.UnpackOfEncoding | srp/header.py:178-242 | Parse after print gives every in-range header back, with its type named. |
| Header.Layout | srp/header.py:3-34 | Every field lies at the offsets of the wire-format diagram, integers big-endian. |
| Header.EncodingInjective | srp/header.py:178-196 | Two headers have the same encoding exactly when they are the same up to naming the type. |
| Header.PrintOfParse | srp/header.py:302-332 | Every wire the parser accepts prints back byte for byte, and the header it yields re-encodes to the wire's own first 40 bytes. |
| Header.ParseOfPrint | srp/header.py:295-332 | Every well-framed version-1 record parses back from its own bytes. |
| Header.HeaderFixesLength | srp/header.py:322-330 | Bytes sharing a readable wire's header are readable exactly when their total length is the same. |
| Header.PrefixFree | srp/header.py:309-330 | No readable wire is a proper prefix of another. |
| Suites.LookupIsSealed | srp/suites.py:88-109 | Whatever opens was sealed with that nonce, output, associated data and plaintext. |
| Suites.OpenGuards | srp/suites.py:88-109 | A nonce that is not 12 bytes is a configuration error; fewer than 16 bytes of ciphertext and tag, or a refusal of the backend, an authentication failure. |
| Suites.SuiteBytes | srp/suites.py:124-160 | AES-GCM is suite 1, ChaCha20-Poly1305 suite 2, and there is no other. |
| Suites.OpenIsExact | srp/suites.py:77-109 | Without nonce reuse, opening yields a plaintext exactly when it was sealed to that output. |
| Suites.NonceReuseIsAmbiguous | srp/suites.py:88-109 | With a reused nonce, one triple can stand for two plaintexts, so `open` could not return both: that it has one answer rests on nonce uniqueness. |
| Suites.IdealAead.Seal | srp/suites.py:77-86 | A 12-byte nonce records one entry and returns an output 16 bytes longer than the plaintext; any other nonce length raises and records nothing. |
| Nonce.DeriveNonce | srp/nonce.py:97-111 | Succeeds exactly for a 4-byte prefix and a 64-bit number, always with 12 bytes. |
| Nonce.NonceStructure | srp/nonce.py:18-27 | The nonce is the four prefix bytes followed by the number in eight big-endian bytes. |
| Nonce.NonceInjective | srp/nonce.py:97-111 | Equal nonces have equal prefix and equal number. |
| Nonce.BudgetFits | srp/nonce.py:133-154 | The constructor admits exactly the non-empty budgets of which every number makes a nonce. |
| Nonce.ExactBudget | srp/nonce.py:163-179 | Call k returns number start + k while the budget lasts, and every later call fails with the state unchanged. |
| Nonce.NoncesAreUnique | srp/nonce.py:163-179 | Numbers of one manager strictly increase below 2^64 and no nonce repeats. |
| Nonce.NeverShareIffDisjoint | srp/nonce.py:49-69 | Two managers never share a nonce exactly when their prefixes differ or their budgeted ranges do not meet. |
| Nonce.NonceManager.Allocate | srp/nonce.py:163-179 | The object takes exactly the specified step; nonce derivation cannot raise. |
| Nonce.NonceManager.Remaining | srp/nonce.py:202-208 | The number returned is how many further allocations would succeed, and is 0 exactly when exhausted. |
| Sender.SealIsHonest | srp/sender.py:116-139 | A sealed record's header, associated data, nonce and wire belong together: the wire is the associated data followed by the output. |
| Sender.SealExactly | srp/sender.py:107-139 | A payload of up to 2^24 bytes is sealed exactly while the budget lasts and stream, type and flags fit their fields; every other call raises the error stated, a number is spent exactly on payloads within that limit while the budget lasts, and counters move only with a record. |
| Sender.SealedWire | srp/sender.py:116-149 | Every byte of a sealed wire, from the sender and the call: version 1, suite, type, flags, session, stream, prefix, the number the sender had reached, the length, and the output of the AEAD for the nonce, payload and header that the wire shows. |
| Sender.SealRun | srp/sender.py:107-139 | In any run of calls, failed ones included, the k-th call to reach allocation uses number start + k; the outcome of every call is determined, with the error it raises. |
| Sender.SealRunBudget | srp/sender.py:107-128 | The numbers spent are those calls' count, up to the budget; calls that fail after allocating spend one too. |
| Sender.SealRunStats | srp/sender.py:136-139 | The counters are exactly the number of records that came back, the length of their payloads, and that length plus 56 bytes per record. |
| Sender.SealedNoncesDiffer | srp/sender.py:92-139 | Any two records of a run have different nonces and increasing numbers. |
| Sender.ProtectAllIsPointwise | srp/sender.py:151-153 | A returned list holds, per payload and in order, the wire that sealed it. |
| Sender.ProtectAllExactly | srp/sender.py:141-153 | A list comes back exactly when every payload is within 2^24 bytes, the stream fits 32 bits and the budget covers them all; payload i is then a DATA record without flags, under the sender's own fields and the i-th number left. |
| Sender.Sender.Seal | srp/sender.py:92-139 | The object takes the specified step: same outcome, counters, allocation and AEAD call, also when it raises after allocating; it returns a record exactly for payloads of up to 2^24 bytes with budget left and fields that fit. |
| Sender.Sender.Protect | srp/sender.py:141-149 | Returns the wire of the sealed entry, or the same error. |
| Sender.Sender.ProtectMany | srp/sender.py:151-153 | Stops at the first error, which loses the list but not the state changes before it. |
| ReceiverSpec.MakeVerdict | srp/receiver.py:85-106 | A verdict is built exactly when a plaintext is present iff accepted and a reason iff rejected. |
| ReceiverSpec.ReceiveExactly | srp/receiver.py:188-282 | The verdict on every byte string, read off its bytes: framing, suite, session, room for the stream and distance from its highest number, repeats, and what the backend makes of bytes 24 to 35, the body and the first 40 bytes, in this order. |
| ReceiverSpec.AcceptedStep | srp/receiver.py:230-282 | Acceptance means a readable record of the right suite and session that opens and was fresh; exactly its number is recorded, on its stream alone. |
| ReceiverSpec.RejectedStep | srp/receiver.py:290-304 | A rejection leaves replay state and accepted-side counters alone. |
| ReceiverRuns.AtMostOnce | srp/receiver.py:230-282 | For arbitrary decryption functions and any run, no two accepted records share session, stream and number. |
| ReceiverRuns.ClassificationOnlyAges | srp/replay.py:130-208 | Along any run, a tracked stream stays tracked, its highest number never falls and verdicts on a fixed number only age. |
| ReceiverRuns.RejectionsAreStutters | srp/receiver.py:196-273 | Deleting any rejected deliveries from a run leaves every other verdict, the replay state after each remaining step and the accepted-side counters unchanged. |
| ReceiverRuns.StreamIndependence | srp/replay.py:263-289 | While the records that open are of at most max_streams streams, a stream's verdicts and windows are those of the run restricted to it, whatever streams unauthenticated bytes name. |
| ReceiverLedger.Conservation | srp/receiver.py:126-140 | The windows' accepted counts sum to the receiver's, accepted plus rejected is the number of deliveries, and tracked streams stay within the cap and are never empty. |
| ReceiverLedger.CountersCount | srp/receiver.py:126-140 | Each rejection counter is the number of verdicts that named its reason, and the byte counter the total length of the plaintexts released. |
| ReceiverLedger.RecordedIsAccepted | srp/receiver.py:272-282 | A window has recorded a number exactly when an earlier verdict accepted it on that stream. |
| ReceiverLedger.TrackedIffAccepted | srp/replay.py:277-289 | A stream is tracked exactly when one of its records was accepted. |
| ReceiverLedger.WindowIsFed | srp/receiver.py:230-273 | With room for the streams of the records that open, a stream's window is a lone window fed with the numbers of that stream's authentic records, in their order, whatever else is delivered. |
| ReceiverLedger.DeliveryConfluence | srp/receiver.py:230-273 | Two schedules of the same deliveries leave every stream the same highest number and bitmap, with room for the streams of the records that open. |
| Receiver.Receiver.Reject | srp/receiver.py:290-304 | Builds a well-formed rejection and counts it under its reason. |
| Receiver.ReceiverStats.NoteRejection | srp/receiver.py:138-140 | Adds one to the counter of this reason alone, starting it at zero. |
| Receiver.Receiver.Accept | srp/receiver.py:272-282 | The commit after a successful open always changes the guard, as specified, and the counters record one acceptance. |
| Receiver.Receiver.Receive | srp/receiver.py:188-282 | Every byte string gets a fail-closed verdict, the one the pipeline specifies, and the object moves to exactly the specified state; no configuration error is reachable and the ignored result of `commit` is always True. |
| Receiver.Receiver.ReceiveAll | srp/receiver.py:284-286 | The verdicts and the final state are those of the run over the same wires. |
| Session.AcceptedWasSealed | srp/receiver.py:196-282 | Any accepted bytes are the wire of a sealed entry, with its plaintext, whatever the table holds. |
| Session.SealedIsPresented | srp/receiver.py:230-265 | Without nonce reuse, a sealed entry's wire opens to its own plaintext. |
| Session.StepKeepsInv | srp/session.py:64-70 | Sends and deliveries of arbitrary bytes keep the invariant: nonces unique, entries honest and issued, every recorded number sealed. |
| Session.Reachable | srp/session.py:64-74 | The invariant holds after every run. |
| Session.ReachableTracking | srp/replay.py:277-289 | After every run, each tracked stream has accepted something. |
| Session.ReachableWithinCap | srp/replay.py:39-41 | After every run, no more streams are tracked than the cap, and none at a cap of 0 or less. |
| EndToEnd.NoWireSentTwice | srp/nonce.py:3-27 | In every run, two sends never yield the same wire, even by different senders. |
| EndToEnd.Agreement | srp/receiver.py:196-282 | In every run, an accepted wire is byte for byte one that exactly one event sent, that event came earlier, and the plaintext is the payload of that send. |
| EndToEnd.NoWireAcceptedTwice | srp/receiver.py:230-273 | In every run, no wire is accepted twice. |
| EndToEnd.AcceptedIff | srp/receiver.py:188-282 | In every reachable state, arbitrary bytes are accepted with a plaintext exactly when they are a sent wire of that plaintext, of an admissible session and fresh. |
| EndToEnd.NewStreamAtCap | srp/receiver.py:249-257 | Without room for its stream a record is STALE_RECORD, fresh or not and whether or not it opens. |
| EndToEnd.SentVerdict | srp/receiver.py:217-282 | In every reachable state and every configuration, the exact verdict on a sent record: SESSION_MISMATCH of another session, STALE_RECORD of a new stream at the cap, and else by its number. |
| EndToEnd.HighestWasIssued | srp/receiver.py:14-24 | In every reachable state, the highest number recorded on a stream is one that a sender of that stream has issued. |
| Delivery.CanSendIffSendable | srp/sender.py:92-139 | A sender with budget left on a 32-bit stream can send the empty payload, and any other can send nothing. |
| Delivery.SentAcceptedIff | srp/receiver.py:230-282 | When the receiver serves all senders, shared streams included, a sent record is accepted exactly when its number is unrecorded on its stream and ahead of, or fewer than the window size behind, the highest accepted there; otherwise it is stale or a replay, by its distance. |
| Delivery.TrackedAreLive | srp/replay.py:39-41 | Only streams of senders that could send are ever tracked, whatever is delivered. |
| Delivery.RoomForSenders | srp/replay.py:39-41 | So no forged record can use up the cap: if it covers those streams, there is room for each. |
| Delivery.DeliveryUnderAttack | srp/receiver.py:188-282 | In a deployment, after any sends and arbitrary deliveries, every wire that is due is accepted with exactly its payload. |
| Delivery.RoundTrip | srp/session.py:72-74 | In every reachable state of a deployment, a call that can be sent yields a wire that, delivered at once, returns the payload if its number is fewer than the window size behind the highest recorded on its stream, and is stale otherwise. |
| Delivery.RoundTripAlone | srp/session.py:72-74 | A sender that no other live sender shares its stream with is never overtaken, so every payload it can send comes back, whatever was sent and delivered before. |
| Delivery.RoundTripWithoutRoom | srp/replay.py:270-271 | A receiver that may track no stream refuses every record of its session as stale. |
| Necessity.DeliversIffDeployed | README.md:257-264 | From every fresh start, every wire that is due is accepted with its payload in every run, if and only if the configuration is a deployment (or the window is 0, when nothing is ever due). |
| Necessity.SessionsMustBeAdmitted | srp/receiver.py:217-228 | If delivery holds in every run, the receiver admits every sender that can send. |
| Necessity.RangesMustBeApart | srp/replay.py:35-37 | If delivery holds in every run, senders that share a stream cannot reach the same number. |
| Necessity.StreamsMustFit | srp/replay.py:263-289 | If delivery holds in every run, the cap is at least the number of distinct streams of senders that can send. |
| Necessity.SharedStreamLosesRecords | srp/replay.py:35-37 | Once a record under some stream and number was accepted, a different record under them is refused, as a replay or as stale by its distance, although it was never seen. |
| Necessity.SharedStreamRun | srp/replay.py:263-289 | From any fresh start with two senders at the same number of one stream: both send, the first's record is accepted, and the second's, on its first delivery, is refused with REPLAY_DETECTED (STALE_RECORD if the window is 0). |
| Necessity.SharedStreamExample | srp/sender.py:54-60 | Two default senders with different prefixes on stream 1, under the default window and cap, are such a start; delivery fails although no two nonces can meet. |
| Refinement.RealRefinesIdeal | srp/receiver.py:230-282 | Where the receiver serves all senders, for every schedule of sends, of deliveries of sent wires, intact, bit-flipped behind the header, cut, lengthened or relabelled, and of unreadable bytes, in any order with repeats, the outcomes equal those of a machine that keeps only a set of accepted numbers per stream. |
| Refinement.TamperingEffect | srp/adversary.py:52-145 | Whether a tampering leaves a record intact, forges it, breaks its framing or cannot be done is decided by its payload length, type and flags alone. |
| Refinement.OutcomeTells | tests/test_fr_requirements.py:91-92 | The outcomes compared determine the status and reason of every verdict. |
| Refinement.ConfigurationsAgree | tests/test_fr_requirements.py:74-112 | Two configurations that serve all their senders, with the same budgets, window and sharing of streams give identical outcomes on every such schedule, tampered and unreadable bytes included, whatever their suites, keys, ciphers, sessions, stream ids and prefixes. |
| Channel.Channel.constructor | srp/session.py:82-137 | A new channel is an initial system under the policy's parameters. |
| Channel.Channel.Send | srp/session.py:64-66 | Takes the system's send step and keeps the invariant. |
| Channel.Channel.Deliver | srp/session.py:68-70 | Takes the system's delivery step on any bytes and keeps the invariant. |
| Channel.Channel.Roundtrip | srp/session.py:72-74 | Returns a verdict exactly for payloads of up to 2^24 bytes with budget left and fields that fit, whatever happened on the channel before: the payload if max_streams is at least 1, and otherwise a rejection as stale, so it is accepted if and only if the policy allows a stream. |
| Adversary.FlipIn | srp/adversary.py:64-66 | The in-place flip on a copy computes the flipped wire, an IndexError outside it, and a ValueError for a negative bit or one above 7. |
| Adversary.FlipCiphertextBit | srp/adversary.py:52-66 | Flips at an offset behind the header; an empty payload is a ValueError. |
| Adversary.FlipTagBit | srp/adversary.py:86-97 | Flips at an offset into the last 16 bytes. |
| Adversary.FlipHeaderBit | srp/adversary.py:125-135 | Flips at an offset from the start. |
| Adversary.FlipChangesOneBit | srp/adversary.py:64-66 | A flip succeeds exactly for bits 0 to 7 at an index inside the wire, negative ones counted from the end, and changes exactly one binary digit of that byte; which error any other raises. |
| Adversary.TruncateCiphertextBytes | srp/adversary.py:68-82 | The bytes dropped are the last `count` of the ciphertext, as far as there are any; a negative count repeats the first bytes of the tag. |
| Adversary.ReplaceTagBytes | srp/adversary.py:99-107 | The last 16 bytes, and no others, are replaced. |
| Adversary.TruncateTagBytes | srp/adversary.py:109-111 | The last `count` bytes are dropped, and for a count of 0 or less the first -count are kept. |
| Adversary.TamperBytes | srp/adversary.py:115-123 | Malformed without a version-1 header, ConfigurationError for a field out of range, `struct.error` for one that does not fit a byte; else the new header reads back as asked for and the body is unchanged. |
| Adversary.RenumberBytes | srp/adversary.py:169-176 | Succeeds exactly for 64-bit numbers, writing the number to bytes 28 to 35 and keeping every other byte. |
| Adversary.RelabelBytes | srp/adversary.py:137-145 | Writes type and flags to bytes 2 and 3 and keeps every other byte. |
| Adversary.SpliceBytes | srp/adversary.py:221-223 | The first 40 bytes of one wire and all but the first 40 of the other, for wires of any length. |
| Adversary.SwapBytes | srp/adversary.py:225-231 | The first result is a's header with b's body, the second b's header with a's body, and swapping again gives both wires back. |
| Adversary.HeaderBitFlip | srp/adversary.py:125-135 | For every sent wire and each of its 320 header bits, a pinned receiver with empty replay state answers MALFORMED, SUITE_MISMATCH, SESSION_MISMATCH or AUTH_FAILED by the field hit; it accepts exactly if the result is another sent wire, which only a flip in the nonce fields can make. |
| Adversary.BodyBitFlip | srp/adversary.py:52-97 | In every reachable state, a flipped ciphertext or tag bit is AUTH_FAILED where the genuine record would still be accepted, and otherwise meets the genuine record's own refusal. |
| Adversary.TagReplacement | srp/adversary.py:99-107 | A replaced tag, zeroed or otherwise, fails to open, with the same exact verdict, unless it is the genuine one, and is MALFORMED at any other length. |
| Adversary.TagTruncation | srp/adversary.py:109-111 | Every tag truncation is MALFORMED unless it removes nothing. |
| Adversary.CiphertextTruncation | srp/adversary.py:68-82 | For every integer count: header and tag are kept, the loss is bounded by the payload and the gain of a negative count by the tag, and the result is MALFORMED unless there was nothing to drop. |
| Adversary.ResizedIsMalformed | srp/adversary.py:68-82 | Bytes that share a readable wire's header and not its length are MALFORMED in every receiver state. |
| Adversary.Relabelled | srp/adversary.py:137-145 | In every reachable state, rewriting type and flags raises if they do not fit a byte, changes nothing if they are the record's own, and otherwise is AUTH_FAILED where the genuine record would be accepted, and refused as the genuine record elsewhere. |
| Adversary.TamperedHeader | srp/adversary.py:115-123 | Any rewriting of header fields meets the first check it fails, at a receiver that has accepted nothing, and is accepted exactly if the result is a sent wire. |
| Adversary.Renumbered | srp/adversary.py:169-176 | A record renumbered is AUTH_FAILED unless the bytes are those of a sent record. |
| Adversary.SpliceVerdict | srp/adversary.py:221-223 | A splice of two sent records is MALFORMED if their lengths differ, fails to open otherwise, and is accepted only if it is byte for byte the first record. |
| Adversary.SwapVerdicts | srp/adversary.py:225-231 | After exchanging two different bodies both records are MALFORMED if their lengths differ, and otherwise each fails to open, with the exact verdict, under the header it still has. |
| Adversary.ReplayIsRefused | srp/adversary.py:161-167 | In every run, a wire accepted by one event and delivered again by any later one is a replay if its number is then inside the window of its stream, and stale if it has fallen behind it. |

## Left out

- AES-GCM and ChaCha20-Poly1305 (`srp/suites.py`): foreign library calls; only the interface, its length guards and the ideal table are modelled.
- `os.urandom`, the `rng` of the actor and the collision estimate of `srp/nonce.py`: prefixes, ids, offsets and replacement bytes are arbitrary arguments.
- Keys and `forge_with_wrong_key`: a record under another key is, for this receiver's table, bytes nobody sealed.
- Detail strings, `summary`, `__repr__`, `Verdict.describe` and hex rendering: only reasons, headers and the structure of `WindowSnapshot.describe` are kept.
- `ReplayGuard.reset` inside runs: it discards history by design, so the run theorems are about runs without it.
- The `evictions` counter: nothing ever changes it.
- Constructor argument checks of `NonceManager`, `Sender` and `create_channel`, suite lookup by name and `SessionPolicy.with_`: single-branch facts; what raises there is a requirement of the constructors here.
- Negative window sizes, for which the source's own shift raises at construction.
- Separate suite objects: each end of a channel holds its own in the source; here both refer to one object, which stands for the key and the table of what it has sealed.
- `demo/`, `bench/`, `run_all.py` and `srp/util.py`: output, sockets, threads and timing.
