# Kinetic: a Dafny model

This project models the parts of the Kinetic network whose correctness is not visible from reading one function at a
time, and proves what they promise over every input, every run and every reachable state.

| area | files | what is at stake |
|---|---|---|
| Delay function | `HashToPrime`, `VdfMath`, `Vdf`, `VdfModulus` | the blockwise Wesolowski prover against the one-line prover, and completeness of verification |
| Network actions | `ActionCodec`, `Actions`, `PauseAccounting`, `ActionRuns` | at-most-once execution, pause accounting, replay of the action log |
| Storage | `StorageLog`, `StorageScan` | crash recovery of the append-only log, prefix scans |
| Signed records | `Framing`, `Records`, `RecordEncoders`, `DhtKeys` | what a signature covers, domain separation, hash preimages |
| Discovery | `DnsTree` | a budgeted search over a possibly cyclic graph |
| Identity | `KidDocuments`, `KidManager` | chain of custody across creation, rotation, revocation and manifests |
| Desktop integration | `Pac` | restoring OS settings across crashes |
| Proof of work and difficulty | `Challenge`, `Takeover` | validity windows, the re-verification cache, bounded arithmetic |

`Numbers`, `ByteStrings` (in `Bytes.dfy`) and `Results` hold shared definitions. `dafny verify dfyconfig.toml` checks
everything.

## How the model is built

- Code that changes state is a class or a method with loops (`ActionState`, `KineticStorage`, `KidStore`, `PacManager`,
  `Heartbeat`, the prover's loops, the log reader, the encoders, the scans, the tree search). Each is proved equal to a
  function of the old state, and the properties are proved of that function over whole runs.
- SHA-256, signatures, the primality test, Argon2id, base64url, canonical JSON and key generation are function-valued
  fields or parameters. Nothing is assumed of them except what a lemma's `requires` says: signatures verify under their
  own key and base64url decodes what it encoded (`Env.Correct`), or no collision among named inputs.
- Clocks, generated keys, lookup results and crash points are parameters. Properties that need a clock that never goes
  back say so (`Nondecreasing`).
- Unchecked machine additions and multiplications are modelled as they behave in an optimised build, modulo 2^64 or
  2^128, and modulo 2^32 for the cursor of the wasm32 log reader; saturating operations and narrowing casts are written
  out. An abort there is a value (`None`, or a null store).
- The PAC manager is modelled over the five configurators the source has (KDE, GNOME, Windows, macOS, fallback), each
  with its own install, restore and uninstall.

## Where the code does not meet the general promise

Each of these is kept as the code has it, with a failing case and, unless the line says otherwise, the exact condition
under which the promise holds.

- Replay protection of actions holds for all runs up to a clock limit exactly when limit + 2 * max_age fits in 64 bits
  (or the clock stays at zero); beyond that the prune test wraps and an action executes twice
  (`SafeExactlyWhenWindowFits`).
- A reopened storage log is safe to append to exactly when it has no torn tail, because recovery does not truncate one
  (`AppendSafeExactlyWhenNoLeftover`). A log that has outgrown 2^31 - 1 bytes, or whose torn tail wraps the 32-bit
  cursor, aborts the open for good, whatever is appended later (`Reopen`, `AbortIsPermanent`, `EightBytesAbort`);
  cutting a log of whole records anywhere never wraps it (`CrashRecovery`).
- `verify` accepts outputs other than the true one. For a challenge invertible modulo n, an output has an accepted proof
  exactly when it is the true output times an l-th power, l being the divisor derived from that output itself
  (`AcceptedExactlyWhen`): the negated output is one (`NegatedOutputVerifies`, and `HonestProofSupportsExactly` for a
  given divisor), zero another (`ZeroPairSatisfiesEquation`). Which further outputs meet that condition depends on the
  hash of the output, so a condition free of it is out of reach.
- Proof bytes are not unique, although the crate promises to prevent malleability: `verify` reads the proof half modulo
  n (`VerdictReadsResidue`), and a half has a second form exactly when it is not reduced or its sum with n still fits
  in 256 bytes (`SecondFormExactlyWhen`).
- The divisor's hash does not separate challenge from output: two pairs share it under every hash exactly when their
  digits, written one after the other, are the same (`DivisorBindsExactly`, `UnframedPairsShare`), which between
  challenges of one length means that the pairs are equal (`EqualLengthsBindPair`).
- Checkpoints number at most 300,300, and that many do occur; the source's comment says 300,000 (`CheckpointBound`,
  `CheckpointBoundIsTight`).
- A manifest with more than 50 services is signed and written, but never read back, so no later save succeeds for that
  name or for a name under it without a manifest of its own (`ReadableExactlyWithinServiceLimit`,
  `OversizedSaveIsUnreadable`, `OversizedManifestBlocksSaves`).
- Rotation does not re-sign the manifest on disk, which then verifies only if the outgoing key's signature verifies
  under the incoming key (`RotationKeepsManifestValidExactlyWhen`).
- A rotated document passes `verify` only if the outgoing key's signature verifies under the incoming key
  (`RotatedDocumentVerifiesExactlyWhen`); a revoked one only if the controller's signature verifies under a revocation
  key, of which the manager never lists any (`RevokedDocumentVerifiesExactlyWhen`, `RevokedNeverVerifies`); a rotation
  that dies between its two file writes breaks custody (`InterruptedRotationBreaksCustody`).
- Uninstalling the PAC setting restores the original settings on every desktop except KDE without a script URL, whose
  restore does not clear Kinetic's URL (`ServiceRoundTrip`, and `RoundTripExactlyWhen` for any URL). For the same reason
  the backup survives crashes and reinstalls exactly outside that case (`BackupSafeExactlyWhenRestorable`).
- An uninstall that finds no lock strips the settings it finds, and the program makes one: it uninstalls at shutdown and
  once more when the service is removed (`SecondUninstallStrips`, `LocklessUninstallKeepsExactlyWhen`). Reinstalling
  discards a change the user made in between (`ReinstallDiscardsUserChange`).
- On macOS an uninstall leaves Kinetic's URL on some service, and deletes the backup, exactly when some service still
  shows such a URL and the user gave some service another one (`MacUrlStaysExactlyWhen`).
- Takeover arithmetic is overflow-free on all inputs exactly for targets up to 2^32 (`OverflowFreeExactlyUpTo`,
  `WrappedDifficulty`); call by call it follows the documented curve exactly when the product fits in 128 bits or wraps
  to something the cap hides (`ComputesCurveExactlyWhen`).
- The heartbeat cache agrees with re-verification except when kyn zero meets a cached epoch (`Heartbeat.OnTick`).
- Halt and resume buffers longer than nine bytes parse with trailing bytes ignored (`EncodeInvertsParse`); commitments
  bind their inputs exactly between public keys of one length (`CommitmentBindsExactlyAtEqualLengths`).

## Model

| member | source | states |
|---|---|---|
| `HashToPrime.GeneratePrimeL` | kinetic-vdf/src/hash_to_prime.rs:13-40 | the counter loop computes the first-success search, and reports exhaustion of the 64-bit counter |
| `HashToPrime.SearchFindsFirst` | kinetic-vdf/src/hash_to_prime.rs:17-39 | the search returns the candidate of the least accepted counter, and fails only when no counter is accepted |
| `HashToPrime.CandidateIs256BitsAndOdd` | kinetic-vdf/src/hash_to_prime.rs:24-30 | forcing the two end bits makes every candidate odd and in [2^255, 2^256) |
| `HashToPrime.PrimeLRange` | kinetic-vdf/src/hash_to_prime.rs:9-40 | every divisor returned is accepted by the primality test, odd and exactly 256 bits |
| `HashToPrime.ForcedValue` | kinetic-vdf/src/hash_to_prime.rs:24-30 | a candidate is its digest's value plus the missing top bit and the missing bottom bit, nothing else |
| `HashToPrime.NoDivisorExactlyWhen` | kinetic-vdf/src/hash_to_prime.rs:17-39 | there is no divisor iff no 64-bit counter yields an accepted candidate |
| `HashToPrime.PreimagesEqualExactlyWhen` | kinetic-vdf/src/hash_to_prime.rs:13-22 | hash preimages are equal iff the counters are and the digits of challenge and output, one after the other, have one length and one value |
| `HashToPrime.DivisorBindsExactly` | kinetic-vdf/src/hash_to_prime.rs:1-40 | two pairs of challenge and output give one divisor under every hash and primality test iff they are written alike |
| `HashToPrime.OutputAndCounterMatter` | kinetic-vdf/src/hash_to_prime.rs:13-40 | under some hash a changed output changes the divisor, and a changed counter the candidate |
| `HashToPrime.EqualLengthsBindPair` | kinetic-vdf/src/hash_to_prime.rs:13-22 | between challenges with equally many significant bytes only equal pairs are written alike |
| `HashToPrime.UnframedPairsShare` | kinetic-vdf/src/hash_to_prime.rs:13-22 | two different pairs that are written alike |
| `RsaVdf.CheckpointBound` | kinetic-vdf/src/lib.rs:89-107 | for every iteration count between 1 and 300,300 checkpoints are needed |
| `RsaVdf.CheckpointBoundIsTight` | kinetic-vdf/src/lib.rs:91-107 | 300,300 is reached at 300,299,999 iterations, above the commented limit |
| `RsaVdf.DelayLoop` | kinetic-vdf/src/lib.rs:107-121 | T squarings give x^(2^T) mod n; exactly the needed checkpoints are stored and entry i is x^(2^(i*B)) mod n |
| `RsaVdf.DivideBlocks` | kinetic-vdf/src/lib.rs:138-143 | each full block's digit is below 2^B and the digits so far times l plus the remainder are the power of two brought down |
| `RsaVdf.LongDivision` | kinetic-vdf/src/lib.rs:126-145 | the reversed digits recombine to floor(2^T / l), full-block digits below 2^B, odd-sized leading block last |
| `VdfMath.ShiftStep` | kinetic-vdf/src/lib.rs:150-160 | Horner over bits: one bit less of shift doubles the weighted sum and adds that bit slice |
| `VdfMath.ReverseWeighted` | kinetic-vdf/src/lib.rs:145 | reversing the digit list turns its Horner value into the weighted sum |
| `RsaVdf.BatchMultiply` | kinetic-vdf/src/lib.rs:153-158 | one bit of all digits at once: the product has the bit slice as exponent |
| `RsaVdf.MultiExponentiate` | kinetic-vdf/src/lib.rs:147-160 | the bit-sliced double loop gives x to the weighted sum of the full-block digits |
| `RsaVdf.BlockwiseProof` | kinetic-vdf/src/lib.rs:126-167 | all blocks with the leading-block modpow give x^(floor(2^T / l)) mod n |
| `RsaVdf.Package` | kinetic-vdf/src/lib.rs:173-187 | both values right-aligned in 256 bytes each, or the proof-generation error if one does not fit |
| `RsaVdf.PackRoundTrip` | kinetic-vdf/src/lib.rs:180-185 | the two halves of a packed proof read back as y and pi |
| `RsaVdf.Evaluate` | kinetic-vdf/src/lib.rs:69-188 | on every input the blockwise prover returns what the one-line prover returns, and what it returns verifies |
| `RsaVdf.VerifyPacked` | kinetic-vdf/src/lib.rs:190-226 | verifying a packed pair is checking the equation on it with the divisor re-derived from it |
| `RsaVdf.VerifyOutcome` | kinetic-vdf/src/lib.rs:190-226 | every outcome of `verify`, from the bytes: malformed input, a search that does not end, or the verdict on pi^l * x^(2^T mod l) = y mod n |
| `RsaVdf.ProverRefusesExactlyWhen` | kinetic-vdf/src/lib.rs:69-84 | the prover refuses exactly a zero challenge or zero iterations |
| `RsaVdf.Completeness` | kinetic-vdf/src/lib.rs:69-226 | an honest 512-byte proof exists for every nonzero challenge and T >= 1 (unless the prime search never ends) and verifies as Ok(true) |
| `RsaVdf.AcceptedExactlyWhen` | kinetic-vdf/src/lib.rs:190-226 | for an invertible challenge, an output is accepted with some proof iff it is the true output times an l-th power, l derived from that output |
| `RsaVdf.HonestProofSupportsExactly` | kinetic-vdf/src/lib.rs:215-226 | under an odd divisor the honest proof supports the true output only, and its negation the negated output only |
| `RsaVdf.NegatedOutputVerifies` | kinetic-vdf/src/lib.rs:190-226 | the negated nonzero output with the negated proof for its own divisor is accepted, for every challenge and T >= 1 whose divisor search ends |
| `RsaVdf.ZeroPairSatisfiesEquation` | kinetic-vdf/src/lib.rs:190-226 | 512 zero bytes are accepted for every challenge and T >= 1 whose divisor search ends |
| `RsaVdf.VerdictReadsResidue` | kinetic-vdf/src/lib.rs:208-226 | proof halves congruent modulo n get the same verdict |
| `RsaVdf.SecondFormExactlyWhen` | kinetic-vdf/src/lib.rs:190-209 | a proof half has a second such form iff it is not reduced or its sum with n is below 2^2048 |
| `RsaModulus.NewEngineIsValid` | kinetic-vdf/src/lib.rs:58-66 | the hard-coded RSA-2048 modulus is odd, has exactly 2048 bits and meets the engine's size condition |
| `ActionCodec.ToBytes` | kinetic-types/src/action.rs:75-92 | the buffer holds opcode, payload and big-endian timestamp, signatures excluded |
| `ActionCodec.CanonicalLayout` | kinetic-types/src/action.rs:75-92 | opcode, key and the timestamp's big-endian value at their places |
| `ActionCodec.ParseFailsExactlyWhen` | kinetic-types/src/action.rs:138-180 | which buffers fail to parse, and with which error |
| `ActionCodec.ParseInvertsEncode` | kinetic-types/src/action.rs:75-180 | parsing inverts printing exactly when a rotation carries a 1952-byte key; otherwise the length error |
| `ActionCodec.EncodeInvertsParse` | kinetic-types/src/action.rs:138-180 | an accepted buffer is reprinted exactly iff it is a rotation or nine bytes long |
| `ActionCodec.CanonicalInjective` | kinetic-types/src/action.rs:75-92 | canonical bytes are equal iff action and timestamp are equal, whatever the signatures |
| `Actions.ActionState.constructor` | kinetic-action/src/logic.rs:53-64 | the genesis state |
| `Actions.ActionState.Prune` | kinetic-action/src/logic.rs:88-93 | the retained hashes, with the unchecked addition |
| `Actions.ActionState.ExecuteAction` | kinetic-action/src/engine/sovereign.rs:63-109 | the whole new state after a rotation, halt or resume |
| `Actions.ActionState.ProcessActionMessage` | kinetic-action/src/logic.rs:156-174 | verify, prune, deduplicate, execute and log, with every error path |
| `Actions.ActionState.PausedKynsSince` | kinetic-action/src/types.rs:114-130 | the loop's total is the sum of overlaps modulo 2^64 |
| `ActionRuns.RejectedChangesNothing` | kinetic-action/src/logic.rs:156-170 | an unverified message changes nothing; a duplicate only forgets hashes, every one of them expired |
| `ActionRuns.OnlyAuthorizedActionsChangeState` | kinetic-action/src/logic.rs:156-174 | an accepted message was fresh, unknown or expired, and signed by the key in force; the whole new state is the old one with its effect, its log entry and its hash |
| `ActionRuns.AcceptsExactlyWhen` | kinetic-action/src/logic.rs:101-174 | accepted iff sovereign model, timestamp within max_age either way, a signature under the active key or, without one, the 1952-byte configured key, a well-formed new key, and a hash unknown or past its window |
| `ActionRuns.RejectionReason` | kinetic-action/src/engine/sovereign.rs:24-61 | which error each rejected message gets |
| `ActionRuns.KeyAfterIsLastRotation` | kinetic-action/src/engine/sovereign.rs:63-81 | the key a log leaves is that of its last rotation |
| `ActionRuns.HaltedAfterIsStandingHalt` | kinetic-action/src/engine/sovereign.rs:82-107 | a log leaves the network halted iff some halt has no resume behind it |
| `ActionRuns.RunAcceptsExactlyWhen` | kinetic-action/src/logic.rs:101-174 | in every reachable state the deciding key is the last rotation's, or the configured one while there is none; halted iff an executed halt has no executed resume behind it |
| `PauseAccounting.PausedSinceIsMeasure` | kinetic-action/src/types.rs:114-130 | the answer is the number of kyns at or after the target inside some closed pause |
| `PauseAccounting.PausedSinceBounded` | kinetic-action/src/types.rs:114-130 | the answer never exceeds the time elapsed since the target, so it fits in 64 bits |
| `PauseAccounting.PausedSinceLipschitz` | kinetic-action/src/types.rs:114-130 | for a <= b the two answers differ by at most b - a |
| `PauseAccounting.ClosePause` | kinetic-action/src/engine/sovereign.rs:92-106 | closing a pause keeps the pauses ordered and disjoint and adds its length without saturating |
| `PauseAccounting.ProcessKeepsPausesAccounted` | kinetic-action/src/engine/sovereign.rs:82-107 | every message keeps the books: ordered disjoint pauses, halted iff a start is recorded, the total is their length |
| `ActionRuns.RunKeepsPausesAccounted` | kinetic-action/src/engine/sovereign.rs:82-107 | the books balance in every state reachable from genesis under a nondecreasing clock |
| `ActionRuns.RunPauseAnswers` | kinetic-action/src/types.rs:114-130 | in every reachable state the query and the recorded total are exact set sizes, with no wrap-around |
| `ActionRuns.PausesAreHaltedTime` | kinetic-action/src/engine/sovereign.rs:82-107 | in every run a kyn is recorded as paused iff the network was halted once every call up to that kyn had been processed |
| `ActionRuns.PruneRemembers` | kinetic-action/src/logic.rs:88-93 | pruning forgets an action only once the staleness test rejects it for good |
| `ActionRuns.StepKeepsLogGuarded` | kinetic-action/src/logic.rs:156-174 | each step keeps the log free of repeats, every entry remembered or stale, and the prune addition within 64 bits |
| `ActionRuns.LogIsAccepted` | kinetic-action/src/logic.rs:171-172 | the log is exactly the sequence of accepted messages |
| `ActionRuns.AtMostOnce` | kinetic-action/src/logic.rs:156-174 | in any run with a nondecreasing clock no two successful steps carry the same canonical bytes, without a collision assumption |
| `ActionRuns.OverflowForgets` | kinetic-action/src/logic.rs:88-93 | when the windows do not fit in 64 bits some run executes one action twice |
| `ActionRuns.SafeExactlyWhenWindowFits` | kinetic-action/src/logic.rs:88-93 | replay protection up to a clock limit holds iff limit + 2 * max_age fits in 64 bits or the limit is zero |
| `ActionRuns.RunExplained` | kinetic-action/src/engine/sovereign.rs:24-108 | in every reachable state each log entry is signed under the key its prefix leaves in force, and the log explains key and halt flag |
| `ActionRuns.ReplayConverges` | kinetic-action/src/logic.rs:156-174 | a fresh node fed the log accepts every entry and reaches the same key, halt flag and log, given no hash collisions |
| `StorageLog.InitOpfs` | kinetic-storage/src/lib.rs:341-388 | the 32-bit cursor loop yields the record-by-record replay, and aborts exactly when the buffer exceeds 2^31 - 1 bytes or its torn tail wraps the cursor |
| `StorageLog.OversizedFileAborts` | kinetic-storage/src/lib.rs:341-348 | a file above 2^31 - 1 bytes cannot be opened |
| `StorageLog.EightBytesAbort` | kinetic-storage/src/lib.rs:359-368 | a concrete eight-byte log that wraps the cursor |
| `StorageLog.AbortIsPermanent` | kinetic-storage/src/lib.rs:341-426 | a file that cannot be opened never becomes openable by appending |
| `StorageLog.CrashRecovery` | kinetic-storage/src/lib.rs:341-388 | any operations logged, any byte prefix kept within 2^31 - 1 bytes: the file opens, without wrapping, to the map after its complete operations |
| `StorageLog.ParseRecord` | kinetic-storage/src/lib.rs:359-386 | an in-limit record followed by anything parses back to its operation |
| `StorageLog.RecordLayout` | kinetic-storage/src/lib.rs:402-411 | two little-endian lengths cut to 32 bits, each before its bytes; a tombstone is the largest length |
| `StorageLog.ParseCut` | kinetic-storage/src/lib.rs:356-383 | a cut record is never mistaken for a complete one |
| `StorageLog.CompleteOpsIsLongest` | kinetic-storage/src/lib.rs:355-387 | the count of complete operations is that of the longest prefix whose log fits |
| `StorageLog.PrefixReplay` | kinetic-storage/src/lib.rs:344-388 | replaying any byte prefix of a log rebuilds the map after its complete operations |
| `StorageLog.FullReplay` | kinetic-storage/src/lib.rs:344-388 | replaying a whole log rebuilds exactly the map its operations built |
| `StorageLog.ApplyAllKeepsLast` | kinetic-storage/src/lib.rs:377-386 | operations leave a key with a value iff the last one on that key put it, or none touched it |
| `StorageLog.DeleteIsRecovered` | kinetic-storage/src/lib.rs:377-379 | after a logged delete the reopened file lacks the key and keeps every other entry |
| `StorageLog.AppendReplays` | kinetic-storage/src/lib.rs:396-426 | appending an in-limit record to a whole log extends the replayed map by that operation |
| `StorageLog.TornTailSwallowsPut` | kinetic-storage/src/lib.rs:413-420 | behind a torn record, a put whose key length differs from the torn length byte is lost |
| `StorageLog.AppendSafeExactlyWhenNoLeftover` | kinetic-storage/src/lib.rs:390-426 | with no bytes after the last complete record every append that fits is recovered by the next open; with some, and eleven bytes of room, one is not |
| `StorageLog.PutSurvivesExactlyWithinLimits` | kinetic-storage/src/lib.rs:403-411 | limit of the format: replay recovers a put iff its key length is below 2^32 and its value length below 0xFFFFFFFF |
| `StorageLog.PayloadWithinLimits` | kinetic-storage/src/lib.rs:402-411 | every payload that fits in a wasm32 vector is within that limit |
| `StorageLog.KineticStorage.InMemory` | kinetic-storage/src/lib.rs:297-310 | an empty map with no file |
| `StorageLog.KineticStorage.Open` | kinetic-storage/src/lib.rs:313-394 | fails exactly when the log reader aborts; otherwise the map is the replay of the file, and the store is durable iff the file has no torn tail |
| `StorageLog.KineticStorage.AppendToLog` | kinetic-storage/src/lib.rs:396-426 | the file grows by exactly one record, lengths cast to u32 |
| `StorageLog.KineticStorage.PutKey` | kinetic-storage/src/lib.rs:455-479 | quota error exactly in memory-only mode on a new key at 10,000 entries; otherwise map and file updated, durability kept iff the file stays within 2^31 - 1 bytes |
| `StorageLog.KineticStorage.DeleteKey` | kinetic-storage/src/lib.rs:489-500 | the key is gone, every other entry unchanged, a tombstone appended, durability kept iff the file stays within 2^31 - 1 bytes |
| `StorageScan.NoMatchBeyondGap` | kinetic-storage/src/lib.rs:188-193 | in key order, after a non-matching key at or above the prefix nothing matches |
| `StorageScan.LessIsLexicographic` | kinetic-storage/src/lib.rs:188-193 | the key order is lexicographic on bytes |
| `StorageScan.LessTotal` | kinetic-storage/src/lib.rs:188-193 | and total |
| `StorageScan.StartsWithExactlyWhen` | kinetic-storage/src/lib.rs:192 | a match is the prefix followed by something |
| `StorageScan.FirstNIsPrefix` | kinetic-storage/src/lib.rs:195-198 | the cut to `limit` entries |
| `StorageScan.ScanNative` | kinetic-storage/src/lib.rs:183-201 | the native loop returns the first `limit` entries of the prefix filter |
| `StorageScan.ScanWasm` | kinetic-storage/src/lib.rs:439-452 | the wasm loop, with its tests in the other order, returns the same |
| `StorageScan.FilterEnumerates` | kinetic-storage/src/lib.rs:430-453 | filtering an in-order listing of a map lists the restricted map in order |
| `StorageScan.EnumerationUnique` | kinetic-storage/src/lib.rs:430-453 | a map has one in-order listing, so a scan is a function of the stored map |
| `StorageScan.ScanIsFilter` | kinetic-storage/src/lib.rs:183-201 | either scan is the first `limit` entries of the restricted map |
| `Framing.ParseOfPrint` | kinetic-types/src/vdf.rs:264-297 | a layout of fixed, length-framed and optional fields parses back to its fields |
| `Framing.RoundTripExactlyWhenFit` | kinetic-types/src/vdf.rs:269-292 | it does so iff no length was truncated by the cast to u32 |
| `Framing.FrameLayout` | kinetic-types/src/vdf.rs:269-270 | a frame is the big-endian length cut to 32 bits and then the bytes |
| `Records.DomainsSeparate` | kinetic-types/src/vdf.rs:148-172 | no two of the seven record forms ever produce equal bytes, for any salts, contents and lengths |
| `Records.SignatureCoversExactly` | kinetic-types/src/vdf.rs:239-298 | signed bytes are equal iff network salt, form and every covered field are equal, nested previous proof included |
| `Records.CoveredDeterminesLayout` | kinetic-types/src/name_record.rs:53-75 | uncovered fields (own signatures, authorizations beyond their owner signature, attached documents) do not reach the bytes |
| `RecordEncoders.EncodePreviousProof` | kinetic-types/src/vdf.rs:94-123 | the buffer is the previous-proof form |
| `RecordEncoders.EncodePreviousSigned` | kinetic-types/src/vdf.rs:148-173 | the buffer is the signed previous-proof form |
| `RecordEncoders.EncodeReveal` | kinetic-types/src/vdf.rs:239-298 | the buffer is the reveal form with its optional nested proof |
| `RecordEncoders.EncodeHeartbeat` | kinetic-types/src/name_record.rs:53-75 | the buffer is the heartbeat form |
| `RecordEncoders.EncodeHostRoute` | kinetic-types/src/nrs.rs:85-104 | the buffer is the host-route form |
| `RecordEncoders.EncodeAuthorizedKid` | kinetic-types/src/identity.rs:71-85 | the buffer is the document-authorization form |
| `RecordEncoders.EncodeAuthorizedManifest` | kinetic-types/src/identity.rs:141-155 | the buffer is the manifest-authorization form |
| `DhtKeys.StripTrailingDots` | kinetic-types/src/name_record.rs:137-143 | the popping loop removes exactly the trailing dots |
| `DhtKeys.StrippedIsUnique` | kinetic-types/src/name_record.rs:137-143 | a name has one stripped form |
| `DhtKeys.StripsAlikeExactlyWhen` | kinetic-types/src/name_record.rs:137-143 | two names strip alike iff they differ only in trailing dots |
| `DhtKeys.DeriveKeys` | kinetic-types/src/name_record.rs:149-183 | 32 keys, key i the digest of salt, tag, name and i |
| `DhtKeys.PreimageInjective` | kinetic-types/src/name_record.rs:149-183 | preimages are equal iff kind, salt, name and index are |
| `DhtKeys.KeysNeverShared` | kinetic-types/src/name_record.rs:145-183 | without a collision, keys are equal iff kind, name and index are |
| `DhtKeys.CommitmentInjective` | kinetic-types/src/vdf.rs:31-54 | with keys of one length the commitment preimage determines everything it binds |
| `DhtKeys.CommitmentBindsExactlyAtEqualLengths` | kinetic-types/src/vdf.rs:41-49 | it does so for all inputs iff the two key lengths are equal |
| `DnsTree.ReadResponse` | kinetic-network/src/dns_tree.rs:70-89 | branches go onto the stack and leaves into the result, in order |
| `DnsTree.ChildrenExactlyWhen` | kinetic-network/src/dns_tree.rs:70-89 | the children are the nonempty hashes of a successful lookup's branch records; a failed lookup yields nothing |
| `DnsTree.LeavesInOrder` | kinetic-network/src/dns_tree.rs:70-89 | each leaf record's address follows those of the records before it |
| `DnsTree.LeafCount` | kinetic-network/src/dns_tree.rs:70-89 | and there are no others |
| `DnsTree.RootIsLast` | kinetic-network/src/dns_tree.rs:32-52 | the root is that of the last root record |
| `DnsTree.FlatInOrder` | kinetic-network/src/dns_tree.rs:32-52 | the flat addresses are those of the root records, in order and nothing else |
| `DnsTree.Traverse` | kinetic-network/src/dns_tree.rs:53-91 | on every graph: terminates, at most 20 lookups, none repeated, none once 50 addresses are found, all reachable, leaves in lookup order, exact unless a budget ran out |
| `DnsTree.Resolve` | kinetic-network/src/dns_tree.rs:32-94 | flat addresses first, the last root record wins, then the traversal |
| `DnsTree.ClosedContainsPath` | kinetic-network/src/dns_tree.rs:59-91 | a closed set containing the root contains every reachable branch |
| `DnsTree.SmallTreesAreExact` | kinetic-network/src/dns_tree.rs:56-62 | with at most 20 reachable branches and fewer than 50 addresses found, exactly the reachable branches are looked up, once each |
| `DnsTree.SmallInputsAreExact` | kinetic-network/src/dns_tree.rs:53-91 | with at most 20 reachable branches holding, with the flat records, fewer than 50 addresses, the result is exactly those addresses |
| `KidDocuments.SoleKeyAccepts` | kinetic-kid/src/document.rs:216-225 | a key listed alone accepts exactly the signatures that verify under it |
| `KidDocuments.VerifyGenesisExactlyWhen` | kinetic-kid/src/document.rs:246-268 | the genesis check accepts exactly a first key whose digest in hexadecimal is the DID's suffix |
| `KidDocuments.DidBindsKey` | kinetic-kid/src/document.rs:246-268 | documents that pass it carry one DID iff their first keys have one digest |
| `KidDocuments.HexLayout` | kinetic-kid/src/document.rs:256-261 | two lower-case hexadecimal characters a byte, high half first |
| `KidDocuments.PrimaryKeyCarries` | kinetic-local/src/kid_manager.rs:281-285 | the listed key's id, type and public half |
| `KidDocuments.VerifyDocumentExactlyWhen` | kinetic-kid/src/document.rs:140-228 | `verify` accepts exactly within limits and under a listed controller key or, once deactivated, a listed revocation key |
| `KidDocuments.DocumentRefusal` | kinetic-kid/src/document.rs:140-228 | which error a refused document gets |
| `KidDocuments.IsAuthorizedExactlyWhen` | kinetic-kid/src/document.rs:280-329 | an update is authorized exactly by a key its predecessor lists, a revocation key only for a deactivation |
| `KidDocuments.VerifyManifestExactlyWhen` | kinetic-kid/src/manifest.rs:148-208 | a manifest verifies exactly for its own DID, between start and expiry, within limits, under a listed controller key |
| `KidDocuments.ManifestRefusal` | kinetic-kid/src/manifest.rs:148-208 | which error a refused manifest gets |
| `KidDocuments.IsControllerExactlyWhen` | kinetic-kid/src/document.rs:216-218 | the key type is "controller" in any mix of cases |
| `KidDocuments.DocumentMessageBinds` | kinetic-kid/src/document.rs:190-193 | documents have one signed message iff their canonical forms without signature agree |
| `KidDocuments.ManifestMessageBinds` | kinetic-kid/src/manifest.rs:192-195 | so do manifests |
| `KidDocuments.KindsShareNoMessage` | kinetic-kid/src/document.rs:190-193 | a document and a manifest never share a signed message when their domain prefixes part |
| `KidDocuments.SignedUpdateIsAuthorized` | kinetic-kid/src/document.rs:280-329 | an update signed with the key its predecessor lists is authorized by that predecessor |
| `KidManager.KidStore.constructor` | kinetic-local/src/kid_manager.rs:94-125 | no files |
| `KidManager.KidStore.GetOrCreate` | kinetic-local/src/kid_manager.rs:221-316 | inheritance, the overwrite guard, and the new key and document files |
| `KidManager.KidStore.RotateName` | kinetic-local/src/kid_manager.rs:332-390 | a new key list signed with the outgoing key, both files replaced |
| `KidManager.KidStore.RevokeLocal` | kinetic-local/src/kid_manager.rs:464-498 | a deactivated document signed with the controller key |
| `KidManager.KidStore.SaveAndSignManifest` | kinetic-local/src/kid_manager.rs:529-601 | document, key and version resolved with apex fallback, the manifest signed and written, every error path |
| `KidManager.ApexIsLastTwo` | kinetic-core/src/types/names.rs:115-125 | the apex of a name is its last two labels |
| `KidManager.EffectiveExactlyWhen` | kinetic-local/src/kid_manager.rs:502-525 | a name's own file comes first, its apex's second |
| `KidManager.CreateOutcome` | kinetic-local/src/kid_manager.rs:221-316 | every outcome of a creation: inherited, refused, failed, or the key and the signed active document written |
| `KidManager.RotateOutcome` | kinetic-local/src/kid_manager.rs:332-390 | when a rotation succeeds, and that it changes only key list and signature |
| `KidManager.RevokeOutcome` | kinetic-local/src/kid_manager.rs:464-498 | when a revocation succeeds, and that it changes only flag and signature |
| `KidManager.SaveOutcome` | kinetic-local/src/kid_manager.rs:529-601 | when a save succeeds, which error it gives otherwise, and what it writes |
| `KidManager.StepKeepsKeysMatching` | kinetic-local/src/kid_manager.rs:300-302 | every operation keeps the key on disk the one the document lists |
| `KidManager.RunKeepsKeysMatching` | kinetic-local/src/kid_manager.rs:221-601 | so does every run |
| `KidManager.StepSucceeds` | kinetic-local/src/kid_manager.rs:323-377 | without a forced re-creation each document keeps DID, creation time and revocation and is authorized by the one it replaces |
| `KidManager.CustodyOverRuns` | kinetic-local/src/kid_manager.rs:318-390 | over any such run the documents of a name form an unbroken chain of custody |
| `KidManager.IdentityIsStable` | kinetic-local/src/kid_manager.rs:318-390 | over any such run DID and creation time never change and revocation is permanent |
| `KidManager.RevocationStopsManifests` | kinetic-local/src/kid_manager.rs:538-540 | after a revocation every later save fails as deactivated until a forced re-creation |
| `KidManager.SavedManifestVerifies` | kinetic-kid/src/manifest.rs:148-208 | a saved manifest has the next version and verifies at a time iff its services are in limits and its start is at most five minutes ahead |
| `KidManager.InLimitManifestVerifiesOnwards` | kinetic-kid/src/manifest.rs:157-163 | against the document it was saved under, an in-limit manifest verifies from its start on |
| `KidManager.RotationKeepsManifestValidExactlyWhen` | kinetic-local/src/kid_manager.rs:332-390 | after a rotation the manifest on disk verifies against the document on disk iff limits and start allow and the outgoing key's signature verifies under the incoming key |
| `KidManager.VersionsNeverFall` | kinetic-local/src/kid_manager.rs:561-586 | over any run a name's manifest version never falls, and each later successful save raises it by one below the 64-bit maximum |
| `KidManager.ReadableExactlyWithinServiceLimit` | kinetic-local/src/kid_manager.rs:502-525 | a saved manifest can be read back iff it has at most 50 services |
| `KidManager.OversizedSaveIsUnreadable` | kinetic-local/src/kid_manager.rs:502-525 | a saved manifest with more than 50 services is unreadable for its name and every name under it without one |
| `KidManager.OversizedManifestBlocksSaves` | kinetic-local/src/kid_manager.rs:561-586 | once the manifest a name falls back to is unreadable, no save for that name succeeds in any run |
| `KidManager.CreatedDocumentVerifies` | kinetic-kid/src/document.rs:140-268 | a created document passes `verify` and `verify_genesis` |
| `KidManager.RotatedDocumentVerifiesExactlyWhen` | kinetic-kid/src/document.rs:205-226 | a rotated document within limits passes `verify` iff the outgoing signature verifies under the incoming key or, if deactivated, under a revocation key |
| `KidManager.RevokedDocumentVerifiesExactlyWhen` | kinetic-kid/src/document.rs:205-226 | a revoked document is authorized by its predecessor, and within limits passes `verify` iff the controller's signature verifies under a revocation key |
| `KidManager.RevokedNeverVerifies` | kinetic-local/src/kid_manager.rs:464-498 | in every run from empty files no deactivated document passes `verify` |
| `KidManager.InterruptedRotationBreaksCustody` | kinetic-local/src/kid_manager.rs:375-377 | after a crash between the two writes the next rotation is authorized iff the unlisted key's signature verifies under a listed one |
| `Pac.PacManager.constructor` | kinetic-pac/src/main.rs:162-169 | the current settings and whatever lock is there |
| `Pac.PacManager.InstallPac` | kinetic-pac/src/main.rs:187-229 | the state after any number of the install's effects |
| `Pac.PacManager.UninstallPac` | kinetic-pac/src/main.rs:235-284 | the state after any number of the uninstall's effects, drift check included |
| `Pac.RestoreExactlyWhen` | kinetic-pac/src/os/linux.rs:126-165 | a restore brings back exactly the saved settings, except on KDE when no script URL was saved and one is set |
| `Pac.InstalledUrlRecognised` | kinetic-pac/src/main.rs:239-259 | an installed URL with the port passes the drift check, or installing it changed nothing |
| `Pac.InstallTakesEffect` | kinetic-pac/src/os/linux.rs:10-46 | what an install leaves in place on each desktop, and that its URL passes for Kinetic's |
| `Pac.StripDisables` | kinetic-pac/src/os/linux.rs:49-73 | what a strip leaves on each desktop: no URL in use |
| `Pac.HasPortExactlyWhen` | kinetic-pac/src/main.rs:247-254 | the port test finds "16001" anywhere |
| `Pac.StepKeepsBackup` | kinetic-pac/src/main.rs:187-284 | an interrupted install or uninstall keeps lock and settings in step with what the user is owed |
| `Pac.RunKeepsBackup` | kinetic-pac/src/main.rs:187-284 | so does any run of them: the lock, when present, holds the original settings, stripped once per uninstall that found no lock |
| `Pac.UninstallRestores` | kinetic-pac/src/main.rs:235-284 | after any such run an uninstall that finds the lock leaves exactly those, which are the original ones if every uninstall in the run found the lock |
| `Pac.BackupSafeExactlyWhenRestorable` | kinetic-pac/src/main.rs:187-204 | over all such runs the backup is the original iff the desktop is not KDE or a script URL was set |
| `Pac.RoundTripExactlyWhen` | kinetic-pac/src/main.rs:239-273 | for any URL, install then uninstall restores iff installing changed nothing, or the URL has the port and the original is restorable |
| `Pac.ServiceRoundTrip` | kinetic-pac/src/main.rs:508-509 | with the service's URL the original comes back on every desktop, except KDE without a script URL, where Kinetic's stays |
| `Pac.SecondUninstallStrips` | kinetic-pac/src/main.rs:352-368 | a second uninstall strips the settings the first one restored |
| `Pac.LocklessUninstallKeepsExactlyWhen` | kinetic-pac/src/main.rs:280-282 | without a lock the settings survive exactly when, desktop by desktop, there was nothing to strip |
| `Pac.ChangedSettingIsKept` | kinetic-pac/src/main.rs:239-263 | a setting without the port, or on macOS with some service without it, is left exactly as it is and the lock removed |
| `Pac.UserSettingsSurviveExactlyWhen` | kinetic-pac/src/main.rs:239-273 | with the lock, uninstall keeps the current settings iff the user changed them so, they equal the saved ones, or on KDE differ from them only in an unsaved script URL |
| `Pac.MacUrlStaysExactlyWhen` | kinetic-pac/src/main.rs:242-263 | on macOS, over a backup without Kinetic's URLs, one stays behind iff some service shows one and some service shows another URL |
| `Pac.ReinstallDiscardsUserChange` | kinetic-pac/src/main.rs:188-199 | reinstalling overwrites a user's change and keeps the old backup |
| `Challenge.LeadingZeros` | kinetic-network/src/challenge.rs:11-22 | the loop counts the leading zero bits |
| `Challenge.ZeroBitsMeanSmall` | kinetic-network/src/challenge.rs:11-22 | at least d leading zeros iff the big-endian value is below 2^(bits - d) |
| `Challenge.OffsetIsValueOfPeer` | kinetic-network/src/challenge.rs:39-48 | the offset is the peer id's value cut to 64 bits, modulo one epoch |
| `Challenge.MeetsExactlyWhen` | kinetic-network/src/challenge.rs:53-89 | the threshold is met iff the hash value is below 2^(256 - difficulty) |
| `Challenge.VerifyExactlyWhen` | kinetic-network/src/challenge.rs:53-89 | verification, from the hash values alone, of the current or the previous staggered epoch |
| `Challenge.Solve` | kinetic-network/src/challenge.rs:94-137 | the first generated identity that meets the threshold for its own epoch; in development mode the first one generated |
| `Challenge.EpochAdvancesAtMostOne` | kinetic-network/src/challenge.rs:39-50 | one epoch of time moves the staggered epoch by at most one, saturation included |
| `Challenge.SolvedStaysValid` | kinetic-network/src/challenge.rs:53-89 | an identity solved at kyn k verifies at every kyn from k to k + 1440 |
| `Challenge.WorkAcceptedExactlyTwoEpochs` | kinetic-network/src/challenge.rs:73-86 | the work of one epoch is considered in exactly two epochs, shifted by the peer's offset |
| `Challenge.VerifyDependsOnEpoch` | kinetic-network/src/challenge.rs:53-89 | away from kyn zero verification sees only the staggered epoch |
| `Challenge.Heartbeat.constructor` | kinetic-host/src/hot_swap.rs:107-108 | the given identity and an empty cache |
| `Challenge.Heartbeat.OnTick` | kinetic-host/src/hot_swap.rs:109-218 | the cache stays sound and the decision is the uncached one, except when kyn zero meets a cached epoch |
| `Challenge.CacheRefinesPlainLoop` | kinetic-host/src/hot_swap.rs:117-218 | over any run of nonzero kyns the cached loop ends with the identity of the loop that always re-verifies |
| `Takeover.ComputesCurveExactlyWhen` | kinetic-core/src/physics.rs:116-136 | the machine arithmetic equals the documented capped curve iff the product fits in 128 bits or its wrapped value reaches the cap |
| `Takeover.FitsUpTo` | kinetic-core/src/physics.rs:116-128 | for targets up to 2^32 it always fits |
| `Takeover.MultiplierIsFloor` | kinetic-core/src/physics.rs:99-128 | the multiplier is the floor of (target / (idle+1))^2, at least one |
| `Takeover.OverflowFreeExactlyUpTo` | kinetic-core/src/physics.rs:120-128 | no product overflows on any input iff the target is at most 2^32 |
| `Takeover.WrappedDifficulty` | kinetic-core/src/physics.rs:128-135 | with a larger target the result can be zero |
| `Takeover.NonincreasingInIdle` | kinetic-core/src/physics.rs:99-136 | wherever the product fits, the effort never rises as a name stays idle longer |
| `Takeover.NondecreasingInBase` | kinetic-core/src/physics.rs:99-136 | wherever the product fits, the effort never falls as the base rises |
| `Takeover.NeverBelowBase` | kinetic-core/src/physics.rs:128 | wherever the product fits, the effort is never below the base |
| `Takeover.DecayedExactlyWhen` | kinetic-core/src/physics.rs:99-136 | wherever the product fits, the effort equals the base iff 2 * (idle+1)^2 exceeds target^2, or the base is 0 or the maximum |

## Left out

- RsaVdf.AcceptedExactlyWhen: how hard it is to find an output other than the true one that meets the condition, beyond
  the negated and the zero output, is a cryptographic assumption on the group and the hash; so are sequentiality and the
  error rate of the primality test.
- The insides of ML-DSA-65, SHA-256, Argon2id, base64url and canonical JSON, and drand beacon verification.
- An unknown action model string, which aborts the process, and development-mode key validation at start-up.
- HashToPrime.GeneratePrimeL: that some counter is accepted is not proved; exhaustion is reported as not returning.
- StorageLog.InitOpfs: vectors of up to 2^31 - 1 bytes can be allocated, and file reads and writes succeed and are
  atomic.
- StorageLog.KineticStorage.AppendToLog: a payload too large for a vector is appended like any other instead of
  aborting; the durability clauses already exclude the file that results.
- StorageScan.ScanNative: the table is given by its in-order listing; transactions and I/O errors are not modelled.
- DnsTree.Traverse: the last-in-first-out order of lookups is not stated; it shows only when a budget runs out.
- Parsing of TXT record text into branch and leaf records, and of multiaddresses.
- Unicode lower-casing of names, and the name syntax rules.
- KidManager.CreatedDocumentVerifies: stated for DIDs and encoded keys within the document limits, whose values come
  from a build-time configuration.
- The owner's signature envelope around documents and manifests, file permissions, unreadable or corrupt files, and
  listing of local identities.
- Challenge.Solve: the identities generated are a given finite list; the abort at kyn zero outside development mode is
  a precondition.
- Pac.PacManager.InstallPac: the commands that read and write OS settings succeed and each save, install, restore or
  uninstall is atomic; a lock file that cannot be parsed, manual proxy switches on Windows, and downloading the previous
  PAC script are not modelled.
- Debug builds, where the unchecked additions abort instead of wrapping.
- The peer-to-peer swarm, DNS and HTTP servers, command line, REST interface, service installers, error code tables and
  the name difficulty curve.
