# Receipt core and checkpoint signer, verified

A Dafny model of the verifiable-receipt core of Chit402 (`packages/cs2-core`), of the
checkpoint signer that anchors it on chain (`services/chit-sealer/kms-secp256k1.js`) and
of the spend-hold book (`packages/cdp-spend-store/src/hold-client.js`).

Each loop or in-place update of the source is a method over the same variables, proved
equal to a specification function; the theorems are lemmas about those functions and
about whole runs of them. The modules follow the source files:

- `Bytes`: integers and byte strings.
- `MerkleTree`, `MerkleVerify`, `MerkleTheorems`, `MerkleClients`, `MerkleHeads`: the RFC
  9162 section 2.1 log. The recursive generators, the two counter-shifting verifiers, what
  acceptance means for one proof and for a chain of heads, to an auditor with the entries
  and to a client without them, and what a head is a hash of. The hash is an arbitrary
  function into 32 bytes. Nothing says it is injective: a soundness lemma ends in "or these
  two inputs collide", where the inputs are computed by a function.
- `NumberTheory`, `Curve`, `CurveGroup`, `Ecdsa`, `EcdsaAnswers`: modular powers up to
  Fermat's little theorem, the Jacobian formulas over F_p against chord-and-tangent
  addition, double-and-add, signing, recovery and parity by trial, and what each of them
  answers, as equations between points.
- `Text`: labels, digits and joined parts, as bytes.
- `Rlp`, `Eip1559`, `Der`, `WireFormats`: the wire codecs in both directions, and the
  formats byte by byte.
- `IntentLog`, `Anchor`, `AnchorOutcomes`, `AnchorRuns`, `AnchorSigner`, `AnchorLog`,
  `FeeBump`: the byte-level log with short writes and torn tails; the decisions of commit,
  sign and broadcast, and which rows and fields lead to each; every interleaving of them as
  a state machine in which an operation with an await is two steps; the signer, from the key
  service's DER to the sender that a value on the wire recovers; and methods on the log, each
  proved to be one step of that machine. The loop in `AnchorLog.Session` is no code of the repository: it stands for the callers,
  in any order.
- `Hpke`, `HpkeAnswers`, `LineSeal`, `LineAnswers`, `SlotWitness`: RFC 9180 contexts in
  four modes, and the two-slot sealed line, its leaf, how the leaf ties back to the Merkle
  log, every label and offset of both, and a toy cipher suite.
- `SpendBook`, `SpendBookSteps`: the keyed queues, refined to one list in arrival order.

A specification function is never the last word on an answer: for each operation a lemma
says what comes out, and which error, from the caller's values alone.

What is assumed is always a named precondition, never an axiom:

- `CurveGroup.ValidCurve`: the field and group orders are odd primes (p = 3 mod 4),
  addition of affine points associates, and the order kills every point. That sums stay on
  the curve (`AddCloses`) and that the code's formulas compute them is proved.
- `Hpke.GoodCrypto`: Diffie-Hellman commutes, the AEAD opens what it sealed, key
  expansion fills its length. `Hpke.WorkingCrypto` adds that these do not fail on
  well-sized input; only lemmas about when sealing succeeds use it.
- `IntentLog.GoodCodec`: a record's text has no newline, parses back, and does not parse
  when pieces of records run together on one line.

Each of these is shown consistent by a lemma that exhibits an instance.

Where the code does less than its names suggest, the model keeps the code and says
exactly when the expected property holds:

- `verifyConsistency` from size 0 leaves the new root unconstrained unless the new size
  is 0 as well (`GenesisAcceptance`).
- `eip1559Decode` accepts bytes the serializer never prints, and even lists where byte
  strings belong. `AcceptedNotUnique` turns any serialized transaction into another
  accepted string; `PrintedExactly` says which byte strings are printed, both ways.
- The comparison after signing lets answers through that are no serialization of the
  request: the unsigned payload and any access list (`UnsignedAnswerPasses`,
  `AccessListAnswerPasses`). `HonestExactly` gives the guards that would exclude them,
  both ways. With the code's own signer two values sent for one epoch differ only in fees
  and signature, byte for byte (`SendsDifferInFees`), and recover the sender of their row
  (`SentBySender`); with any signer they make the same call (`SendsAgree`).
- `openLineAny` with the recovery key answers from slot 1 exactly when slot 0 refuses
  that key (`RecoveryKeyOpens`). Slot 0 need not: it does not when the recovery key is
  the book key (`RecoveryIsBook`), and primitives that meet every assumption can open
  slot 0 to another well-shaped line (`RecoveryReadsAnotherLine`). Recomputing the leaf
  tells the sealed line from any other (`RecoveryAnswerChecked`).
- `matchKey` joins fields with a separator the fields may contain: `MatchKeyExact` is the
  exact condition, `MatchKeyCollides` one pair of entries.
- `releaseEntry` leaves the payload map alone, so one id can have two payloads across a
  release; `RetryBindsTwice` is one such run. No id has two payloads at any point of a run
  exactly when no step of it binds a payload while the oldest waiting id of the key still
  has another (`OnePayloadStep`, `OnePayloadRun`); a caller can check this before
  `notePayload`. At hold time the condition is that no spent id is queued again: exactly
  then no spent id waits either (`CleanRun`), and once one waits some continuation gives it
  a second payload (`SpentHoldBindsTwice`, `CleanExactly`).

`dafny verify dfyconfig.toml` checks everything.

## Model

| member | source | states |
|---|---|---|
| `Bytes.BytesToBig` | packages/cs2-core/ecdsa/bytes.js:25-29 | the fold over the bytes computes the big-endian value, for any length |
| `Bytes.BigToBytes` | packages/cs2-core/ecdsa/bytes.js:31-49 | succeeds exactly for 0 <= value < 256^length, and then the result has that length and that value; negative and oversized values are refused |
| `Bytes.ToBytesOfBig` | packages/cs2-core/ecdsa/bytes.js:25-49 | writing a value back at its own width restores the bytes: the two conversions are inverse |
| `Bytes.MinBytesOfBig` | packages/cs2-core/ecdsa/rlp.js:44-58 | a byte string is the shortest form of its value exactly when it has no leading zero |
| `Bytes.BigConcat` | packages/cs2-core/ecdsa/bytes.js:25-29 | the value of two byte strings joined is the first times 256 to the length of the second, plus the second |
| `Text.HexSpelled` | packages/cs2-core/ecdsa/bytes.js:19-23 | byte i is the lowercase digits of its high and its low half, at 2i and 2i + 1 |
| `Text.DecExactly` | services/chit-sealer/kms-secp256k1.js:251-262 | decimal digits print back from their value exactly when there is one digit or the first is not zero |
| `MerkleVerify.LargestPowerOfTwoLessThan` | packages/cs2-core/merkle/index.js:63-67 | the doubling loop finds the split point of the RFC tree, and 1 below size 2 |
| `MerkleVerify.IsPowerOfTwo` | packages/cs2-core/merkle/index.js:69-74 | the halving loop decides being a power of two, both ways |
| `MerkleVerify.ParseProof` | packages/cs2-core/merkle/index.js:117-127 | more than 64 hashes or an element that is not 32 bytes is refused with the code's reason; anything else passes unchanged |
| `MerkleTree.PowerOfTwoIsPow2` | packages/cs2-core/merkle/index.js:69-74 | the halving test accepts exactly the numbers 2^h |
| `MerkleTree.MthRangeIsMth` | packages/cs2-core/merkle/index.js:149-159 | the head over an index range is the RFC head of that slice |
| `MerkleTree.PathRangeIsPath` | packages/cs2-core/merkle/index.js:172-188 | the path over a range is RFC PATH of the slice |
| `MerkleTree.SubproofRangeIsSubproof` | packages/cs2-core/merkle/index.js:247-268 | the subproof over a range is RFC SUBPROOF of the slice, known flag included |
| `MerkleTree.SubproofIsSiblings` | packages/cs2-core/merkle/index.js:247-268 | SUBPROOF is the start node and its siblings up the tree, the start left out exactly when it was known and m is a power of two or the whole size |
| `MerkleTree.StartOfPowerOfTwo` | packages/cs2-core/merkle/index.js:319-321 | when m is a power of two the start subtree is the whole old tree, so the old root can stand in for the omitted node |
| `MerkleTree.ClimbSound` | packages/cs2-core/merkle/index.js:222-245 | a climb that reaches mth(D) starts at the head of the subtree its sides lead to and uses exactly the sibling heads, or a hash collision is computed |
| `MerkleTree.SidesBounded` | packages/cs2-core/merkle/index.js:22-23 | a path in a tree of at most 2^k leaves has at most k siblings |
| `MerkleVerify.WalkIsLeafSides` | packages/cs2-core/merkle/index.js:222-241 | the counters fn and sn, halved and stripped as the loop does, turn left and right exactly where the recursive tree does, for every index and size |
| `MerkleVerify.WalkIsPrefixSides` | packages/cs2-core/merkle/index.js:322-347 | the same for the consistency counters after the opening shifts, for every 0 < m < n |
| `MerkleVerify.VerifyInclusion` | packages/cs2-core/merkle/index.js:210-245 | the loop returns the verdict of climbing the recursive tree, with the code's order of checks and reasons |
| `MerkleVerify.VerifyConsistency` | packages/cs2-core/merkle/index.js:296-352 | the loop returns the verdict of climbing for both roots, genesis and equal sizes included, with the code's order of checks and reasons |
| `MerkleTheorems.InclusionComplete` | packages/cs2-core/merkle/index.js:194-245 | every honest path verifies against mth of its entries, and has at most 53 hashes, under the cap of 64 |
| `MerkleTheorems.InclusionSound` | packages/cs2-core/merkle/index.js:205-245 | what is accepted against mth(D) is hashLeaf(D[index]) with exactly PATH(index, D), or a computed hash collision |
| `MerkleTheorems.InclusionOfData` | packages/cs2-core/merkle/index.js:48-53 | data whose leaf hash is accepted at an index is the entry there, or a computed collision |
| `MerkleTheorems.ConsistencyComplete` | packages/cs2-core/merkle/index.js:270-352 | for all 0 <= m <= n <= |D| the generated proof is accepted between mth(D[..m]) and mth(D[..n]) |
| `MerkleTheorems.ConsistencySound` | packages/cs2-core/merkle/index.js:290-352 | an old root accepted against mth(D) is mth(D[..m]), or a computed collision; for every m, genesis and equal sizes included |
| `MerkleTheorems.ConsistencyProofUnique` | packages/cs2-core/merkle/index.js:270-352 | between two different non-empty sizes only the generated proof is accepted, or a computed collision |
| `MerkleTheorems.GenesisAcceptance` | packages/cs2-core/merkle/index.js:308-313 | at m = 0 acceptance is exactly an empty proof and the empty old root; the new root is constrained only when n = 0 |
| `MerkleTheorems.AppendOnly` | packages/cs2-core/merkle/index.js:296-352 | every head of a chain of pairwise accepted heads ending at mth(D) is mth of a prefix of D, and sizes never shrink, or a computed collision |
| `MerkleTheorems.AuditedLeaf` | packages/cs2-core/merkle/index.js:210-245 | a leaf accepted against any head of such a chain is the leaf hash of D at that index, or a computed collision |
| `MerkleClients.ClimbsAgree` | packages/cs2-core/merkle/index.js:222-245 | two climbs along the same sides to one root start from one hash with the same siblings, or a computed collision |
| `MerkleClients.HeadPinsLeaf` | packages/cs2-core/merkle/index.js:205-245 | one head accepts one leaf and one path at each index, or a computed collision; no entries are known |
| `MerkleClients.HeadPinsEarlier` | packages/cs2-core/merkle/index.js:290-352 | one head accepts one earlier head of each size, or a computed collision; no entries are known |
| `MerkleClients.ExtendSound` | packages/cs2-core/merkle/index.js:222-352 | a path that climbs to what the consistency nodes show of the smaller tree is extended, by a function of both, to one that climbs to what they show of the larger tree, or a computed collision; for all i < m <= n |
| `MerkleClients.InclusionCarries` | packages/cs2-core/merkle/index.js:205-352 | a leaf accepted against a head is accepted, with the extended path, against every head that verifyConsistency accepts after it, or a computed collision |
| `MerkleClients.ChainCarries` | packages/cs2-core/merkle/index.js:205-352 | the same along a whole chain of accepted heads |
| `MerkleClients.ClaimsAgree` | packages/cs2-core/merkle/index.js:205-352 | a client that follows accepted heads and never sees an entry: two inclusions accepted at one index against any two of the heads are of one leaf, and the later path is the earlier one carried over, or a computed collision |
| `MerkleClients.DataAgrees` | packages/cs2-core/merkle/index.js:48-53 | the same for the data behind the leaves |
| `MerkleHeads.HeadSpelled` | packages/cs2-core/merkle/index.js:149-159 | the hash inputs written out: nothing for the empty log, a zero byte and the data for one entry, a one byte and two heads otherwise, split at the power of two k with k < n <= 2k |
| `MerkleHeads.HeadBinds` | packages/cs2-core/merkle/index.js:149-170 | two logs with one head, of any sizes, are one log, or the two hash inputs where they first differ collide |
| `MerkleHeads.InclusionRefusals` | packages/cs2-core/merkle/index.js:205-245 | each refusal of verifyInclusion, in the code's order, for exactly the claims that get it, and acceptance exactly for a proof of the right length that climbs to the root |
| `MerkleHeads.ConsistencyRefusals` | packages/cs2-core/merkle/index.js:296-352 | each refusal of verifyConsistency for exactly the claims that get it; from size 0 acceptance is exactly the hash of no bytes as old root, and as new root too when n = 0 |
| `MerkleHeads.GeneratorRefusals` | packages/cs2-core/merkle/index.js:194-288 | both generators refuse exactly the indices and sizes the log does not have, with the code's reasons |
| `NumberTheory.ModPow` | packages/cs2-core/ecdsa/recover.js:20-30 | square-and-multiply computes the power modulo m, for every base and exponent |
| `NumberTheory.Fermat` | packages/cs2-core/ecdsa/recover.js:32-37 | a^(p-1) is 1 modulo a prime p for every a not divisible by p (needed for the inverse to succeed) |
| `NumberTheory.ModInvPrime` | packages/cs2-core/ecdsa/recover.js:32-37 | modulo a prime the inverse exists for every non-zero residue and multiplies back to 1 |
| `NumberTheory.ModSqrtOfSquare` | packages/cs2-core/ecdsa/recover.js:39-45 | for p = 3 mod 4 the power (p+1)/4 of a square is a root of it, and one of the two known roots |
| `NumberTheory.ModSqrtExactly` | packages/cs2-core/ecdsa/recover.js:39-45 | a root is found exactly where there is one, and is one |
| `Curve.DoubleRepresents` | packages/cs2-core/ecdsa/recover.js:47-57 | the Jacobian doubling formula represents the affine tangent sum, null standing for infinity |
| `Curve.AddRepresents` | packages/cs2-core/ecdsa/recover.js:59-79 | mixed Jacobian addition represents an affine sum for any reduced coordinates, on the curve or off it, through all of its branches |
| `Curve.MixedSumExact` | packages/cs2-core/ecdsa/recover.js:66-71 | that sum is the chord-and-tangent sum exactly where ordinates over one abscissa are equal or opposite, as on the curve they are |
| `Curve.MixedHZero` | packages/cs2-core/ecdsa/recover.js:62-68 | h is zero exactly when the represented point and the addend share an abscissa |
| `Curve.FromJacRepresents` | packages/cs2-core/ecdsa/recover.js:81-88 | leaving Jacobian coordinates yields the affine point that is represented |
| `Curve.AddCloses` | packages/cs2-core/ecdsa/recover.js:47-79 | the chord-and-tangent sum of two points of the curve is a point of the curve, proved from the curve equation |
| `CurveGroup.AccumulatorApart` | packages/cs2-core/ecdsa/recover.js:94-105 | multiples jP and bP with 0 < j < b and j + b below the order are finite and never share an abscissa |
| `CurveGroup.PointMultiply` | packages/cs2-core/ecdsa/recover.js:90-107 | for any integer coordinates, reduced or not, and any integer k the loop over Jacobian points is double-and-add on the affine point taken modulo p, and it is said whether some addition met h = 0 |
| `Curve.DoubleStands` | packages/cs2-core/ecdsa/recover.js:47-57 | doubling sees unreduced coordinates modulo p: an ordinate that is a non-zero multiple of p yields a zero Z where a zero ordinate yields null, and both stand for infinity |
| `CurveGroup.FastIsScalar` | packages/cs2-core/ecdsa/recover.js:90-107 | for a point of the curve that is the (k mod order)-th multiple, no addition meets h = 0 and the early exit for a null base is not taken |
| `CurveGroup.ScalarMultiplyIsTimes` | packages/cs2-core/ecdsa/recover.js:90-107 | that is the k-th multiple itself, and null exactly when k is 0 modulo the order |
| `CurveGroup.NoOrderTwo` | packages/cs2-core/ecdsa/recover.js:148 | no finite point has y = 0, so the two lifts over an abscissa differ |
| `CurveGroup.ValidCurveExists` | packages/cs2-core/ecdsa/recover.js:134 | the hypotheses made about a curve are consistent: a three-point curve meets all of them |
| `Ecdsa.LiftOfPoint` | packages/cs2-core/ecdsa/recover.js:145-148 | over the abscissa of a point, the two parities lift to the point and to its opposite |
| `Ecdsa.RecoverUndoesSign` | packages/cs2-core/ecdsa/recover.js:137-167 | whenever signing succeeds, recovery at the returned parity is the signer's public point, the low-S flip included, and at the other parity it is not |
| `Ecdsa.ParitiesDiffer` | packages/cs2-core/ecdsa/recover.js:137-167 | for every digest and every r and s, made by the signer or not, the two parities never recover one key |
| `Ecdsa.TrialExactly` | packages/cs2-core/ecdsa/recover.js:177-197 | trial returns a parity exactly when that parity recovers the key: two hits cannot happen |
| `Ecdsa.SignerPath` | packages/cs2-core/ecdsa/sign.js:57-102 | the DER of a fresh signature, and the high-S DER of it, both normalize to the raw form, and trial recovery finds its parity and no other |
| `Ecdsa.RecoverPublicKeyLoop` | packages/cs2-core/ecdsa/recover.js:137-167 | the code's steps return the recovered key or null in exactly the modelled cases |
| `Ecdsa.YParityByTrialLoop` | packages/cs2-core/ecdsa/recover.js:177-197 | the two-trial loop returns the parity that is the only hit, and fails on none or two |
| `Ecdsa.SignScalarsLoop` | packages/cs2-core/ecdsa/sign.js:57-89 | the code's steps compute r, the low s and the flipped parity, with the code's refusals |
| `Ecdsa.SignRawDigestLoop` | packages/cs2-core/ecdsa/sign.js:57-94 | the whole signer, DER and raw forms included |
| `EcdsaAnswers.SignExactly` | packages/cs2-core/ecdsa/sign.js:57-89 | signing returns (r, s, v) exactly when r is the abscissa of kG in [1, order), s is below half the order, s k or its opposite is z + r d, and v is the parity of kG or the other one accordingly |
| `EcdsaAnswers.SignOutcomes` | packages/cs2-core/ecdsa/sign.js:57-80 | it succeeds exactly for 32 bytes, scalars in [1, order), an abscissa of kG in [1, order) and z + r d not zero modulo the order; otherwise the first guard that fails names the error |
| `EcdsaAnswers.SignRawOutcomes` | packages/cs2-core/ecdsa/sign.js:57-94 | the whole signer fails exactly as its scalars do, and otherwise spells r and s in 32 bytes each, side by side |
| `EcdsaAnswers.PublicPointExactly` | packages/cs2-core/ecdsa/sign.js:104-121 | exactly the scalars in [1, order) have a public point: a 4, then 32 bytes that spell the abscissa of dG, then 32 that spell its ordinate |
| `EcdsaAnswers.RecoverExactly` | packages/cs2-core/ecdsa/recover.js:137-167 | recovery returns a point Q's encoding exactly when the inputs have their widths and ranges and s R = r Q + z G for a curve point R over r whose ordinate has the asked parity |
| `EcdsaAnswers.RecoveredIsPoint` | packages/cs2-core/ecdsa/recover.js:164-167 | whatever is recovered is the encoding of a point of the curve |
| `EcdsaAnswers.TrialOutcomes` | packages/cs2-core/ecdsa/recover.js:177-197 | trial answers a parity exactly for a 64-byte signature and a 65- or 64-byte key that this parity recovers; a key of neither form is the other error |
| `Rlp.RlpBijection` | packages/cs2-core/ecdsa/rlp.js:8-128 | a byte string decodes to an item exactly when it is that item's encoding: round trip and uniqueness for all nested lists |
| `Rlp.RlpIntRoundTrip` | packages/cs2-core/ecdsa/rlp.js:44-59 | a printed integer decodes to its shortest bytes, which spell the integer |
| `Rlp.RlpInt` | packages/cs2-core/ecdsa/rlp.js:44-59 | negative integers are refused; others print as the string of their shortest bytes, zero as the empty string |
| `Rlp.EncodeLen` | packages/cs2-core/ecdsa/rlp.js:8-17 | pushing low bytes and reversing gives the shortest big-endian bytes |
| `Rlp.WritePrefix` | packages/cs2-core/ecdsa/rlp.js:19-32 | the filled buffer is header, length bytes and payload |
| `Rlp.ReadLenLoop` | packages/cs2-core/ecdsa/rlp.js:61-75 | the length loop agrees with the reader's specification, refusals included |
| `Rlp.ReadListLoop` | packages/cs2-core/ecdsa/rlp.js:106-117 | the push loop collects exactly the items that fill the list's range, or fails where reading one fails or overruns |
| `Rlp.Decode` | packages/cs2-core/ecdsa/rlp.js:119-128 | decoding refuses trailing bytes and otherwise returns the item read |
| `WireFormats.StringSpelled` | packages/cs2-core/ecdsa/rlp.js:19-38 | a string is one byte below 0x80 itself, or 0x80 + length up to 55 bytes, or 0xb7 + length of length, the shortest big-endian length, and the bytes |
| `WireFormats.ListSpelled` | packages/cs2-core/ecdsa/rlp.js:19-42 | a list is 0xc0 + length up to 55 bytes of payload, or 0xf7 + length of length, the shortest big-endian length, and the payload |
| `WireFormats.ItemsSpelled` | packages/cs2-core/ecdsa/rlp.js:40-42 | the payload of joined lists is the joined payloads; of one item it is the item's encoding |
| `WireFormats.RlpRefuses` | packages/cs2-core/ecdsa/rlp.js:61-128 | every byte string that is no item's encoding is refused, with one error |
| `Eip1559.UnsignedIsList` | packages/cs2-core/ecdsa/eip1559.js:38-54 | the signing payload exists exactly for non-negative fields, a 20-byte target and zero value, and is 0x02 and the RLP of the nine fields in EIP-1559 order |
| `Eip1559.SerializeIsList` | packages/cs2-core/ecdsa/eip1559.js:65-81 | the signed form exists exactly when also the signature is well formed, and is 0x02 and the RLP of the twelve fields in order |
| `Eip1559.SerializeRoundTrip` | packages/cs2-core/ecdsa/eip1559.js:65-109 | decoding a serialized transaction returns every field and the signature |
| `Eip1559.UnsignedRoundTrip` | packages/cs2-core/ecdsa/eip1559.js:52-109 | decoding the signing payload returns every field and no signature |
| `Eip1559.UnsignedInjective` | packages/cs2-core/ecdsa/eip1559.js:38-54 | two transactions with one signing payload are equal |
| `Eip1559.PrintedExactly` | packages/cs2-core/ecdsa/eip1559.js:65-109 | of all byte strings, accepted or not, exactly those are some serialized transaction whose list has twelve flat fields without leading zeros, a 20-byte target, zero value, an empty access list, a 0/1 parity and scalars of at most 32 bytes |
| `Eip1559.ElementIsByte` | packages/cs2-core/ecdsa/bytes.js:19-29 | where a list stands for a byte string, an element that coerces to a number is below 256, so shifting and or-ing it in is adding it |
| `Eip1559.AcceptedNotUnique` | packages/cs2-core/ecdsa/eip1559.js:83-109 | a zero byte put before the chain id of any serialized transaction gives different bytes that decode to the same fields |
| `WireFormats.UnsignedSpelled` | packages/cs2-core/ecdsa/eip1559.js:38-54 | the payload is 0x02 and the list chain, nonce, tip, max fee, gas, target, zero, data, empty access list; negative fields and a wrong target or value give the code's two errors in its order |
| `WireFormats.SerializeSpelled` | packages/cs2-core/ecdsa/eip1559.js:65-81 | the same with parity, r and s behind; a malformed signature is refused first |
| `WireFormats.DecodeErrors` | packages/cs2-core/ecdsa/eip1559.js:83-109 | each error of the decoder for exactly the bytes that get it: wrong type byte or shape, no RLP, a number field that is no number |
| `WireFormats.DecodeSpelled` | packages/cs2-core/ecdsa/eip1559.js:83-109 | fields 0 to 11 of the list are read as chain, nonce, tip, max fee, gas, target, value, data, (skipped access list), parity, r, s |
| `WireFormats.ElementExactly` | packages/cs2-core/ecdsa/bytes.js:25-29 | a list element stands for a number exactly when it is empty, one byte, or a list of one such element |
| `WireFormats.ListField` | packages/cs2-core/ecdsa/bytes.js:19-29 | a list read as a number is its elements' base-256 value; read as text, its elements' texts padded to two |
| `WireFormats.ElementText` | packages/cs2-core/ecdsa/bytes.js:19-23 | the text of an element is its bytes in decimal, or its own elements' texts, with commas between |
| `Der.DerBijection` | packages/cs2-core/ecdsa/der.js:25-79 | for every order, a byte string decodes to raw exactly when it is the printed sequence of raw's halves and both lie in [1, order) |
| `Der.LowSNormal` | packages/cs2-core/ecdsa/der.js:88-100 | low-S succeeds exactly for 64 bytes with s in [1, order), keeps r, lands in [1, order/2], keeps or negates s, and is idempotent |
| `Der.NormalizeHighS` | packages/cs2-core/ecdsa/der.js:102-110 | the high-S DER of a low-S signature exists exactly when order - s fits 32 bytes, and then normalizes back to it |
| `Der.ReadLengthLoop` | packages/cs2-core/ecdsa/der.js:25-37 | the length reader, loop included, with every refusal |
| `Der.ReadScalarLoop` | packages/cs2-core/ecdsa/der.js:39-57 | the integer reader, zero-skipping loop included, with every refusal |
| `Der.DerToRawBuffer` | packages/cs2-core/ecdsa/der.js:66-79 | the 64-byte buffer holds both decoded scalars, or the error is the specified one |
| `Der.LowSBuffer` | packages/cs2-core/ecdsa/der.js:88-100 | the buffer holds the low-S form, or the error is the specified one |
| `Der.DerIntLoop` | packages/cs2-core/ecdsa/sign.js:27-38 | leading zeros are dropped, one is put back before a set top bit, 128 bytes or more are refused |
| `WireFormats.DerExactly` | packages/cs2-core/ecdsa/der.js:25-79 | derToRaw accepts exactly 0x30, total length, and twice 0x02, length and minimal contents with a clear top bit, of two values in [1, order) that fit 32 bytes; it returns the two values |
| `WireFormats.IntegerExactly` | packages/cs2-core/ecdsa/sign.js:27-38 | for every non-empty number the printed INTEGER has the minimal contents of its value, refused from 128 bytes on; zero prints as one zero byte |
| `WireFormats.LengthExactly` | packages/cs2-core/ecdsa/der.js:25-37 | a length is read in exactly three minimal forms: one byte below 0x80, 0x81 and a byte from 0x80, 0x82 and two bytes with a first that is not zero |
| `WireFormats.DerRefuses` | packages/cs2-core/ecdsa/der.js:59-100 | every refusal of derToRaw and lowS is the one error der_invalid |
| `WireFormats.LowSExactly` | packages/cs2-core/ecdsa/der.js:88-100 | exactly an s above half the order is replaced, by order - s |
| `WireFormats.HighSExactly` | packages/cs2-core/ecdsa/sign.js:97-102 | the high-S DER decodes to the same r and order - s |
| `IntentLog.Log.WriteAll` | services/chit-sealer/kms-secp256k1.js:324-334 | for any answers of the write call the status and the number of bytes that landed are those the counts determine, and the file has grown by that prefix |
| `IntentLog.Log.Append` | services/chit-sealer/kms-secp256k1.js:372-383 | an append succeeds exactly when its line was written whole and synced, tells which of the two failed, and leaves a prefix of its line otherwise |
| `IntentLog.Log.Read` | services/chit-sealer/kms-secp256k1.js:345-358 | reading returns the records of the lines in order, or the torn-line error |
| `IntentLog.WriteExactly` | services/chit-sealer/kms-secp256k1.js:324-334 | a write is whole when the last of some positive counts completes it, short at the first count that is not positive or goes past the end, and cut off when the answers run out; how much landed in each case |
| `IntentLog.ReadExactly` | services/chit-sealer/kms-secp256k1.js:345-358 | a text reads as records exactly when it is lines ended by newlines, each blank or parsing, and those are the records in order; every other text is torn |
| `IntentLog.CrashConsistent` | services/chit-sealer/kms-secp256k1.js:360-389 | after k appends and any prefix of the next write a read gives the k records, k+1 records or the torn-line error, decided by how much landed |
| `IntentLog.BrokenStaysBroken` | services/chit-sealer/kms-secp256k1.js:345-389 | no later append, whole or partial, makes a torn log readable again |
| `IntentLog.GoodCodecExists` | services/chit-sealer/kms-secp256k1.js:345-358 | what is assumed of the record text is consistent |
| `Anchor.NormalizedIsNormal` | services/chit-sealer/kms-secp256k1.js:226-276 | a normalized anchor's calldata spells its domain, epoch, hour, size and roots at the fixed offsets, and its fingerprint is the hash of its fields |
| `AnchorOutcomes.NormalizeExactly` | services/chit-sealer/kms-secp256k1.js:226-276 | which anchors are accepted, from their own fields: ranges, widths, and calldata that starts with the hash of tag, chain and target, the three 8-byte numbers and both roots; which error every other anchor gets; and the committed body, its fingerprinted text written out |
| `Anchor.DomainBinds` | packages/cs2-core/ecdsa/domain.js:12-29 | one checkpoint domain means one chain id and contract, or the two domain inputs collide |
| `Anchor.SpellsIsPrefix` | services/chit-sealer/kms-secp256k1.js:203-250 | the calldata fields match the anchor exactly when the calldata starts with domain, the three 8-byte numbers, root and state root, all of them in range |
| `Anchor.CalldataDetermines` | services/chit-sealer/kms-secp256k1.js:226-276 | two accepted anchors with one calldata agree on everything but the nonce, or the two domain inputs collide |
| `Anchor.BodyTextInjective` | services/chit-sealer/kms-secp256k1.js:251-262 | the fingerprinted text determines every fingerprinted field |
| `Anchor.SameFingerprint` | services/chit-sealer/kms-secp256k1.js:251-275 | one nonce and one fingerprint means one body, or the two texts collide |
| `Anchor.NormalizeFees` | services/chit-sealer/kms-secp256k1.js:278-297 | fees are accepted exactly with a positive gas limit and max fee and 0 <= tip <= max fee, and then pass through unchanged |
| `Anchor.HonestSignatureMatches` | services/chit-sealer/kms-secp256k1.js:436-456 | the comparison after signing always passes for a serialization of the requested transaction, which decodes to the request, fees and signature included |
| `Anchor.UnsignedAnswerPasses` | services/chit-sealer/kms-secp256k1.js:447-456 | the comparison lets the unsigned payload through, which decodes to no signature and is no serialization |
| `Anchor.AccessListAnswerPasses` | services/chit-sealer/kms-secp256k1.js:447-456 | the comparison lets any access list through; only with the empty one is the answer a serialization |
| `Anchor.HonestExactly` | services/chit-sealer/kms-secp256k1.js:447-456 | an answer that passes is the requested transaction with a signature exactly when its list is canonical and its fees are the quote |
| `AnchorOutcomes.MatchesExactly` | services/chit-sealer/kms-secp256k1.js:447-456 | the comparison passes exactly for a list that decodes and whose chain, nonce, target, value and data fields are the intent's; nothing else of it is looked at |
| `Anchor.SendsLatestQuote` | services/chit-sealer/kms-secp256k1.js:473-486 | what is sent is the latest signature on the log for that nonce at exactly the asked fees |
| `Anchor.CommitAgain` | services/chit-sealer/kms-secp256k1.js:399-421 | committing an anchor whose intent has landed returns that intent and appends nothing |
| `AnchorOutcomes.CommitErrors` | services/chit-sealer/kms-secp256k1.js:395-411 | each error of a commit, from the anchor and the rows: the epoch is open exactly when a row has its chain, contract and epoch and another nonce; the nonce conflicts exactly when not that and a row of the nonce has another fingerprint or sender |
| `AnchorOutcomes.CommitAnswers` | services/chit-sealer/kms-secp256k1.js:411-422 | otherwise the oldest intent of the nonce is returned, or a new intent when there is none |
| `AnchorOutcomes.SignErrors` | services/chit-sealer/kms-secp256k1.js:425-434 | with the oldest intent of the nonce: another sender, bad fees, fees above the ceiling, each exactly when the earlier ones do not apply |
| `AnchorOutcomes.SignWithoutIntent` | services/chit-sealer/kms-secp256k1.js:425-428 | signing reports a missing intent exactly when no row is an intent of the nonce |
| `AnchorOutcomes.SignAnswers` | services/chit-sealer/kms-secp256k1.js:434-446 | the latest signed row at exactly these fees is returned; without one, that intent is to be signed at them |
| `AnchorOutcomes.SendErrors` | services/chit-sealer/kms-secp256k1.js:473-482 | bad fees come first; without a signature at these fees nothing is sent |
| `AnchorOutcomes.SendAnswers` | services/chit-sealer/kms-secp256k1.js:476-487 | the latest signature at these fees is sent exactly when an intent of the nonce has its fingerprint |
| `Anchor.SignAgain` | services/chit-sealer/kms-secp256k1.js:425-435 | signing again at the same fees returns the signature on the log without asking the signer |
| `Anchor.SignThenSend` | services/chit-sealer/kms-secp256k1.js:473-486 | right after a signature at some fees, broadcasting at those fees sends exactly that signature |
| `AnchorRuns.RunKeeps` | services/chit-sealer/kms-secp256k1.js:395-544 | the write-ahead and compatibility invariant holds after every interleaving of commits, signatures, broadcasts, crashes and torn appends |
| `AnchorRuns.WriteAheadOrder` | services/chit-sealer/kms-secp256k1.js:424-511 | in every run: a sent value is the raw of an earlier signed row; a signed row follows an intent with its body and is within its signer's ceiling; a broadcast row repeats a signed and sent row |
| `AnchorRuns.NonEquivocation` | services/chit-sealer/kms-secp256k1.js:391-422 | in every run: one (chain, contract, epoch) has one nonce; one nonce has one sender and one body, or the two bodies' texts collide |
| `AnchorRuns.SendsAgree` | services/chit-sealer/kms-secp256k1.js:473-501 | any two values ever sent for one epoch decode to the same chain, nonce, target, value and calldata, whatever the signer answered, or the bodies' texts collide; access list and signature are not compared |
| `AnchorRuns.SendsDifferInFees` | services/chit-sealer/kms-secp256k1.js:473-501 | when the signer answers with the serialized request, any two values ever sent for one epoch are, byte for byte, serializations of transactions that differ only in fees, each with a signature, or the bodies' texts collide |
| `AnchorRuns.RowsOfRun` | services/chit-sealer/kms-secp256k1.js:360-389 | the rows of every run agree on nonce, sender and body per epoch, and each signature stands after its intent, each broadcast after its signature |
| `AnchorRuns.HistoryGrows` | services/chit-sealer/kms-secp256k1.js:360-389 | no step rewrites history, and a torn log is never written past |
| `AnchorRuns.BroadcastGetsThrough` | services/chit-sealer/kms-secp256k1.js:503-511 | after any run that left the log readable, commit, sign and broadcast of an acceptable anchor with a nonce and an epoch that no row has append exactly intent, signature and broadcast row around one send of that signature |
| `AnchorRuns.BumpGetsThrough` | services/chit-sealer/kms-secp256k1.js:534-544 | after any run that left the log readable, bumping a committed nonce to new fees under the ceiling signs the same body, sends that signature once and notes it |
| `AnchorSigner.SignDigestExactly` | services/chit-sealer/kms-secp256k1.js:133-165 | of all signatures, the signer returns the one whose scalars the service's DER spells, low-S taken, at the one parity that recovers its key, and no other |
| `AnchorSigner.ServiceIsAccepted` | services/chit-sealer/kms-secp256k1.js:133-165 | a DER signature the key makes, with either s, is accepted, and the signer returns its low-S form |
| `AnchorSigner.SignerIsSender` | services/chit-sealer/kms-secp256k1.js:166-171 | what signEip1559 returns, decoded, recovers a key with the signer's own address, at the digest of the requested transaction's unsigned form |
| `AnchorSigner.SignEip1559Exactly` | services/chit-sealer/kms-secp256k1.js:166-171 | signing fails as the transaction does, or for want of an acceptable signature; else it returns the transaction with the signature found |
| `AnchorSigner.AddressSpelled` | packages/cs2-core/ecdsa/address.js:8-12 | the address is the last 20 bytes of the hash of the 64 bytes behind the format byte; keys of other forms have none |
| `AnchorSigner.AddressOfScalar` | packages/cs2-core/ecdsa/address.js:8-12 | the address of a private scalar hashes the abscissa of its multiple of the base point and then the ordinate, 32 bytes each |
| `AnchorSigner.SentBySender` | services/chit-sealer/kms-secp256k1.js:424-501 | in every run with such signers, every value handed to send recovers, at the digest of its own unsigned form, a key whose address is the sender of its intent row |
| `AnchorSigner.OneSenderPerEpoch` | services/chit-sealer/kms-secp256k1.js:424-501 | any two values ever sent for one epoch recover one sender and are transactions that differ only in fees, or the bodies' texts collide |
| `AnchorLog.AppendRefines` | services/chit-sealer/kms-secp256k1.js:372-383 | any prefix of a row's line that lands in the file is one of the three append outcomes of the run |
| `AnchorLog.CommitAnchorIntent` | services/chit-sealer/kms-secp256k1.js:395-422 | the byte-level operation is one step of a run; it refuses for the anchor, the sender, the log and the rows in that order, writing nothing; a new intent succeeds exactly when its line was written whole and synced, and the file has grown by what landed |
| `AnchorLog.CommitConcludes` | services/chit-sealer/kms-secp256k1.js:395-411 | a log that does not read is reported exactly to an acceptable anchor and sender; every other refusal is what an empty log would give |
| `AnchorLog.SignBegin` | services/chit-sealer/kms-secp256k1.js:424-445 | up to its await, signing concludes what the run's step concludes from the same rows |
| `AnchorLog.SignEnd` | services/chit-sealer/kms-secp256k1.js:446-471 | after its await, signing is one step of a run: a failed await or an answer for another transaction writes nothing, a matching one is appended with the quoted fees and succeeds exactly when written whole and synced |
| `AnchorLog.SendBegin` | services/chit-sealer/kms-secp256k1.js:473-486 | up to its await, broadcasting is one step of a run, which records the value sent; it refuses for the fees, the log and the rows in that order |
| `AnchorLog.SendEnd` | services/chit-sealer/kms-secp256k1.js:487-501 | after its await, broadcasting is one step of a run: a failed send writes nothing, an answered one appends the signed row with the answer and succeeds exactly when written whole and synced |
| `AnchorLog.ReadIsSound` | services/chit-sealer/kms-secp256k1.js:384-387 | whatever the file holds after a run, if it reads at all its rows agree and stand in order |
| `AnchorLog.Session` | services/chit-sealer/kms-secp256k1.js:395-501 | on a new log, any sequence of calls and answers in any order, with writes failing anywhere, leaves a file that holds a run and reads as sound rows or as torn |
| `FeeBump.BumpOutbids` | services/chit-sealer/kms-secp256k1.js:514-532 | a bump raises both per-gas fees to the least whole number more than 10% above, keeps tip <= max fee and the gas limit, is a valid quote, and is refused, as above the ceiling, exactly when the ceiling is not more than 10% above the max fee |
| `FeeBump.BumpsAreBounded` | services/chit-sealer/kms-secp256k1.js:522-532 | k >= 1 accepted bumps from max fee f under ceiling C satisfy 11^k f < 10^k C and f + k <= C, so every bump sequence ends |
| `Hpke.KemAgrees` | packages/cs2-core/seal/hpke.js:159-234 | encapsulation and decapsulation with matching keys give one secret, authenticated or not, and fail together |
| `HpkeAnswers.EncapSpelled` | packages/cs2-core/seal/hpke.js:159-200 | Encap and AuthEncap of RFC 9180 with labels and suite written out: which inputs are bad keys, and the secret and encapsulated key otherwise |
| `HpkeAnswers.DecapSpelled` | packages/cs2-core/seal/hpke.js:202-234 | Decap and AuthDecap likewise: widths are bad keys, refused Diffie-Hellman is a failed open |
| `Hpke.SetupsAgree` | packages/cs2-core/seal/hpke.js:352-376 | in all four modes matching setups derive the same key, base nonce and exporter secret, and fail together |
| `Hpke.ScheduleRefuses` | packages/cs2-core/seal/hpke.js:244-252 | the inputs are refused exactly when mode, pre-shared key and its id do not fit together |
| `Hpke.LabelsSeparate` | packages/cs2-core/seal/hpke.js:253-265 | the key, the base nonce, the exporter secret and every export are expanded from different inputs, whatever the contexts |
| `Hpke.ContextBinds` | packages/cs2-core/seal/hpke.js:253-256 | a key schedule context fixes mode, info and key id, or two extraction inputs collide |
| `HpkeAnswers.ScheduleSpelled` | packages/cs2-core/seal/hpke.js:244-277 | the key schedule of RFC 9180 with labels, suite and lengths written out, and the modes it refuses |
| `HpkeAnswers.KeyBinds` | packages/cs2-core/seal/hpke.js:244-277 | one message key means one mode, shared secret, info, pre-shared key and key id, or two inputs of the expansion or the extraction collide |
| `Hpke.NonceInjective` | packages/cs2-core/seal/hpke.js:380-395 | different sequence numbers have different nonces under one base nonce |
| `Hpke.ComputeNonceLoop` | packages/cs2-core/seal/hpke.js:380-395 | the byte loop computes base nonce XOR sequence number, null exactly when it does not fit |
| `HpkeAnswers.NonceAtZero` | packages/cs2-core/seal/hpke.js:380-395 | the nonce at sequence number 0 is the base nonce, whatever it is |
| `HpkeAnswers.NonceExactly` | packages/cs2-core/seal/hpke.js:380-395 | a nonce exists exactly up to 2^53 - 1 and below 256^width; bit j of its byte i is set exactly where the bits of the base nonce and of byte i of the big-endian number differ |
| `HpkeAnswers.XorLaw` | packages/cs2-core/seal/hpke.js:386 | each bit of the exclusive or is set exactly where the two bits differ |
| `Hpke.OpenedInOrder` | packages/cs2-core/seal/hpke.js:397-419 | any run of seals, failed ones included, is opened in order to the plaintexts that were sealed |
| `HpkeAnswers.AllDelivered` | packages/cs2-core/seal/hpke.js:397-419 | with an AEAD that does not fail and numbers left, message i is sealed under the nonce of number seq + i with its own associated data, and all the plaintexts are opened, in order |
| `Hpke.JunkIsSkipped` | packages/cs2-core/seal/hpke.js:409-419 | a delivery that does not open, anywhere in the stream, changes nothing for the others |
| `Hpke.NoncesDistinct` | packages/cs2-core/seal/hpke.js:397-407 | no two ciphertexts of one context, over any run of operations, use one nonce |
| `Hpke.ClosedForGood` | packages/cs2-core/seal/hpke.js:326-347 | after a release every operation throws and nothing is emitted |
| `Hpke.Conversation` | packages/cs2-core/seal/hpke.js:352-434 | matching parties in any mode: messages open in order, a live context refuses only at the last sequence number, and exports agree whatever was delivered |
| `Hpke.BaseRoundTrip` | packages/cs2-core/seal/hpke.js:436-457 | what the one-shot base mode seals, the holder of the matching key opens |
| `HpkeAnswers.SealSpelled` | packages/cs2-core/seal/hpke.js:397-407 | a seal throws exactly for a closed or spent context, else it is the AEAD under key, nonce and the caller's associated data; a failure changes nothing, a success adds one to the number |
| `HpkeAnswers.OpenSpelled` | packages/cs2-core/seal/hpke.js:409-419 | the same for opening |
| `HpkeAnswers.ExportSpelled` | packages/cs2-core/seal/hpke.js:421-434 | an export is an expansion of the exporter secret under its own label, up to 8,160 bytes |
| `HpkeAnswers.SealBaseSpelled` | packages/cs2-core/seal/hpke.js:436-446 | the one-shot seal is mode 0 without a pre-shared key, under the schedule's key and its base nonce |
| `HpkeAnswers.OpenBaseSpelled` | packages/cs2-core/seal/hpke.js:449-457 | the one-shot open is the same, with every refusal |
| `Hpke.Context.Seal` | packages/cs2-core/seal/hpke.js:397-407 | the method performs the specified step on the object's state, advancing the number only on success |
| `Hpke.Context.Open` | packages/cs2-core/seal/hpke.js:409-419 | the same for opening; a failed open leaves the number |
| `Hpke.Context.Export` | packages/cs2-core/seal/hpke.js:421-434 | the export of the live context, at most 255 hash lengths |
| `Hpke.Context.Release` | packages/cs2-core/seal/hpke.js:318-336 | the context is closed and all five secret buffers are zero |
| `Hpke.Context.constructor` | packages/cs2-core/seal/hpke.js:280-310 | a fresh context holds the schedule in buffers of its own, at sequence number 0 |
| `LineSeal.CheckLineShape` | packages/cs2-core/seal/core.js:119-127 | the padding loop decides the line's shape, with the code's reasons |
| `LineSeal.ShapedExactly` | packages/cs2-core/seal/core.js:119-127 | the lines accepted are 0x63 0x32, a payload of 801 bytes and 221 zeros, each for one payload; every other line gets the reason of the first of length, header and padding that is wrong |
| `LineSeal.LeafIsMerkleLeaf` | packages/cs2-core/seal/core.js:145-180 | a leaf is computed exactly for 32-byte commitments and a 1,200-byte blob, and is the Merkle leaf hash of "line" ‖ C ‖ dkCommitment ‖ H(sealed) |
| `LineAnswers.LeafSpelled` | packages/cs2-core/seal/core.js:145-180 | the leaf is the hash of 0x00, "line", C, the data key commitment and the blob's hash, in this order; the reasons for other widths |
| `LineAnswers.RecoverySpelled` | packages/cs2-core/seal/core.js:110-117 | without a recovery key the recipient of slot 1 is the hash of a fixed label with its top bit cleared |
| `LineAnswers.ChosenSpelled` | packages/cs2-core/seal/core.js:244-274 | the keys of a seal are those given, else those drawn; when none can be drawn that is the reason, every other refusal is a bad key |
| `LineSeal.WriteSlot` | packages/cs2-core/seal/core.js:186-196 | a slot's 80 bytes are overwritten and nothing else; a failed wrap writes nothing |
| `LineSeal.SealFromSeed` | packages/cs2-core/seal/core.js:222-294 | the filled buffer is line ciphertext, book slot, recovery slot, with the code's order of refusals |
| `LineAnswers.SealRefusals` | packages/cs2-core/seal/core.js:222-274 | what is refused before anything is encrypted: the line's shape, then the recipients, then the keys |
| `LineAnswers.SealSpelled` | packages/cs2-core/seal/core.js:275-291 | the blob is the line under the data key, a zero nonce and H("dk" ‖ dk), then the data key wrapped to the book key under slot byte 0 and to the recovery key under slot byte 1 |
| `LineAnswers.OpenRefusals` | packages/cs2-core/seal/core.js:316-322 | openLine refuses for length, slot and key width, each exactly when the earlier ones do not apply |
| `LineAnswers.OpenSpelled` | packages/cs2-core/seal/core.js:316-349 | which bytes of the blob are unwrapped and decrypted under which data, and that a line is returned exactly when it has a payload's shape |
| `LineSeal.SealedLayout` | packages/cs2-core/seal/core.js:277-282 | both slots of a sealed blob are wraps, to their own recipients, of the one data key that encrypts its line |
| `LineSeal.SlotOpens` | packages/cs2-core/seal/core.js:316-349 | the holder of a slot's key opens the sealed line to the same line and data key commitment |
| `LineAnswers.PayloadRoundTrip` | packages/cs2-core/seal/core.js:222-349 | with working primitives, usable keys and accepted recipients, every payload of 801 bytes seals, and the holder of a slot's key opens the blob to that payload's line and no other |
| `LineSeal.BookKeyOpens` | packages/cs2-core/seal/core.js:357-367 | the book key opens at slot 0, through openLineAny too, whatever slot 1 does |
| `LineSeal.RecoveryKeyOpens` | packages/cs2-core/seal/core.js:357-367 | the recovery key opens slot 1, openLineAny opens with it, and answers from slot 1 exactly when slot 0 refuses that key |
| `LineSeal.RecoveryIsBook` | packages/cs2-core/seal/core.js:357-367 | a recovery key that is the book key is answered from slot 0 |
| `LineSeal.RecoveryAnswerChecked` | packages/cs2-core/seal/core.js:304-367 | what openLineAny answers to the recovery key is the sealed line with its commitment exactly when the leaf recomputed from it is the sealer's, or a computed collision |
| `SlotWitness.RecoveryReadsAnotherLine` | packages/cs2-core/seal/core.js:357-367 | under primitives that meet every assumption, openLineAny answers the recovery key from slot 0 with another well-shaped line, for every sealed line |
| `LineSeal.LeafAgrees` | packages/cs2-core/seal/core.js:145-180 | the leaf from the opened commitment, the leaf from the data key and the Merkle leaf hash are one value |
| `LineSeal.LeafBindsLine` | packages/cs2-core/seal/core.js:304-311 | two readings with one leaf, under any keys and slots, have one blob, one C, one commitment and one line, or a computed collision |
| `LineSeal.AuditedReading` | packages/cs2-core/seal/core.js:304-311 | a recomputed leaf accepted by an inclusion proof against mth(D) means D's entry is that of this very blob, C and commitment, or a computed collision |
| `LineSeal.SealsExactly` | packages/cs2-core/seal/core.js:222-294 | with primitives that do not fail, sealing succeeds exactly for a line with a payload, 32-byte recipients that are not all zero, usable keys and accepted Diffie-Hellman values |
| `LineSeal.WorkingCryptoExists` | packages/cs2-core/seal/hpke.js:65-79 | what is assumed of the primitives is consistent |
| `SpendBook.MatchKeyExact` | packages/cdp-spend-store/src/hold-client.js:29-36 | entries equal up to case share a key; entries that share a key are equal up to case exactly when their assets and networks hold equally many separators |
| `SpendBookSteps.MatchKeySpelled` | packages/cdp-spend-store/src/hold-client.js:29-36 | a match key is amount, asset, network and recipient in this order, the last three in lower case, with bars between |
| `SpendBook.MatchKeyCollides` | packages/cdp-spend-store/src/hold-client.js:29-36 | two different entries with a separator inside a field share a key, for any lower-casing that fixes the five strings in them |
| `SpendBook.Client.HoldStart` | packages/cdp-spend-store/src/hold-client.js:158-163 | an entry object gets one request id for good |
| `SpendBook.Client.PushQueue` | packages/cdp-spend-store/src/hold-client.js:110-117 | the hold is appended to the arrival list, unless its id is queued or bound; the queue map stays its index |
| `SpendBook.Client.DropQueue` | packages/cdp-spend-store/src/hold-client.js:119-127 | the loop over the queues removes the id from the arrival list and from the bound ids, leaves no empty queue, and keeps the payload map |
| `SpendBook.Client.ReleaseEntry` | packages/cdp-spend-store/src/hold-client.js:179-184 | an entry never held changes nothing; otherwise its id is dropped |
| `SpendBook.Client.NotePayload` | packages/cdp-spend-store/src/hold-client.js:175-197 | the payload is bound to the oldest waiting hold of its key, which leaves the list and becomes bound; nothing happens without an amount, a payload or a hold |
| `SpendBook.NoteBindsOldest` | packages/cdp-spend-store/src/hold-client.js:190-196 | the hold that is bound has the key, every earlier waiting hold has another, and the rest keeps its order |
| `SpendBook.RunKeepsOk` | packages/cdp-spend-store/src/hold-client.js:110-197 | in every interleaving no id waits twice and no id both waits and is bound |
| `SpendBook.HoldsUnderOwnKey` | packages/cdp-spend-store/src/hold-client.js:158-178 | with fresh ids, each waiting id belongs to exactly one entry and waits under that entry's key, in every interleaving |
| `SpendBook.BindingsBalance` | packages/cdp-spend-store/src/hold-client.js:119-197 | over every run an id has been bound as often as it was released while bound, and once more if it is bound now |
| `SpendBook.CleanStep` | packages/cdp-spend-store/src/hold-client.js:110-197 | from a book where no id has two payloads and none that waits is spent, the one step that spoils this is queueing a released, spent id again |
| `SpendBook.OnePayloadStep` | packages/cdp-spend-store/src/hold-client.js:175-197 | from a book where no id has two payloads, the one step that gives an id a second one is binding a payload while the oldest waiting id of the key has another payload |
| `SpendBook.OnePayloadRun` | packages/cdp-spend-store/src/hold-client.js:110-197 | no id has two payloads at any prefix of a run exactly when no step of the run binds such a spent id |
| `SpendBook.CleanRun` | packages/cdp-spend-store/src/hold-client.js:110-197 | the condition at hold time: at every prefix of a run no id has two payloads and no spent id waits, exactly when no step of the run queues a spent id again |
| `SpendBook.SpentHoldBindsTwice` | packages/cdp-spend-store/src/hold-client.js:186-196 | once a spent id waits again, some continuation of the run gives it a second payload |
| `SpendBook.CleanExactly` | packages/cdp-spend-store/src/hold-client.js:110-197 | the books that no further steps can spoil without queueing a spent id are exactly the clean ones |
| `SpendBook.RetryBindsTwice` | packages/cdp-spend-store/src/hold-client.js:119-197 | a released entry that is held again is bound to a second payload while the first payload still maps to the same id |
| `SpendBook.FirstComeFirstBound` | packages/cdp-spend-store/src/hold-client.js:190-196 | while a hold waits no later hold of its key is bound, and no step swaps two waiting holds |
| `SpendBookSteps.IdForGood` | packages/cdp-spend-store/src/hold-client.js:158-163 | an entry keeps its first request id over every run |
| `SpendBookSteps.AcceptedJoinsLast` | packages/cdp-spend-store/src/hold-client.js:110-117 | an accepted hold whose id neither waits nor is bound joins behind every waiting hold; any other acceptance changes nothing |
| `SpendBookSteps.ReleasesExactly` | packages/cdp-spend-store/src/hold-client.js:119-127 | a release takes its own id from the waiting and the bound ids and nothing else, the payload map included, and what stays keeps its order |
| `SpendBookSteps.NotesBindInOrder` | packages/cdp-spend-store/src/hold-client.js:186-197 | payloads of one key are bound to its waiting holds one by one, in the order in which the holds arrived |
| `SpendBookSteps.NoteWithoutHold` | packages/cdp-spend-store/src/hold-client.js:190-192 | a payload of a key nobody waits under changes nothing |

## Left out

- SHA-256, Keccak-256, X25519, HKDF and ChaCha20-Poly1305 are function values; their internals are not modelled.
- Associativity of point addition and the order of the group are the hypothesis `ValidCurve`; they are not proved for the two curves of `ecdsa/curves.js`.
- JSON text is the abstract codec of `IntentLog`; field order, number formats and string escapes are not modelled.
- Hex strings, regular expressions and JavaScript type checks: inputs are typed bytes and integers, so the `bad_type`, `bad_hex` and `bad_leaf` refusals have no counterpart, nor has the refusal of negative zero.
- Integers that JavaScript holds as numbers are unbounded here; tree sizes and sequence numbers carry the 2^53 - 1 limits explicitly, byte strings a length limit of 2^53 - 1.
- Timestamps, the transaction hash and the parity stored beside a signed row are not fields of the modelled rows.
- KMS calls, SPKI parsing, environment reading, timeouts, HTTP and the send function: their answers, a DER signature and a public key among them, are arbitrary inputs.
- fsync and directory sync: an append may report failure with its line in the file, but bytes once written are not lost.
- Several processes writing one log: a commit reads and appends in one step, as it does within one process.
- A process that dies inside an await leaves a step that never finishes; a restarted process continues from the file.
- `bumpAnchorFees` and `broadcastAnchor` are not methods: they run the modelled steps in a fixed order (`Broadcasts`, `Bumps`), and the run theorems cover every order.
- The decoded parity is an unbounded natural; JavaScript would round one above 2^53.
- Wiping of local copies in `seal/core.js` and in the key schedule: only `releaseContext` and its buffers are modelled.
- `deriveKeyPair` and the test vectors of RFC 9180 appendix A.2.
- The constant-time shape of `equalBytes` and `bytesEqual` is plain equality.
- `onPaymentResponse` and `load` of the spend client: they send requests and change none of the modelled maps.
- Lower-casing in `matchKey` is an arbitrary function on strings; entries and payloads are identities without contents.
- Request id hashing: a generated id is a parameter, and only `HoldsUnderOwnKey` asks that it be new.
- The WeakMaps of the spend client keep their keys for good here.
- Rlp.RlpBijection: stated for byte strings of at most 2^53 - 1 bytes, because no host array is longer.
- MerkleTheorems.InclusionComplete: stated for sizes up to 2^53 - 1, because the verifier refuses larger ones.
- UI, routes, network clients, circuit runtime, mock provers and the SP1 hooks: no logic of this depth.
