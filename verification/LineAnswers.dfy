/**
 * What sealing and opening a line (packages/cs2-core/seal/core.js) answer, with every
 * label, offset and length written out, and the reason each refusal gives.
 */
module LineAnswers {
  import opened Bytes
  import opened Hpke
  import opened MerkleTree
  import opened Text
  import opened LineSeal

  predicate AllZero(b: bytes) { forall i :: 0 <= i < |b| ==> b[i] == 0 }

  /** The commitment to a data key, which is also the line's associated data. */
  function DataKeyHash(sha: Sha, dk: bytes): Digest { sha(Ascii("dk") + dk) }

  lemma {:induction false} CommitmentsSpelled(sha: Sha, dk: bytes, blob: bytes)
    ensures DkCommitment(sha, dk) == if |dk| == 32 then Ok(DataKeyHash(sha, dk)) else Err(BadKey)
    ensures SealedCommitment(sha, blob) == if |blob| == 1200 then Ok(sha(blob)) else Err(BadLength)
  {
  }

  /** The leaf from a commitment, and from the data key itself. */
  lemma {:induction false} LeafSpelled(sha: Sha, c: bytes, blob: bytes, dkHash: bytes, dk: bytes)
    ensures LineLeafFromCommitment(sha, c, blob, dkHash)
         == if |c| != 32 || |dkHash| != 32 then Err(BadKey)
            else if |blob| != 1200 then Err(BadLength)
            else Ok(sha([0] + Ascii("line") + c + dkHash + sha(blob)))
    ensures LineLeaf(sha, c, blob, dk)
         == if |dk| != 32 then Err(BadKey) else LineLeafFromCommitment(sha, c, blob, DataKeyHash(sha, dk))
  {
    hide Ascii;
  }

  /** The recipient of slot 1: the recovery key, or a hash with its top bit cleared. */
  lemma {:induction false} RecoverySpelled(sha: Sha, recoveryPk: Option<bytes>)
    ensures recoveryPk.Some? ==> RecoveryOf(sha, recoveryPk) == recoveryPk.value
    ensures recoveryPk.None? ==>
              var (pk, h) := (RecoveryOf(sha, recoveryPk), sha(Ascii("chit402-dummy-x25519-v1")));
              |pk| == 32 && pk[..31] == h[..31] && pk[31] == h[31] % 128
  {
    hide Ascii;
  }

  /** The keys a seal works with: those given, else those drawn. */
  lemma {:induction false} ChosenSpelled(seed: Seed, draws: Draws, dk: Key, esk0: Key, esk1: Key)
    ensures ChosenKeys(seed, draws) == Ok((dk, esk0, esk1))
       <==> && !AllZero(dk)
            && (if seed.dk.Some? then seed.dk == Some(dk) else draws.dk == Some(dk))
            && (if seed.esk.Some? then seed.esk == Some((esk0, esk1))
                else draws.esk0 == Some(esk0) && draws.esk1 == Some(esk1))
    ensures ChosenKeys(seed, draws) == Err(BadRandom)
       <==> || (seed.dk.None? && draws.dk.None?)
            || (seed.esk.None? && (draws.esk0.None? || draws.esk1.None?)
                && (seed.dk.Some? ==> |seed.dk.value| == 32 && !AllZero(seed.dk.value))
                && (seed.dk.None? && draws.dk.Some? ==> !AllZero(draws.dk.value)))
    ensures ChosenKeys(seed, draws).Err? ==>
              ChosenKeys(seed, draws).error == BadRandom || ChosenKeys(seed, draws).error == BadKey
  {
  }

  /** What is refused before anything is encrypted, in the order of the checks. */
  lemma {:induction false} SealRefusals(
    c: Crypto, sha: Sha, line: bytes, bookPk: bytes, recoveryPk: Option<bytes>, seed: Seed, draws: Draws)
    ensures LineShape(line).Err? ==>
              SealOf(c, sha, line, bookPk, recoveryPk, seed, draws) == Err(LineShape(line).error)
    ensures var recovery := RecoveryOf(sha, recoveryPk);
            var badKey := |bookPk| != 32 || AllZero(bookPk) || |recovery| != 32 || AllZero(recovery);
            && (ShapedLine(line) && badKey ==> SealOf(c, sha, line, bookPk, recoveryPk, seed, draws) == Err(BadKey))
            && (ShapedLine(line) && !badKey && ChosenKeys(seed, draws).Err? ==>
                  SealOf(c, sha, line, bookPk, recoveryPk, seed, draws) == Err(ChosenKeys(seed, draws).error))
  {
    hide SlotBytes, ChosenKeys, DkHash, LineShape, RecoveryOf, ShapedLine, ZeroNonce;
    ShapedExactly(line, []);
  }

  /** A slot's wrap, when it has the widths of a slot. */
  function Wrap(c: Crypto, slot: byte, pk: bytes, dk: bytes, esk: bytes): Result<bytes, Reason> {
    match SealBase(c, pk, Ascii("chit402-seal-v1"), [slot], dk, esk)
    case Err(e) => Err(e)
    case Ok((enc, ct)) => if |enc| == 32 && |ct| == 48 then Ok(enc + ct) else Err(OpenFailed)
  }

  /** What is sealed: the line under the data key and twelve zero bytes, then the two wraps of that key. */
  lemma {:induction false} SealSpelled(
    c: Crypto, sha: Sha, line: bytes, bookPk: bytes, recoveryPk: Option<bytes>, seed: Seed, draws: Draws)
    requires ShapedLine(line) && |bookPk| == 32 && !AllZero(bookPk) && ChosenKeys(seed, draws).Ok?
    requires |RecoveryOf(sha, recoveryPk)| == 32 && !AllZero(RecoveryOf(sha, recoveryPk))
    ensures var (dk, esk0, esk1) := ChosenKeys(seed, draws).value;
            SealOf(c, sha, line, bookPk, recoveryPk, seed, draws)
            == match c.seal(dk, Zeros(12), DataKeyHash(sha, dk), line)
               case None => Err(OpenFailed)
               case Some(lineCt) =>
                 if |lineCt| != 1040 then Err(OpenFailed)
                 else match Wrap(c, 0, bookPk, dk, esk0)
                   case Err(e) => Err(e)
                   case Ok(slot0) =>
                     match Wrap(c, 1, RecoveryOf(sha, recoveryPk), dk, esk1)
                     case Err(e) => Err(e)
                     case Ok(slot1) =>
                       Ok(Sealed(lineCt + slot0 + slot1, DataKeyHash(sha, dk), sha(lineCt + slot0 + slot1)))
  {
    hide ChosenKeys, LineShape, RecoveryOf, ShapedLine, SealBase, Ascii;
    ShapedExactly(line, []);
  }

  /** The encapsulated key and the wrapped data key that stand in a slot. */
  function SlotParts(blob: bytes, slot: nat): (bytes, bytes)
    requires |blob| == 1200 && slot < 2
  {
    (blob[1040 + 80 * slot..1072 + 80 * slot], blob[1072 + 80 * slot..1120 + 80 * slot])
  }

  /** What openLine refuses before it tries the slot. */
  lemma {:induction false} OpenRefusals(c: Crypto, sha: Sha, blob: bytes, sk: bytes, slot: int, drawn: Option<Key>)
    ensures OpenLine(c, sha, blob, sk, slot, drawn) == Err(BadLength) <==> |blob| != 1200
    ensures OpenLine(c, sha, blob, sk, slot, drawn) == Err(BadType) <==> |blob| == 1200 && slot != 0 && slot != 1
    ensures OpenLine(c, sha, blob, sk, slot, drawn) == Err(BadKey)
       <==> |blob| == 1200 && (slot == 0 || slot == 1) && |sk| != 32
  {
    hide UnwrappedDk, LineShape, DkHash;
  }

  /** What openLine returns of a blob, a slot and a key of their widths. */
  lemma {:induction false} OpenSpelled(c: Crypto, sha: Sha, blob: bytes, sk: bytes, slot: nat, drawn: Option<Key>)
    requires |blob| == 1200 && slot < 2 && |sk| == 32
    ensures var (enc, ct) := SlotParts(blob, slot);
            var unwrapped := OpenBase(c, enc, sk, Ascii("chit402-seal-v1"), [slot], ct);
            if unwrapped.Err? || |unwrapped.value| != 32 then
              OpenLine(c, sha, blob, sk, slot, drawn) == Err(if drawn.None? then BadRandom else OpenFailed)
            else
              var dk := unwrapped.value;
              var pt := c.open(dk, Zeros(12), DataKeyHash(sha, dk), blob[..1040]);
              if pt.None? || !ShapedLine(pt.value) then OpenLine(c, sha, blob, sk, slot, drawn) == Err(OpenFailed)
              else OpenLine(c, sha, blob, sk, slot, drawn) == Ok(Opened(pt.value, DataKeyHash(sha, dk)))
  {
    hide OpenBase, LineShape, ShapedLine, Ascii;
    forall line: bytes ensures LineShape(line).Ok? <==> ShapedLine(line) {
      ShapedExactly(line, []);
    }
  }

  /** openLineAny: slot 0 first, then slot 1, then one failure for both. */
  lemma {:induction false} OpenAnySpelled(
    c: Crypto, sha: Sha, blob: bytes, sk: bytes, drawn0: Option<Key>, drawn1: Option<Key>)
    ensures OpenLineAny(c, sha, blob, sk, drawn0, drawn1)
         == match (OpenLine(c, sha, blob, sk, 0, drawn0), OpenLine(c, sha, blob, sk, 1, drawn1))
            case (Ok(seen), _) => Ok(OpenedAny(seen.line, 0, seen.dkCommitment))
            case (Err(_), Ok(seen)) => Ok(OpenedAny(seen.line, 1, seen.dkCommitment))
            case (Err(_), Err(_)) => Err(OpenFailed)
  {
    hide OpenLine;
  }

  /**
   * Round trip over payloads: with working primitives, keys that are given or drawn and
   * recipients that Diffie-Hellman accepts, every payload of 801 bytes seals, and whoever holds
   * a recipient's key opens its slot to that payload's line and no other.
   */
  lemma {:induction false} PayloadRoundTrip(
    c: Crypto, sha: Sha, payload: bytes, bookPk: bytes, recoveryPk: Option<bytes>, seed: Seed, draws: Draws,
    slot: nat, sk: bytes, drawn: Option<Key>, other: bytes)
    requires WorkingCrypto(c) && |payload| == 801 && |other| == 801
    requires |bookPk| == 32 && !AllZero(bookPk) && ChosenKeys(seed, draws).Ok?
    requires |RecoveryOf(sha, recoveryPk)| == 32 && !AllZero(RecoveryOf(sha, recoveryPk))
    requires Dh(c, ChosenKeys(seed, draws).value.1, bookPk).Some?
    requires Dh(c, ChosenKeys(seed, draws).value.2, RecoveryOf(sha, recoveryPk)).Some?
    requires slot < 2 && |sk| == 32 && c.publicKey(sk) == RecipientOf(sha, bookPk, recoveryPk, slot)
    ensures SealOf(c, sha, LineOf(payload), bookPk, recoveryPk, seed, draws).Ok?
    ensures var sealed := SealOf(c, sha, LineOf(payload), bookPk, recoveryPk, seed, draws).value;
            && OpenLine(c, sha, sealed.blob, sk, slot, drawn) == Ok(Opened(LineOf(payload), sealed.dkCommitment))
            && sealed.dkCommitment == DataKeyHash(sha, ChosenKeys(seed, draws).value.0)
            && (OpenLine(c, sha, sealed.blob, sk, slot, drawn) == Ok(Opened(LineOf(other), sealed.dkCommitment))
                ==> other == payload)
  {
    hide SealOf, OpenLine, ChosenKeys, Dh, RecoveryOf, LineShape, LineOf, AeadWorks, ExpandWorks, GoodCrypto, DkHash;
    assert ShapedLine(LineOf(payload));
    SealsExactly(c, sha, LineOf(payload), bookPk, recoveryPk, seed, draws);
    SealSpelled(c, sha, LineOf(payload), bookPk, recoveryPk, seed, draws);
    SlotOpens(c, sha, LineOf(payload), bookPk, recoveryPk, seed, draws, slot, sk, drawn);
    PayloadShaped(payload);
    PayloadShaped(other);
  }
}
