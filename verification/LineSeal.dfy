/**
 * Line sealing (packages/cs2-core/seal/core.js): one data key encrypts a fixed-size
 * line and is wrapped to two recipients, and a Merkle leaf commits to the result.
 */
module LineSeal {
  import opened Bytes
  import opened Hpke
  import opened MerkleTree
  import opened Text
  import MerkleTheorems
  import MerkleVerify

  const LINE_BYTES: nat := 1024
  const HEADER_BYTE_0: byte := 0x63
  const HEADER_BYTE_1: byte := 0x32
  const USED_BYTES: nat := 803
  const TAG_BYTES: nat := 16
  const DK_BYTES: nat := 32
  const ENC_BYTES: nat := 32
  const LINE_CT_BYTES: nat := LINE_BYTES + TAG_BYTES
  const SLOT_BYTES: nat := ENC_BYTES + DK_BYTES + TAG_BYTES
  const SEALED_BYTES: nat := LINE_CT_BYTES + 2 * SLOT_BYTES

  type Key = b: bytes | |b| == 32 witness Zeros(32)

  function Info(): bytes { Ascii("chit402-seal-v1") }

  function ZeroNonce(): bytes { Zeros(12) }

  predicate IsZero(b: bytes) { forall i :: 0 <= i < |b| ==> b[i] == 0 }

  /** The recipient that stands in for a missing recovery key. */
  function DummyRecipient(sha: Sha): Key {
    var pk := sha(Ascii("chit402-dummy-x25519-v1"));
    pk[31 := pk[31] % 128]
  }

  // ---- lines and commitments -----------------------------------------------

  function LineShape(line: bytes): Result<(), Reason> {
    if |line| != LINE_BYTES then Err(BadLength)
    else if line[0] != HEADER_BYTE_0 || line[1] != HEADER_BYTE_1 then Err(BadHeader)
    else if !IsZero(line[USED_BYTES..]) then Err(BadPadding)
    else Ok(())
  }

  method CheckLineShape(line: bytes) returns (r: Result<(), Reason>)
    ensures r == LineShape(line)
  {
    if |line| != LINE_BYTES {
      return Err(BadLength);
    }
    if line[0] != HEADER_BYTE_0 || line[1] != HEADER_BYTE_1 {
      return Err(BadHeader);
    }
    for i := USED_BYTES to LINE_BYTES
      invariant forall k :: USED_BYTES <= k < i ==> line[k] == 0
    {
      if line[i] != 0 {
        assert line[USED_BYTES..][i - USED_BYTES] != 0;
        return Err(BadPadding);
      }
    }
    return Ok(());
  }

  /** A line: the header, a payload of 801 bytes, and zeros to the end. */
  function LineOf(payload: bytes): bytes { [0x63, 0x32] + payload + Zeros(221) }

  ghost predicate ShapedLine(line: bytes) { exists payload :: |payload| == 801 && line == LineOf(payload) }

  /** The lines accepted are those, each for one payload; and the reason every other line gets. */
  lemma {:induction false} ShapedExactly(line: bytes, payload: bytes)
    ensures LineShape(line).Ok? <==> ShapedLine(line)
    ensures |payload| == 801 ==>
              (line == LineOf(payload) <==> LineShape(line).Ok? && payload == line[2..803])
    ensures LineShape(line) == Err(BadLength) <==> |line| != 1024
    ensures LineShape(line) == Err(BadHeader) <==> |line| == 1024 && !(line[0] == 0x63 && line[1] == 0x32)
    ensures LineShape(line) == Err(BadPadding)
       <==> |line| == 1024 && line[0] == 0x63 && line[1] == 0x32 && exists i :: 803 <= i < 1024 && line[i] != 0
  {
    if |payload| == 801 {
      PayloadShaped(payload);
    }
    if |line| == 1024 {
      PaddingIsZero(line);
      if LineShape(line).Ok? {
        ShapedHasPayload(line);
      }
    }
    if held :| |held| == 801 && line == LineOf(held) {
      PayloadShaped(held);
    }
  }

  lemma {:induction false} PayloadShaped(payload: bytes)
    requires |payload| == 801
    ensures LineShape(LineOf(payload)).Ok? && |LineOf(payload)| == 1024 && LineOf(payload)[2..803] == payload
  {
    assert LineOf(payload)[USED_BYTES..] == Zeros(221);
  }

  lemma {:induction false} PaddingIsZero(line: bytes)
    requires |line| == 1024
    ensures IsZero(line[USED_BYTES..]) <==> forall i :: 803 <= i < 1024 ==> line[i] == 0
  {
    assert forall i :: 803 <= i < 1024 ==> line[i] == line[USED_BYTES..][i - 803];
    assert forall i :: 0 <= i < 221 ==> line[USED_BYTES..][i] == line[i + 803];
  }

  lemma {:induction false} ShapedHasPayload(line: bytes)
    requires LineShape(line).Ok?
    ensures |line| == 1024 && line == LineOf(line[2..803])
  {
    PaddingIsZero(line);
    assert line[803..] == Zeros(221);
    assert line == [line[0], line[1]] + line[2..803] + line[803..];
  }

  function DkInput(dk: bytes): bytes { Ascii("dk") + dk }

  /** H("dk" ‖ dk), also the line's associated data. */
  function DkHash(sha: Sha, dk: bytes): Digest { sha(DkInput(dk)) }

  function DkCommitment(sha: Sha, dk: bytes): Result<Digest, Reason> {
    if |dk| != 32 then Err(BadKey) else Ok(DkHash(sha, dk))
  }

  function SealedCommitment(sha: Sha, blob: bytes): Result<Digest, Reason> {
    if |blob| != SEALED_BYTES then Err(BadLength) else Ok(sha(blob))
  }

  /** The Merkle entry of a sealed line. */
  function LeafEntry(sha: Sha, c: bytes, blob: bytes, dkHash: bytes): bytes {
    Ascii("line") + c + dkHash + sha(blob)
  }

  function LineLeafFromCommitment(sha: Sha, c: bytes, blob: bytes, dkHash: bytes): Result<Digest, Reason> {
    if |c| != 32 || |dkHash| != 32 then Err(BadKey)
    else match SealedCommitment(sha, blob)
      case Err(e) => Err(e)
      case Ok(ctHash) => Ok(sha([0x00] + Ascii("line") + c + dkHash + ctHash))
  }

  function LineLeaf(sha: Sha, c: bytes, blob: bytes, dk: bytes): Result<Digest, Reason> {
    match DkCommitment(sha, dk)
    case Err(e) => Err(e)
    case Ok(dkHash) => LineLeafFromCommitment(sha, c, blob, dkHash)
  }

  /** A leaf that is computed at all is the Merkle leaf hash of the entry. */
  lemma {:induction false} LeafIsMerkleLeaf(sha: Sha, c: bytes, blob: bytes, dkHash: bytes)
    ensures LineLeafFromCommitment(sha, c, blob, dkHash).Ok? <==> |c| == 32 && |dkHash| == 32 && |blob| == SEALED_BYTES
    ensures LineLeafFromCommitment(sha, c, blob, dkHash).Ok? ==>
              LineLeafFromCommitment(sha, c, blob, dkHash).value == HashLeaf(sha, LeafEntry(sha, c, blob, dkHash))
  {
    hide Ascii;
    assert [0x00] + Ascii("line") + c + dkHash + sha(blob) == [0] + LeafEntry(sha, c, blob, dkHash);
  }

  // ---- sealing -------------------------------------------------------------

  datatype Sealed = Sealed(blob: bytes, dkCommitment: Digest, sealedCommitment: Digest)

  /** Keys given by the caller; what is missing is drawn. */
  datatype Seed = Seed(dk: Option<bytes>, esk: Option<(bytes, bytes)>)

  /** What the random source yields: the data key and two ephemeral keys, or nothing. */
  datatype Draws = Draws(dk: Option<Key>, esk0: Option<Key>, esk1: Option<Key>)

  /** One 80-byte slot: the encapsulated key and the wrapped data key. */
  function SlotBytes(c: Crypto, slot: nat, pk: bytes, dk: bytes, esk: bytes): (r: Result<bytes, Reason>)
    requires slot < 2
    ensures r.Ok? ==> |r.value| == SLOT_BYTES
  {
    match SealBase(c, pk, Info(), [slot], dk, esk)
    case Err(e) => Err(e)
    case Ok((enc, ct)) =>
      if |enc| != ENC_BYTES || |ct| != DK_BYTES + TAG_BYTES then Err(OpenFailed) else Ok(enc + ct)
  }

  function RecoveryOf(sha: Sha, recoveryPk: Option<bytes>): bytes {
    if recoveryPk.None? then DummyRecipient(sha) else recoveryPk.value
  }

  /** The data key and the two ephemeral keys a seal works with. */
  function ChosenKeys(seed: Seed, draws: Draws): Result<(Key, Key, Key), Reason> {
    if seed.dk.None? && draws.dk.None? then Err(BadRandom)
    else if seed.dk.Some? && |seed.dk.value| != 32 then Err(BadKey)
    else
      var dk: Key := if seed.dk.None? then draws.dk.value else seed.dk.value;
      if IsZero(dk) then Err(BadKey)
      else match seed.esk
        case None =>
          if draws.esk0.None? || draws.esk1.None? then Err(BadRandom)
          else Ok((dk, draws.esk0.value, draws.esk1.value))
        case Some((a, b)) =>
          if |a| != 32 || |b| != 32 then Err(BadKey) else Ok((dk, a, b))
  }

  /** What sealFromSeed returns. */
  function SealOf(
    c: Crypto, sha: Sha, line: bytes, bookPk: bytes, recoveryPk: Option<bytes>, seed: Seed, draws: Draws)
    : Result<Sealed, Reason>
  {
    if LineShape(line).Err? then Err(LineShape(line).error)
    else if |bookPk| != 32 || IsZero(bookPk) then Err(BadKey)
    else if |RecoveryOf(sha, recoveryPk)| != 32 || IsZero(RecoveryOf(sha, recoveryPk)) then Err(BadKey)
    else match ChosenKeys(seed, draws)
      case Err(e) => Err(e)
      case Ok((dk, esk0, esk1)) =>
        var lineCt := c.seal(dk, ZeroNonce(), DkHash(sha, dk), line);
        if lineCt.None? || |lineCt.value| != LINE_CT_BYTES then Err(OpenFailed)
        else match SlotBytes(c, 0, bookPk, dk, esk0)
          case Err(e) => Err(e)
          case Ok(slot0) =>
            match SlotBytes(c, 1, RecoveryOf(sha, recoveryPk), dk, esk1)
            case Err(e) => Err(e)
            case Ok(slot1) =>
              var blob := lineCt.value + slot0 + slot1;
              Ok(Sealed(blob, DkHash(sha, dk), sha(blob)))
  }

  /** target.set(part, at). */
  method SetAt(target: array<byte>, part: bytes, at: nat)
    requires at + |part| <= target.Length
    modifies target
    ensures target[..] == Pasted(old(target[..]), part, at)
  {
    forall i | 0 <= i < |part| {
      target[at + i] := part[i];
    }
  }

  /** target with a part written over it. */
  function Pasted(target: bytes, part: bytes, at: nat): (r: bytes)
    requires at + |part| <= |target|
    ensures |r| == |target|
  {
    target[..at] + part + target[at + |part|..]
  }

  lemma {:induction false} SetTwice(before: bytes, first: bytes, second: bytes, at: nat)
    requires at + |first| + |second| <= |before|
    ensures Pasted(Pasted(before, first, at), second, at + |first|) == Pasted(before, first + second, at)
  {
  }

  method WriteSlot(c: Crypto, target: array<byte>, slot: nat, pk: bytes, dk: bytes, esk: bytes)
    returns (r: Result<(), Reason>)
    requires target.Length == SEALED_BYTES && slot < 2
    modifies target
    ensures match SlotBytes(c, slot, pk, dk, esk)
            case Err(e) => r == Err(e) && target[..] == old(target[..])
            case Ok(bytes) =>
              var at := LINE_CT_BYTES + slot * SLOT_BYTES;
              r == Ok(()) && target[..] == Pasted(old(target[..]), bytes, at)
  {
    hide SealBase;
    ghost var before := target[..];
    var wrapped := SealBase(c, pk, Info(), [slot], dk, esk);
    if wrapped.Err? {
      return Err(wrapped.error);
    }
    var (enc, ct) := wrapped.value;
    if |enc| != ENC_BYTES || |ct| != DK_BYTES + TAG_BYTES {
      return Err(OpenFailed);
    }
    var at := LINE_CT_BYTES + slot * SLOT_BYTES;
    SetAt(target, enc, at);
    SetAt(target, ct, at + ENC_BYTES);
    SetTwice(before, enc, ct, at);
    return Ok(());
  }

  /** The three parts fill the buffer. */
  lemma {:induction false} PastedWhole(zeros: bytes, lineCt: bytes, s0: bytes, s1: bytes)
    requires |zeros| == SEALED_BYTES && |lineCt| == LINE_CT_BYTES && |s0| == |s1| == SLOT_BYTES
    ensures var one := Pasted(zeros, lineCt, 0);
            && |one| == SEALED_BYTES
            && var two := Pasted(one, s0, LINE_CT_BYTES);
               && |two| == SEALED_BYTES
               && Pasted(two, s1, LINE_CT_BYTES + SLOT_BYTES) == lineCt + s0 + s1
  {
    var one := Pasted(zeros, lineCt, 0);
    assert one[..LINE_CT_BYTES] == lineCt;
    var two := Pasted(one, s0, LINE_CT_BYTES);
    assert two[..LINE_CT_BYTES + SLOT_BYTES] == lineCt + s0;
  }

  /** sealFromSeed. */
  method SealFromSeed(
    c: Crypto, sha: Sha, line: bytes, bookPk: bytes, recoveryPk: Option<bytes>, seed: Seed, draws: Draws)
    returns (r: Result<Sealed, Reason>)
    ensures r == SealOf(c, sha, line, bookPk, recoveryPk, seed, draws)
  {
    hide SlotBytes, LineShape, Ascii, IsZero, RecoveryOf, DkHash, ChosenKeys, Pasted;
    var shape := CheckLineShape(line);
    if shape.Err? {
      return Err(shape.error);
    }
    if |bookPk| != 32 || IsZero(bookPk) {
      return Err(BadKey);
    }
    var recovery := RecoveryOf(sha, recoveryPk);
    if |recovery| != 32 || IsZero(recovery) {
      return Err(BadKey);
    }
    var keys := ChosenKeys(seed, draws);
    if keys.Err? {
      return Err(keys.error);
    }
    var (dk, esk0, esk1) := keys.value;
    var lineCt := c.seal(dk, ZeroNonce(), DkHash(sha, dk), line);
    if lineCt.None? || |lineCt.value| != LINE_CT_BYTES {
      return Err(OpenFailed);
    }
    var sealed := new byte[SEALED_BYTES](_ => 0);
    ghost var zeros := sealed[..];
    SetAt(sealed, lineCt.value, 0);
    var slot0 := WriteSlot(c, sealed, 0, bookPk, dk, esk0);
    if slot0.Err? {
      return Err(slot0.error);
    }
    ghost var s0 := SlotBytes(c, 0, bookPk, dk, esk0).value;
    var slot1 := WriteSlot(c, sealed, 1, recovery, dk, esk1);
    if slot1.Err? {
      return Err(slot1.error);
    }
    PastedWhole(zeros, lineCt.value, s0, SlotBytes(c, 1, recovery, dk, esk1).value);
    return Ok(Sealed(sealed[..], DkHash(sha, dk), sha(sealed[..])));
  }

  // ---- opening -------------------------------------------------------------

  datatype Opened = Opened(line: bytes, dkCommitment: Digest)

  datatype OpenedAny = OpenedAny(line: bytes, slot: nat, dkCommitment: Digest)

  function SlotEnc(blob: bytes, slot: nat): bytes
    requires |blob| == SEALED_BYTES && slot < 2
  {
    var at := LINE_CT_BYTES + slot * SLOT_BYTES;
    blob[at..at + ENC_BYTES]
  }

  function SlotCt(blob: bytes, slot: nat): bytes
    requires |blob| == SEALED_BYTES && slot < 2
  {
    var at := LINE_CT_BYTES + slot * SLOT_BYTES;
    blob[at + ENC_BYTES..at + SLOT_BYTES]
  }

  /** The data key that a secret key unwraps from a slot. */
  function UnwrappedDk(c: Crypto, blob: bytes, sk: bytes, slot: nat): Option<Key>
    requires |blob| == SEALED_BYTES && slot < 2
  {
    match OpenBase(c, SlotEnc(blob, slot), sk, Info(), [slot], SlotCt(blob, slot))
    case Err(_) => None
    case Ok(dk) => if |dk| == DK_BYTES then Some(dk) else None
  }

  /** openLine. When no data key is recovered, a drawn one stands in for it and the result is a failure. */
  function OpenLine(c: Crypto, sha: Sha, blob: bytes, sk: bytes, slot: int, drawn: Option<Key>)
    : (r: Result<Opened, Reason>)
    ensures r.Ok? ==> LineShape(r.value.line).Ok?
  {
    if |blob| != SEALED_BYTES then Err(BadLength)
    else if slot != 0 && slot != 1 then Err(BadType)
    else if |sk| != 32 then Err(BadKey)
    else
      var recovered := UnwrappedDk(c, blob, sk, slot);
      if recovered.None? && drawn.None? then Err(BadRandom)
      else
        var dk := if recovered.Some? then recovered.value else drawn.value;
        var pt := c.open(dk, ZeroNonce(), DkHash(sha, dk), blob[..LINE_CT_BYTES]);
        if recovered.None? || pt.None? || LineShape(pt.value).Err? then Err(OpenFailed)
        else Ok(Opened(pt.value, DkHash(sha, dk)))
  }

  function OpenLineAny(c: Crypto, sha: Sha, blob: bytes, sk: bytes, drawn0: Option<Key>, drawn1: Option<Key>)
    : Result<OpenedAny, Reason>
  {
    var first := OpenLine(c, sha, blob, sk, 0, drawn0);
    var second := OpenLine(c, sha, blob, sk, 1, drawn1);
    if first.Ok? then Ok(OpenedAny(first.value.line, 0, first.value.dkCommitment))
    else if second.Ok? then Ok(OpenedAny(second.value.line, 1, second.value.dkCommitment))
    else Err(OpenFailed)
  }

  // ---- round trip ----------------------------------------------------------

  /** The recipient of a slot. */
  function RecipientOf(sha: Sha, bookPk: bytes, recoveryPk: Option<bytes>, slot: nat): bytes {
    if slot == 0 then bookPk else RecoveryOf(sha, recoveryPk)
  }

  /** A sealed line is 1,200 bytes: the line ciphertext and the two slots, wrapped to their recipients. */
  lemma {:induction false} SealedLayout(
    c: Crypto, sha: Sha, line: bytes, bookPk: bytes, recoveryPk: Option<bytes>, seed: Seed, draws: Draws, slot: nat)
    returns (dk: Key, esk: bytes)
    requires SealOf(c, sha, line, bookPk, recoveryPk, seed, draws).Ok? && slot < 2
    ensures var blob := SealOf(c, sha, line, bookPk, recoveryPk, seed, draws).value.blob;
            && |blob| == SEALED_BYTES
            && c.seal(dk, ZeroNonce(), DkHash(sha, dk), line) == Some(blob[..LINE_CT_BYTES])
            && SealBase(c, RecipientOf(sha, bookPk, recoveryPk, slot), Info(), [slot], dk, esk)
               == Ok((SlotEnc(blob, slot), SlotCt(blob, slot)))
    ensures SealOf(c, sha, line, bookPk, recoveryPk, seed, draws).value.dkCommitment == DkHash(sha, dk)
  {
    hide SealBase, Ascii, LineShape, IsZero;
    var (k, esk0, esk1) := ChosenKeys(seed, draws).value;
    dk, esk := k, if slot == 0 then esk0 else esk1;
    var lineCt := c.seal(dk, ZeroNonce(), DkHash(sha, dk), line).value;
    var s0, s1 := SlotBytes(c, 0, bookPk, dk, esk0).value,
                  SlotBytes(c, 1, RecoveryOf(sha, recoveryPk), dk, esk1).value;
    var blob := lineCt + s0 + s1;
    assert blob[..LINE_CT_BYTES] == lineCt;
    var (enc, ct) := SealBase(c, RecipientOf(sha, bookPk, recoveryPk, slot), Info(), [slot], dk, esk).value;
    assert (if slot == 0 then s0 else s1) == enc + ct;
    assert SlotEnc(blob, slot) == enc;
    assert SlotCt(blob, slot) == ct;
  }

  /** Whoever holds a slot's secret key opens the sealed line to the same line and commitment. */
  lemma {:induction false} SlotOpens(
    c: Crypto, sha: Sha, line: bytes, bookPk: bytes, recoveryPk: Option<bytes>, seed: Seed, draws: Draws,
    slot: nat, sk: bytes, drawn: Option<Key>)
    requires GoodCrypto(c) && slot < 2
    requires SealOf(c, sha, line, bookPk, recoveryPk, seed, draws).Ok?
    requires |sk| == 32 && c.publicKey(sk) == RecipientOf(sha, bookPk, recoveryPk, slot)
    ensures var sealed := SealOf(c, sha, line, bookPk, recoveryPk, seed, draws).value;
            OpenLine(c, sha, sealed.blob, sk, slot, drawn) == Ok(Opened(line, sealed.dkCommitment))
  {
    hide GoodCrypto, SealOf, SealBase, OpenBase, Ascii, LineShape, SlotEnc, SlotCt, UnwrappedDk, ZeroNonce;
    var blob := SealOf(c, sha, line, bookPk, recoveryPk, seed, draws).value.blob;
    SealedShape(c, sha, line, bookPk, recoveryPk, seed, draws);
    var dk, esk := SealedLayout(c, sha, line, bookPk, recoveryPk, seed, draws, slot);
    SlotUnwraps(c, blob, sk, slot, dk, esk);
    LineOpens(c, sha, dk, line);
  }

  lemma {:induction false} SealedShape(
    c: Crypto, sha: Sha, line: bytes, bookPk: bytes, recoveryPk: Option<bytes>, seed: Seed, draws: Draws)
    requires SealOf(c, sha, line, bookPk, recoveryPk, seed, draws).Ok?
    ensures LineShape(line).Ok?
  {
    hide LineShape, ChosenKeys, SlotBytes, IsZero, RecoveryOf;
  }

  /** The key's holder unwraps what was wrapped to it. */
  lemma {:induction false} SlotUnwraps(c: Crypto, blob: bytes, sk: bytes, slot: nat, dk: Key, esk: bytes)
    requires GoodCrypto(c) && slot < 2 && |sk| == 32 && |blob| == SEALED_BYTES
    requires SealBase(c, c.publicKey(sk), Info(), [slot], dk, esk) == Ok((SlotEnc(blob, slot), SlotCt(blob, slot)))
    ensures UnwrappedDk(c, blob, sk, slot) == Some(dk)
  {
    hide GoodCrypto, SealBase, OpenBase, Ascii, SlotEnc, SlotCt;
    BaseRoundTrip(c, sk, Info(), [slot], dk, esk);
  }

  lemma {:induction false} LineOpens(c: Crypto, sha: Sha, dk: Key, line: bytes)
    requires GoodCrypto(c) && c.seal(dk, ZeroNonce(), DkHash(sha, dk), line).Some?
    ensures c.open(dk, ZeroNonce(), DkHash(sha, dk), c.seal(dk, ZeroNonce(), DkHash(sha, dk), line).value) == Some(line)
  {
    hide Commutes, Expands;
    assert Opens(c, dk, ZeroNonce(), DkHash(sha, dk), line);
  }

  /** The book key opens through either entry point, always at slot 0. */
  lemma {:induction false} BookKeyOpens(
    c: Crypto, sha: Sha, line: bytes, bookPk: bytes, recoveryPk: Option<bytes>, seed: Seed, draws: Draws,
    sk: bytes, drawn0: Option<Key>, drawn1: Option<Key>)
    requires GoodCrypto(c) && |sk| == 32 && bookPk == c.publicKey(sk)
    requires SealOf(c, sha, line, bookPk, recoveryPk, seed, draws).Ok?
    ensures var sealed := SealOf(c, sha, line, bookPk, recoveryPk, seed, draws).value;
            && OpenLine(c, sha, sealed.blob, sk, 0, drawn0) == Ok(Opened(line, sealed.dkCommitment))
            && OpenLineAny(c, sha, sealed.blob, sk, drawn0, drawn1) == Ok(OpenedAny(line, 0, sealed.dkCommitment))
  {
    hide GoodCrypto, SealOf, OpenLine;
    SlotOpens(c, sha, line, bookPk, recoveryPk, seed, draws, 0, sk, drawn0);
  }

  /**
   * The recovery key opens slot 1. openLineAny opens with it too, and answers from
   * slot 1 exactly when slot 0 refuses that key.
   */
  lemma {:induction false} RecoveryKeyOpens(
    c: Crypto, sha: Sha, line: bytes, bookPk: bytes, recoveryPk: Option<bytes>, seed: Seed, draws: Draws,
    sk: bytes, drawn0: Option<Key>, drawn1: Option<Key>)
    requires GoodCrypto(c) && |sk| == 32 && recoveryPk == Some(c.publicKey(sk))
    requires SealOf(c, sha, line, bookPk, recoveryPk, seed, draws).Ok?
    ensures var sealed := SealOf(c, sha, line, bookPk, recoveryPk, seed, draws).value;
            var any := OpenLineAny(c, sha, sealed.blob, sk, drawn0, drawn1);
            && OpenLine(c, sha, sealed.blob, sk, 1, drawn1) == Ok(Opened(line, sealed.dkCommitment))
            && any.Ok?
            && (any == Ok(OpenedAny(line, 1, sealed.dkCommitment))
                <==> OpenLine(c, sha, sealed.blob, sk, 0, drawn0).Err?)
  {
    hide GoodCrypto, SealOf, OpenLine;
    SlotOpens(c, sha, line, bookPk, recoveryPk, seed, draws, 1, sk, drawn1);
  }

  /** A recovery key that is the book key is answered from slot 0. */
  lemma {:induction false} RecoveryIsBook(
    c: Crypto, sha: Sha, line: bytes, seed: Seed, draws: Draws,
    sk: bytes, drawn0: Option<Key>, drawn1: Option<Key>)
    requires GoodCrypto(c) && |sk| == 32
    requires SealOf(c, sha, line, c.publicKey(sk), Some(c.publicKey(sk)), seed, draws).Ok?
    ensures var sealed := SealOf(c, sha, line, c.publicKey(sk), Some(c.publicKey(sk)), seed, draws).value;
            OpenLineAny(c, sha, sealed.blob, sk, drawn0, drawn1) == Ok(OpenedAny(line, 0, sealed.dkCommitment))
  {
    hide GoodCrypto, SealOf, OpenLine, OpenLineAny;
    BookKeyOpens(c, sha, line, c.publicKey(sk), Some(c.publicKey(sk)), seed, draws, sk, drawn0, drawn1);
  }

  /** The leaf recomputed from an opened commitment is the leaf the sealer computes from the data key. */
  lemma {:induction false} LeafAgrees(
    c: Crypto, sha: Sha, line: bytes, bookPk: bytes, recoveryPk: Option<bytes>, seed: Seed, draws: Draws,
    slot: nat, sk: bytes, drawn: Option<Key>, commitment: bytes)
    requires GoodCrypto(c) && slot < 2 && |commitment| == 32
    requires SealOf(c, sha, line, bookPk, recoveryPk, seed, draws).Ok?
    requires |sk| == 32 && c.publicKey(sk) == RecipientOf(sha, bookPk, recoveryPk, slot)
    ensures var sealed := SealOf(c, sha, line, bookPk, recoveryPk, seed, draws).value;
            var seen := OpenLine(c, sha, sealed.blob, sk, slot, drawn);
            var dk := ChosenKeys(seed, draws).value.0;
            && seen.Ok?
            && LineLeafFromCommitment(sha, commitment, sealed.blob, seen.value.dkCommitment)
               == LineLeaf(sha, commitment, sealed.blob, dk)
               == Ok(HashLeaf(sha, LeafEntry(sha, commitment, sealed.blob, sealed.dkCommitment)))
  {
    var sealed := SealOf(c, sha, line, bookPk, recoveryPk, seed, draws).value;
    assert sealed.dkCommitment == DkHash(sha, ChosenKeys(seed, draws).value.0) by {
      hide SlotBytes, LineShape, IsZero, Ascii;
    }
    hide GoodCrypto, OpenLine, SealOf, LeafEntry, ChosenKeys, Ascii;
    SlotOpens(c, sha, line, bookPk, recoveryPk, seed, draws, slot, sk, drawn);
    LeafIsMerkleLeaf(sha, commitment, sealed.blob, sealed.dkCommitment);
    var _, _ := SealedLayout(c, sha, line, bookPk, recoveryPk, seed, draws, slot);
  }

  // ---- what a leaf binds ---------------------------------------------------

  /** One reader's view: a blob, the key and slot it was opened with, and the line commitment C. */
  datatype Reading = Reading(blob: bytes, sk: bytes, slot: int, drawn: Option<Key>, commitment: bytes)

  function ReadingOpened(c: Crypto, sha: Sha, r: Reading): Result<Opened, Reason> {
    OpenLine(c, sha, r.blob, r.sk, r.slot, r.drawn)
  }

  /** The leaf a reader recomputes. */
  function ReadingLeaf(c: Crypto, sha: Sha, r: Reading): Result<Digest, Reason> {
    match ReadingOpened(c, sha, r)
    case Err(e) => Err(e)
    case Ok(seen) => LineLeafFromCommitment(sha, r.commitment, r.blob, seen.dkCommitment)
  }

  function ReadingEntry(c: Crypto, sha: Sha, r: Reading): bytes
    requires ReadingOpened(c, sha, r).Ok?
  {
    LeafEntry(sha, r.commitment, r.blob, ReadingOpened(c, sha, r).value.dkCommitment)
  }

  function ReadingDk(c: Crypto, sha: Sha, r: Reading): Key
    requires ReadingOpened(c, sha, r).Ok?
  {
    UnwrappedDk(c, r.blob, r.sk, r.slot).value
  }

  /** The two hash inputs that disagreeing readings of one leaf give away. */
  function ReadingCollision(c: Crypto, sha: Sha, r: Reading, q: Reading): (bytes, bytes)
    requires ReadingOpened(c, sha, r).Ok? && ReadingOpened(c, sha, q).Ok?
  {
    if ReadingEntry(c, sha, r) != ReadingEntry(c, sha, q) then
      ([0] + ReadingEntry(c, sha, r), [0] + ReadingEntry(c, sha, q))
    else if r.blob != q.blob then (r.blob, q.blob)
    else (DkInput(ReadingDk(c, sha, r)), DkInput(ReadingDk(c, sha, q)))
  }

  lemma {:induction false} EntryFields(c1: bytes, d1: bytes, h1: bytes, c2: bytes, d2: bytes, h2: bytes)
    requires |c1| == |c2| == 32 && |d1| == |d2| == 32 && |h1| == |h2| == 32
    requires Ascii("line") + c1 + d1 + h1 == Ascii("line") + c2 + d2 + h2
    ensures c1 == c2 && d1 == d2 && h1 == h2
  {
    var n := |Ascii("line")|;
    hide Ascii;
    var e1, e2 := Ascii("line") + c1 + d1 + h1, Ascii("line") + c2 + d2 + h2;
    assert e1[n..n + 32] == c1 && e2[n..n + 32] == c2;
    assert e1[n + 32..n + 64] == d1 && e2[n + 32..n + 64] == d2;
    assert e1[n + 64..] == h1 && e2[n + 64..] == h2;
  }

  lemma {:induction false} DkInputInjective(a: bytes, b: bytes)
    requires DkInput(a) == DkInput(b)
    ensures a == b
  {
    var n := |Ascii("dk")|;
    hide Ascii;
    assert DkInput(a)[n..] == a && DkInput(b)[n..] == b;
  }

  /**
   * A leaf fixes the line. Whatever keys and slots two readers use, readings with one
   * leaf have one blob, one C, one data key commitment and one line, or they name two
   * inputs with one hash. The AEAD need not commit to its key.
   */
  lemma {:induction false} LeafBindsLine(c: Crypto, sha: Sha, r: Reading, q: Reading)
    requires ReadingLeaf(c, sha, r).Ok? && ReadingLeaf(c, sha, r) == ReadingLeaf(c, sha, q)
    ensures || IsCollision(sha, ReadingCollision(c, sha, r, q))
            || (r.blob == q.blob && r.commitment == q.commitment
                && ReadingOpened(c, sha, r) == ReadingOpened(c, sha, q))
  {
    OpenedUnderDk(c, sha, r);
    OpenedUnderDk(c, sha, q);
    hide OpenLine, UnwrappedDk, LeafEntry, Ascii, DkInput, ReadingDk;
    var o1, o2 := ReadingOpened(c, sha, r).value, ReadingOpened(c, sha, q).value;
    LeafIsMerkleLeaf(sha, r.commitment, r.blob, o1.dkCommitment);
    LeafIsMerkleLeaf(sha, q.commitment, q.blob, o2.dkCommitment);
    var e1, e2 := ReadingEntry(c, sha, r), ReadingEntry(c, sha, q);
    if e1 != e2 {
      assert ([0] + e1)[1..] == e1 && ([0] + e2)[1..] == e2;
    } else {
      SameEntry(c, sha, r, q);
    }
  }

  lemma {:induction false} SameEntry(c: Crypto, sha: Sha, r: Reading, q: Reading)
    requires ReadingLeaf(c, sha, r).Ok? && ReadingLeaf(c, sha, q).Ok?
    requires ReadingEntry(c, sha, r) == ReadingEntry(c, sha, q)
    ensures || IsCollision(sha, ReadingCollision(c, sha, r, q))
            || (r.blob == q.blob && r.commitment == q.commitment
                && ReadingOpened(c, sha, r) == ReadingOpened(c, sha, q))
  {
    OpenedUnderDk(c, sha, r);
    OpenedUnderDk(c, sha, q);
    hide OpenLine, UnwrappedDk, Ascii, DkInput, ReadingDk;
    var o1, o2 := ReadingOpened(c, sha, r).value, ReadingOpened(c, sha, q).value;
    EntryFields(r.commitment, o1.dkCommitment, sha(r.blob), q.commitment, o2.dkCommitment, sha(q.blob));
    var k1, k2 := ReadingDk(c, sha, r), ReadingDk(c, sha, q);
    if r.blob == q.blob && DkInput(k1) == DkInput(k2) {
      DkInputInjective(k1, k2);
    }
  }

  /** An opened line is the plaintext under the unwrapped data key. */
  lemma {:induction false} OpenedUnderDk(c: Crypto, sha: Sha, r: Reading)
    requires ReadingOpened(c, sha, r).Ok?
    ensures var dk := ReadingDk(c, sha, r);
            && |r.blob| == SEALED_BYTES
            && c.open(dk, ZeroNonce(), sha(DkInput(dk)), r.blob[..LINE_CT_BYTES])
               == Some(ReadingOpened(c, sha, r).value.line)
            && ReadingOpened(c, sha, r).value.dkCommitment == sha(DkInput(dk))
  {
    hide OpenBase, LineShape, Ascii;
  }

  /** The collision behind two answers, from slot 0 and slot 1, with one leaf. */
  function SlotCollision(
    c: Crypto, sha: Sha, blob: bytes, sk: bytes, drawn0: Option<Key>, drawn1: Option<Key>, commitment: bytes)
    : Option<(bytes, bytes)>
  {
    var r, q := Reading(blob, sk, 0, drawn0, commitment), Reading(blob, sk, 1, drawn1, commitment);
    if ReadingOpened(c, sha, r).Ok? && ReadingOpened(c, sha, q).Ok? then Some(ReadingCollision(c, sha, r, q)) else None
  }

  /**
   * The check that settles what openLineAny answered to the recovery key: the answer is
   * the sealed line with its commitment exactly when the leaf recomputed from it is the
   * sealer's leaf, or a collision is named.
   */
  lemma {:induction false} RecoveryAnswerChecked(
    c: Crypto, sha: Sha, line: bytes, bookPk: bytes, recoveryPk: Option<bytes>, seed: Seed, draws: Draws,
    sk: bytes, drawn0: Option<Key>, drawn1: Option<Key>, commitment: bytes, sealed: Sealed, any: OpenedAny)
    requires GoodCrypto(c) && |sk| == 32 && recoveryPk == Some(c.publicKey(sk)) && |commitment| == 32
    requires SealOf(c, sha, line, bookPk, recoveryPk, seed, draws) == Ok(sealed)
    requires OpenLineAny(c, sha, sealed.blob, sk, drawn0, drawn1) == Ok(any)
    ensures var same := any.line == line && any.dkCommitment == sealed.dkCommitment;
            var leaf := LineLeafFromCommitment(sha, commitment, sealed.blob, sealed.dkCommitment);
            var pair := SlotCollision(c, sha, sealed.blob, sk, drawn0, drawn1, commitment);
            && leaf.Ok?
            && (same ==> LineLeafFromCommitment(sha, commitment, sealed.blob, any.dkCommitment) == leaf)
            && (LineLeafFromCommitment(sha, commitment, sealed.blob, any.dkCommitment) == leaf ==>
                  same || (pair.Some? && IsCollision(sha, pair.value)))
  {
    RecoveryKeyOpens(c, sha, line, bookPk, recoveryPk, seed, draws, sk, drawn0, drawn1);
    LeafAgrees(c, sha, line, bookPk, recoveryPk, seed, draws, 1, sk, drawn1, commitment);
    hide GoodCrypto, SealOf, OpenLine, LeafEntry, ChosenKeys, LineLeafFromCommitment, LineLeaf, ReadingCollision;
    var leaf := LineLeafFromCommitment(sha, commitment, sealed.blob, sealed.dkCommitment);
    var r, q := Reading(sealed.blob, sk, 0, drawn0, commitment), Reading(sealed.blob, sk, 1, drawn1, commitment);
    if any.slot == 0 && LineLeafFromCommitment(sha, commitment, sealed.blob, any.dkCommitment) == leaf {
      assert ReadingLeaf(c, sha, r) == ReadingLeaf(c, sha, q) == leaf;
      LeafBindsLine(c, sha, r, q);
    }
  }

  /**
   * End to end: a reader opens a blob, recomputes the leaf, and an inclusion proof puts
   * that leaf at an index of the log d. Then the log's entry there is the entry of this
   * very blob, C and data key commitment, or a collision is named.
   */
  lemma {:induction false} AuditedReading(
    c: Crypto, sha: Sha, r: Reading, d: seq<bytes>, index: int, proof: seq<bytes>)
    requires ReadingLeaf(c, sha, r).Ok?
    requires MerkleVerify.InclusionVerdict(sha, ReadingLeaf(c, sha, r).value, index, |d|, Mth(sha, d), proof)
             == MerkleVerify.Accept
    ensures 0 <= index < |d|
    ensures match MerkleTheorems.InclusionCollision(sha, d, ReadingLeaf(c, sha, r).value, index, proof)
            case Some(pair) => IsCollision(sha, pair)
            case None =>
              || d[index] == ReadingEntry(c, sha, r)
              || IsCollision(sha, ([0] + ReadingEntry(c, sha, r), [0] + d[index]))
  {
    hide OpenLine, LeafEntry, MerkleVerify.InclusionVerdict, MerkleTheorems.InclusionCollision, Mth, Ascii;
    var seen := ReadingOpened(c, sha, r).value;
    LeafIsMerkleLeaf(sha, r.commitment, r.blob, seen.dkCommitment);
    MerkleTheorems.InclusionOfData(sha, d, ReadingEntry(c, sha, r), index, proof);
  }

  // ---- when sealing succeeds -----------------------------------------------

  lemma {:induction false} ExpandSome(c: Crypto, suite: bytes, prk: bytes, tag: string, info: bytes, length: nat)
    requires WorkingCrypto(c) && length <= 255 * NH
    ensures LabeledExpand(c, suite, prk, tag, info, length).Some?
  {
    hide GoodCrypto, AeadWorks, Ascii;
    assert ExpandWorks(c, prk, ExpandInput(suite, tag, info, length), length);
  }

  /** With working primitives, a base-mode seal fails only on an all-zero or refused Diffie-Hellman value. */
  lemma {:induction false} SealBaseWorks(c: Crypto, pk: Key, aad: bytes, pt: bytes, esk: Key)
    requires WorkingCrypto(c)
    ensures var r := SealBase(c, pk, Info(), aad, pt, esk);
            && (r.Ok? <==> Dh(c, esk, pk).Some?)
            && (r.Ok? ==> |r.value.0| == 32 && |r.value.1| == |pt| + TAG_BYTES)
  {
    hide EncapWith, KeySchedule, WorkingCrypto, SealStep, Info, Dh;
    EncapWorks(c, pk, esk);
    var enc := EncapWith(c, pk, esk, None);
    if enc.Ok? {
      ScheduleWorks(c, enc.value.0, Info());
      FreshSeals(c, KeySchedule(c, MODE_BASE, enc.value.0, Info(), [], []).value, aad, pt);
    }
  }

  lemma {:induction false} FreshSeals(c: Crypto, s: Schedule, aad: bytes, pt: bytes)
    requires WorkingCrypto(c) && |s.key| == NK && |s.baseNonce| == NN
    ensures var answer := SealStep(c, FreshContext(s), aad, pt).1;
            answer.Done? && |answer.data| == |pt| + TAG_BYTES
  {
    hide GoodCrypto, ExpandWorks, ComputeNonce;
    NonceExists(s.baseNonce, 0);
    NonceWidth(s.baseNonce, 0);
    assert AeadWorks(c, s.key, ComputeNonce(s.baseNonce, 0).value, aad, pt);
  }

  lemma {:induction false} NonceWidth(baseNonce: bytes, seqNo: nat)
    ensures ComputeNonce(baseNonce, seqNo).Some? ==> |ComputeNonce(baseNonce, seqNo).value| == |baseNonce|
  {
  }

  lemma {:induction false} EncapWorks(c: Crypto, pk: Key, esk: Key)
    requires WorkingCrypto(c)
    ensures var r := EncapWith(c, pk, esk, None);
            (r.Ok? <==> Dh(c, esk, pk).Some?) && (r.Ok? ==> |r.value.1| == 32)
  {
    assert |c.publicKey(esk)| == 32 by {
      hide Opens, Expands, AeadWorks, ExpandWorks;
      assert Commutes(c, esk, esk);
    }
    if Dh(c, esk, pk).Some? {
      hide WorkingCrypto, LabeledExpand, Ascii, Dh;
      var shared := Dh(c, esk, pk).value;
      var prk := LabeledExtract(c, SuiteKem(), [], "eae_prk", shared + []);
      ExpandSome(c, SuiteKem(), prk, "shared_secret", c.publicKey(esk) + pk + [], NSECRET);
    }
  }

  lemma {:induction false} ScheduleWorks(c: Crypto, shared: bytes, info: bytes)
    requires WorkingCrypto(c)
    ensures var r := KeySchedule(c, MODE_BASE, shared, info, [], []);
            r.Ok? && |r.value.key| == NK && |r.value.baseNonce| == NN
  {
    hide GoodCrypto, LabeledExpand, LabeledExtract, Ascii, AeadWorks, ExpandWorks;
    var suite := SuiteHpke();
    var context := [MODE_BASE] + LabeledExtract(c, suite, [], "psk_id_hash", [])
                 + LabeledExtract(c, suite, [], "info_hash", info);
    var secret := LabeledExtract(c, suite, shared, "secret", []);
    ExpandSome(c, suite, secret, "key", context, NK);
    ExpandSome(c, suite, secret, "base_nonce", context, NN);
    ExpandSome(c, suite, secret, "exp", context, NH);
    ScheduleWidths(c, MODE_BASE, shared, info, [], []);
  }

  /** Lines with a payload seal to non-zero recipients that Diffie-Hellman accepts, and nothing else seals. */
  lemma {:induction false} SealsExactly(
    c: Crypto, sha: Sha, line: bytes, bookPk: bytes, recoveryPk: Option<bytes>, seed: Seed, draws: Draws)
    requires WorkingCrypto(c)
    ensures var recovery := RecoveryOf(sha, recoveryPk);
            SealOf(c, sha, line, bookPk, recoveryPk, seed, draws).Ok? <==>
              && ShapedLine(line)
              && |bookPk| == 32 && (exists i :: 0 <= i < 32 && bookPk[i] != 0)
              && |recovery| == 32 && (exists i :: 0 <= i < 32 && recovery[i] != 0)
              && ChosenKeys(seed, draws).Ok?
              && Dh(c, ChosenKeys(seed, draws).value.1, bookPk).Some?
              && Dh(c, ChosenKeys(seed, draws).value.2, recovery).Some?
  {
    hide WorkingCrypto, SealBase, ChosenKeys, Dh, RecoveryOf, DkHash, Info, Ascii, LineShape, ShapedLine, ZeroNonce;
    var recovery := RecoveryOf(sha, recoveryPk);
    ShapedExactly(line, []);
    if LineShape(line).Ok? && |bookPk| == 32 && |recovery| == 32 && ChosenKeys(seed, draws).Ok? {
      var (dk, esk0, esk1) := ChosenKeys(seed, draws).value;
      LineSeals(c, sha, dk, line);
      SealBaseWorks(c, bookPk, [0], dk, esk0);
      SealBaseWorks(c, recovery, [1], dk, esk1);
    }
  }

  lemma {:induction false} LineSeals(c: Crypto, sha: Sha, dk: Key, line: bytes)
    requires WorkingCrypto(c) && |line| == LINE_BYTES
    ensures var ct := c.seal(dk, ZeroNonce(), DkHash(sha, dk), line);
            ct.Some? && |ct.value| == LINE_CT_BYTES
  {
    hide GoodCrypto, ExpandWorks;
    assert AeadWorks(c, dk, ZeroNonce(), DkHash(sha, dk), line);
  }

  /** The assumptions are consistent: a toy suite meets them all. */
  lemma {:induction false} WorkingCryptoExists() returns (c: Crypto)
    ensures WorkingCrypto(c) && forall a, b :: Dh(c, a, b).Some?
  {
    c := Crypto(
      sk => Zeros(32),
      (sk, pk) => Some([1]),
      (salt, ikm) => ikm,
      (prk, info, length) => Some(Zeros(length)),
      (key, nonce, aad, pt) => Some(pt + Zeros(16)),
      (key, nonce, aad, ct) => if |ct| < 16 then None else Some(ct[..|ct| - 16]));
    forall key, nonce, aad, pt: bytes ensures Opens(c, key, nonce, aad, pt) {
      assert (pt + Zeros(16))[..|pt|] == pt;
    }
    forall a, b: bytes ensures Dh(c, a, b).Some? {
      assert c.x25519(a, b).value[0] == 1;
    }
    assert forall a, b :: Commutes(c, a, b);
    assert forall prk, info, length :: Expands(c, prk, info, length);
    assert forall key, nonce, aad, pt :: AeadWorks(c, key, nonce, aad, pt);
    assert forall prk, info, length :: ExpandWorks(c, prk, info, length);
  }
}
