/**
 * Why openLineAny may answer the recovery key from slot 0: an AEAD can open what it
 * sealed and still not refuse a wrong key. This toy suite meets every assumption made
 * of the primitives, and its recovery key reads another line out of slot 0.
 */
module SlotWitness {
  import opened Bytes
  import opened Hpke
  import opened LineSeal
  import opened MerkleTree
  import opened Text

  function First(b: bytes): byte { if b == [] then 0 else b[0] }

  function Last(b: bytes): byte { if b == [] then 0 else b[|b| - 1] }

  function Fill(length: nat, x: byte): (r: bytes)
    ensures |r| == length && forall i :: 0 <= i < length ==> r[i] == x
  {
    seq(length, _ => x)
  }

  /** The byte of a key that the cipher uses. */
  function KeyByte(key: bytes): int { if |key| > 2 then key[2] else 0 }

  /** The cipher adds to the third byte. */
  function Shift(text: bytes, amount: int): (r: bytes)
    ensures |r| == |text|
  {
    if |text| > 2 then text[2 := (text[2] + amount) % 256] else text
  }

  function Toy(): Crypto {
    Crypto(
      sk => sk,
      (sk, pk) => Some([1, (First(sk) + First(pk)) % 256]),
      (salt, ikm) => if salt != [] then [Last(salt)] else [Last(ikm)],
      (prk, info, length) => Some(Fill(length, First(prk))),
      (key, nonce, aad, pt) => Some(Shift(pt, KeyByte(key)) + Zeros(16)),
      (key, nonce, aad, ct) => if |ct| < 16 then None else Some(Shift(ct[..|ct| - 16], -KeyByte(key))))
  }

  lemma {:induction false} ShiftBack(text: bytes, amount: int)
    ensures Shift(Shift(text, amount), -amount) == text
  {
    if |text| > 2 {
      ByteShift(text[2], amount);
    }
  }

  lemma {:induction false} ByteShift(x: byte, amount: int)
    ensures ((x + amount) % 256 - amount) % 256 == x
  {
  }

  lemma {:induction false} ToyIsGood()
    ensures GoodCrypto(Toy())
  {
    var c := Toy();
    forall key, nonce, aad, pt: bytes ensures Opens(c, key, nonce, aad, pt) {
      ShiftBack(pt, KeyByte(key));
      assert (Shift(pt, KeyByte(key)) + Zeros(16))[..|pt|] == Shift(pt, KeyByte(key));
    }
    assert forall a, b :: Commutes(c, a, b);
    assert forall prk, info, length :: Expands(c, prk, info, length);
  }

  /** The key byte two parties agree on. */
  function Shared(a: bytes, b: bytes): int { (First(a) + First(b)) % 256 }

  lemma {:induction false} ToySecret(sharedDh: bytes, kemContext: bytes)
    requires sharedDh != []
    ensures ExtractAndExpand(Toy(), sharedDh, kemContext) == Some(Fill(32, Last(sharedDh)))
  {
    hide SuiteKem, Ascii;
    var input := ExtractInput(SuiteKem(), "eae_prk", sharedDh);
    assert input[|input| - 1] == sharedDh[|sharedDh| - 1];
  }

  lemma {:induction false} ToySchedule(x: byte, info: bytes)
    ensures var r := KeySchedule(Toy(), MODE_BASE, Fill(32, x), info, [], []);
            r.Ok? && r.value.key == Fill(32, x) && |r.value.baseNonce| == NN
  {
    hide SuiteHpke, Ascii, ExtractInput, ExpandInput;
  }

  lemma {:induction false} ToyDh(sk: bytes, pk: bytes)
    ensures Dh(Toy(), sk, pk) == Some([1, Shared(sk, pk)])
  {
    var shared := Toy().x25519(sk, pk).value;
    assert shared == [1, Shared(sk, pk)] && shared[0] != 0;
  }

  lemma {:induction false} ToyEncap(pk: bytes, esk: bytes)
    requires |pk| == |esk| == 32
    ensures EncapWith(Toy(), pk, esk, None) == Ok((Fill(32, Shared(esk, pk)), esk))
  {
    hide ExtractAndExpand, Dh;
    var dh := [1, Shared(esk, pk)];
    ToyDh(esk, pk);
    assert dh + [] == dh;
    ToySecret(dh, esk + pk + []);
  }

  lemma {:induction false} ToyDecap(enc: bytes, sk: bytes)
    requires |enc| == |sk| == 32
    ensures DecapWith(Toy(), enc, sk, None) == Ok(Fill(32, Shared(sk, enc)))
  {
    hide ExtractAndExpand, Dh;
    var dh := [1, Shared(sk, enc)];
    ToyDh(sk, enc);
    assert dh + [] == dh;
    ToySecret(dh, enc + sk + []);
  }

  lemma {:induction false} ToySeals(pk: bytes, info: bytes, aad: bytes, pt: bytes, esk: bytes)
    requires |pk| == |esk| == 32
    ensures SealBase(Toy(), pk, info, aad, pt, esk) == Ok((esk, Shift(pt, Shared(esk, pk)) + Zeros(16)))
  {
    hide EncapWith, KeySchedule, ComputeNonce;
    var x := Shared(esk, pk);
    ToyEncap(pk, esk);
    ToySchedule(x, info);
    var s := KeySchedule(Toy(), MODE_BASE, Fill(32, x), info, [], []).value;
    NonceExists(s.baseNonce, 0);
  }

  lemma {:induction false} ToyOpens(enc: bytes, sk: bytes, info: bytes, aad: bytes, ct: bytes)
    requires |enc| == |sk| == 32 && |ct| >= 16
    ensures OpenBase(Toy(), enc, sk, info, aad, ct) == Ok(Shift(ct[..|ct| - 16], -Shared(sk, enc)))
  {
    hide DecapWith, KeySchedule, ComputeNonce;
    var x := Shared(sk, enc);
    ToyDecap(enc, sk);
    ToySchedule(x, info);
    var s := KeySchedule(Toy(), MODE_BASE, Fill(32, x), info, [], []).value;
    NonceExists(s.baseNonce, 0);
  }

  /** A 32-byte key with a chosen first byte. */
  function ToyKey(x: byte): Key { [x] + Zeros(31) }

  const SEED := Seed(Some(ToyKey(1)), Some((ToyKey(1), ToyKey(1))))

  const NO_DRAWS := Draws(None, None, None)

  /** Both slots are wraps of the one data key, shifted by their recipients' bytes. */
  function ToyBlob(line: bytes): bytes {
    var dk := ToyKey(1);
    (line + Zeros(16)) + (ToyKey(1) + (Shift(dk, 2) + Zeros(16))) + (ToyKey(1) + (Shift(dk, 3) + Zeros(16)))
  }

  lemma {:induction false} ToySlot(slot: nat, pk: byte)
    requires slot < 2 && pk < 100
    ensures SlotBytes(Toy(), slot, ToyKey(pk), ToyKey(1), ToyKey(1))
         == Ok(ToyKey(1) + (Shift(ToyKey(1), 1 + pk) + Zeros(16)))
  {
    hide SealBase;
    ToySeals(ToyKey(pk), Info(), [slot], ToyKey(1), ToyKey(1));
  }

  lemma {:induction false} ToyChoice()
    ensures ChosenKeys(SEED, NO_DRAWS) == Ok((ToyKey(1), ToyKey(1), ToyKey(1)))
    ensures !IsZero(ToyKey(1)) && !IsZero(ToyKey(2))
  {
    assert ToyKey(1)[0] != 0 && ToyKey(2)[0] != 0;
  }

  /** The data key shifts nothing. */
  lemma {:induction false} ToyLine(line: bytes, aad: bytes)
    ensures Toy().seal(ToyKey(1), ZeroNonce(), aad, line) == Some(line + Zeros(16))
  {
    assert KeyByte(ToyKey(1)) == 0;
    assert Shift(line, 0) == line;
  }

  lemma {:induction false} ToySealed(sha: Sha, line: bytes)
    requires LineShape(line).Ok?
    ensures SealOf(Toy(), sha, line, ToyKey(1), Some(ToyKey(2)), SEED, NO_DRAWS)
         == Ok(Sealed(ToyBlob(line), DkHash(sha, ToyKey(1)), sha(ToyBlob(line))))
  {
    hide SlotBytes, LineShape, DkHash, ToyKey, Toy, Shift, ChosenKeys, IsZero, ZeroNonce;
    ToySlot(0, 1);
    ToySlot(1, 2);
    ToyChoice();
    ToyLine(line, DkHash(sha, ToyKey(1)));
    ShapedLength(line);
  }

  lemma {:induction false} ShapedLength(line: bytes)
    requires LineShape(line).Ok?
    ensures |line| == LINE_BYTES
  {
  }

  /** The data key that the recovery key reads out of slot 0, and the line under it. */
  function OtherDk(): Key { Shift(ToyKey(1), -1) }

  function OtherLine(line: bytes): bytes { Shift(line, 1) }

  /** Where the parts of the sealed line stand. */
  lemma {:induction false} ToyParts(line: bytes)
    requires |line| == LINE_BYTES
    ensures |ToyBlob(line)| == SEALED_BYTES
    ensures ToyBlob(line)[..LINE_CT_BYTES] == line + Zeros(16)
    ensures SlotEnc(ToyBlob(line), 0) == ToyKey(1)
    ensures SlotCt(ToyBlob(line), 0) == Shift(ToyKey(1), 2) + Zeros(16)
  {
    hide Shift;
  }

  lemma {:induction false} ShiftSum(text: bytes, m: int, n: int)
    ensures Shift(Shift(text, m), n) == Shift(text, m + n)
  {
    if |text| > 2 {
      ByteSum(text[2], m, n);
    }
  }

  lemma {:induction false} ByteSum(x: byte, m: int, n: int)
    ensures ((x + m) % 256 + n) % 256 == (x + (m + n)) % 256
  {
  }

  lemma {:induction false} ToyShares()
    ensures Shared(ToyKey(2), ToyKey(1)) == 3
  {
  }

  lemma {:induction false} OtherDkRead(line: bytes)
    requires |line| == LINE_BYTES
    ensures |ToyBlob(line)| == SEALED_BYTES
    ensures UnwrappedDk(Toy(), ToyBlob(line), ToyKey(2), 0) == Some(OtherDk())
  {
    hide OpenBase, ToyBlob, SlotEnc, SlotCt, Shift, Shared;
    ToyParts(line);
    ToyShares();
    var wrapped := Shift(ToyKey(1), 2);
    ToyOpens(ToyKey(1), ToyKey(2), Info(), [0], wrapped + Zeros(16));
    assert (wrapped + Zeros(16))[..32] == wrapped;
    ShiftSum(ToyKey(1), 2, -3);
  }

  lemma {:induction false} OtherLineShaped(line: bytes)
    requires LineShape(line).Ok?
    ensures LineShape(OtherLine(line)).Ok? && OtherLine(line) != line
  {
    assert OtherLine(line)[USED_BYTES..] == line[USED_BYTES..];
    assert OtherLine(line)[2] != line[2];
  }

  lemma {:induction false} OtherLineRead(line: bytes, aad: bytes)
    requires |line| == LINE_BYTES
    ensures |ToyBlob(line)| == SEALED_BYTES
    ensures Toy().open(OtherDk(), ZeroNonce(), aad, ToyBlob(line)[..LINE_CT_BYTES]) == Some(OtherLine(line))
  {
    hide ToyBlob, Shift, KeyByte;
    ToyParts(line);
    OtherKeyByte();
    assert (line + Zeros(16))[..LINE_BYTES] == line;
    ShiftWraps(line);
  }

  lemma {:induction false} OtherKeyByte()
    ensures KeyByte(OtherDk()) == 255
  {
  }

  lemma {:induction false} ShiftWraps(line: bytes)
    ensures Shift(line, -255) == OtherLine(line)
  {
  }

  /**
   * Under primitives that meet every assumption, openLineAny answers the recovery key
   * from slot 0 with a well-shaped line that is not the sealed one, for every sealed line.
   */
  lemma {:induction false} RecoveryReadsAnotherLine(
    sha: Sha, line: bytes, drawn0: Option<Key>, drawn1: Option<Key>)
    requires LineShape(line).Ok?
    ensures GoodCrypto(Toy()) && Toy().publicKey(ToyKey(2)) == ToyKey(2)
    ensures SealOf(Toy(), sha, line, ToyKey(1), Some(ToyKey(2)), SEED, NO_DRAWS).Ok?
    ensures var blob := SealOf(Toy(), sha, line, ToyKey(1), Some(ToyKey(2)), SEED, NO_DRAWS).value.blob;
            && OpenLineAny(Toy(), sha, blob, ToyKey(2), drawn0, drawn1)
               == Ok(OpenedAny(OtherLine(line), 0, DkHash(sha, OtherDk())))
            && OtherLine(line) != line
  {
    ToyIsGood();
    hide GoodCrypto, SealOf, UnwrappedDk, LineShape, DkHash, ToyBlob, Shift, ZeroNonce;
    ToySealed(sha, line);
    ShapedLength(line);
    OtherDkRead(line);
    OtherLineRead(line, DkHash(sha, OtherDk()));
    OtherLineShaped(line);
    FirstAnswers(Toy(), sha, ToyBlob(line), ToyKey(2), drawn0, drawn1);
  }

  lemma {:induction false} FirstAnswers(
    c: Crypto, sha: Sha, blob: bytes, sk: bytes, drawn0: Option<Key>, drawn1: Option<Key>)
    ensures var first := OpenLine(c, sha, blob, sk, 0, drawn0);
            first.Ok? ==> OpenLineAny(c, sha, blob, sk, drawn0, drawn1)
                          == Ok(OpenedAny(first.value.line, 0, first.value.dkCommitment))
  {
    hide OpenLine;
  }
}
