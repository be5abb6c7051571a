/**
 * What the HPKE functions (packages/cs2-core/seal/hpke.js) compute, with every label, suite
 * identifier and length of RFC 9180 written out, and when and why each refuses.
 */
module HpkeAnswers {
  import opened Bytes
  import opened Text
  import opened Hpke
  import opened NumberTheory

  // ---- bits and nonces -----------------------------------------------------

  /** Bit j of a number, the lowest at 0. */
  function Bit(x: nat, j: nat): nat { (x / Pow2(j)) % 2 }

  lemma {:induction false} NestedQuotient(x: nat, p: nat)
    requires p > 0
    ensures x / (2 * p) == (x / 2) / p
  {
    var q, r := (x / 2) / p, (x / 2) % p;
    assert x / 2 == q * p + r;
    assert x == q * (2 * p) + (2 * r + x % 2);
    Remainder(x, q, 2 * r + x % 2, 2 * p);
  }

  /** The lowest bit, and the others as bits of the half. */
  lemma {:induction false} BitStep(x: nat, j: nat)
    ensures Bit(x, 0) == x % 2
    ensures j > 0 ==> Bit(x, j) == Bit(x / 2, j - 1)
  {
    if j > 0 {
      NestedQuotient(x, Pow2(j - 1));
    }
  }

  /** Each bit of the exclusive or is set exactly where the two bits differ. */
  lemma {:induction false} XorBitsLaw(a: nat, b: nat, k: nat, j: nat)
    requires j < k
    ensures Bit(XorBits(a, b, k), j) == 1 <==> Bit(a, j) != Bit(b, j)
  {
    hide XorBits, Bit, Pow2;
    var q, bit := XorBits(a / 2, b / 2, k - 1), if a % 2 == b % 2 then 0 else 1;
    XorBitsStep(a, b, k);
    Halves(q, bit);
    BitStep(2 * q + bit, j);
    BitStep(a, j);
    BitStep(b, j);
    if j > 0 {
      XorBitsLaw(a / 2, b / 2, k - 1, j - 1);
    }
  }

  lemma {:induction false} XorLaw(a: byte, b: byte, j: nat)
    requires j < 8
    ensures Bit(Xor(a, b), j) == 1 <==> Bit(a, j) != Bit(b, j)
  {
    hide Bit;
    XorBitsLaw(a, b, 8, j);
  }

  /** Byte i of the big-endian form. */
  lemma {:induction false} ByteOfNumber(v: nat, len: nat, i: nat)
    requires i < len
    ensures ToBytes(v, len)[i] == (v / Pow256(len - 1 - i)) % 256
    decreases len
  {
    if i < len - 1 {
      ByteOfNumber(v / 256, len - 1, i);
      Shifted(v, Pow256(len - 2 - i));
    }
  }

  lemma {:induction false} Shifted(v: nat, p: nat)
    requires p > 0
    ensures v / (256 * p) == (v / 256) / p
  {
    var q, r := (v / 256) / p, (v / 256) % p;
    assert v / 256 == q * p + r;
    assert v == q * (256 * p) + (256 * r + v % 256);
    Remainder(v, q, 256 * r + v % 256, 256 * p);
  }

  /** The nonce at sequence number zero is the base nonce. */
  lemma {:induction false} NonceAtZero(baseNonce: bytes)
    ensures ComputeNonce(baseNonce, 0) == Some(baseNonce)
  {
    hide Xor, ToBytes;
    var zeros := ToBytes(0, |baseNonce|);
    forall i | 0 <= i < |baseNonce| ensures XorBytes(baseNonce, zeros)[i] == baseNonce[i] {
      ZeroBytes(|baseNonce|, i);
      XorZero(baseNonce[i]);
    }
    assert XorBytes(baseNonce, zeros) == baseNonce;
  }

  lemma {:induction false} ZeroBytes(len: nat, i: nat)
    requires i < len
    ensures ToBytes(0, len)[i] == 0
  {
    if i < len - 1 {
      ZeroBytes(len - 1, i);
    }
  }

  lemma {:induction false} XorBitsZero(a: nat, k: nat)
    requires a < Pow2(k)
    ensures XorBits(a, 0, k) == a
  {
    hide XorBits;
    if k > 0 {
      XorBitsStep(a, 0, k);
      XorBitsZero(a / 2, k - 1);
    } else {
      NoBits(a, 0);
    }
  }

  lemma {:induction false} XorZero(a: byte)
    ensures Xor(a, 0) == a
  {
    assert Pow2(8) == 256;
    XorBitsZero(a, 8);
  }

  /** The numbers that have a nonce, and every bit of it. */
  lemma {:induction false} NonceExactly(baseNonce: bytes, seqNo: nat, i: nat, j: nat)
    requires i < |baseNonce| && j < 8
    ensures ComputeNonce(baseNonce, seqNo).Some? <==> seqNo <= 9007199254740991 && seqNo < Pow256(|baseNonce|)
    ensures ComputeNonce(baseNonce, seqNo).Some? ==>
              var nonce := ComputeNonce(baseNonce, seqNo).value;
              && |nonce| == |baseNonce|
              && (Bit(nonce[i], j) == 1
                  <==> Bit(baseNonce[i], j) != Bit((seqNo / Pow256(|baseNonce| - 1 - i)) % 256, j))
  {
    hide Xor, ToBytes, Pow256, Bit;
    ByteOfNumber(seqNo, |baseNonce|, i);
    XorLaw(baseNonce[i], ToBytes(seqNo, |baseNonce|)[i], j);
  }

  // ---- encapsulation -------------------------------------------------------

  /** Diffie-Hellman that is refused: no value, or one of zero bytes only. */
  predicate Refused(c: Crypto, sk: bytes, pk: bytes) {
    match c.x25519(sk, pk)
    case None => true
    case Some(shared) => forall i :: 0 <= i < |shared| ==> shared[i] == 0
  }

  /** ExtractAndExpand of section 4.1 of RFC 9180, for DHKEM(X25519, HKDF-SHA256). */
  function KemSecret(c: Crypto, sharedDh: bytes, kemContext: bytes): Option<bytes> {
    var suite := Ascii("KEM") + [0x00, 0x20];
    var prk := c.extract([], Ascii("HPKE-v1") + suite + Ascii("eae_prk") + sharedDh);
    c.expand(prk, [0, 32] + Ascii("HPKE-v1") + suite + Ascii("shared_secret") + kemContext, 32)
  }

  lemma {:induction false} KemSecretIs(c: Crypto, sharedDh: bytes, kemContext: bytes)
    ensures ExtractAndExpand(c, sharedDh, kemContext) == KemSecret(c, sharedDh, kemContext)
  {
    hide Ascii;
    assert U16(KEM_ID) == [0x00, 0x20] && U16(NSECRET) == [0, 32];
  }

  /** Encap and AuthEncap: the inputs refused, and the secret otherwise. */
  lemma {:induction false} EncapSpelled(c: Crypto, pkR: bytes, skE: bytes, skS: Option<bytes>)
    ensures EncapWith(c, pkR, skE, skS) == Err(BadKey)
       <==> || |pkR| != 32 || |skE| != 32 || Refused(c, skE, pkR)
            || (skS.Some? && (|skS.value| != 32 || Refused(c, skS.value, pkR)))
    ensures EncapWith(c, pkR, skE, skS) != Err(BadKey) ==>
              && c.x25519(skE, pkR).Some? && (skS.Some? ==> c.x25519(skS.value, pkR).Some?)
              && var (sharedDh, kemContext) :=
                   (if skS.None? then (c.x25519(skE, pkR).value, c.publicKey(skE) + pkR)
                    else (c.x25519(skE, pkR).value + c.x25519(skS.value, pkR).value,
                          c.publicKey(skE) + pkR + c.publicKey(skS.value)));
                 EncapWith(c, pkR, skE, skS)
                 == match KemSecret(c, sharedDh, kemContext)
                    case None => Err(OpenFailed)
                    case Some(shared) => Ok((shared, c.publicKey(skE)))
  {
    hide KemSecret, ExtractAndExpand;
    forall sharedDh, kemContext
      ensures ExtractAndExpand(c, sharedDh, kemContext) == KemSecret(c, sharedDh, kemContext)
    {
      KemSecretIs(c, sharedDh, kemContext);
    }
    if skS.None? && c.x25519(skE, pkR).Some? {
      assert c.x25519(skE, pkR).value + [] == c.x25519(skE, pkR).value;
      assert c.publicKey(skE) + pkR + [] == c.publicKey(skE) + pkR;
    }
  }

  /** Decap and AuthDecap: widths are bad keys, refused Diffie-Hellman is a failed open. */
  lemma {:induction false} DecapSpelled(c: Crypto, enc: bytes, skR: bytes, pkS: Option<bytes>)
    ensures DecapWith(c, enc, skR, pkS) == Err(BadKey)
       <==> || |enc| != 32 || |skR| != 32
            || (!Refused(c, skR, enc) && pkS.Some? && |pkS.value| != 32)
    ensures |enc| == 32 && |skR| == 32 && (Refused(c, skR, enc)
              || (pkS.Some? && |pkS.value| == 32 && Refused(c, skR, pkS.value))) ==>
              DecapWith(c, enc, skR, pkS) == Err(OpenFailed)
    ensures |enc| == 32 && |skR| == 32 && !Refused(c, skR, enc)
            && (pkS.Some? ==> |pkS.value| == 32 && !Refused(c, skR, pkS.value)) ==>
              && c.x25519(skR, enc).Some? && (pkS.Some? ==> c.x25519(skR, pkS.value).Some?)
              && var (sharedDh, kemContext) :=
                   (if pkS.None? then (c.x25519(skR, enc).value, enc + c.publicKey(skR))
                    else (c.x25519(skR, enc).value + c.x25519(skR, pkS.value).value,
                          enc + c.publicKey(skR) + pkS.value));
                 DecapWith(c, enc, skR, pkS)
                 == match KemSecret(c, sharedDh, kemContext)
                    case None => Err(OpenFailed)
                    case Some(shared) => Ok(shared)
  {
    hide KemSecret, ExtractAndExpand;
    forall sharedDh, kemContext
      ensures ExtractAndExpand(c, sharedDh, kemContext) == KemSecret(c, sharedDh, kemContext)
    {
      KemSecretIs(c, sharedDh, kemContext);
    }
    if pkS.None? && c.x25519(skR, enc).Some? {
      assert c.x25519(skR, enc).value + [] == c.x25519(skR, enc).value;
      assert enc + c.publicKey(skR) + [] == enc + c.publicKey(skR);
    }
  }

  // ---- key schedule --------------------------------------------------------

  /** The suite identifier of section 5.1 of RFC 9180: KEM 0x0020, KDF 0x0001, AEAD 0x0003. */
  function SuiteId(): bytes { Ascii("HPKE") + [0x00, 0x20, 0x00, 0x01, 0x00, 0x03] }

  lemma {:induction false} SuiteIs()
    ensures SuiteHpke() == SuiteId()
  {
    hide Ascii;
    assert U16(KEM_ID) == [0x00, 0x20] && U16(KDF_ID) == [0x00, 0x01] && U16(AEAD_ID) == [0x00, 0x03];
  }

  /** LabeledExtract and LabeledExpand of section 4 of RFC 9180, for this suite. */
  function Extracted(c: Crypto, salt: bytes, tag: string, ikm: bytes): bytes {
    c.extract(salt, Ascii("HPKE-v1") + SuiteId() + Ascii(tag) + ikm)
  }

  function Expanded(c: Crypto, prk: bytes, tag: string, info: bytes, length: nat): Option<bytes> {
    c.expand(prk, [(length / 256) % 256, length % 256] + Ascii("HPKE-v1") + SuiteId() + Ascii(tag) + info, length)
  }

  lemma {:induction false} LabelsAre(c: Crypto, a: bytes, b: bytes, tag: string, length: nat)
    ensures LabeledExtract(c, SuiteHpke(), a, tag, b) == Extracted(c, a, tag, b)
    ensures LabeledExpand(c, SuiteHpke(), a, tag, b, length) == Expanded(c, a, tag, b, length)
  {
    hide Ascii, SuiteHpke, SuiteId;
    SuiteIs();
  }

  /** The key schedule context: mode, hash of the key id, hash of the info. */
  function ScheduleContext(c: Crypto, mode: byte, info: bytes, pskId: bytes): bytes {
    [mode] + Extracted(c, [], "psk_id_hash", pskId) + Extracted(c, [], "info_hash", info)
  }

  /** KeySchedule of section 5.1 of RFC 9180. */
  lemma {:induction false} ScheduleSpelled(
    c: Crypto, mode: int, shared: bytes, info: bytes, psk: bytes, pskId: bytes)
    ensures KeySchedule(c, mode, shared, info, psk, pskId) == Err(BadKey)
       <==> !(0 <= mode <= 3) || (psk == []) != (pskId == []) || (psk == [] <==> mode == 1 || mode == 3)
    ensures 0 <= mode <= 3 && (psk == []) == (pskId == []) && (psk == [] <==> mode == 0 || mode == 2) ==>
              var context := ScheduleContext(c, mode, info, pskId);
              var secret := Extracted(c, shared, "secret", psk);
              KeySchedule(c, mode, shared, info, psk, pskId)
              == match (Expanded(c, secret, "key", context, 32), Expanded(c, secret, "base_nonce", context, 12),
                        Expanded(c, secret, "exp", context, 32))
                 case (Some(key), Some(baseNonce), Some(exporterSecret)) =>
                   Ok(Schedule(key, baseNonce, exporterSecret, secret, shared, context))
                 case _ => Err(OpenFailed)
  {
    hide LabeledExtract, LabeledExpand, Extracted, Expanded, SuiteHpke;
    if 0 <= mode <= 3 {
      LabelsAre(c, [], pskId, "psk_id_hash", 0);
      LabelsAre(c, [], info, "info_hash", 0);
      LabelsAre(c, shared, psk, "secret", 0);
      var context, secret := ScheduleContext(c, mode, info, pskId), Extracted(c, shared, "secret", psk);
      LabelsAre(c, secret, context, "key", 32);
      LabelsAre(c, secret, context, "base_nonce", 12);
      LabelsAre(c, secret, context, "exp", 32);
    }
  }

  /** In the authenticated modes alone, 2 and 3, the sender's key enters the encapsulation. */
  lemma {:induction false} SetupSpelled(
    c: Crypto, mode: int, pk: bytes, sk: bytes, other: Option<bytes>, info: bytes, psk: bytes, pskId: bytes)
    ensures var used := if mode == 2 || mode == 3 then other else None;
            && SetupS(c, mode, pk, sk, other, info, psk, pskId)
               == (match EncapWith(c, pk, sk, used)
                   case Err(e) => Err(e)
                   case Ok((shared, enc)) =>
                     (match KeySchedule(c, mode, shared, info, psk, pskId)
                      case Err(e) => Err(e)
                      case Ok(s) => Ok((s, enc))))
            && SetupR(c, mode, pk, sk, other, info, psk, pskId)
               == (match DecapWith(c, pk, sk, used)
                   case Err(e) => Err(e)
                   case Ok(shared) => KeySchedule(c, mode, shared, info, psk, pskId))
  {
    hide EncapWith, DecapWith, KeySchedule;
  }

  // ---- what a key binds ----------------------------------------------------

  predicate AnyExtractCollision(c: Crypto, salt1: bytes, ikm1: bytes, salt2: bytes, ikm2: bytes) {
    (salt1, ikm1) != (salt2, ikm2) && c.extract(salt1, ikm1) == c.extract(salt2, ikm2)
  }

  predicate ExpandCollision(c: Crypto, prk1: bytes, info1: bytes, prk2: bytes, info2: bytes, length: nat) {
    (prk1, info1) != (prk2, info2) && c.expand(prk1, info1, length) == c.expand(prk2, info2, length)
  }

  /** The input that the message key is expanded from. */
  function KeyInput(context: bytes): bytes { [0, 32] + Ascii("HPKE-v1") + SuiteId() + Ascii("key") + context }

  function SecretInput(psk: bytes): bytes { Ascii("HPKE-v1") + SuiteId() + Ascii("secret") + psk }

  /**
   * One key means one mode, one shared secret, one info and one pre-shared key with its id,
   * or two inputs of the extraction or the expansion collide.
   */
  lemma {:induction false} KeyBinds(
    c: Crypto, mode1: int, shared1: bytes, info1: bytes, psk1: bytes, pskId1: bytes,
    mode2: int, shared2: bytes, info2: bytes, psk2: bytes, pskId2: bytes)
    requires forall salt, ikm :: Extracts(c, salt, ikm)
    requires KeySchedule(c, mode1, shared1, info1, psk1, pskId1).Ok?
    requires KeySchedule(c, mode2, shared2, info2, psk2, pskId2).Ok?
    requires KeySchedule(c, mode1, shared1, info1, psk1, pskId1).value.key
          == KeySchedule(c, mode2, shared2, info2, psk2, pskId2).value.key
    ensures var s1 := KeySchedule(c, mode1, shared1, info1, psk1, pskId1).value;
            var s2 := KeySchedule(c, mode2, shared2, info2, psk2, pskId2).value;
            || (mode1 == mode2 && shared1 == shared2 && info1 == info2 && psk1 == psk2 && pskId1 == pskId2)
            || ExpandCollision(c, s1.secret, KeyInput(s1.context), s2.secret, KeyInput(s2.context), 32)
            || AnyExtractCollision(c, shared1, SecretInput(psk1), shared2, SecretInput(psk2))
            || ExtractCollision(
                 c, ExtractInput(SuiteHpke(), "info_hash", info1), ExtractInput(SuiteHpke(), "info_hash", info2))
            || ExtractCollision(
                 c, ExtractInput(SuiteHpke(), "psk_id_hash", pskId1), ExtractInput(SuiteHpke(), "psk_id_hash", pskId2))
  {
    hide KeySchedule, KeyInput, SecretInput, SuiteHpke, ExtractInput, ExtractCollision;
    var s1 := KeySchedule(c, mode1, shared1, info1, psk1, pskId1).value;
    var s2 := KeySchedule(c, mode2, shared2, info2, psk2, pskId2).value;
    KeyFrom(c, mode1, shared1, info1, psk1, pskId1);
    KeyFrom(c, mode2, shared2, info2, psk2, pskId2);
    if (s1.secret, KeyInput(s1.context)) == (s2.secret, KeyInput(s2.context)) {
      KeyInputInjective(s1.context, s2.context);
      if (shared1, SecretInput(psk1)) == (shared2, SecretInput(psk2)) {
        SecretInputInjective(psk1, psk2);
      }
      ContextBinds(c, mode1, shared1, info1, psk1, pskId1, mode2, shared2, info2, psk2, pskId2);
    }
  }

  lemma {:induction false} KeyFrom(c: Crypto, mode: int, shared: bytes, info: bytes, psk: bytes, pskId: bytes)
    requires KeySchedule(c, mode, shared, info, psk, pskId).Ok?
    ensures var s := KeySchedule(c, mode, shared, info, psk, pskId).value;
            && Some(s.key) == c.expand(s.secret, KeyInput(s.context), 32)
            && s.secret == c.extract(shared, SecretInput(psk))
  {
    hide KeySchedule, Ascii, SuiteId, ScheduleContext;
    ScheduleSpelled(c, mode, shared, info, psk, pskId);
  }

  lemma {:induction false} KeyInputInjective(x: bytes, y: bytes)
    requires KeyInput(x) == KeyInput(y)
    ensures x == y
  {
    hide Ascii, SuiteId;
    var n := |[0, 32] + Ascii("HPKE-v1") + SuiteId() + Ascii("key")|;
    assert KeyInput(x)[n..] == x && KeyInput(y)[n..] == y;
  }

  lemma {:induction false} SecretInputInjective(x: bytes, y: bytes)
    requires SecretInput(x) == SecretInput(y)
    ensures x == y
  {
    hide Ascii, SuiteId;
    var n := |Ascii("HPKE-v1") + SuiteId() + Ascii("secret")|;
    assert SecretInput(x)[n..] == x && SecretInput(y)[n..] == y;
  }

  // ---- steps of a context --------------------------------------------------

  /** A closed context, or one at the last safe number, throws; so does a nonce that does not exist. */
  predicate Throws(st: CtxState) {
    st.Closed? || st.seqNo >= 9007199254740991 || st.seqNo >= Pow256(|st.baseNonce|)
  }

  /** contextSeal: the AEAD under the context's key and the nonce of its number, with the caller's data. */
  lemma {:induction false} SealSpelled(c: Crypto, st: CtxState, aad: bytes, pt: bytes)
    ensures Throws(st) ==> SealStep(c, st, aad, pt) == (st, Threw)
    ensures !Throws(st) ==>
              && ComputeNonce(st.baseNonce, st.seqNo).Some?
              && var nonce := ComputeNonce(st.baseNonce, st.seqNo).value;
                 SealStep(c, st, aad, pt)
                 == match c.seal(st.key, nonce, aad, pt)
                    case None => (st, Failed)
                    case Some(ct) => (Live(st.key, st.baseNonce, st.exporterSecret, st.seqNo + 1), Done(nonce, ct))
  {
    hide Pow256, XorBytes, ToBytes;
  }

  /** contextOpen: the same, and a tag that does not fit leaves the number. */
  lemma {:induction false} OpenSpelled(c: Crypto, st: CtxState, aad: bytes, ct: bytes)
    ensures Throws(st) ==> OpenStep(c, st, aad, ct) == (st, Threw)
    ensures !Throws(st) ==>
              && ComputeNonce(st.baseNonce, st.seqNo).Some?
              && var nonce := ComputeNonce(st.baseNonce, st.seqNo).value;
                 OpenStep(c, st, aad, ct)
                 == match c.open(st.key, nonce, aad, ct)
                    case None => (st, Failed)
                    case Some(pt) => (Live(st.key, st.baseNonce, st.exporterSecret, st.seqNo + 1), Done(nonce, pt))
  {
    hide Pow256, XorBytes, ToBytes;
  }

  /** contextExport: an expansion of the exporter secret, of at most 8,160 bytes. */
  lemma {:induction false} ExportSpelled(c: Crypto, st: CtxState, info: bytes, length: nat)
    ensures ExportOf(c, st, info, length)
         == if st.Closed? || st.seqNo >= 9007199254740991 then Threw
            else if length > 8160 then Failed
            else match Expanded(c, st.exporterSecret, "sec", info, length)
                 case None => Failed
                 case Some(out) => Exported(out)
  {
    hide LabeledExpand, Expanded, SuiteHpke;
    if st.Live? {
      LabelsAre(c, st.exporterSecret, info, "sec", length);
    }
  }

  /** sealBase: mode 0 without a pre-shared key, under the schedule's key and its base nonce. */
  lemma {:induction false} SealBaseSpelled(c: Crypto, pkR: bytes, info: bytes, aad: bytes, pt: bytes, esk: bytes)
    ensures SealBase(c, pkR, info, aad, pt, esk)
         == match EncapWith(c, pkR, esk, None)
            case Err(e) => Err(e)
            case Ok((shared, enc)) =>
              match KeySchedule(c, 0, shared, info, [], [])
              case Err(e) => Err(e)
              case Ok(s) =>
                match c.seal(s.key, s.baseNonce, aad, pt)
                case None => Err(OpenFailed)
                case Some(ct) => Ok((enc, ct))
  {
    hide EncapWith, KeySchedule, ComputeNonce;
    var setup := SetupS(c, MODE_BASE, pkR, esk, None, info, [], []);
    if setup.Ok? {
      NonceAtZero(setup.value.0.baseNonce);
    }
  }

  /** openBase, with whatever the encapsulation or the schedule refuses. */
  lemma {:induction false} OpenBaseSpelled(c: Crypto, enc: bytes, skR: bytes, info: bytes, aad: bytes, ct: bytes)
    ensures OpenBase(c, enc, skR, info, aad, ct)
         == match DecapWith(c, enc, skR, None)
            case Err(e) => Err(e)
            case Ok(shared) =>
              match KeySchedule(c, 0, shared, info, [], [])
              case Err(e) => Err(e)
              case Ok(s) =>
                match c.open(s.key, s.baseNonce, aad, ct)
                case None => Err(OpenFailed)
                case Some(pt) => Ok(pt)
  {
    hide DecapWith, KeySchedule, ComputeNonce;
    var setup := SetupR(c, MODE_BASE, enc, skR, None, info, [], []);
    if setup.Ok? {
      NonceAtZero(setup.value.baseNonce);
    }
  }

  // ---- what is delivered ---------------------------------------------------

  function Plaintexts(messages: seq<(bytes, bytes)>): seq<bytes> {
    seq(|messages|, i requires 0 <= i < |messages| => messages[i].1)
  }

  /** A context that still has this many numbers. */
  predicate RoomFor(st: CtxState, count: nat) {
    st.Live? && |st.key| == 32 && |st.baseNonce| == 12 && st.seqNo + count <= 9007199254740991
  }

  /** The delivery is the message's data and its plaintext, sealed under the number's nonce. */
  predicate SealedUnder(
    c: Crypto, key: bytes, baseNonce: bytes, number: nat, message: (bytes, bytes), delivery: (bytes, bytes))
  {
    var nonce := ComputeNonce(baseNonce, number);
    && nonce.Some? && delivery.0 == message.0
    && c.seal(key, nonce.value, message.0, message.1) == Some(delivery.1)
  }

  /** One message from a context with room. */
  lemma {:induction false} OneSealed(c: Crypto, st: CtxState, aad: bytes, pt: bytes)
    requires WorkingCrypto(c) && RoomFor(st, 1)
    ensures ComputeNonce(st.baseNonce, st.seqNo).Some?
    ensures var nonce := ComputeNonce(st.baseNonce, st.seqNo).value;
            && c.seal(st.key, nonce, aad, pt).Some?
            && SealStep(c, st, aad, pt)
               == (st.(seqNo := st.seqNo + 1), Done(nonce, c.seal(st.key, nonce, aad, pt).value))
  {
    hide ComputeNonce, Commutes, Opens, Expands, ExpandWorks;
    NonceExists(st.baseNonce, st.seqNo);
    NonceExactly(st.baseNonce, st.seqNo, 0, 0);
    assert AeadWorks(c, st.key, ComputeNonce(st.baseNonce, st.seqNo).value, aad, pt);
  }

  /**
   * Message i is sealed under the nonce of number seqNo + i, with its own associated data, and
   * the receiver at the same state opens exactly the plaintexts, in order.
   */
  lemma {:induction false} AllDelivered(c: Crypto, st: CtxState, messages: seq<(bytes, bytes)>)
    requires WorkingCrypto(c) && RoomFor(st, |messages|)
    ensures |SealAll(c, st, messages)| == |messages|
    ensures forall i :: 0 <= i < |messages| ==>
              SealedUnder(c, st.key, st.baseNonce, st.seqNo + i, messages[i], SealAll(c, st, messages)[i])
    ensures OpenAll(c, st, SealAll(c, st, messages)) == Plaintexts(messages)
  {
    hide GoodCrypto, AeadWorks, ExpandWorks, SealAll, OpenAll, SealedTexts, ComputeNonce;
    OpenedInOrder(c, st, messages);
    AllSealed(c, st, messages);
  }

  lemma {:induction false} AllSealed(c: Crypto, st: CtxState, messages: seq<(bytes, bytes)>)
    requires WorkingCrypto(c) && RoomFor(st, |messages|)
    ensures SealedTexts(c, st, messages) == Plaintexts(messages) && |SealAll(c, st, messages)| == |messages|
    ensures forall i :: 0 <= i < |messages| ==>
              SealedUnder(c, st.key, st.baseNonce, st.seqNo + i, messages[i], SealAll(c, st, messages)[i])
    decreases |messages|
  {
    hide WorkingCrypto, ComputeNonce, SealStep;
    if messages != [] {
      var (aad, pt) := messages[0];
      OneSealed(c, st, aad, pt);
      var next := st.(seqNo := st.seqNo + 1);
      AllSealed(c, next, messages[1..]);
      var ct := c.seal(st.key, ComputeNonce(st.baseNonce, st.seqNo).value, aad, pt).value;
      assert SealAll(c, st, messages) == [(aad, ct)] + SealAll(c, next, messages[1..]);
      assert SealedTexts(c, st, messages) == [pt] + SealedTexts(c, next, messages[1..]);
      assert messages == [messages[0]] + messages[1..];
      assert Plaintexts(messages) == [pt] + Plaintexts(messages[1..]);
      var sealed, later := SealAll(c, st, messages), SealAll(c, next, messages[1..]);
      forall i | 0 <= i < |messages|
        ensures SealedUnder(c, st.key, st.baseNonce, st.seqNo + i, messages[i], sealed[i])
      {
        if i > 0 {
          assert messages[i] == messages[1..][i - 1] && sealed[i] == later[i - 1];
          assert SealedUnder(c, st.key, st.baseNonce, next.seqNo + (i - 1), messages[1..][i - 1], later[i - 1]);
          assert next.seqNo + (i - 1) == st.seqNo + i;
        }
      }
    }
  }

  /** The nonces a run emits are those of its successful seals, first to last. */
  lemma {:induction false} EmittedOne(c: Crypto, st: CtxState, op: Op, rest: seq<Op>)
    ensures EmittedNonces(c, st, []) == []
    ensures var emitted := EmittedNonces(c, st, [op] + rest);
            match op
            case Seal(aad, pt) =>
              var (next, answer) := SealStep(c, st, aad, pt);
              emitted == (if answer.Done? then [answer.nonce] else []) + EmittedNonces(c, next, rest)
            case Open(aad, ct) => emitted == EmittedNonces(c, OpenStep(c, st, aad, ct).0, rest)
            case Export(_, _) => emitted == EmittedNonces(c, st, rest)
            case Release => emitted == []
  {
    hide SealStep, OpenStep, ExportOf;
    assert ([op] + rest)[1..] == rest;
    if op.Release? {
      ClosedForGood(c, rest, Release);
    }
  }
}
