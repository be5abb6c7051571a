/**
 * HPKE contexts (packages/cs2-core/seal/hpke.js): encapsulation in four modes, the
 * key schedule, and a sequence-numbered context that can be closed.
 *
 * X25519, HKDF and the AEAD are arbitrary functions; GoodCrypto says what is
 * assumed of them.
 */
module Hpke {
  import opened Bytes
  import opened Text

  datatype Reason = BadType | BadLength | BadHeader | BadPadding | BadKey | BadRandom | OpenFailed

  // ---- primitives ----------------------------------------------------------

  datatype Crypto = Crypto(
    publicKey: bytes -> bytes,
    x25519: (bytes, bytes) -> Option<bytes>,
    extract: (bytes, bytes) -> bytes,
    expand: (bytes, bytes, nat) -> Option<bytes>,
    seal: (bytes, bytes, bytes, bytes) -> Option<bytes>,
    open: (bytes, bytes, bytes, bytes) -> Option<bytes>)

  ghost predicate Commutes(c: Crypto, a: bytes, b: bytes) {
    |a| == 32 && |b| == 32 ==>
      |c.publicKey(a)| == 32 && c.x25519(a, c.publicKey(b)) == c.x25519(b, c.publicKey(a))
  }

  ghost predicate Opens(c: Crypto, key: bytes, nonce: bytes, aad: bytes, pt: bytes) {
    c.seal(key, nonce, aad, pt).Some? ==> c.open(key, nonce, aad, c.seal(key, nonce, aad, pt).value) == Some(pt)
  }

  ghost predicate Expands(c: Crypto, prk: bytes, info: bytes, length: nat) {
    c.expand(prk, info, length).Some? ==> |c.expand(prk, info, length).value| == length
  }

  /** Diffie-Hellman commutes, the AEAD opens what it sealed, expand fills its length. */
  ghost predicate GoodCrypto(c: Crypto) {
    && (forall a, b :: Commutes(c, a, b))
    && (forall key, nonce, aad, pt :: Opens(c, key, nonce, aad, pt))
    && (forall prk, info, length :: Expands(c, prk, info, length))
  }

  ghost predicate AeadWorks(c: Crypto, key: bytes, nonce: bytes, aad: bytes, pt: bytes) {
    |key| == 32 && |nonce| == 12 ==>
      c.seal(key, nonce, aad, pt).Some? && |c.seal(key, nonce, aad, pt).value| == |pt| + 16
  }

  ghost predicate ExpandWorks(c: Crypto, prk: bytes, info: bytes, length: nat) {
    length <= 255 * 32 ==> c.expand(prk, info, length).Some?
  }

  /** GoodCrypto, and the AEAD and the expansion do not fail on well-sized input. */
  ghost predicate WorkingCrypto(c: Crypto) {
    && GoodCrypto(c)
    && (forall key, nonce, aad, pt :: AeadWorks(c, key, nonce, aad, pt))
    && (forall prk, info, length :: ExpandWorks(c, prk, info, length))
  }

  function U16(n: nat): bytes { [(n / 256) % 256, n % 256] }

  const KEM_ID := 0x0020
  const KDF_ID := 0x0001
  const AEAD_ID := 0x0003
  const MODE_BASE := 0
  const MODE_PSK := 1
  const MODE_AUTH := 2
  const MODE_AUTH_PSK := 3
  const NSECRET: nat := 32
  const NK: nat := 32
  const NN: nat := 12
  const NH: nat := 32
  const MAX_SEQ: nat := 0x1F_FFFF_FFFF_FFFF

  function SuiteKem(): bytes { Ascii("KEM") + U16(KEM_ID) }

  function SuiteHpke(): bytes { Ascii("HPKE") + U16(KEM_ID) + U16(KDF_ID) + U16(AEAD_ID) }

  function ExtractInput(suite: bytes, tag: string, ikm: bytes): bytes {
    Ascii("HPKE-v1") + suite + Ascii(tag) + ikm
  }

  function ExpandInput(suite: bytes, tag: string, info: bytes, length: nat): bytes {
    U16(length) + Ascii("HPKE-v1") + suite + Ascii(tag) + info
  }

  /** An empty salt is no salt to the KDF. */
  function LabeledExtract(c: Crypto, suite: bytes, salt: bytes, tag: string, ikm: bytes): bytes {
    c.extract(salt, ExtractInput(suite, tag, ikm))
  }

  function LabeledExpand(c: Crypto, suite: bytes, prk: bytes, tag: string, info: bytes, length: nat): Option<bytes> {
    c.expand(prk, ExpandInput(suite, tag, info, length), length)
  }

  /** dh: an all-zero shared secret is refused like a rejected point. */
  function Dh(c: Crypto, sk: bytes, pk: bytes): Option<bytes> {
    match c.x25519(sk, pk)
    case None => None
    case Some(shared) => if forall i :: 0 <= i < |shared| ==> shared[i] == 0 then None else Some(shared)
  }

  function ExtractAndExpand(c: Crypto, sharedDh: bytes, kemContext: bytes): Option<bytes> {
    LabeledExpand(
      c, SuiteKem(), LabeledExtract(c, SuiteKem(), [], "eae_prk", sharedDh), "shared_secret", kemContext, NSECRET)
  }

  // ---- encapsulation -------------------------------------------------------

  /** encapWith: the shared secret and the encapsulated key. */
  function EncapWith(c: Crypto, pkR: bytes, skE: bytes, skS: Option<bytes>): Result<(bytes, bytes), Reason> {
    if |pkR| != 32 || |skE| != 32 then Err(BadKey)
    else
      var pkE, dhER := c.publicKey(skE), Dh(c, skE, pkR);
      if dhER.None? then Err(BadKey)
      else if skS.Some? && (|skS.value| != 32 || Dh(c, skS.value, pkR).None?) then Err(BadKey)
      else
        var sharedDh := dhER.value + (if skS.Some? then Dh(c, skS.value, pkR).value else []);
        var kemContext := pkE + pkR + (if skS.Some? then c.publicKey(skS.value) else []);
        match ExtractAndExpand(c, sharedDh, kemContext)
        case None => Err(OpenFailed)
        case Some(shared) => Ok((shared, pkE))
  }

  /** decapWith: the shared secret. */
  function DecapWith(c: Crypto, enc: bytes, skR: bytes, pkS: Option<bytes>): Result<bytes, Reason> {
    if |enc| != 32 || |skR| != 32 then Err(BadKey)
    else
      var pkR, dhRE := c.publicKey(skR), Dh(c, skR, enc);
      if dhRE.None? then Err(OpenFailed)
      else if pkS.Some? && |pkS.value| != 32 then Err(BadKey)
      else if pkS.Some? && Dh(c, skR, pkS.value).None? then Err(OpenFailed)
      else
        var sharedDh := dhRE.value + (if pkS.Some? then Dh(c, skR, pkS.value).value else []);
        var kemContext := enc + pkR + (if pkS.Some? then pkS.value else []);
        match ExtractAndExpand(c, sharedDh, kemContext)
        case None => Err(OpenFailed)
        case Some(shared) => Ok(shared)
  }

  // ---- key schedule --------------------------------------------------------

  datatype Schedule = Schedule(
    key: bytes, baseNonce: bytes, exporterSecret: bytes, secret: bytes, sharedSecret: bytes, context: bytes)

  function KeySchedule(c: Crypto, mode: int, shared: bytes, info: bytes, psk: bytes, pskId: bytes)
    : Result<Schedule, Reason>
  {
    var gotPsk, gotId := psk != [], pskId != [];
    if mode < MODE_BASE || mode > MODE_AUTH_PSK then Err(BadKey)
    else if gotPsk != gotId then Err(BadKey)
    else if gotPsk && (mode == MODE_BASE || mode == MODE_AUTH) then Err(BadKey)
    else if !gotPsk && (mode == MODE_PSK || mode == MODE_AUTH_PSK) then Err(BadKey)
    else
      var context := [mode] + LabeledExtract(c, SuiteHpke(), [], "psk_id_hash", pskId)
                   + LabeledExtract(c, SuiteHpke(), [], "info_hash", info);
      var secret := LabeledExtract(c, SuiteHpke(), shared, "secret", psk);
      var key := LabeledExpand(c, SuiteHpke(), secret, "key", context, NK);
      var baseNonce := LabeledExpand(c, SuiteHpke(), secret, "base_nonce", context, NN);
      var exporterSecret := LabeledExpand(c, SuiteHpke(), secret, "exp", context, NH);
      if key.None? || baseNonce.None? || exporterSecret.None? then Err(OpenFailed)
      else Ok(Schedule(key.value, baseNonce.value, exporterSecret.value, secret, shared, context))
  }

  predicate IsAuth(mode: int) { mode == MODE_AUTH || mode == MODE_AUTH_PSK }

  /** setupS: the schedule and the encapsulated key. A missing skS means no authentication. */
  function SetupS(
    c: Crypto, mode: int, pkR: bytes, skE: bytes, skS: Option<bytes>, info: bytes, psk: bytes, pskId: bytes)
    : Result<(Schedule, bytes), Reason>
  {
    match EncapWith(c, pkR, skE, if IsAuth(mode) then skS else None)
    case Err(e) => Err(e)
    case Ok((shared, enc)) =>
      match KeySchedule(c, mode, shared, info, psk, pskId)
      case Err(e) => Err(e)
      case Ok(sched) => Ok((sched, enc))
  }

  function SetupR(
    c: Crypto, mode: int, enc: bytes, skR: bytes, pkS: Option<bytes>, info: bytes, psk: bytes, pskId: bytes)
    : Result<Schedule, Reason>
  {
    match DecapWith(c, enc, skR, if IsAuth(mode) then pkS else None)
    case Err(e) => Err(e)
    case Ok(shared) => KeySchedule(c, mode, shared, info, psk, pskId)
  }

  /** The public half of an optional secret key. */
  function PublicOf(c: Crypto, sk: Option<bytes>): Option<bytes> {
    match sk
    case None => None
    case Some(s) => Some(c.publicKey(s))
  }

  lemma {:induction false} DhAgrees(c: Crypto, a: bytes, b: bytes)
    requires GoodCrypto(c) && |a| == 32 && |b| == 32
    ensures |c.publicKey(a)| == 32 && |c.publicKey(b)| == 32
    ensures Dh(c, a, c.publicKey(b)) == Dh(c, b, c.publicKey(a))
  {
    assert Commutes(c, a, b) && Commutes(c, b, a);
  }

  /** Matching inputs encapsulate and decapsulate to one secret; one side fails only if the other does. */
  lemma {:induction false} KemAgrees(c: Crypto, skE: bytes, skR: bytes, skS: Option<bytes>)
    requires GoodCrypto(c) && |skE| == 32 && |skR| == 32 && (skS.Some? ==> |skS.value| == 32)
    ensures var sent := EncapWith(c, c.publicKey(skR), skE, skS);
            var received := DecapWith(c, c.publicKey(skE), skR, PublicOf(c, skS));
            && (sent.Ok? <==> received.Ok?)
            && (sent.Ok? ==> sent.value == (received.value, c.publicKey(skE)))
  {
    hide GoodCrypto, Dh, ExtractAndExpand;
    DhAgrees(c, skE, skR);
    if skS.Some? {
      DhAgrees(c, skS.value, skR);
    }
  }

  /**
   * In all four modes matching setups derive one schedule: the same key, base nonce
   * and exporter secret on both sides.
   */
  lemma {:induction false} SetupsAgree(
    c: Crypto, mode: int, skE: bytes, skR: bytes, skS: Option<bytes>, info: bytes, psk: bytes, pskId: bytes)
    requires GoodCrypto(c) && |skE| == 32 && |skR| == 32 && (skS.Some? ==> |skS.value| == 32)
    ensures var sent := SetupS(c, mode, c.publicKey(skR), skE, skS, info, psk, pskId);
            var received := SetupR(c, mode, c.publicKey(skE), skR, PublicOf(c, skS), info, psk, pskId);
            && (sent.Ok? <==> received.Ok?)
            && (sent.Ok? ==> sent.value == (received.value, c.publicKey(skE)))
  {
    hide GoodCrypto, EncapWith, DecapWith, KeySchedule;
    KemAgrees(c, skE, skR, if IsAuth(mode) then skS else None);
  }

  lemma {:induction false} ScheduleWidths(
    c: Crypto, mode: int, shared: bytes, info: bytes, psk: bytes, pskId: bytes)
    requires GoodCrypto(c) && KeySchedule(c, mode, shared, info, psk, pskId).Ok?
    ensures var s := KeySchedule(c, mode, shared, info, psk, pskId).value;
            |s.key| == NK && |s.baseNonce| == NN && |s.exporterSecret| == NH
  {
    var s := KeySchedule(c, mode, shared, info, psk, pskId).value;
    hide SuiteHpke, ExpandInput;
    assert Expands(c, s.secret, ExpandInput(SuiteHpke(), "key", s.context, NK), NK);
    assert Expands(c, s.secret, ExpandInput(SuiteHpke(), "base_nonce", s.context, NN), NN);
    assert Expands(c, s.secret, ExpandInput(SuiteHpke(), "exp", s.context, NH), NH);
  }

  /** Both or neither of the secret and its id, and exactly in the two modes that use them. */
  predicate PskFitsMode(mode: int, psk: bytes, pskId: bytes) {
    MODE_BASE <= mode <= MODE_AUTH_PSK && (psk != [] <==> pskId != [])
    && (psk != [] <==> mode == MODE_PSK || mode == MODE_AUTH_PSK)
  }

  /** The inputs are refused exactly when the pre-shared key does not fit the mode. */
  lemma {:induction false} ScheduleRefuses(
    c: Crypto, mode: int, shared: bytes, info: bytes, psk: bytes, pskId: bytes)
    ensures KeySchedule(c, mode, shared, info, psk, pskId) == Err(BadKey) <==> !PskFitsMode(mode, psk, pskId)
  {
    hide LabeledExtract, LabeledExpand;
  }

  const SCHEDULE_LABELS: set<string> := {"key", "base_nonce", "exp", "sec"}

  /** The key, the nonce, the exporter secret and any export are expanded from different inputs. */
  lemma {:induction false} LabelsSeparate(
    tag1: string, tag2: string, info1: bytes, info2: bytes, length1: nat, length2: nat)
    requires tag1 in SCHEDULE_LABELS && tag2 in SCHEDULE_LABELS && tag1 != tag2
    ensures ExpandInput(SuiteHpke(), tag1, info1, length1) != ExpandInput(SuiteHpke(), tag2, info2, length2)
  {
    var at := 2 + |Ascii("HPKE-v1")| + |SuiteHpke()|;
    FirstOfLabel(tag1, info1, length1, at);
    FirstOfLabel(tag2, info2, length2, at);
  }

  lemma {:induction false} FirstOfLabel(tag: string, info: bytes, length: nat, at: nat)
    requires tag != "" && at == 2 + |Ascii("HPKE-v1")| + |SuiteHpke()|
    ensures at < |ExpandInput(SuiteHpke(), tag, info, length)|
    ensures ExpandInput(SuiteHpke(), tag, info, length)[at] == Ascii(tag)[0]
  {
    hide SuiteHpke;
  }

  /** Two inputs of the extraction, unsalted, with one value. */
  predicate ExtractCollision(c: Crypto, x: bytes, y: bytes) { x != y && c.extract([], x) == c.extract([], y) }

  ghost predicate Extracts(c: Crypto, salt: bytes, ikm: bytes) { |c.extract(salt, ikm)| == NH }

  lemma {:induction false} ExtractInputInjective(suite: bytes, tag: string, x: bytes, y: bytes)
    requires ExtractInput(suite, tag, x) == ExtractInput(suite, tag, y)
    ensures x == y
  {
    hide Ascii;
    var n := |Ascii("HPKE-v1") + suite + Ascii(tag)|;
    assert ExtractInput(suite, tag, x)[n..] == x && ExtractInput(suite, tag, y)[n..] == y;
  }

  /** A key schedule context fixes the mode, the info and the key id, or extraction inputs collide. */
  lemma {:induction false} ContextBinds(
    c: Crypto, mode1: int, shared1: bytes, info1: bytes, psk1: bytes, pskId1: bytes,
    mode2: int, shared2: bytes, info2: bytes, psk2: bytes, pskId2: bytes)
    requires forall salt, ikm :: Extracts(c, salt, ikm)
    requires KeySchedule(c, mode1, shared1, info1, psk1, pskId1).Ok?
    requires KeySchedule(c, mode2, shared2, info2, psk2, pskId2).Ok?
    requires KeySchedule(c, mode1, shared1, info1, psk1, pskId1).value.context
          == KeySchedule(c, mode2, shared2, info2, psk2, pskId2).value.context
    ensures var suite := SuiteHpke();
            || (mode1 == mode2 && info1 == info2 && pskId1 == pskId2)
            || ExtractCollision(c, ExtractInput(suite, "info_hash", info1), ExtractInput(suite, "info_hash", info2))
            || ExtractCollision(
                 c, ExtractInput(suite, "psk_id_hash", pskId1), ExtractInput(suite, "psk_id_hash", pskId2))
  {
    hide SuiteHpke, ExtractInput, LabeledExpand;
    var suite := SuiteHpke();
    var (i1, i2) := (ExtractInput(suite, "info_hash", info1), ExtractInput(suite, "info_hash", info2));
    var (p1, p2) := (ExtractInput(suite, "psk_id_hash", pskId1), ExtractInput(suite, "psk_id_hash", pskId2));
    var x := KeySchedule(c, mode1, shared1, info1, psk1, pskId1).value.context;
    var y := KeySchedule(c, mode2, shared2, info2, psk2, pskId2).value.context;
    assert Extracts(c, [], p1) && Extracts(c, [], p2);
    assert x[0] == mode1 && y[0] == mode2;
    assert x[1..33] == c.extract([], p1) && y[1..33] == c.extract([], p2);
    assert x[33..] == c.extract([], i1) && y[33..] == c.extract([], i2);
    if i1 == i2 && p1 == p2 {
      ExtractInputInjective(suite, "info_hash", info1, info2);
      ExtractInputInjective(suite, "psk_id_hash", pskId1, pskId2);
    }
  }

  // ---- nonces --------------------------------------------------------------

  /** The exclusive or of the k low bits. */
  function XorBits(a: nat, b: nat, k: nat): (r: nat)
    ensures r < Pow2(k)
  {
    if k == 0 then 0 else 2 * XorBits(a / 2, b / 2, k - 1) + (if a % 2 == b % 2 then 0 else 1)
  }

  lemma {:induction false} Halves(q: nat, bit: nat)
    requires bit < 2
    ensures (2 * q + bit) / 2 == q && (2 * q + bit) % 2 == bit
  {
  }

  /** One bit of the exclusive or. */
  lemma {:induction false} XorBitsStep(a: nat, b: nat, k: nat)
    requires k > 0
    ensures XorBits(a, b, k) == 2 * XorBits(a / 2, b / 2, k - 1) + (if a % 2 == b % 2 then 0 else 1)
    ensures b < Pow2(k) ==> b / 2 < Pow2(k - 1)
  {
  }

  lemma {:induction false} XorBitsTwice(a: nat, b: nat, k: nat)
    requires b < Pow2(k)
    ensures XorBits(a, XorBits(a, b, k), k) == b
  {
    hide XorBits, Pow2;
    if k == 0 {
      NoBits(a, b);
    } else {
      var q, bit := XorBits(a / 2, b / 2, k - 1), if a % 2 == b % 2 then 0 else 1;
      XorBitsStep(a, b, k);
      Halves(q, bit);
      XorBitsStep(a, 2 * q + bit, k);
      XorBitsTwice(a / 2, b / 2, k - 1);
    }
  }

  lemma {:induction false} NoBits(a: nat, b: nat)
    ensures XorBits(a, b, 0) == 0 && Pow2(0) == 1
  {
  }

  function Xor(a: byte, b: byte): byte {
    assert Pow2(8) == 256;
    XorBits(a, b, 8)
  }

  lemma {:induction false} XorTwice(a: byte, b: byte)
    ensures Xor(a, Xor(a, b)) == b
  {
    assert Pow2(8) == 256;
    XorBitsTwice(a, b, 8);
  }

  function XorBytes(a: bytes, b: bytes): (r: bytes)
    requires |a| == |b|
    ensures |r| == |a| && forall i :: 0 <= i < |a| ==> r[i] == Xor(a[i], b[i])
  {
    if a == [] then [] else [Xor(a[0], b[0])] + XorBytes(a[1..], b[1..])
  }

  /** base_nonce XOR I2OSP(seq), or null when the sequence number does not fit. */
  function ComputeNonce(baseNonce: bytes, seqNo: nat): Option<bytes> {
    if seqNo > MAX_SEQ || seqNo >= Pow256(|baseNonce|) then None
    else Some(XorBytes(baseNonce, ToBytes(seqNo, |baseNonce|)))
  }

  /** Under one base nonce, different sequence numbers have different nonces. */
  lemma {:induction false} NonceInjective(baseNonce: bytes, m: nat, n: nat)
    requires ComputeNonce(baseNonce, m).Some? && ComputeNonce(baseNonce, m) == ComputeNonce(baseNonce, n)
    ensures m == n
  {
    hide Xor, ToBytes, Pow256;
    var a, b := ToBytes(m, |baseNonce|), ToBytes(n, |baseNonce|);
    forall i | 0 <= i < |a| ensures a[i] == b[i] {
      assert XorBytes(baseNonce, a)[i] == XorBytes(baseNonce, b)[i];
      XorTwice(baseNonce[i], a[i]);
      XorTwice(baseNonce[i], b[i]);
    }
    assert a == b;
    BigOfToBytes(m, |baseNonce|);
    BigOfToBytes(n, |baseNonce|);
  }

  /** Every sequence number a live context can hold has a 12-byte nonce. */
  lemma {:induction false} NonceExists(baseNonce: bytes, seqNo: nat)
    requires |baseNonce| == NN && seqNo < MAX_SEQ
    ensures ComputeNonce(baseNonce, seqNo).Some?
  {
    assert Pow256(7) == 0x100_0000_0000_0000;
    assert Pow256(12) == 256 * (256 * (256 * (256 * (256 * Pow256(7)))));
  }

  // ---- contexts as values --------------------------------------------------

  datatype CtxState = Live(key: bytes, baseNonce: bytes, exporterSecret: bytes, seqNo: nat) | Closed

  datatype Answer = Done(nonce: bytes, data: bytes) | Exported(secret: bytes) | Failed | Threw

  /** liveState does not throw, and the nonce exists. */
  predicate Usable(st: CtxState) {
    st.Live? && st.seqNo < MAX_SEQ && ComputeNonce(st.baseNonce, st.seqNo).Some?
  }

  function SealStep(c: Crypto, st: CtxState, aad: bytes, pt: bytes): (CtxState, Answer) {
    if !Usable(st) then (st, Threw)
    else
      var nonce := ComputeNonce(st.baseNonce, st.seqNo).value;
      match c.seal(st.key, nonce, aad, pt)
      case None => (st, Failed)
      case Some(ct) => (st.(seqNo := st.seqNo + 1), Done(nonce, ct))
  }

  function OpenStep(c: Crypto, st: CtxState, aad: bytes, ct: bytes): (CtxState, Answer) {
    if !Usable(st) then (st, Threw)
    else
      var nonce := ComputeNonce(st.baseNonce, st.seqNo).value;
      match c.open(st.key, nonce, aad, ct)
      case None => (st, Failed)
      case Some(pt) => (st.(seqNo := st.seqNo + 1), Done(nonce, pt))
  }

  /** contextExport: at most 255 hash blocks. */
  function ExportOf(c: Crypto, st: CtxState, info: bytes, length: nat): Answer {
    if st.Closed? || st.seqNo >= MAX_SEQ then Threw
    else if length > 255 * NH then Failed
    else
      match LabeledExpand(c, SuiteHpke(), st.exporterSecret, "sec", info, length)
      case None => Failed
      case Some(out) => Exported(out)
  }

  // ---- ordering ------------------------------------------------------------

  /** Seal messages one after another; the ciphertexts of the ones that were sealed. */
  function SealAll(c: Crypto, st: CtxState, messages: seq<(bytes, bytes)>): seq<(bytes, bytes)>
    decreases |messages|
  {
    if messages == [] then []
    else
      var (aad, pt) := messages[0];
      var (next, answer) := SealStep(c, st, aad, pt);
      (if answer.Done? then [(aad, answer.data)] else []) + SealAll(c, next, messages[1..])
  }

  /** The plaintexts of the messages that were sealed. */
  function SealedTexts(c: Crypto, st: CtxState, messages: seq<(bytes, bytes)>): seq<bytes>
    decreases |messages|
  {
    if messages == [] then []
    else
      var (aad, pt) := messages[0];
      var (next, answer) := SealStep(c, st, aad, pt);
      (if answer.Done? then [pt] else []) + SealedTexts(c, next, messages[1..])
  }

  /** Open deliveries one after another; the plaintexts of the ones that opened. */
  function OpenAll(c: Crypto, st: CtxState, deliveries: seq<(bytes, bytes)>): seq<bytes>
    decreases |deliveries|
  {
    if deliveries == [] then []
    else
      var (next, answer) := OpenStep(c, st, deliveries[0].0, deliveries[0].1);
      (if answer.Done? then [answer.data] else []) + OpenAll(c, next, deliveries[1..])
  }

  /** A sealed message opens at the same state, and both sides advance alike. */
  lemma {:induction false} StepOpens(c: Crypto, st: CtxState, aad: bytes, pt: bytes)
    requires GoodCrypto(c) && SealStep(c, st, aad, pt).1.Done?
    ensures var (next, answer) := SealStep(c, st, aad, pt);
            OpenStep(c, st, aad, answer.data) == (next, Done(answer.nonce, pt))
  {
    hide ComputeNonce;
    assert Opens(c, st.key, ComputeNonce(st.baseNonce, st.seqNo).value, aad, pt);
  }

  /** Any run of seals, failed ones included, is opened in order to the same plaintexts. */
  lemma {:induction false} OpenedInOrder(c: Crypto, st: CtxState, messages: seq<(bytes, bytes)>)
    requires GoodCrypto(c)
    ensures OpenAll(c, st, SealAll(c, st, messages)) == SealedTexts(c, st, messages)
    decreases |messages|
  {
    hide GoodCrypto, SealStep, OpenStep;
    if messages != [] {
      var (aad, pt) := messages[0];
      var (next, answer) := SealStep(c, st, aad, pt);
      OpenedInOrder(c, next, messages[1..]);
      if answer.Done? {
        StepOpens(c, st, aad, pt);
        var cts := SealAll(c, st, messages);
        assert cts[0] == (aad, answer.data) && cts[1..] == SealAll(c, next, messages[1..]);
      } else {
        SealFailureKeeps(c, st, aad, pt);
        assert SealAll(c, st, messages) == SealAll(c, st, messages[1..]);
      }
    }
  }

  lemma {:induction false} SealFailureKeeps(c: Crypto, st: CtxState, aad: bytes, pt: bytes)
    requires !SealStep(c, st, aad, pt).1.Done?
    ensures SealStep(c, st, aad, pt).0 == st
  {
  }

  /** The receiver's state after some deliveries. */
  function AfterOpens(c: Crypto, st: CtxState, deliveries: seq<(bytes, bytes)>): CtxState
    decreases |deliveries|
  {
    if deliveries == [] then st
    else AfterOpens(c, OpenStep(c, st, deliveries[0].0, deliveries[0].1).0, deliveries[1..])
  }

  lemma {:induction false} OpenAllStep(c: Crypto, st: CtxState, first: (bytes, bytes), rest: seq<(bytes, bytes)>)
    ensures OpenAll(c, st, [first] + rest)
         == (if OpenStep(c, st, first.0, first.1).1.Done? then [OpenStep(c, st, first.0, first.1).1.data] else [])
          + OpenAll(c, OpenStep(c, st, first.0, first.1).0, rest)
    ensures AfterOpens(c, st, [first] + rest) == AfterOpens(c, OpenStep(c, st, first.0, first.1).0, rest)
  {
    hide OpenStep;
    assert ([first] + rest)[1..] == rest;
  }

  lemma {:induction false} OpenFailureKeeps(c: Crypto, st: CtxState, aad: bytes, ct: bytes)
    requires !OpenStep(c, st, aad, ct).1.Done?
    ensures OpenStep(c, st, aad, ct).0 == st
  {
    hide ComputeNonce;
  }

  /** Deliveries that do not open, anywhere in the stream, do not disturb the rest. */
  lemma {:induction false} JunkIsSkipped(
    c: Crypto, st: CtxState, before: seq<(bytes, bytes)>, junk: (bytes, bytes), after: seq<(bytes, bytes)>)
    requires !OpenStep(c, AfterOpens(c, st, before), junk.0, junk.1).1.Done?
    ensures OpenAll(c, st, before + [junk] + after) == OpenAll(c, st, before + after)
    decreases |before|
  {
    hide OpenStep, OpenAll;
    if before == [] {
      OpenAllStep(c, st, junk, after);
      OpenFailureKeeps(c, st, junk.0, junk.1);
      assert before + [junk] + after == [junk] + after && before + after == after;
    } else {
      hide AfterOpens;
      var (head, tail) := (before[0], before[1..]);
      assert before == [head] + tail;
      OpenAllStep(c, st, head, tail);
      JunkIsSkipped(c, OpenStep(c, st, head.0, head.1).0, tail, junk, after);
      OpenAllStep(c, st, head, tail + [junk] + after);
      OpenAllStep(c, st, head, tail + after);
      assert before + [junk] + after == [head] + (tail + [junk] + after) && before + after == [head] + (tail + after);
    }
  }

  // ---- nonces are not reused -----------------------------------------------

  datatype Op = Seal(aad: bytes, pt: bytes) | Open(aad: bytes, ct: bytes) | Export(info: bytes, length: nat) | Release

  function OpStep(c: Crypto, st: CtxState, op: Op): (CtxState, Answer) {
    match op
    case Seal(aad, pt) => SealStep(c, st, aad, pt)
    case Open(aad, ct) => OpenStep(c, st, aad, ct)
    case Export(info, length) => (st, ExportOf(c, st, info, length))
    case Release => (Closed, Failed)
  }

  /** The nonces of the ciphertexts that a run of operations on one context emits. */
  function EmittedNonces(c: Crypto, st: CtxState, ops: seq<Op>): seq<bytes>
    decreases |ops|
  {
    if ops == [] then []
    else
      var (next, answer) := OpStep(c, st, ops[0]);
      (if ops[0].Seal? && answer.Done? then [answer.nonce] else []) + EmittedNonces(c, next, ops[1..])
  }

  /** Every nonce a run emits belongs to a sequence number not used before it. */
  lemma {:induction false} EmittedAhead(c: Crypto, st: CtxState, ops: seq<Op>, i: nat) returns (seqNo: nat)
    requires i < |EmittedNonces(c, st, ops)|
    ensures st.Live? && seqNo >= st.seqNo && ComputeNonce(st.baseNonce, seqNo) == Some(EmittedNonces(c, st, ops)[i])
    decreases |ops|
  {
    hide ComputeNonce;
    var (next, answer) := OpStep(c, st, ops[0]);
    var rest := EmittedNonces(c, next, ops[1..]);
    if ops[0].Seal? && answer.Done? {
      if i == 0 {
        seqNo := st.seqNo;
      } else {
        seqNo := EmittedAhead(c, next, ops[1..], i - 1);
      }
    } else {
      seqNo := EmittedAhead(c, next, ops[1..], i);
    }
  }

  /** No two ciphertexts emitted by one context, over any run of operations, share a nonce. */
  lemma {:induction false} NoncesDistinct(c: Crypto, st: CtxState, ops: seq<Op>, i: nat, j: nat)
    requires i < j < |EmittedNonces(c, st, ops)|
    ensures EmittedNonces(c, st, ops)[i] != EmittedNonces(c, st, ops)[j]
    decreases |ops|
  {
    hide ComputeNonce;
    var (next, answer) := OpStep(c, st, ops[0]);
    var nonces, rest := EmittedNonces(c, st, ops), EmittedNonces(c, next, ops[1..]);
    if ops[0].Seal? && answer.Done? {
      assert nonces == [answer.nonce] + rest;
      if i == 0 {
        var later := EmittedAhead(c, next, ops[1..], j - 1);
        if nonces[i] == nonces[j] {
          NonceInjective(st.baseNonce, st.seqNo, later);
        }
      } else {
        NoncesDistinct(c, next, ops[1..], i - 1, j - 1);
      }
    } else {
      assert nonces == rest;
      NoncesDistinct(c, next, ops[1..], i, j);
    }
  }

  /** After a release, every later operation of any run throws, and nothing is emitted. */
  lemma {:induction false} ClosedForGood(c: Crypto, ops: seq<Op>, op: Op)
    ensures EmittedNonces(c, Closed, ops) == []
    ensures OpStep(c, Closed, op).0 == Closed && (op.Release? || OpStep(c, Closed, op).1 == Threw)
    decreases |ops|
  {
    if ops != [] {
      ClosedForGood(c, ops[1..], op);
    }
  }

  // ---- two parties ---------------------------------------------------------

  function At(s: Schedule, seqNo: nat): CtxState { Live(s.key, s.baseNonce, s.exporterSecret, seqNo) }

  function FreshContext(s: Schedule): CtxState { At(s, 0) }

  /** Deliveries change nothing of a live context but its sequence number. */
  lemma {:induction false} OpensKeepSecrets(c: Crypto, st: CtxState, deliveries: seq<(bytes, bytes)>)
    requires st.Live?
    ensures var after := AfterOpens(c, st, deliveries);
            after.Live? && after == st.(seqNo := after.seqNo) && after.seqNo <= st.seqNo + |deliveries|
    decreases |deliveries|
  {
    hide ComputeNonce;
    if deliveries != [] {
      OpensKeepSecrets(c, OpenStep(c, st, deliveries[0].0, deliveries[0].1).0, deliveries[1..]);
    }
  }

  /**
   * Parties with matching inputs, in any mode: whatever the sender seals, the receiver
   * opens in order; a seal fails only when the AEAD does; and both export the same
   * bytes, whatever the receiver has been sent meanwhile.
   */
  lemma {:induction false} Conversation(
    c: Crypto, mode: int, skE: bytes, skR: bytes, skS: Option<bytes>, info: bytes, psk: bytes, pskId: bytes,
    messages: seq<(bytes, bytes)>, deliveries: seq<(bytes, bytes)>, tag: bytes, length: nat)
    requires GoodCrypto(c) && |skE| == 32 && |skR| == 32 && (skS.Some? ==> |skS.value| == 32)
    requires SetupS(c, mode, c.publicKey(skR), skE, skS, info, psk, pskId).Ok?
    requires |deliveries| < MAX_SEQ
    ensures var sent := SetupS(c, mode, c.publicKey(skR), skE, skS, info, psk, pskId);
            var received := SetupR(c, mode, sent.value.1, skR, PublicOf(c, skS), info, psk, pskId);
            && received.Ok?
            && (forall seqNo: nat :: Usable(At(sent.value.0, seqNo)) <==> seqNo < MAX_SEQ)
            && OpenAll(c, FreshContext(received.value), SealAll(c, FreshContext(sent.value.0), messages))
               == SealedTexts(c, FreshContext(sent.value.0), messages)
            && ExportOf(c, FreshContext(sent.value.0), tag, length)
               == ExportOf(c, AfterOpens(c, FreshContext(received.value), deliveries), tag, length)
  {
    hide GoodCrypto, SetupS, SetupR, SealAll, SealedTexts, OpenAll, AfterOpens, LabeledExpand, ComputeNonce, Pow256,
         ExportOf, Usable;
    SetupWidths(c, mode, c.publicKey(skR), skE, skS, info, psk, pskId);
    SetupsAgree(c, mode, skE, skR, skS, info, psk, pskId);
    var (sched, _) := SetupS(c, mode, c.publicKey(skR), skE, skS, info, psk, pskId).value;
    LiveNumbers(sched);
    OpenedInOrder(c, FreshContext(sched), messages);
    OpensKeepSecrets(c, FreshContext(sched), deliveries);
    ExportKeeps(c, FreshContext(sched), AfterOpens(c, FreshContext(sched), deliveries), tag, length);
  }

  /** A scheduled context is usable at every number below the limit. */
  lemma {:induction false} LiveNumbers(sched: Schedule)
    requires |sched.baseNonce| == NN
    ensures forall seqNo: nat :: Usable(At(sched, seqNo)) <==> seqNo < MAX_SEQ
  {
    hide ComputeNonce;
    forall seqNo: nat ensures Usable(At(sched, seqNo)) <==> seqNo < MAX_SEQ {
      if seqNo < MAX_SEQ {
        NonceExists(sched.baseNonce, seqNo);
      }
    }
  }

  /** An export does not depend on the sequence number while the context is live. */
  lemma {:induction false} ExportKeeps(c: Crypto, st: CtxState, after: CtxState, tag: bytes, length: nat)
    requires st.Live? && after.Live? && after == st.(seqNo := after.seqNo)
    requires st.seqNo < MAX_SEQ && after.seqNo < MAX_SEQ
    ensures ExportOf(c, st, tag, length) == ExportOf(c, after, tag, length)
  {
    hide LabeledExpand;
  }

  lemma {:induction false} SetupWidths(
    c: Crypto, mode: int, pkR: bytes, skE: bytes, skS: Option<bytes>, info: bytes, psk: bytes, pskId: bytes)
    requires GoodCrypto(c) && SetupS(c, mode, pkR, skE, skS, info, psk, pskId).Ok?
    ensures var s := SetupS(c, mode, pkR, skE, skS, info, psk, pskId).value.0;
            |s.key| == NK && |s.baseNonce| == NN && |s.exporterSecret| == NH
  {
    hide GoodCrypto, EncapWith, KeySchedule;
    var shared := EncapWith(c, pkR, skE, if IsAuth(mode) then skS else None).value.0;
    ScheduleWidths(c, mode, shared, info, psk, pskId);
  }

  // ---- one-shot base mode --------------------------------------------------

  /** sealBase: a fresh context seals once; the context is then released. */
  function SealBase(c: Crypto, pkR: bytes, info: bytes, aad: bytes, pt: bytes, esk: bytes)
    : Result<(bytes, bytes), Reason>
  {
    match SetupS(c, MODE_BASE, pkR, esk, None, info, [], [])
    case Err(e) => Err(e)
    case Ok((sched, enc)) =>
      var answer := SealStep(c, FreshContext(sched), aad, pt).1;
      if answer.Done? then Ok((enc, answer.data)) else Err(OpenFailed)
  }

  function OpenBase(c: Crypto, enc: bytes, skR: bytes, info: bytes, aad: bytes, ct: bytes): Result<bytes, Reason> {
    match SetupR(c, MODE_BASE, enc, skR, None, info, [], [])
    case Err(e) => Err(e)
    case Ok(sched) =>
      var answer := OpenStep(c, FreshContext(sched), aad, ct).1;
      if answer.Done? then Ok(answer.data) else Err(OpenFailed)
  }

  /** What one side seals in base mode, the holder of the matching key opens. */
  lemma {:induction false} BaseRoundTrip(c: Crypto, skR: bytes, info: bytes, aad: bytes, pt: bytes, esk: bytes)
    requires GoodCrypto(c) && |skR| == 32 && SealBase(c, c.publicKey(skR), info, aad, pt, esk).Ok?
    ensures var (enc, ct) := SealBase(c, c.publicKey(skR), info, aad, pt, esk).value;
            |enc| == 32 && OpenBase(c, enc, skR, info, aad, ct) == Ok(pt)
  {
    EphemeralWidth(c, c.publicKey(skR), info, aad, pt, esk);
    hide GoodCrypto, SealStep, OpenStep, SetupS, SetupR;
    DhAgrees(c, esk, skR);
    SetupsAgree(c, MODE_BASE, esk, skR, None, info, [], []);
    var (sched, enc) := SetupS(c, MODE_BASE, c.publicKey(skR), esk, None, info, [], []).value;
    StepOpens(c, FreshContext(sched), aad, pt);
  }

  lemma {:induction false} EphemeralWidth(
    c: Crypto, pkR: bytes, info: bytes, aad: bytes, pt: bytes, esk: bytes)
    requires SealBase(c, pkR, info, aad, pt, esk).Ok?
    ensures |pkR| == 32 && |esk| == 32
  {
    hide Dh, ExtractAndExpand, KeySchedule, SealStep;
  }

  // ---- the context object --------------------------------------------------

  /** fill(0) on a buffer. */
  method Wipe(buf: array<byte>)
    modifies buf
    ensures forall i :: 0 <= i < buf.Length ==> buf[i] == 0
  {
    forall i | 0 <= i < buf.Length {
      buf[i] := 0;
    }
  }

  method Copy(b: bytes) returns (buf: array<byte>)
    ensures fresh(buf) && buf[..] == b
  {
    buf := new byte[|b|](i requires 0 <= i < |b| => b[i]);
  }

  class Context {
    var key: array?<byte>
    var baseNonce: array?<byte>
    var exporterSecret: array?<byte>
    var secret: array?<byte>
    var sharedSecret: array?<byte>
    var seqNo: Option<nat>
    var dead: bool

    ghost predicate Valid()
      reads this
    {
      && (dead <==> key == null) && (dead <==> baseNonce == null) && (dead <==> exporterSecret == null)
      && (dead <==> secret == null) && (dead <==> sharedSecret == null) && (dead <==> seqNo.None?)
      && (key != null ==>
            && key != baseNonce && key != exporterSecret && key != secret && key != sharedSecret
            && baseNonce != exporterSecret && baseNonce != secret && baseNonce != sharedSecret
            && exporterSecret != secret && exporterSecret != sharedSecret && secret != sharedSecret)
    }

    ghost function View(): CtxState
      requires Valid()
      reads this, key, baseNonce, exporterSecret
    {
      if dead then Closed else Live(key[..], baseNonce[..], exporterSecret[..], seqNo.value)
    }

    /** scheduleRole. */
    constructor (s: Schedule)
      ensures Valid() && View() == FreshContext(s)
      ensures fresh(key) && fresh(baseNonce) && fresh(exporterSecret) && fresh(secret) && fresh(sharedSecret)
    {
      var k := Copy(s.key);
      var b := Copy(s.baseNonce);
      var e := Copy(s.exporterSecret);
      var x := Copy(s.secret);
      var h := Copy(s.sharedSecret);
      key, baseNonce, exporterSecret, secret, sharedSecret := k, b, e, x, h;
      seqNo, dead := Some(0), false;
    }

    /** contextSeal. */
    method Seal(c: Crypto, aad: bytes, pt: bytes) returns (answer: Answer)
      requires Valid()
      modifies this`seqNo
      ensures Valid() && (View(), answer) == SealStep(c, old(View()), aad, pt)
    {
      if dead || seqNo.value >= MAX_SEQ {
        return Threw;
      }
      var nonce := ComputeNonceLoop(baseNonce[..], seqNo.value);
      if nonce.None? {
        return Threw;
      }
      var ct := c.seal(key[..], nonce.value, aad, pt);
      if ct.None? {
        return Failed;
      }
      seqNo := Some(seqNo.value + 1);
      return Done(nonce.value, ct.value);
    }

    /** contextOpen. A failed open leaves the sequence number. */
    method Open(c: Crypto, aad: bytes, ct: bytes) returns (answer: Answer)
      requires Valid()
      modifies this`seqNo
      ensures Valid() && (View(), answer) == OpenStep(c, old(View()), aad, ct)
    {
      if dead || seqNo.value >= MAX_SEQ {
        return Threw;
      }
      var nonce := ComputeNonceLoop(baseNonce[..], seqNo.value);
      if nonce.None? {
        return Threw;
      }
      var pt := c.open(key[..], nonce.value, aad, ct);
      if pt.None? {
        return Failed;
      }
      seqNo := Some(seqNo.value + 1);
      return Done(nonce.value, pt.value);
    }

    /** contextExport. */
    method Export(c: Crypto, info: bytes, length: nat) returns (answer: Answer)
      requires Valid()
      ensures answer == ExportOf(c, View(), info, length)
    {
      if dead || seqNo.value >= MAX_SEQ {
        return Threw;
      }
      if length > 255 * NH {
        return Failed;
      }
      var out := LabeledExpand(c, SuiteHpke(), exporterSecret[..], "sec", info, length);
      return if out.None? then Failed else Exported(out.value);
    }

    /** releaseContext: every secret buffer is zeroed and dropped. */
    method Release()
      requires Valid()
      modifies this, key, baseNonce, exporterSecret, secret, sharedSecret
      ensures Valid() && View() == Closed
      ensures !old(dead) ==>
                && (forall i :: 0 <= i < old(key).Length ==> old(key)[i] == 0)
                && (forall i :: 0 <= i < old(baseNonce).Length ==> old(baseNonce)[i] == 0)
                && (forall i :: 0 <= i < old(exporterSecret).Length ==> old(exporterSecret)[i] == 0)
                && (forall i :: 0 <= i < old(secret).Length ==> old(secret)[i] == 0)
                && (forall i :: 0 <= i < old(sharedSecret).Length ==> old(sharedSecret)[i] == 0)
    {
      if dead {
        return;
      }
      Wipe(key);
      Wipe(baseNonce);
      Wipe(exporterSecret);
      Wipe(secret);
      Wipe(sharedSecret);
      key, baseNonce, exporterSecret, secret, sharedSecret := null, null, null, null, null;
      seqNo, dead := None, true;
    }
  }

  /** computeNonce: XOR the number in from the last byte. */
  method ComputeNonceLoop(baseNonce: bytes, seqNo: nat) returns (nonce: Option<bytes>)
    ensures nonce == ComputeNonce(baseNonce, seqNo)
  {
    hide Xor, ToBytes, Pow256;
    if seqNo > MAX_SEQ {
      return None;
    }
    var out := new byte[|baseNonce|](i requires 0 <= i < |baseNonce| => baseNonce[i]);
    var n: nat, i: nat := seqNo, |baseNonce|;
    while i > 0
      invariant 0 <= i <= |baseNonce|
      invariant seqNo < Pow256(|baseNonce|) <==> n < Pow256(i)
      invariant out[..i] == baseNonce[..i]
      invariant |ToBytes(n, i)| == i
      invariant forall k :: i <= k < |baseNonce| ==> out[k] == Xor(baseNonce[k], ToBytes(seqNo, |baseNonce|)[k])
      invariant ToBytes(seqNo, |baseNonce|)[..i] == ToBytes(n, i)
    {
      ToBytesStep(n, i);
      i := i - 1;
      assert ToBytes(n, i + 1)[i] == n % 256;
      assert ToBytes(n, i + 1)[..i] == ToBytes(n / 256, i);
      assert out[i] == out[..i + 1][i] == baseNonce[i];
      out[i] := Xor(out[i], n % 256);
      n := n / 256;
    }
    NoBytes(n);
    if n != 0 {
      return None;
    }
    assert out[..] == XorBytes(baseNonce, ToBytes(seqNo, |baseNonce|));
    return Some(out[..]);
  }
}
