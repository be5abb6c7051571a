/**
 * The checkpoint signer itself (createCheckpointSigner in
 * services/chit-sealer/kms-secp256k1.js): a DER signature from the key service becomes
 * a signed transaction, and whoever decodes what is sent finds the committed sender.
 *
 * Keccak-256 is an arbitrary function with 32-byte values.
 */
module AnchorSigner {
  import opened Bytes
  import opened MerkleTree
  import opened CurveGroup
  import opened Eip1559
  import opened Anchor
  import opened AnchorRuns
  import Curve
  import Der
  import Ecdsa
  import EcdsaAnswers
  import Rlp

  // ---- the signer ----------------------------------------------------------

  datatype SignError = SignInvalid | BadTransaction(error: TxError)

  /** ethereumAddress: the low 20 bytes of the hash of both coordinates. */
  function EthereumAddress(keccak: Sha, publicKey: bytes): Option<bytes> {
    match Ecdsa.UncompressedPoint(publicKey)
    case None => None
    case Some(point) => Some(keccak(point[1..])[12..])
  }

  /** signDigest, once the key service has answered with a DER signature. */
  function SignDigest(digest: bytes, der: bytes, publicKey: bytes, c: Curve.Curve): Result<Sig, SignError> {
    if |digest| != 32 then Err(SignInvalid)
    else match Der.NormalizeDer(der, c.order)
      case Err(_) => Err(SignInvalid)
      case Ok(raw) =>
        match Ecdsa.YParityByTrial(digest, raw, publicKey, c)
        case Err(_) => Err(SignInvalid)
        case Ok(yParity) => Ok(Sig(yParity, raw[..32], raw[32..]))
  }

  /** signEip1559. */
  function SignEip1559(keccak: Sha, tx: Tx, der: bytes, publicKey: bytes, c: Curve.Curve): Result<bytes, SignError> {
    match Unsigned(tx)
    case Err(e) => Err(BadTransaction(e))
    case Ok(payload) =>
      match SignDigest(keccak(payload), der, publicKey, c)
      case Err(e) => Err(e)
      case Ok(sig) =>
        match Serialize(tx, sig)
        case Err(e) => Err(BadTransaction(e))
        case Ok(raw) => Ok(raw)
  }

  /** The address hashes the abscissa's 32 bytes and then the ordinate's, and keeps the last 20. */
  lemma {:induction false} AddressSpelled(keccak: Sha, publicKey: bytes)
    ensures EthereumAddress(keccak, publicKey)
         == if |publicKey| == 65 && publicKey[0] == 4 then Some(keccak(publicKey[1..65])[12..32])
            else if |publicKey| == 64 then Some(keccak(publicKey)[12..32])
            else None
  {
    if |publicKey| == 65 {
      assert publicKey[1..] == publicKey[1..65];
    } else if |publicKey| == 64 {
      assert ([4] + publicKey)[1..] == publicKey;
    }
    forall data ensures keccak(data)[12..] == keccak(data)[12..32] {
      LastTwenty(keccak, data);
    }
  }

  lemma {:induction false} LastTwenty(keccak: Sha, data: bytes)
    ensures keccak(data)[12..] == keccak(data)[12..32]
  {
  }

  /** The address of a private scalar is that of the coordinates of its multiple of the base point. */
  lemma {:induction false} AddressOfScalar(keccak: Sha, d: int, c: Curve.Curve)
    requires ValidCurve(c) && 0 < d < c.order
    ensures Ecdsa.PublicPoint(d, c).Ok? && Curve.Times(d, Some(c.G), c).Some?
    ensures var Q := Curve.Times(d, Some(c.G), c).value;
            && Q.x >= 0 && Q.y >= 0
            && EthereumAddress(keccak, Ecdsa.PublicPoint(d, c).value)
               == Some(keccak(ToBytes(Q.x, 32) + ToBytes(Q.y, 32))[12..32])
  {
    hide ValidCurve, Curve.OnCurve, ToBytes, Big, Curve.Times, Ecdsa.PublicPoint, Ecdsa.UncompressedPoint;
    EcdsaAnswers.PublicPointExactly(d, c);
    EcdsaAnswers.NonceMultiple(d, c);
    var (key, Q) := (Ecdsa.PublicPoint(d, c).value, Curve.Times(d, Some(c.G), c).value);
    ToBytesOfBig(key[1..33]);
    ToBytesOfBig(key[33..65]);
    assert key[1..65] == key[1..33] + key[33..65];
    AddressSpelled(keccak, key);
  }

  /**
   * signEip1559 fails as the transaction does, or for want of an acceptable signature; else it
   * returns the signed form of that transaction with the signature found.
   */
  lemma {:induction false} SignEip1559Exactly(
    keccak: Sha, tx: Tx, der: bytes, publicKey: bytes, sig: Sig, c: Curve.Curve)
    requires ValidCurve(c) && Ecdsa.UncompressedPoint(publicKey).Some? && WellFormedSig(sig)
    ensures Unsigned(tx).Err? ==>
              SignEip1559(keccak, tx, der, publicKey, c) == Err(BadTransaction(Unsigned(tx).error))
    ensures Unsigned(tx).Ok? ==>
              (SignEip1559(keccak, tx, der, publicKey, c) == Err(SignInvalid)
               <==> !exists s: Sig :: WellFormedSig(s) && Accepted(keccak(Unsigned(tx).value), der, publicKey, s, c))
    ensures Unsigned(tx).Ok? && Accepted(keccak(Unsigned(tx).value), der, publicKey, sig, c) ==>
              && Serialize(tx, sig).Ok?
              && SignEip1559(keccak, tx, der, publicKey, c) == Ok(Serialize(tx, sig).value)
  {
    hide ValidCurve, Der.NormalizeDer, Ecdsa.RecoverPublicKey, Ecdsa.YParityByTrial, Ecdsa.UncompressedPoint,
         Serialize, Unsigned, SignDigest, Accepted;
    UnsignedIsList(tx);
    if Unsigned(tx).Ok? {
      var digest := keccak(Unsigned(tx).value);
      forall s: Sig | WellFormedSig(s)
        ensures Accepted(digest, der, publicKey, s, c) <==> SignDigest(digest, der, publicKey, c) == Ok(s)
        ensures Serialize(tx, s).Ok?
      {
        AcceptedExactly(digest, der, publicKey, s, c);
        SerializeIsList(tx, s);
      }
      SignDigestShape(digest, der, publicKey, c);
    }
  }

  /** The scalars are the normalized DER's, and their parity recovers the key. */
  predicate Accepted(digest: bytes, der: bytes, publicKey: bytes, sig: Sig, c: Curve.Curve) {
    && Der.NormalizeDer(der, c.order) == Ok(sig.r + sig.s)
    && Ecdsa.RecoverPublicKey(digest, sig.r, sig.s, sig.yParity, c) == Ecdsa.UncompressedPoint(publicKey)
  }

  lemma {:induction false} AcceptedExactly(digest: bytes, der: bytes, publicKey: bytes, sig: Sig, c: Curve.Curve)
    requires ValidCurve(c) && |digest| == 32 && Ecdsa.UncompressedPoint(publicKey).Some? && WellFormedSig(sig)
    ensures Accepted(digest, der, publicKey, sig, c) <==> SignDigest(digest, der, publicKey, c) == Ok(sig)
  {
    hide ValidCurve, Der.NormalizeDer, Ecdsa.RecoverPublicKey, Ecdsa.UncompressedPoint, SignDigest;
    SignDigestExactly(digest, der, publicKey, sig, c);
  }

  lemma {:induction false} SignDigestShape(digest: bytes, der: bytes, publicKey: bytes, c: Curve.Curve)
    ensures SignDigest(digest, der, publicKey, c).Ok? ==> WellFormedSig(SignDigest(digest, der, publicKey, c).value)
    ensures SignDigest(digest, der, publicKey, c).Err? ==>
              SignDigest(digest, der, publicKey, c).error == SignInvalid
  {
    hide Der.NormalizeDer, Ecdsa.RecoverPublicKey, Ecdsa.UncompressedPoint;
    if Der.NormalizeDer(der, c.order).Ok? {
      NormalizedLength(der, c.order);
    }
  }

  /**
   * Of all signatures, signDigest returns the one whose scalars the DER spells, low-S
   * taken, at the one parity that recovers the signer's key.
   */
  lemma {:induction false} SignDigestExactly(digest: bytes, der: bytes, publicKey: bytes, sig: Sig, c: Curve.Curve)
    requires ValidCurve(c) && |digest| == 32 && Ecdsa.UncompressedPoint(publicKey).Some? && WellFormedSig(sig)
    ensures SignDigest(digest, der, publicKey, c) == Ok(sig)
       <==> && Der.NormalizeDer(der, c.order) == Ok(sig.r + sig.s)
            && Ecdsa.RecoverPublicKey(digest, sig.r, sig.s, sig.yParity, c) == Ecdsa.UncompressedPoint(publicKey)
  {
    hide ValidCurve, Der.NormalizeDer, Ecdsa.RecoverPublicKey, Ecdsa.YParityByTrial, Ecdsa.UncompressedPoint;
    var raw := sig.r + sig.s;
    assert raw[..32] == sig.r && raw[32..] == sig.s;
    Ecdsa.TrialExactly(digest, raw, publicKey, sig.yParity, c);
    if SignDigest(digest, der, publicKey, c) == Ok(sig) {
      NormalizedLength(der, c.order);
      var normal := Der.NormalizeDer(der, c.order).value;
      assert normal == normal[..32] + normal[32..];
    }
  }

  lemma {:induction false} NormalizedLength(der: bytes, order: int)
    requires Der.NormalizeDer(der, order).Ok?
    ensures |Der.NormalizeDer(der, order).value| == 64
  {
    hide Der.DerToRaw, Der.LowS;
    Der.LowSNormal(Der.DerToRaw(der, order).value, order);
  }

  /** A key service that signs, with either s, is always accepted: the signer returns the low-S signature. */
  lemma {:induction false} ServiceIsAccepted(digest: bytes, d: int, k: int, c: Curve.Curve)
    requires ValidCurve(c) && Ecdsa.SignScalars(digest, d, k, c).Ok?
    ensures Ecdsa.PublicPoint(d, c).Ok? && Ecdsa.SignRawDigest(digest, d, k, c).Ok?
    ensures var made := Ecdsa.SignRawDigest(digest, d, k, c).value;
            var (key, sig) := (Ecdsa.PublicPoint(d, c).value, Sig(made.yParity, made.r, made.s));
            && |made.raw| == 64 && Der.HighSDer(made.raw, c.order).Ok?
            && SignDigest(digest, made.der, key, c) == Ok(sig)
            && SignDigest(digest, Der.HighSDer(made.raw, c.order).value, key, c) == Ok(sig)
  {
    hide ValidCurve, Ecdsa.SignScalars, Ecdsa.SignRawDigest, Ecdsa.PublicPoint, Der.NormalizeDer, Der.HighSDer,
         Ecdsa.YParityByTrial;
    Ecdsa.SignerPath(digest, d, k, c);
    Ecdsa.SignedLengths(digest, d, k, c);
    var made := Ecdsa.SignRawDigest(digest, d, k, c).value;
    assert made.raw[..32] == made.r && made.raw[32..] == made.s;
  }

  /** What signEip1559 returns. */
  lemma {:induction false} SignedTransaction(
    keccak: Sha, tx: Tx, der: bytes, publicKey: bytes, c: Curve.Curve) returns (sig: Sig)
    requires SignEip1559(keccak, tx, der, publicKey, c).Ok?
    ensures Unsigned(tx).Ok? && WellFormedSig(sig)
    ensures Serialize(tx, sig) == Ok(SignEip1559(keccak, tx, der, publicKey, c).value)
    ensures Ecdsa.UncompressedPoint(publicKey).Some?
    ensures Ecdsa.RecoverPublicKey(keccak(Unsigned(tx).value), sig.r, sig.s, sig.yParity, c)
         == Ecdsa.UncompressedPoint(publicKey)
  {
    hide Serialize, Unsigned, Der.NormalizeDer, Ecdsa.RecoverPublicKey;
    sig := SignDigest(keccak(Unsigned(tx).value), der, publicKey, c).value;
    SerializeIsList(tx, sig);
  }

  // ---- the sender of a transaction -----------------------------------------

  /**
   * The sender that a transaction names: the address of the key recovered from its
   * signature, at the digest of its unsigned form.
   */
  function SenderOf(keccak: Sha, raw: bytes, c: Curve.Curve): Option<bytes> {
    match TxList(raw)
    case None => None
    case Some(items) =>
      if !CanonicalFields(items) then None
      else
        var (tx, sig) := TxOf(items);
        if Unsigned(tx).Err? then None
        else match Ecdsa.RecoverPublicKey(keccak(Unsigned(tx).value), sig.r, sig.s, sig.yParity, c)
          case None => None
          case Some(key) => EthereumAddress(keccak, key)
  }

  /** What was printed is what is spelled. */
  lemma {:induction false} PrintedSpells(tx: Tx, sig: Sig)
    requires Printable(tx) && WellFormedSig(sig)
    ensures CanonicalFields(TxItems(tx) + SigItems(sig)) && TxOf(TxItems(tx) + SigItems(sig)) == (tx, sig)
  {
    hide CanonicalFields, TxItems, SigItems, MinBytes, Big, PadTo32;
    PrintedItemsCanonical(tx, sig);
    PrintedItems(tx, sig);
    BigOfFields(tx);
    BigOfMinBytes(sig.yParity);
    PadRestores(sig.r);
    PadRestores(sig.s);
  }

  /** A serialized transaction is read back as itself. */
  lemma {:induction false} SenderOfSerialized(keccak: Sha, tx: Tx, sig: Sig, raw: bytes, c: Curve.Curve)
    requires Serialize(tx, sig) == Ok(raw) && |raw| <= Rlp.MAX_BYTES
    ensures Unsigned(tx).Ok?
    ensures SenderOf(keccak, raw, c)
         == match Ecdsa.RecoverPublicKey(keccak(Unsigned(tx).value), sig.r, sig.s, sig.yParity, c)
            case None => None
            case Some(key) => EthereumAddress(keccak, key)
  {
    hide Serialize, Unsigned, CanonicalFields, TxItems, SigItems, TxOf, Rlp.Encode, Rlp.RlpDecode, Eip1559Decode,
         Ecdsa.RecoverPublicKey, EthereumAddress, Printable, WellFormedSig, TxList, DecodeItems, Numeric;
    SerializeIsList(tx, sig);
    UnsignedIsList(tx);
    PrintedItems(tx, sig);
    ListOfPrinted(TxItems(tx) + SigItems(sig), raw);
    PrintedSpells(tx, sig);
  }

  lemma {:induction false} ListOfPrinted(items: seq<Rlp.Item>, raw: bytes)
    requires |items| == 12 && raw == [2] + Rlp.Encode(Rlp.List(items)) && |raw| <= Rlp.MAX_BYTES
    ensures TxList(raw) == Some(items)
  {
    hide Rlp.Encode, Rlp.RlpDecode, Eip1559Decode, DecodeItems, Numeric;
    DecodePrinted(items, raw);
  }

  /** The key found by recovery is an uncompressed point, so its address is the signer's. */
  lemma {:induction false} PointOfPoint(publicKey: bytes)
    requires Ecdsa.UncompressedPoint(publicKey).Some?
    ensures Ecdsa.UncompressedPoint(Ecdsa.UncompressedPoint(publicKey).value) == Ecdsa.UncompressedPoint(publicKey)
  {
  }

  /** What the signer returns names the signer's own address as the sender. */
  lemma {:induction false} SignerIsSender(keccak: Sha, tx: Tx, der: bytes, publicKey: bytes, c: Curve.Curve)
    requires SignEip1559(keccak, tx, der, publicKey, c).Ok?
    requires |SignEip1559(keccak, tx, der, publicKey, c).value| <= Rlp.MAX_BYTES
    ensures SenderOf(keccak, SignEip1559(keccak, tx, der, publicKey, c).value, c) == EthereumAddress(keccak, publicKey)
    ensures EthereumAddress(keccak, publicKey).Some?
  {
    hide SignEip1559, SenderOf, Serialize, Unsigned, Ecdsa.RecoverPublicKey, Ecdsa.UncompressedPoint;
    var sig := SignedTransaction(keccak, tx, der, publicKey, c);
    SenderOfSerialized(keccak, tx, sig, SignEip1559(keccak, tx, der, publicKey, c).value, c);
    PointOfPoint(publicKey);
  }

  // ---- runs with this signer -----------------------------------------------

  /**
   * The answer of a checkpoint signer with this address to the request for a body at these
   * fees. createCheckpointSigner refuses a key whose address is not the pinned one.
   */
  ghost predicate KeyedAnswer(
    keccak: Sha, c: Curve.Curve, address: bytes, body: Body, quote: Fees, raw: bytes)
  {
    exists publicKey, der ::
      EthereumAddress(keccak, publicKey) == Some(address)
      && SignEip1559(keccak, TxOfIntent(body, quote), der, publicKey, c) == Ok(raw)
  }

  ghost predicate AnswersKeyed(keccak: Sha, c: Curve.Curve, s: State, a: Action) {
    a.SignFinish? && a.raw.Some? && a.id in s.pending && s.pending[a.id].Signing? ==>
      var p := s.pending[a.id];
      KeyedAnswer(keccak, c, p.signer.address, p.intent.body, p.quote, a.raw.value)
  }

  /** Every signature that a run finishes comes from the asked signer's own key. */
  ghost predicate KeyedAnswers(sha: Sha, keccak: Sha, c: Curve.Curve, actions: seq<Action>) {
    forall i :: 0 <= i < |actions| ==> AnswersKeyed(keccak, c, Run(sha, actions[..i]), actions[i])
  }

  ghost predicate KeyedRow(keccak: Sha, c: Curve.Curve, row: Row) {
    row.raw.Some? && row.fees.Some? && KeyedAnswer(keccak, c, row.from, row.body, row.fees.value, row.raw.value)
  }

  ghost predicate KeyedHistory(keccak: Sha, c: Curve.Curve, h: seq<Event>) {
    forall j :: 0 <= j < |h| && h[j].kind.SignedBy? ==> KeyedRow(keccak, c, h[j].row)
  }

  /** Such answers are honest ones. */
  lemma {:induction false} KeyedIsHonest(
    keccak: Sha, c: Curve.Curve, address: bytes, body: Body, quote: Fees, raw: bytes)
    requires KeyedAnswer(keccak, c, address, body, quote, raw)
    ensures HonestAnswer(body, quote, raw)
  {
    hide SignEip1559, EthereumAddress, Serialize, Unsigned, Ecdsa.RecoverPublicKey;
    var publicKey, der :| EthereumAddress(keccak, publicKey) == Some(address)
                       && SignEip1559(keccak, TxOfIntent(body, quote), der, publicKey, c) == Ok(raw);
    var sig := SignedTransaction(keccak, TxOfIntent(body, quote), der, publicKey, c);
  }

  /** So everything proved of runs with an honest signer holds of runs with this one. */
  lemma {:induction false} KeyedRunIsHonest(sha: Sha, keccak: Sha, c: Curve.Curve, actions: seq<Action>)
    requires KeyedAnswers(sha, keccak, c, actions)
    ensures HonestAnswers(sha, actions)
  {
    hide KeyedAnswer, HonestAnswer, Run;
    forall i | 0 <= i < |actions| ensures AnswersHonestly(Run(sha, actions[..i]), actions[i]) {
      var (s, a) := (Run(sha, actions[..i]), actions[i]);
      assert AnswersKeyed(keccak, c, s, a);
      if a.SignFinish? && a.raw.Some? && a.id in s.pending && s.pending[a.id].Signing? {
        var p := s.pending[a.id];
        KeyedIsHonest(keccak, c, p.signer.address, p.intent.body, p.quote, a.raw.value);
      }
    }
  }

  lemma {:induction false} KeyedStep(sha: Sha, keccak: Sha, c: Curve.Curve, s: State, a: Action)
    requires Inv(sha, s) && KeyedHistory(keccak, c, s.history) && AnswersKeyed(keccak, c, s, a)
    ensures KeyedHistory(keccak, c, Next(sha, s, a).history)
  {
    hide KeyedAnswer, DecideCommit, DecideSign, DecideSend, MatchesIntent, Rows, GoodHistory;
    if a.SignFinish? && a.id in s.pending && s.pending[a.id].Signing? {
      assert GoodPending(s.history, s.pending[a.id]);
    }
  }

  lemma {:induction false} KeyedRun(sha: Sha, keccak: Sha, c: Curve.Curve, actions: seq<Action>)
    requires KeyedAnswers(sha, keccak, c, actions)
    ensures KeyedHistory(keccak, c, Run(sha, actions).history)
  {
    hide AnswersKeyed, KeyedHistory, Next, Inv;
    if actions == [] {
      assert KeyedHistory(keccak, c, []) by { NothingKeyed(keccak, c); }
    } else {
      var init := actions[..|actions| - 1];
      forall i | 0 <= i < |init| ensures AnswersKeyed(keccak, c, Run(sha, init[..i]), init[i]) {
        assert init[..i] == actions[..i];
      }
      KeyedRun(sha, keccak, c, init);
      RunKeeps(sha, init);
      KeyedStep(sha, keccak, c, Run(sha, init), actions[|init|]);
    }
  }

  lemma {:induction false} NothingKeyed(keccak: Sha, c: Curve.Curve)
    ensures KeyedHistory(keccak, c, [])
  {
  }

  /** What is sent was signed, for its own row, by the key behind the row's sender. */
  lemma {:induction false} SentIsKeyed(sha: Sha, keccak: Sha, c: Curve.Curve, h: seq<Event>, i: nat)
    requires GoodHistory(sha, h) && KeyedHistory(keccak, c, h) && i < |h| && h[i].kind == Sent
    ensures KeyedRow(keccak, c, h[i].row)
  {
    hide Normal, KeyedAnswer, GoodHistory, MatchesIntent;
    GoodAt(sha, h, i);
    var k :| 0 <= k < i && IsSigning(h[k], h[i].row);
    assert KeyedRow(keccak, c, h[k].row);
  }

  /**
   * Over every run with the code's signers: whoever decodes a value that was handed to
   * send finds the sender of its intent row, at the digest of the requested transaction.
   */
  lemma {:induction false} SentBySender(sha: Sha, keccak: Sha, c: Curve.Curve, actions: seq<Action>, i: nat)
    requires KeyedAnswers(sha, keccak, c, actions)
    requires i < |Run(sha, actions).history| && Run(sha, actions).history[i].kind == Sent
    ensures var row := Run(sha, actions).history[i].row;
            && row.raw.Some? && row.fees.Some?
            && (|row.raw.value| <= Rlp.MAX_BYTES ==> SenderOf(keccak, row.raw.value, c) == Some(row.from))
  {
    hide Run, KeyedAnswers, KeyedHistory, GoodHistory, SignEip1559, SenderOf, EthereumAddress;
    RunKeeps(sha, actions);
    KeyedRun(sha, keccak, c, actions);
    var h := Run(sha, actions).history;
    SentIsKeyed(sha, keccak, c, h, i);
    var row := h[i].row;
    var tx := TxOfIntent(row.body, row.fees.value);
    var publicKey, der :| EthereumAddress(keccak, publicKey) == Some(row.from)
                       && SignEip1559(keccak, tx, der, publicKey, c) == Ok(row.raw.value);
    if |row.raw.value| <= Rlp.MAX_BYTES {
      SignerIsSender(keccak, tx, der, publicKey, c);
    }
  }

  /**
   * Two values ever sent for one epoch have one sender, and are serializations of
   * transactions that differ only in fees, or the two bodies' texts collide.
   */
  lemma {:induction false} OneSenderPerEpoch(
    sha: Sha, keccak: Sha, c: Curve.Curve, actions: seq<Action>, i: nat, j: nat)
    requires KeyedAnswers(sha, keccak, c, actions)
    requires i < |Run(sha, actions).history| && j < |Run(sha, actions).history|
    requires Run(sha, actions).history[i].kind == Sent && Run(sha, actions).history[j].kind == Sent
    requires SameEpoch(Run(sha, actions).history[i].row.body, Run(sha, actions).history[j].row.body)
    ensures var (a, b) := (Run(sha, actions).history[i].row, Run(sha, actions).history[j].row);
            && a.raw.Some? && b.raw.Some? && a.fees.Some? && b.fees.Some?
            && (|a.raw.value| <= Rlp.MAX_BYTES && |b.raw.value| <= Rlp.MAX_BYTES ==>
                  SenderOf(keccak, a.raw.value, c) == SenderOf(keccak, b.raw.value, c) == Some(a.from))
            && (DifferInFees(TxOfRow(a), TxOfRow(b)) || IsCollision(sha, BodyCollision(a.body, b.body)))
  {
    hide Run, KeyedAnswers, HonestAnswers, SenderOf, Serialize, IsCollision;
    SentBySender(sha, keccak, c, actions, i);
    SentBySender(sha, keccak, c, actions, j);
    KeyedRunIsHonest(sha, keccak, c, actions);
    SendsDifferInFees(sha, actions, i, j);
    NonEquivocation(sha, actions, i, j);
  }
}
