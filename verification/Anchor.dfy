/**
 * The decisions of the checkpoint signer (services/chit-sealer/kms-secp256k1.js):
 * what an anchor commits to, and what commit, sign and broadcast conclude from the
 * rows they read.
 */
module Anchor {
  import opened Bytes
  import opened MerkleTree
  import opened Eip1559
  import opened Text
  import Rlp

  // ---- what an anchor commits to -------------------------------------------

  datatype AnchorInput = AnchorInput(
    chainId: int, to: bytes, nonce: int, epoch: int, hourStart: int, size: int,
    root: bytes, stateRoot: bytes, calldata: bytes)

  datatype Body = Body(
    chainId: nat, to: bytes, nonce: nat, epoch: nat, hourStart: nat, size: nat,
    root: bytes, stateRoot: bytes, domain: bytes, calldata: bytes, fingerprint: bytes)

  datatype AnchorError =
    | BadAnchor | BadDomain | PayloadMismatch | BadFees | OverCeiling
    | EpochAlreadyOpen | NoncePayloadConflict | IntentMissing | AddressMismatch | LogUnreadable
    | AppendFailed | AwaitFailed

  function DomainInput(chainId: nat, to: bytes): bytes {
    Ascii("chit402-checkpoint-v1") + ToBytes(chainId, 8) + to
  }

  /** ecdsa/domain.js checkpointDomain. */
  function CheckpointDomain(sha: Sha, chainId: nat, to: bytes): bytes
    requires chainId < Pow256(8)
  {
    sha(DomainInput(chainId, to))
  }

  /** A domain names one chain and contract, or two hash inputs collide. */
  lemma {:induction false} DomainBinds(sha: Sha, chain1: nat, to1: bytes, chain2: nat, to2: bytes)
    requires chain1 < Pow256(8) && chain2 < Pow256(8)
    requires CheckpointDomain(sha, chain1, to1) == CheckpointDomain(sha, chain2, to2)
    ensures (chain1 == chain2 && to1 == to2) || IsCollision(sha, (DomainInput(chain1, to1), DomainInput(chain2, to2)))
  {
    var n := |Ascii("chit402-checkpoint-v1")|;
    hide Ascii, Pow256, ToBytes, Big;
    var x, y := DomainInput(chain1, to1), DomainInput(chain2, to2);
    if x == y {
      assert x[n..n + 8] == ToBytes(chain1, 8) && y[n..n + 8] == ToBytes(chain2, 8);
      assert x[n + 8..] == to1 && y[n + 8..] == to2;
      BigOfToBytes(chain1, 8);
      BigOfToBytes(chain2, 8);
    }
  }

  function Slice(b: bytes, from: nat, to: nat): (r: bytes)
    requires from <= to
    ensures to <= |b| ==> r == b[from..to]
  {
    if to <= |b| then b[from..to] else []
  }

  /** The calldata prefix spells the anchor's fields at fixed offsets. */
  predicate CalldataSpells(b: Body) {
    && |b.calldata| >= 120
    && Slice(b.calldata, 0, 32) == b.domain
    && Big(Slice(b.calldata, 32, 40)) == b.epoch
    && Big(Slice(b.calldata, 40, 48)) == b.hourStart
    && Big(Slice(b.calldata, 48, 56)) == b.size
    && Slice(b.calldata, 56, 88) == b.root
    && Slice(b.calldata, 88, 120) == b.stateRoot
  }

  function Labelled(tag: string, value: bytes): bytes { Ascii(tag) + value }

  /** The fingerprinted fields. The nonce is not one of them. */
  function BodyParts(b: Body): seq<bytes> {
    [Labelled("chainId=", Dec(b.chainId)), Labelled("to=", Hex(b.to)), Labelled("epoch=", Dec(b.epoch)),
     Labelled("hourStart=", Dec(b.hourStart)), Labelled("size=", Dec(b.size)), Labelled("root=", Hex(b.root)),
     Labelled("stateRoot=", Hex(b.stateRoot)), Labelled("domain=", Hex(b.domain)),
     Labelled("calldata=", Hex(b.calldata))]
  }

  function BodyText(b: Body): bytes { JoinWith(BodyParts(b), BAR) }

  /** normalizeAnchor. */
  function NormalizeAnchor(sha: Sha, a: AnchorInput): Result<Body, AnchorError> {
    if a.chainId < 0 || a.nonce < 0 || a.epoch < 0 || a.hourStart < 0 || a.size < 0 then Err(BadAnchor)
    else if |a.to| != 20 || |a.root| != 32 || |a.stateRoot| != 32 then Err(BadAnchor)
    else if a.chainId >= Pow256(8) then Err(BadDomain)
    else
      var domain := CheckpointDomain(sha, a.chainId, a.to);
      var draft := Body(
        a.chainId, a.to, a.nonce, a.epoch, a.hourStart, a.size, a.root, a.stateRoot, domain, a.calldata, []);
      if !CalldataSpells(draft) then Err(PayloadMismatch)
      else Ok(draft.(fingerprint := sha(BodyText(draft))))
  }

  /** What every normalized body satisfies. */
  predicate Normal(sha: Sha, b: Body) {
    && |b.to| == 20 && |b.root| == 32 && |b.stateRoot| == 32
    && b.chainId < Pow256(8) && b.domain == CheckpointDomain(sha, b.chainId, b.to)
    && CalldataSpells(b)
    && b.fingerprint == sha(BodyText(b))
  }

  lemma {:induction false} NormalizedIsNormal(sha: Sha, a: AnchorInput)
    requires NormalizeAnchor(sha, a).Ok?
    ensures Normal(sha, NormalizeAnchor(sha, a).value)
    ensures NormalizeAnchor(sha, a).value.nonce == a.nonce && NormalizeAnchor(sha, a).value.calldata == a.calldata
  {
    hide Pow256, Big, BodyText;
    var b := NormalizeAnchor(sha, a).value;
    TextIgnoresFingerprint(b, b.(fingerprint := []));
  }

  /** The anchor fields in calldata order, each at its fixed width. */
  function AnchorPrefix(b: Body): bytes {
    b.domain + ToBytes(b.epoch, 8) + ToBytes(b.hourStart, 8) + ToBytes(b.size, 8) + b.root + b.stateRoot
  }

  lemma {:induction false} WordAt(field: bytes, v: nat)
    requires |field| == 8
    ensures Big(field) == v <==> v < Pow256(8) && field == ToBytes(v, 8)
  {
    hide Pow256, ToBytes, Big;
    if Big(field) == v {
      BigBound(field);
      ToBytesOfBig(field);
    } else if v < Pow256(8) {
      BigOfToBytes(v, 8);
    }
  }

  /** The fields are found in the calldata exactly when it starts with their printed form. */
  lemma {:induction false} SpellsIsPrefix(b: Body)
    requires |b.domain| == |b.root| == |b.stateRoot| == 32
    ensures CalldataSpells(b)
       <==> b.epoch < Pow256(8) && b.hourStart < Pow256(8) && b.size < Pow256(8) && AnchorPrefix(b) <= b.calldata
  {
    hide Pow256, ToBytes, Big;
    var p := AnchorPrefix(b);
    assert p[..32] == b.domain && p[32..40] == ToBytes(b.epoch, 8) && p[40..48] == ToBytes(b.hourStart, 8);
    assert p[48..56] == ToBytes(b.size, 8) && p[56..88] == b.root && p[88..] == b.stateRoot;
    if |b.calldata| >= 120 {
      var q := b.calldata[..120];
      WordAt(q[32..40], b.epoch);
      WordAt(q[40..48], b.hourStart);
      WordAt(q[48..56], b.size);
      assert q == q[..32] + q[32..40] + q[40..48] + q[48..56] + q[56..88] + q[88..];
      assert p <= b.calldata <==> q == p;
      assert Slice(b.calldata, 0, 32) == q[..32] && Slice(b.calldata, 32, 40) == q[32..40];
      assert Slice(b.calldata, 40, 48) == q[40..48] && Slice(b.calldata, 48, 56) == q[48..56];
      assert Slice(b.calldata, 56, 88) == q[56..88] && Slice(b.calldata, 88, 120) == q[88..];
    }
  }

  /** Calldata fixes the whole anchor but its nonce, or two domain inputs collide. */
  lemma {:induction false} CalldataDetermines(sha: Sha, a: Body, b: Body)
    requires Normal(sha, a) && Normal(sha, b) && a.calldata == b.calldata
    ensures || a.(nonce := 0) == b.(nonce := 0)
            || IsCollision(sha, (DomainInput(a.chainId, a.to), DomainInput(b.chainId, b.to)))
  {
    hide Pow256, Big, JoinWith, BodyParts, DomainInput;
    DomainBinds(sha, a.chainId, a.to, b.chainId, b.to);
    if a.chainId == b.chainId && a.to == b.to {
      SameText(a, b);
    }
  }

  lemma {:induction false} SameText(a: Body, b: Body)
    requires a.(nonce := 0, fingerprint := []) == b.(nonce := 0, fingerprint := [])
    ensures BodyText(a) == BodyText(b)
  {
  }

  lemma {:induction false} TextIgnoresFingerprint(b: Body, d: Body)
    requires d == b.(fingerprint := [])
    ensures BodyText(b) == BodyText(d)
  {
  }

  lemma {:induction false} LabelledInjective(tag: string, a: bytes, b: bytes)
    requires Labelled(tag, a) == Labelled(tag, b)
    ensures a == b
  {
    assert a == Labelled(tag, a)[|tag|..] && b == Labelled(tag, b)[|tag|..];
  }

  lemma {:induction false} LabelledNoBar(tag: string, value: bytes)
    requires BAR !in value && BAR !in Ascii(tag)
    ensures BAR !in Labelled(tag, value)
  {
  }

  lemma {:induction false} BodyPartsNoBar(b: Body)
    ensures Free(BodyParts(b), BAR)
  {
    hide Dec, Hex;
    LabelledNoBar("chainId=", Dec(b.chainId));
    LabelledNoBar("to=", Hex(b.to));
    LabelledNoBar("epoch=", Dec(b.epoch));
    LabelledNoBar("hourStart=", Dec(b.hourStart));
    LabelledNoBar("size=", Dec(b.size));
    LabelledNoBar("root=", Hex(b.root));
    LabelledNoBar("stateRoot=", Hex(b.stateRoot));
    LabelledNoBar("domain=", Hex(b.domain));
    LabelledNoBar("calldata=", Hex(b.calldata));
  }

  /** Two bodies with one fingerprinted text agree on every fingerprinted field. */
  lemma {:induction false} BodyTextInjective(a: Body, b: Body)
    requires BodyText(a) == BodyText(b)
    ensures a.(nonce := 0, fingerprint := []) == b.(nonce := 0, fingerprint := [])
  {
    hide Dec, Hex, JoinWith, Free, Labelled;
    BodyPartsNoBar(a);
    BodyPartsNoBar(b);
    JoinWithInjective(BodyParts(a), BodyParts(b), BAR);
    var p, q := BodyParts(a), BodyParts(b);
    assert p[0] == q[0] && p[1] == q[1] && p[2] == q[2] && p[3] == q[3] && p[4] == q[4];
    assert p[5] == q[5] && p[6] == q[6] && p[7] == q[7] && p[8] == q[8];
    LabelledInjective("chainId=", Dec(a.chainId), Dec(b.chainId));
    LabelledInjective("to=", Hex(a.to), Hex(b.to));
    LabelledInjective("epoch=", Dec(a.epoch), Dec(b.epoch));
    LabelledInjective("hourStart=", Dec(a.hourStart), Dec(b.hourStart));
    LabelledInjective("size=", Dec(a.size), Dec(b.size));
    LabelledInjective("root=", Hex(a.root), Hex(b.root));
    LabelledInjective("stateRoot=", Hex(a.stateRoot), Hex(b.stateRoot));
    LabelledInjective("domain=", Hex(a.domain), Hex(b.domain));
    LabelledInjective("calldata=", Hex(a.calldata), Hex(b.calldata));
    DecInjective(a.chainId, b.chainId);
    HexInjective(a.to, b.to);
    DecInjective(a.epoch, b.epoch);
    DecInjective(a.hourStart, b.hourStart);
    DecInjective(a.size, b.size);
    HexInjective(a.root, b.root);
    HexInjective(a.stateRoot, b.stateRoot);
    HexInjective(a.domain, b.domain);
    HexInjective(a.calldata, b.calldata);
  }

  /** One nonce and one fingerprint: one body, or the two texts collide. */
  lemma {:induction false} SameFingerprint(sha: Sha, a: Body, b: Body)
    requires Normal(sha, a) && Normal(sha, b) && a.fingerprint == b.fingerprint && a.nonce == b.nonce
    ensures a == b || IsCollision(sha, (BodyText(a), BodyText(b)))
  {
    hide BodyText, Pow256, CalldataSpells;
    if BodyText(a) == BodyText(b) {
      BodyTextInjective(a, b);
    }
  }

  // ---- fees ----------------------------------------------------------------

  datatype RawFees = RawFees(gasLimit: int, maxFeePerGas: int, maxPriorityFeePerGas: int)

  datatype Fees = Fees(gasLimit: nat, maxFeePerGas: nat, maxPriorityFeePerGas: nat)

  /** normalizeFees. */
  function NormalizeFees(f: RawFees): (r: Result<Fees, AnchorError>)
    ensures r.Ok? <==> 0 < f.gasLimit && 0 <= f.maxPriorityFeePerGas <= f.maxFeePerGas && 0 < f.maxFeePerGas
    ensures r.Ok? ==> RawFees(r.value.gasLimit, r.value.maxFeePerGas, r.value.maxPriorityFeePerGas) == f
  {
    if f.gasLimit <= 0 || f.maxFeePerGas <= 0 || f.maxPriorityFeePerGas < 0 || f.maxPriorityFeePerGas > f.maxFeePerGas
    then Err(BadFees)
    else Ok(Fees(f.gasLimit, f.maxFeePerGas, f.maxPriorityFeePerGas))
  }

  /** assertFeeCeiling does not throw. */
  predicate WithinCeiling(f: Fees, ceiling: Option<nat>) {
    ceiling.Some? ==> f.maxFeePerGas <= ceiling.value && f.maxPriorityFeePerGas <= ceiling.value
  }

  // ---- rows and decisions --------------------------------------------------

  datatype Status = Intent | Signed | Broadcast

  datatype Row = Row(status: Status, body: Body, from: bytes, fees: Option<Fees>, raw: Option<bytes>, tx: Option<bytes>)

  datatype Signer = Signer(address: bytes, ceiling: Option<nat>)

  /** Array.prototype.find. */
  function Find(rows: seq<Row>, wanted: Row -> bool): (r: Option<Row>)
    ensures r.Some? ==> r.value in rows && wanted(r.value)
    ensures r.None? ==> forall row :: row in rows ==> !wanted(row)
  {
    if rows == [] then None
    else if wanted(rows[0]) then Some(rows[0])
    else Find(rows[1..], wanted)
  }

  /** find on the reversed rows. */
  function FindLast(rows: seq<Row>, wanted: Row -> bool): (r: Option<Row>)
    ensures r.Some? ==> r.value in rows && wanted(r.value)
    ensures r.None? ==> forall row :: row in rows ==> !wanted(row)
  {
    if rows == [] then None
    else
      var last := |rows| - 1;
      assert rows == rows[..last] + [rows[last]];
      if wanted(rows[last]) then Some(rows[last]) else FindLast(rows[..last], wanted)
  }

  predicate SameEpoch(a: Body, b: Body) { a.chainId == b.chainId && a.to == b.to && a.epoch == b.epoch }

  datatype CommitPlan = AlreadyCommitted(row: Row) | NewIntent(row: Row)

  /** commitAnchorIntent, up to the append. */
  function DecideCommit(sha: Sha, rows: seq<Row>, a: AnchorInput, from: bytes): Result<CommitPlan, AnchorError> {
    match NormalizeAnchor(sha, a)
    case Err(e) => Err(e)
    case Ok(body) =>
      if |from| != 20 then Err(BadAnchor)
      else if Find(rows, (row: Row) => SameEpoch(row.body, body) && row.body.nonce != body.nonce).Some? then
        Err(EpochAlreadyOpen)
      else if Find(rows, (row: Row) =>
          row.body.nonce == body.nonce && (row.body.fingerprint != body.fingerprint || row.from != from)).Some? then
        Err(NoncePayloadConflict)
      else match Find(rows, (row: Row) => row.body.nonce == body.nonce && row.status == Intent)
        case Some(row) => Ok(AlreadyCommitted(row))
        case None => Ok(NewIntent(Row(Intent, body, from, None, None, None)))
  }

  datatype SignPlan = AlreadySigned(row: Row) | Request(intent: Row, quote: Fees)

  predicate HasRaw(row: Row) { row.raw.Some? && row.raw.value != [] }

  /** signCommittedAnchor, up to the signature request. */
  function DecideSign(rows: seq<Row>, signer: Signer, nonce: int, fees: RawFees): Result<SignPlan, AnchorError> {
    match Find(rows, (row: Row) => row.body.nonce == nonce && row.status == Intent)
    case None => Err(IntentMissing)
    case Some(intent) =>
      if intent.from != signer.address then Err(AddressMismatch)
      else match NormalizeFees(fees)
        case Err(e) => Err(e)
        case Ok(quote) =>
          if !WithinCeiling(quote, signer.ceiling) then Err(OverCeiling)
          else match FindLast(rows, (row: Row) =>
              row.body.nonce == nonce && row.status == Signed && HasRaw(row) && row.fees == Some(quote))
            case Some(prior) => Ok(AlreadySigned(prior))
            case None => Ok(Request(intent, quote))
  }

  function TxOfIntent(body: Body, quote: Fees): Tx {
    Tx(body.chainId, body.nonce, quote.maxPriorityFeePerGas, quote.maxFeePerGas, quote.gasLimit,
       body.to, 0, body.calldata)
  }

  /** The comparison made before a signed transaction is logged. */
  predicate MatchesIntent(raw: bytes, body: Body) {
    match Eip1559Decode(raw)
    case Err(_) => false
    case Ok(d) =>
      d.data == Hex(body.calldata) && d.nonce == body.nonce && d.chainId == body.chainId && d.to == Hex(body.to)
      && d.value == 0
  }

  /** The row signCommittedAnchor appends once the signer has answered. */
  function SignedRow(intent: Row, quote: Fees, raw: bytes): Row {
    Row(Signed, intent.body, intent.from, Some(quote), Some(raw), None)
  }

  /** broadcastCommittedAnchor, up to the call of send: the row whose raw is sent. */
  function DecideSend(rows: seq<Row>, nonce: int, fees: RawFees): Result<Row, AnchorError> {
    match NormalizeFees(fees)
    case Err(e) => Err(e)
    case Ok(quote) =>
      match FindLast(rows, (row: Row) =>
          row.body.nonce == nonce && row.status != Intent && HasRaw(row) && row.fees == Some(quote))
      case None => Err(IntentMissing)
      case Some(signed) =>
        if Find(rows, (row: Row) =>
            row.body.nonce == nonce && row.status == Intent && row.body.fingerprint == signed.body.fingerprint).None?
        then Err(IntentMissing)
        else Ok(signed)
  }

  /** The row broadcastCommittedAnchor appends once send has answered. */
  function BroadcastRow(signed: Row, tx: bytes): Row {
    Row(Broadcast, signed.body, signed.from, signed.fees, signed.raw, Some(tx))
  }

  // ---- which signature is sent ---------------------------------------------

  lemma {:induction false} LastMatch(rows: seq<Row>, wanted: Row -> bool) returns (i: nat)
    requires FindLast(rows, wanted).Some?
    ensures i < |rows| && rows[i] == FindLast(rows, wanted).value && wanted(rows[i])
    ensures forall j :: i < j < |rows| ==> !wanted(rows[j])
  {
    var last := |rows| - 1;
    if wanted(rows[last]) {
      i := last;
    } else {
      i := LastMatch(rows[..last], wanted);
    }
  }

  /** A row that carries a signature for a nonce at some fees. */
  predicate SignedAt(row: Row, nonce: int, quote: Fees) {
    row.body.nonce == nonce && row.status != Intent && HasRaw(row) && row.fees == Some(quote)
  }

  /** What is sent is the latest signature on the log for that nonce at exactly the asked fees. */
  lemma {:induction false} SendsLatestQuote(rows: seq<Row>, nonce: int, fees: RawFees) returns (i: nat)
    requires DecideSend(rows, nonce, fees).Ok?
    ensures NormalizeFees(fees).Ok? && i < |rows| && rows[i] == DecideSend(rows, nonce, fees).value
    ensures SignedAt(rows[i], nonce, NormalizeFees(fees).value)
    ensures forall j :: i < j < |rows| ==> !SignedAt(rows[j], nonce, NormalizeFees(fees).value)
  {
    var quote := NormalizeFees(fees).value;
    hide NormalizeFees;
    i := LastMatch(rows, (row: Row) =>
        row.body.nonce == nonce && row.status != Intent && HasRaw(row) && row.fees == Some(quote));
  }

  // ---- doing it again ------------------------------------------------------

  /** Committing an anchor whose intent has landed returns that intent and appends nothing. */
  lemma {:induction false} CommitAgain(sha: Sha, rows: seq<Row>, a: AnchorInput, from: bytes)
    requires DecideCommit(sha, rows, a, from).Ok? && DecideCommit(sha, rows, a, from).value.NewIntent?
    ensures var row := DecideCommit(sha, rows, a, from).value.row;
            DecideCommit(sha, rows + [row], a, from) == Ok(AlreadyCommitted(row))
  {
    hide NormalizeAnchor;
    var row := DecideCommit(sha, rows, a, from).value.row;
    var more := rows + [row];
    assert forall r :: r in more <==> r in rows || r == row;
    var body := NormalizeAnchor(sha, a).value;
    assert row.body == body && row.from == from;
    assert forall r :: r in rows ==> !(SameEpoch(r.body, body) && r.body.nonce != body.nonce);
    assert forall r :: r in rows && r.body.nonce == body.nonce ==>
      r.body.fingerprint == body.fingerprint && r.from == from;
    assert forall r :: r in rows ==> !(r.body.nonce == body.nonce && r.status == Intent);
    assert row in more;
  }

  /** Signing again at the same fees returns the signature on the log and asks for none. */
  lemma {:induction false} SignAgain(rows: seq<Row>, signer: Signer, nonce: int, fees: RawFees, raw: bytes)
    requires DecideSign(rows, signer, nonce, fees).Ok? && DecideSign(rows, signer, nonce, fees).value.Request?
    requires raw != []
    ensures var plan := DecideSign(rows, signer, nonce, fees).value;
            var row := SignedRow(plan.intent, plan.quote, raw);
            DecideSign(rows + [row], signer, nonce, fees) == Ok(AlreadySigned(row))
  {
    hide NormalizeFees;
    var plan := DecideSign(rows, signer, nonce, fees).value;
    var row := SignedRow(plan.intent, plan.quote, raw);
    FindKept(rows, row, (r: Row) => r.body.nonce == nonce && r.status == Intent);
    assert (rows + [row])[..|rows|] == rows;
  }

  /** What was found stays found when a row is added. */
  lemma {:induction false} FindKept(rows: seq<Row>, row: Row, wanted: Row -> bool)
    ensures Find(rows, wanted).Some? ==> Find(rows + [row], wanted) == Find(rows, wanted)
  {
    if rows != [] {
      assert (rows + [row])[1..] == rows[1..] + [row];
      FindKept(rows[1..], row, wanted);
    }
  }

  /** Right after signing, broadcasting at those fees sends exactly the new signature. */
  lemma {:induction false} SignThenSend(rows: seq<Row>, signer: Signer, nonce: int, fees: RawFees, raw: bytes)
    requires DecideSign(rows, signer, nonce, fees).Ok? && DecideSign(rows, signer, nonce, fees).value.Request?
    requires raw != []
    ensures var plan := DecideSign(rows, signer, nonce, fees).value;
            var row := SignedRow(plan.intent, plan.quote, raw);
            DecideSend(rows + [row], nonce, fees) == Ok(row)
  {
    hide NormalizeFees;
    var plan := DecideSign(rows, signer, nonce, fees).value;
    var row := SignedRow(plan.intent, plan.quote, raw);
    assert plan.intent in rows + [row];
  }

  // ---- what passes the comparison ------------------------------------------

  /** The answer of the code's own signer: the requested transaction, serialized with some signature. */
  ghost predicate HonestAnswer(body: Body, quote: Fees, raw: bytes) {
    exists sig :: Serialize(TxOfIntent(body, quote), sig) == Ok(raw)
  }

  /** An honest signature over the requested transaction always passes the comparison. */
  lemma {:induction false} HonestSignatureMatches(sha: Sha, body: Body, quote: Fees, sig: Sig)
    requires Normal(sha, body) && WellFormedSig(sig)
    ensures Serialize(TxOfIntent(body, quote), sig).Ok?
    ensures var raw := Serialize(TxOfIntent(body, quote), sig).value;
            |raw| <= Rlp.MAX_BYTES ==>
              && MatchesIntent(raw, body)
              && Eip1559Decode(raw).value == Fields(TxOfIntent(body, quote), Some(TextOfSig(sig)))
  {
    hide Serialize, Eip1559Decode, Pow256, CalldataSpells, BodyText;
    var tx := TxOfIntent(body, quote);
    SerializeIsList(tx, sig);
    if |Serialize(tx, sig).value| <= Rlp.MAX_BYTES {
      SerializeRoundTrip(tx, sig);
    }
  }

  /** The comparison lets the unsigned payload through, which carries no signature. */
  lemma {:induction false} UnsignedAnswerPasses(sha: Sha, body: Body, quote: Fees)
    requires Normal(sha, body)
    ensures Unsigned(TxOfIntent(body, quote)).Ok?
    ensures var raw := Unsigned(TxOfIntent(body, quote)).value;
            |raw| <= Rlp.MAX_BYTES ==>
              && MatchesIntent(raw, body) && Eip1559Decode(raw).value.sig == None
              && !exists tx, sig :: Serialize(tx, sig) == Ok(raw)
  {
    hide Serialize, Unsigned, Eip1559Decode, Pow256, CalldataSpells, BodyText, CanonicalFields, Rlp.Encode;
    var tx := TxOfIntent(body, quote);
    UnsignedIsList(tx);
    var raw := Unsigned(tx).value;
    if |raw| <= Rlp.MAX_BYTES {
      UnsignedRoundTrip(tx);
      DecodePrinted(TxItems(tx), raw);
      PrintedExactly(raw);
      ShortListNotCanonical(TxItems(tx));
    }
  }

  lemma {:induction false} ShortListNotCanonical(items: seq<Rlp.Item>)
    requires |items| != 12
    ensures !CanonicalFields(items)
  {
  }

  /** The items of a serialized transaction with another access list. */
  function WithAccessList(tx: Tx, sig: Sig, access: Rlp.Item): seq<Rlp.Item>
    requires Printable(tx) && WellFormedSig(sig)
  {
    (TxItems(tx) + SigItems(sig))[8 := access]
  }

  /** The comparison lets any access list through, [[0x01]] among them; only the empty one is printed. */
  lemma {:induction false} AccessListAnswerPasses(sha: Sha, body: Body, quote: Fees, sig: Sig, access: Rlp.Item)
    requires Normal(sha, body) && WellFormedSig(sig)
    ensures Printable(TxOfIntent(body, quote))
    ensures var raw := [2] + Rlp.Encode(Rlp.List(WithAccessList(TxOfIntent(body, quote), sig, access)));
            |raw| <= Rlp.MAX_BYTES ==>
              && MatchesIntent(raw, body)
              && ((exists tx, s :: Serialize(tx, s) == Ok(raw)) <==> access == Rlp.List([]))
  {
    hide Serialize, Eip1559Decode, Pow256, CalldataSpells, BodyText, CanonicalFields, Rlp.Encode, DecodeItems, Numeric;
    var tx := TxOfIntent(body, quote);
    var items := WithAccessList(tx, sig, access);
    var raw := [2] + Rlp.Encode(Rlp.List(items));
    if |raw| <= Rlp.MAX_BYTES {
      AccessListIgnored(tx, sig, access);
      DecodePrinted(items, raw);
      PrintedExactly(raw);
      assert TxList(raw) == Some(items);
      CanonicalAccessList(tx, sig, access);
    }
  }

  lemma {:induction false} AccessListIgnored(tx: Tx, sig: Sig, access: Rlp.Item)
    requires Printable(tx) && WellFormedSig(sig)
    ensures var items := WithAccessList(tx, sig, access);
            Numeric(items) && DecodeItems(items).chainId == tx.chainId && DecodeItems(items).nonce == tx.nonce
            && DecodeItems(items).to == Hex(tx.to) && DecodeItems(items).data == Hex(tx.data)
            && DecodeItems(items).value == 0
  {
    hide MinBytes, Big, Hex, PadStart;
    BigOfFields(tx);
  }

  lemma {:induction false} CanonicalAccessList(tx: Tx, sig: Sig, access: Rlp.Item)
    requires Printable(tx) && WellFormedSig(sig)
    ensures CanonicalFields(WithAccessList(tx, sig, access)) <==> access == Rlp.List([])
  {
    hide MinBytes, Big;
    PrintedItemsCanonical(tx, sig);
    var printed := TxItems(tx) + SigItems(sig);
    assert printed[8] == Rlp.List([]);
    if access == Rlp.List([]) {
      assert WithAccessList(tx, sig, access) == printed;
    }
  }

  /** The fees a decoded transaction bids. */
  function FeesOf(d: Decoded): (int, int, int) { (d.gasLimit, d.maxFeePerGas, d.maxPriorityFeePerGas) }

  /**
   * What the comparison would have to check as well: an answer that passes is the
   * requested transaction with a signature exactly when its list is canonical and its
   * fees are the quote.
   */
  lemma {:induction false} HonestExactly(raw: bytes, body: Body, quote: Fees)
    requires MatchesIntent(raw, body) && |raw| <= Rlp.MAX_BYTES
    ensures HonestAnswer(body, quote, raw)
       <==> && TxList(raw).Some? && CanonicalFields(TxList(raw).value)
            && FeesOf(Eip1559Decode(raw).value) == (quote.gasLimit, quote.maxFeePerGas, quote.maxPriorityFeePerGas)
  {
    hide Serialize, Eip1559Decode, CanonicalFields, TxOf, TxList, Hex, Big;
    PrintedExactly(raw);
    if sig :| Serialize(TxOfIntent(body, quote), sig) == Ok(raw) {
      SerializeIsList(TxOfIntent(body, quote), sig);
      SerializeRoundTrip(TxOfIntent(body, quote), sig);
    }
    if TxList(raw).Some? && CanonicalFields(TxList(raw).value) {
      CanonicalPrints(raw);
      var (tx, sig) := TxOf(TxList(raw).value);
      SerializeRoundTrip(tx, sig);
      HexInjectiveIf(tx.to, body.to);
      HexInjectiveIf(tx.data, body.calldata);
      var d := Eip1559Decode(raw).value;
      if FeesOf(d) == (quote.gasLimit, quote.maxFeePerGas, quote.maxPriorityFeePerGas) {
        assert tx == TxOfIntent(body, quote);
        assert Serialize(TxOfIntent(body, quote), sig) == Ok(raw);
      }
    }
  }

  lemma {:induction false} HexInjectiveIf(a: bytes, b: bytes)
    ensures Hex(a) == Hex(b) ==> a == b
  {
    if Hex(a) == Hex(b) {
      HexInjective(a, b);
    }
  }
}
