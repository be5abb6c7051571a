/**
 * What the checkpoint signer's decisions are (services/chit-sealer/kms-secp256k1.js), told
 * from the anchor's own fields and the rows on the log: when each answer and each error
 * is given.
 */
module AnchorOutcomes {
  import opened Bytes
  import opened MerkleTree
  import opened Text
  import opened Anchor
  import opened Eip1559
  import opened WireFormats
  import Rlp

  // ---- which anchors are accepted ------------------------------------------

  predicate NonNegative(a: AnchorInput) {
    a.chainId >= 0 && a.nonce >= 0 && a.epoch >= 0 && a.hourStart >= 0 && a.size >= 0
  }

  predicate Widths(a: AnchorInput) { |a.to| == 20 && |a.root| == 32 && |a.stateRoot| == 32 }

  /** The checkpoint domain of the anchor's chain and contract. */
  function DomainOf(sha: Sha, a: AnchorInput): bytes
    requires NonNegative(a)
  {
    sha(Ascii("chit402-checkpoint-v1") + ToBytes(a.chainId, 8) + a.to)
  }

  /** Epoch, hour and size fit eight bytes, and the calldata starts with the anchor's fields. */
  predicate Spelled(sha: Sha, a: AnchorInput)
    requires NonNegative(a)
  {
    && a.epoch < 18446744073709551616 && a.hourStart < 18446744073709551616 && a.size < 18446744073709551616
    && DomainOf(sha, a) + ToBytes(a.epoch, 8) + ToBytes(a.hourStart, 8) + ToBytes(a.size, 8) + a.root + a.stateRoot
       <= a.calldata
  }

  predicate Acceptable(sha: Sha, a: AnchorInput) {
    NonNegative(a) && Widths(a) && a.chainId < 18446744073709551616 && Spelled(sha, a)
  }

  /** The text that is fingerprinted. */
  function AnchorText(a: AnchorInput, domain: bytes): bytes
    requires NonNegative(a)
  {
    (Ascii("chainId=") + Dec(a.chainId)) + [124] + (Ascii("to=") + Hex(a.to)) + [124]
    + (Ascii("epoch=") + Dec(a.epoch)) + [124] + (Ascii("hourStart=") + Dec(a.hourStart)) + [124]
    + (Ascii("size=") + Dec(a.size)) + [124] + (Ascii("root=") + Hex(a.root)) + [124]
    + (Ascii("stateRoot=") + Hex(a.stateRoot)) + [124] + (Ascii("domain=") + Hex(domain)) + [124]
    + (Ascii("calldata=") + Hex(a.calldata))
  }

  /** The body that an acceptable anchor commits. */
  function CommittedBody(sha: Sha, a: AnchorInput): Body
    requires NonNegative(a)
  {
    Body(a.chainId, a.to, a.nonce, a.epoch, a.hourStart, a.size, a.root, a.stateRoot, DomainOf(sha, a), a.calldata,
         sha(AnchorText(a, DomainOf(sha, a))))
  }

  lemma {:induction false} EightBytes()
    ensures Pow256(8) == 18446744073709551616
  {
    assert Pow256(2) == 65536;
    assert Pow256(4) == 4294967296;
    assert Pow256(6) == 281474976710656;
  }

  /** The joined parts, one after the other. */
  lemma {:induction false} JoinNine(p: seq<bytes>, sep: byte)
    requires |p| == 9
    ensures JoinWith(p, sep)
         == p[0] + [sep] + p[1] + [sep] + p[2] + [sep] + p[3] + [sep] + p[4] + [sep] + p[5] + [sep] + p[6] + [sep]
            + p[7] + [sep] + p[8]
  {
    hide JoinWith;
    JoinMore(p[8], [], sep);
    assert p[8..] == [p[8]] && p[0..] == p;
    JoinFrom([], p, 0, sep);
    assert [] + JoinWith(p, sep) == JoinWith(p, sep) && [] + p[0] + [sep] == p[0] + [sep];
    var t := p[0] + [sep];
    JoinFrom(t, p, 1, sep);
    JoinFrom(t + p[1] + [sep], p, 2, sep);
    JoinFrom(t + p[1] + [sep] + p[2] + [sep], p, 3, sep);
    JoinFrom(t + p[1] + [sep] + p[2] + [sep] + p[3] + [sep], p, 4, sep);
    var u := t + p[1] + [sep] + p[2] + [sep] + p[3] + [sep] + p[4] + [sep];
    JoinFrom(u, p, 5, sep);
    JoinFrom(u + p[5] + [sep], p, 6, sep);
    JoinFrom(u + p[5] + [sep] + p[6] + [sep], p, 7, sep);
  }

  /** The next part moves to the text in front. */
  lemma {:induction false} JoinFrom(front: bytes, p: seq<bytes>, i: nat, sep: byte)
    requires i + 1 < |p|
    ensures front + JoinWith(p[i..], sep) == (front + p[i] + [sep]) + JoinWith(p[i + 1..], sep)
  {
    hide JoinWith;
    JoinMore(p[i], p[i + 1..], sep);
    assert p[i..] == [p[i]] + p[i + 1..];
  }

  lemma {:induction false} BodyTextSpelled(a: AnchorInput, b: Body)
    requires NonNegative(a)
    requires b.chainId == a.chainId && b.to == a.to && b.epoch == a.epoch && b.hourStart == a.hourStart
    requires b.size == a.size && b.root == a.root && b.stateRoot == a.stateRoot && b.calldata == a.calldata
    ensures BodyText(b) == AnchorText(a, b.domain)
  {
    hide JoinWith, Dec, Hex, Ascii;
    JoinNine(BodyParts(b), BAR);
  }

  /** normalizeAnchor accepts exactly the acceptable anchors, and says which check failed. */
  lemma {:induction false} NormalizeExactly(sha: Sha, a: AnchorInput)
    ensures NormalizeAnchor(sha, a) == Err(BadAnchor) <==> !(NonNegative(a) && Widths(a))
    ensures NormalizeAnchor(sha, a) == Err(BadDomain)
       <==> NonNegative(a) && Widths(a) && a.chainId >= 18446744073709551616
    ensures NormalizeAnchor(sha, a) == Err(PayloadMismatch)
       <==> NonNegative(a) && Widths(a) && a.chainId < 18446744073709551616 && !Spelled(sha, a)
    ensures NormalizeAnchor(sha, a).Ok? <==> Acceptable(sha, a)
    ensures Acceptable(sha, a) ==> NormalizeAnchor(sha, a) == Ok(CommittedBody(sha, a))
  {
    hide BodyText, CalldataSpells, AnchorText, Ascii, ToBytes, Pow256;
    EightBytes();
    if NonNegative(a) && Widths(a) && a.chainId < 18446744073709551616 {
      var draft := Body(a.chainId, a.to, a.nonce, a.epoch, a.hourStart, a.size, a.root, a.stateRoot,
                        DomainOf(sha, a), a.calldata, []);
      SpellsIsPrefix(draft);
      BodyTextSpelled(a, draft);
    }
  }

  // ---- finding rows --------------------------------------------------------

  lemma {:induction false} FindsFirst(rows: seq<Row>, i: nat, wanted: Row -> bool)
    requires i < |rows| && wanted(rows[i]) && forall j :: 0 <= j < i ==> !wanted(rows[j])
    ensures Find(rows, wanted) == Some(rows[i])
  {
    if i > 0 {
      assert !wanted(rows[0]);
      FindsFirst(rows[1..], i - 1, wanted);
    }
  }

  lemma {:induction false} FindsLast(rows: seq<Row>, i: nat, wanted: Row -> bool)
    requires i < |rows| && wanted(rows[i]) && forall j :: i < j < |rows| ==> !wanted(rows[j])
    ensures FindLast(rows, wanted) == Some(rows[i])
  {
    if i < |rows| - 1 {
      assert !wanted(rows[|rows| - 1]);
      FindsLast(rows[..|rows| - 1], i, wanted);
    }
  }

  // ---- commit --------------------------------------------------------------

  predicate OtherNonce(b: Body, a: AnchorInput) {
    b.chainId == a.chainId && b.to == a.to && b.epoch == a.epoch && b.nonce != a.nonce
  }

  /** Some row has the anchor's chain, contract and epoch, and another nonce. */
  predicate EpochTaken(rows: seq<Row>, a: AnchorInput) {
    exists i :: 0 <= i < |rows| && OtherNonce(rows[i].body, a)
  }

  predicate OtherContent(row: Row, nonce: int, fingerprint: bytes, from: bytes) {
    row.body.nonce == nonce && (row.body.fingerprint != fingerprint || row.from != from)
  }

  /** Some row of the nonce has another fingerprint or sender. */
  predicate NonceTaken(rows: seq<Row>, nonce: int, fingerprint: bytes, from: bytes) {
    exists i :: 0 <= i < |rows| && OtherContent(rows[i], nonce, fingerprint, from)
  }

  predicate IntentOf(row: Row, nonce: int) { row.body.nonce == nonce && row.status == Intent }

  /** The oldest intent of a nonce is at i. */
  predicate FirstIntent(rows: seq<Row>, i: nat, nonce: int) {
    i < |rows| && IntentOf(rows[i], nonce) && forall j :: 0 <= j < i ==> !IntentOf(rows[j], nonce)
  }

  predicate NoIntent(rows: seq<Row>, nonce: int) { forall i :: 0 <= i < |rows| ==> !IntentOf(rows[i], nonce) }

  /** Nothing on the log stands against the anchor. */
  predicate Clear(sha: Sha, rows: seq<Row>, a: AnchorInput, from: bytes) {
    && Acceptable(sha, a) && |from| == 20
    && !EpochTaken(rows, a) && !NonceTaken(rows, a.nonce, CommittedBody(sha, a).fingerprint, from)
  }

  /** The errors of commitAnchorIntent. */
  lemma {:induction false} CommitErrors(sha: Sha, rows: seq<Row>, a: AnchorInput, from: bytes)
    ensures DecideCommit(sha, rows, a, from) == Err(BadAnchor)
       <==> !(NonNegative(a) && Widths(a)) || (Acceptable(sha, a) && |from| != 20)
    ensures DecideCommit(sha, rows, a, from) == Err(BadDomain)
       <==> NonNegative(a) && Widths(a) && a.chainId >= 18446744073709551616
    ensures DecideCommit(sha, rows, a, from) == Err(PayloadMismatch)
       <==> NonNegative(a) && Widths(a) && a.chainId < 18446744073709551616 && !Spelled(sha, a)
    ensures DecideCommit(sha, rows, a, from) == Err(EpochAlreadyOpen)
       <==> Acceptable(sha, a) && |from| == 20 && EpochTaken(rows, a)
    ensures DecideCommit(sha, rows, a, from) == Err(NoncePayloadConflict)
       <==> && Acceptable(sha, a) && |from| == 20 && !EpochTaken(rows, a)
            && NonceTaken(rows, a.nonce, CommittedBody(sha, a).fingerprint, from)
    ensures DecideCommit(sha, rows, a, from).Ok? <==> Clear(sha, rows, a, from)
  {
    hide NormalizeAnchor, Spelled, DomainOf, AnchorText;
    NormalizeExactly(sha, a);
    if Acceptable(sha, a) {
      var body := CommittedBody(sha, a);
      forall row | row in rows
        ensures exists i :: 0 <= i < |rows| && rows[i] == row
      {
      }
      assert EpochTaken(rows, a) <==>
        exists row :: row in rows && SameEpoch(row.body, body) && row.body.nonce != body.nonce;
      assert NonceTaken(rows, a.nonce, body.fingerprint, from) <==>
        exists row :: row in rows && row.body.nonce == body.nonce
                      && (row.body.fingerprint != body.fingerprint || row.from != from);
    }
  }

  /** What it returns: the oldest intent of the nonce, or a new one when there is none. */
  lemma {:induction false} CommitAnswers(sha: Sha, rows: seq<Row>, a: AnchorInput, from: bytes)
    requires Clear(sha, rows, a, from)
    ensures forall i: nat :: FirstIntent(rows, i, a.nonce) ==>
              DecideCommit(sha, rows, a, from) == Ok(AlreadyCommitted(rows[i]))
    ensures NoIntent(rows, a.nonce) ==>
              DecideCommit(sha, rows, a, from)
              == Ok(NewIntent(Row(Intent, CommittedBody(sha, a), from, None, None, None)))
  {
    CommitErrors(sha, rows, a, from);
    NormalizeExactly(sha, a);
    hide NormalizeAnchor, Spelled, DomainOf, AnchorText, Clear;
    var body := CommittedBody(sha, a);
    forall i: nat | FirstIntent(rows, i, a.nonce)
      ensures DecideCommit(sha, rows, a, from) == Ok(AlreadyCommitted(rows[i]))
    {
      FindsFirst(rows, i, (row: Row) => row.body.nonce == body.nonce && row.status == Intent);
    }
  }

  // ---- sign ----------------------------------------------------------------

  predicate GoodFees(f: RawFees) {
    0 < f.gasLimit && 0 < f.maxFeePerGas && 0 <= f.maxPriorityFeePerGas && f.maxPriorityFeePerGas <= f.maxFeePerGas
  }

  function QuoteOf(f: RawFees): Fees
    requires GoodFees(f)
  {
    Fees(f.gasLimit, f.maxFeePerGas, f.maxPriorityFeePerGas)
  }

  predicate AboveCeiling(f: RawFees, ceiling: Option<nat>) {
    ceiling.Some? && (f.maxFeePerGas > ceiling.value || f.maxPriorityFeePerGas > ceiling.value)
  }

  lemma {:induction false} QuoteExactly(f: RawFees, ceiling: Option<nat>)
    ensures NormalizeFees(f) == if GoodFees(f) then Ok(QuoteOf(f)) else Err(BadFees)
    ensures GoodFees(f) ==> (WithinCeiling(QuoteOf(f), ceiling) <==> !AboveCeiling(f, ceiling))
  {
  }

  /** A signed row for the nonce at exactly these fees. */
  predicate SignatureOf(row: Row, nonce: int, f: RawFees)
    requires GoodFees(f)
  {
    row.body.nonce == nonce && row.status == Signed && row.fees == Some(QuoteOf(f))
    && row.raw.Some? && row.raw.value != []
  }

  /** Without an intent of the nonce, signing is refused. */
  lemma {:induction false} SignWithoutIntent(rows: seq<Row>, signer: Signer, nonce: int, f: RawFees)
    ensures DecideSign(rows, signer, nonce, f) == Err(IntentMissing) <==> NoIntent(rows, nonce)
  {
    hide NormalizeFees, WithinCeiling;
    assert NoIntent(rows, nonce) <==> forall row :: row in rows ==> !(row.body.nonce == nonce && row.status == Intent);
    QuoteExactly(f, signer.ceiling);
  }

  /**
   * With the oldest intent of the nonce at i: whose intent it is is asked first, then the fees,
   * then the ceiling.
   */
  lemma {:induction false} SignErrors(rows: seq<Row>, signer: Signer, nonce: int, f: RawFees, i: nat)
    requires FirstIntent(rows, i, nonce)
    ensures DecideSign(rows, signer, nonce, f) == Err(AddressMismatch) <==> rows[i].from != signer.address
    ensures DecideSign(rows, signer, nonce, f) == Err(BadFees) <==> rows[i].from == signer.address && !GoodFees(f)
    ensures DecideSign(rows, signer, nonce, f) == Err(OverCeiling)
       <==> rows[i].from == signer.address && GoodFees(f) && AboveCeiling(f, signer.ceiling)
    ensures DecideSign(rows, signer, nonce, f).Ok?
       <==> rows[i].from == signer.address && GoodFees(f) && !AboveCeiling(f, signer.ceiling)
  {
    hide NormalizeFees, WithinCeiling;
    FindsFirst(rows, i, (row: Row) => row.body.nonce == nonce && row.status == Intent);
    QuoteExactly(f, signer.ceiling);
  }

  /** The latest signature at these fees is returned; without one, the intent is to be signed at them. */
  lemma {:induction false} SignAnswers(rows: seq<Row>, signer: Signer, nonce: int, f: RawFees, i: nat)
    requires FirstIntent(rows, i, nonce) && rows[i].from == signer.address
    requires GoodFees(f) && !AboveCeiling(f, signer.ceiling)
    ensures forall j :: 0 <= j < |rows| && SignatureOf(rows[j], nonce, f)
                        && (forall l :: j < l < |rows| ==> !SignatureOf(rows[l], nonce, f)) ==>
              DecideSign(rows, signer, nonce, f) == Ok(AlreadySigned(rows[j]))
    ensures (forall j :: 0 <= j < |rows| ==> !SignatureOf(rows[j], nonce, f)) ==>
              DecideSign(rows, signer, nonce, f) == Ok(Request(rows[i], QuoteOf(f)))
  {
    hide NormalizeFees, WithinCeiling;
    FindsFirst(rows, i, (row: Row) => row.body.nonce == nonce && row.status == Intent);
    QuoteExactly(f, signer.ceiling);
    var quote := QuoteOf(f);
    forall j | 0 <= j < |rows| && SignatureOf(rows[j], nonce, f)
               && (forall l :: j < l < |rows| ==> !SignatureOf(rows[l], nonce, f))
      ensures DecideSign(rows, signer, nonce, f) == Ok(AlreadySigned(rows[j]))
    {
      FindsLast(rows, j, (row: Row) =>
          row.body.nonce == nonce && row.status == Signed && HasRaw(row) && row.fees == Some(quote));
    }
  }

  // ---- the comparison after signing ----------------------------------------

  /** An answer passes exactly as a readable list whose chain, nonce, target, value and data are the intent's. */
  lemma {:induction false} MatchesExactly(raw: bytes, items: seq<Rlp.Item>, body: Body)
    requires |raw| <= 9007199254740991 && raw == [2] + Rlp.Encode(Rlp.List(items))
    ensures MatchesIntent(raw, body)
       <==> && Readable(Rlp.List(items))
            && FieldNat(items[0]) == Some(body.chainId) && FieldNat(items[1]) == Some(body.nonce)
            && FieldText(items[5]) == Hex(body.to) && FieldNat(items[6]) == Some(0)
            && FieldText(items[7]) == Hex(body.calldata)
  {
    hide Rlp.Encode, Rlp.RlpDecode, FieldNat, FieldText, Hex, Eip1559Decode, Readable;
    DecodeErrors(raw);
    assert raw[1..] == Rlp.Encode(Rlp.List(items));
    Rlp.RlpBijection(raw[1..], Rlp.List(items));
    forall item | raw[1..] == Rlp.Encode(item) ensures item == Rlp.List(items) {
      Rlp.RlpBijection(raw[1..], item);
    }
    if Readable(Rlp.List(items)) {
      DecodeSpelled(raw, items);
      ReadableFields(items);
    }
  }

  lemma {:induction false} ReadableFields(items: seq<Rlp.Item>)
    requires Readable(Rlp.List(items))
    ensures |items| == 9 || |items| == 12
  {
    hide FieldNat;
  }

  /** What is no such list does not pass. */
  lemma {:induction false} OnlyListsMatch(raw: bytes, body: Body)
    requires |raw| <= 9007199254740991 && MatchesIntent(raw, body)
    ensures exists items :: raw == [2] + Rlp.Encode(Rlp.List(items))
  {
    hide Rlp.Encode, Rlp.RlpDecode, FieldNat, FieldText, Hex, Eip1559Decode;
    DecodeErrors(raw);
    var item :| raw[1..] == Rlp.Encode(item) && Readable(item);
    assert raw == [2] + raw[1..];
    assert raw == [2] + Rlp.Encode(Rlp.List(item.items));
  }

  // ---- send ----------------------------------------------------------------

  /** A row of the nonce that carries a signature at exactly these fees. */
  predicate SendableRow(row: Row, nonce: int, f: RawFees)
    requires GoodFees(f)
  {
    row.body.nonce == nonce && row.status != Intent && row.fees == Some(QuoteOf(f))
    && row.raw.Some? && row.raw.value != []
  }

  predicate LastSendable(rows: seq<Row>, i: nat, nonce: int, f: RawFees) {
    && GoodFees(f) && i < |rows| && SendableRow(rows[i], nonce, f)
    && forall l :: i < l < |rows| ==> !SendableRow(rows[l], nonce, f)
  }

  /** An intent of the nonce has the fingerprint. */
  predicate Intended(rows: seq<Row>, nonce: int, fingerprint: bytes) {
    exists i :: 0 <= i < |rows| && IntentOf(rows[i], nonce) && rows[i].body.fingerprint == fingerprint
  }

  lemma {:induction false} SendErrors(rows: seq<Row>, nonce: int, f: RawFees)
    ensures DecideSend(rows, nonce, f) == Err(BadFees) <==> !GoodFees(f)
    ensures GoodFees(f) && (forall i :: 0 <= i < |rows| ==> !SendableRow(rows[i], nonce, f)) ==>
              DecideSend(rows, nonce, f) == Err(IntentMissing)
  {
    hide NormalizeFees;
    QuoteExactly(f, None);
  }

  /** The latest signature at these fees is what is sent, if an intent stands behind it. */
  lemma {:induction false} SendAnswers(rows: seq<Row>, nonce: int, f: RawFees, i: nat)
    requires LastSendable(rows, i, nonce, f)
    ensures DecideSend(rows, nonce, f)
         == if Intended(rows, nonce, rows[i].body.fingerprint) then Ok(rows[i]) else Err(IntentMissing)
  {
    hide NormalizeFees;
    QuoteExactly(f, None);
    var quote := QuoteOf(f);
    FindsLast(rows, i, (row: Row) =>
        row.body.nonce == nonce && row.status != Intent && HasRaw(row) && row.fees == Some(quote));
    var fingerprint := rows[i].body.fingerprint;
    assert Intended(rows, nonce, fingerprint) <==>
      exists row :: row in rows && row.body.nonce == nonce && row.status == Intent
                    && row.body.fingerprint == fingerprint;
  }
}
