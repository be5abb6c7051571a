/**
 * EIP-1559 transactions (packages/cs2-core/ecdsa/eip1559.js): the unsigned and
 * signed forms, the lenient decoder, and exactly which bytes it shares with the
 * serializer.
 */
module Eip1559 {
  import opened Bytes
  import opened Rlp
  import opened Text

  datatype Tx = Tx(
    chainId: int, nonce: int, maxPriorityFeePerGas: int, maxFeePerGas: int, gasLimit: int,
    to: bytes, value: int, data: bytes)

  datatype Sig = Sig(yParity: int, r: bytes, s: bytes)

  datatype TxError = Negative | BadTx | BadRlp | NotANumber

  /** A decoded signature: the scalars as hex text. */
  datatype SigText = SigText(yParity: nat, r: bytes, s: bytes)

  /**
   * What eip1559Decode returns. Target, data and scalars are hex text; the signature is
   * absent from a nine-field list.
   */
  datatype Decoded = Decoded(
    chainId: nat, nonce: nat, maxPriorityFeePerGas: nat, maxFeePerGas: nat, gasLimit: nat,
    to: bytes, value: nat, data: bytes, sig: Option<SigText>)

  // ---- printing ------------------------------------------------------------

  /** Where eip1559Body does not throw. */
  predicate Printable(tx: Tx) {
    && tx.chainId >= 0 && tx.nonce >= 0 && tx.maxPriorityFeePerGas >= 0 && tx.maxFeePerGas >= 0 && tx.gasLimit >= 0
    && |tx.to| == 20 && tx.value == 0
  }

  function Eip1559Body(tx: Tx): Result<seq<bytes>, TxError> {
    if tx.chainId < 0 || tx.nonce < 0 || tx.maxPriorityFeePerGas < 0 || tx.maxFeePerGas < 0 || tx.gasLimit < 0
    then Err(Negative)
    else if |tx.to| != 20 || tx.value != 0 then Err(BadTx)
    else Ok([
      RlpNat(tx.chainId), RlpNat(tx.nonce), RlpNat(tx.maxPriorityFeePerGas), RlpNat(tx.maxFeePerGas),
      RlpNat(tx.gasLimit), RlpBytes(tx.to), RlpNat(0), RlpBytes(tx.data), RlpList([])])
  }

  function Unsigned(tx: Tx): Result<bytes, TxError> {
    match Eip1559Body(tx)
    case Err(e) => Err(e)
    case Ok(body) => Ok([2] + RlpList(body))
  }

  predicate WellFormedSig(sig: Sig) {
    (sig.yParity == 0 || sig.yParity == 1) && |sig.r| == 32 && |sig.s| == 32
  }

  function Serialize(tx: Tx, sig: Sig): Result<bytes, TxError> {
    if !WellFormedSig(sig) then Err(BadTx)
    else match Eip1559Body(tx)
      case Err(e) => Err(e)
      case Ok(body) => Ok([2] + RlpList(body + [RlpNat(sig.yParity), RlpNat(Big(sig.r)), RlpNat(Big(sig.s))]))
  }

  // ---- reading -------------------------------------------------------------

  function ByteTexts(b: bytes): seq<bytes> {
    if b == [] then [] else [Dec(b[0])] + ByteTexts(b[1..])
  }

  /** An item as JavaScript prints it where a field is a list: decimal bytes, with commas. */
  function ItemText(item: Item): bytes
    decreases item, 1
  {
    match item
    case Str(b) => JoinWith(ByteTexts(b), COMMA)
    case List(items) => JoinWith(ItemTexts(items), COMMA)
  }

  function ItemTexts(items: seq<Item>): (r: seq<bytes>)
    ensures |r| == |items|
    decreases items, 0
  {
    if items == [] then [] else [ItemText(items[0])] + ItemTexts(items[1..])
  }

  /** BigInt of an element of a list: its text must be empty or decimal. */
  function ElementNat(item: Item): Option<nat> {
    var text := ItemText(item);
    if Digits(text) then Some(DecValue(text)) else None
  }

  /** bytesToBig folded over a list; the elements are bytes, see ElementIsByte. */
  function CoercedNat(items: seq<Item>): Option<nat> {
    if items == [] then Some(0)
    else match (CoercedNat(items[..|items| - 1]), ElementNat(items[|items| - 1]))
      case (Some(value), Some(x)) => Some(value * 256 + x)
      case _ => None
  }

  /** bytesToHex folded over a list. */
  function CoercedHex(items: seq<Item>): bytes {
    if items == [] then [] else PadStart(ItemText(items[0]), 2) + CoercedHex(items[1..])
  }

  /** rlpIntValue of a field; none where BigInt throws. */
  function FieldNat(item: Item): Option<nat> {
    match item
    case Str(b) => Some(Big(b))
    case List(items) => CoercedNat(items)
  }

  /** bytesToHex of a field. */
  function FieldText(item: Item): bytes {
    match item
    case Str(b) => Hex(b)
    case List(items) => CoercedHex(items)
  }

  /** Every field that is read as a number is one. */
  predicate Numeric(items: seq<Item>)
    requires |items| == 9 || |items| == 12
  {
    && FieldNat(items[0]).Some? && FieldNat(items[1]).Some? && FieldNat(items[2]).Some?
    && FieldNat(items[3]).Some? && FieldNat(items[4]).Some? && FieldNat(items[6]).Some?
    && (|items| == 12 ==> FieldNat(items[9]).Some?)
  }

  function SigOf(items: seq<Item>): Option<SigText>
    requires |items| == 9 || |items| == 12
    requires Numeric(items)
  {
    if |items| == 9 then None
    else Some(SigText(
      FieldNat(items[9]).value, PadStart(FieldText(items[10]), 64), PadStart(FieldText(items[11]), 64)))
  }

  function DecodeItems(items: seq<Item>): Decoded
    requires |items| == 9 || |items| == 12
    requires Numeric(items)
  {
    Decoded(
      FieldNat(items[0]).value, FieldNat(items[1]).value, FieldNat(items[2]).value, FieldNat(items[3]).value,
      FieldNat(items[4]).value, FieldText(items[5]), FieldNat(items[6]).value, FieldText(items[7]), SigOf(items))
  }

  function Eip1559Decode(raw: bytes): Result<Decoded, TxError> {
    if raw == [] || raw[0] != 2 then Err(BadTx)
    else match RlpDecode(raw[1..])
      case Err(_) => Err(BadRlp)
      case Ok(item) =>
        if item.Str? || (|item.items| != 9 && |item.items| != 12) then Err(BadTx)
        else if !Numeric(item.items) then Err(NotANumber)
        else Ok(DecodeItems(item.items))
  }

  lemma {:induction false} JoinedDigits(parts: seq<bytes>)
    requires Digits(JoinWith(parts, COMMA))
    ensures |parts| <= 1
  {
    if |parts| > 1 {
      assert JoinWith(parts, COMMA)[|parts[0]|] == COMMA;
    }
  }

  /** A coerced element is below 256, so the code's shift-and-or over a list is the sum modelled. */
  lemma {:induction false} ElementIsByte(item: Item)
    requires ElementNat(item).Some?
    ensures ElementNat(item).value < 256
  {
    match item
    case Str(b) =>
      JoinedDigits(ByteTexts(b));
      if b != [] {
        assert |ByteTexts(b)| == 1 + |ByteTexts(b[1..])|;
        DecValueOfDec(b[0]);
      }
    case List(items) =>
      JoinedDigits(ItemTexts(items));
      if items != [] {
        ElementIsByte(items[0]);
      }
  }

  // ---- the printed list ----------------------------------------------------

  function TxItems(tx: Tx): seq<Item>
    requires Printable(tx)
  {
    [Str(MinBytes(tx.chainId)), Str(MinBytes(tx.nonce)), Str(MinBytes(tx.maxPriorityFeePerGas)),
     Str(MinBytes(tx.maxFeePerGas)), Str(MinBytes(tx.gasLimit)), Str(tx.to), Str([]), Str(tx.data), List([])]
  }

  function SigItems(sig: Sig): seq<Item>
    requires WellFormedSig(sig)
  {
    [Str(MinBytes(sig.yParity)), Str(MinBytes(Big(sig.r))), Str(MinBytes(Big(sig.s)))]
  }

  lemma {:induction false} UnsignedIsList(tx: Tx)
    ensures Unsigned(tx).Ok? <==> Printable(tx)
    ensures Unsigned(tx).Ok? ==> Unsigned(tx).value == [2] + Encode(List(TxItems(tx)))
  {
    hide MinBytes, RlpBytes, Prefix;
    if Printable(tx) {
      assert MinBytes(0) == [] by { BigOfMinBytes(0); MinBytesLength(0, 0); }
      ListOfEncoded(TxItems(tx), Eip1559Body(tx).value);
    }
  }

  lemma {:induction false} SerializeIsList(tx: Tx, sig: Sig)
    ensures Serialize(tx, sig).Ok? <==> Printable(tx) && WellFormedSig(sig)
    ensures Serialize(tx, sig).Ok? ==>
              Serialize(tx, sig).value == [2] + Encode(List(TxItems(tx) + SigItems(sig)))
  {
    hide MinBytes, Big, RlpBytes, Prefix;
    if Printable(tx) && WellFormedSig(sig) {
      assert MinBytes(0) == [] by { BigOfMinBytes(0); MinBytesLength(0, 0); }
      ListOfEncoded(
        TxItems(tx) + SigItems(sig),
        Eip1559Body(tx).value + [RlpNat(sig.yParity), RlpNat(Big(sig.r)), RlpNat(Big(sig.s))]);
    }
  }

  /** The decoder sees exactly the items that were printed. */
  lemma {:induction false} DecodePrinted(items: seq<Item>, raw: bytes)
    requires |items| == 9 || |items| == 12
    requires raw == [2] + Encode(List(items)) && |raw| <= MAX_BYTES
    ensures RlpDecode(raw[1..]) == Ok(List(items))
    ensures Eip1559Decode(raw) == if Numeric(items) then Ok(DecodeItems(items)) else Err(NotANumber)
  {
    hide Encode, RlpDecode, DecodeItems, Numeric;
    assert raw[1..] == Encode(List(items));
    RlpBijection(raw[1..], List(items));
  }

  // ---- round trip and injectivity ------------------------------------------

  function TextOfSig(sig: Sig): SigText
    requires sig.yParity >= 0
  {
    SigText(sig.yParity, Hex(sig.r), Hex(sig.s))
  }

  function Fields(tx: Tx, sig: Option<SigText>): Decoded
    requires Printable(tx)
  {
    Decoded(
      tx.chainId, tx.nonce, tx.maxPriorityFeePerGas, tx.maxFeePerGas, tx.gasLimit, Hex(tx.to), 0, Hex(tx.data), sig)
  }

  lemma {:induction false} PadRestores(b: bytes)
    requires |b| == 32
    ensures |MinBytes(Big(b))| <= 32
    ensures PadTo32(MinBytes(Big(b))) == b
    ensures PadStart(Hex(MinBytes(Big(b))), 64) == Hex(b)
  {
    hide MinBytes, Big;
    BigBound(b);
    ToBytesIsPadded(Big(b), 32);
    ToBytesOfBig(b);
    HexPadded(32 - |MinBytes(Big(b))|, MinBytes(Big(b)));
  }

  /** Every field and the signature of a serialized transaction are read back. */
  lemma {:induction false} SerializeRoundTrip(tx: Tx, sig: Sig)
    requires Serialize(tx, sig).Ok? && |Serialize(tx, sig).value| <= MAX_BYTES
    ensures Eip1559Decode(Serialize(tx, sig).value) == Ok(Fields(tx, Some(TextOfSig(sig))))
  {
    hide MinBytes, Big, PadTo32, PadStart, Hex, Encode, RlpDecode, Serialize, Eip1559Decode;
    SerializeIsList(tx, sig);
    var items := TxItems(tx) + SigItems(sig);
    DecodePrinted(items, Serialize(tx, sig).value);
    BigOfFields(tx);
    BigOfMinBytes(sig.yParity);
    PadRestores(sig.r);
    PadRestores(sig.s);
  }

  lemma {:induction false} BigOfFields(tx: Tx)
    requires Printable(tx)
    ensures Big(MinBytes(tx.chainId)) == tx.chainId && Big(MinBytes(tx.nonce)) == tx.nonce
    ensures Big(MinBytes(tx.maxPriorityFeePerGas)) == tx.maxPriorityFeePerGas
    ensures Big(MinBytes(tx.maxFeePerGas)) == tx.maxFeePerGas && Big(MinBytes(tx.gasLimit)) == tx.gasLimit
    ensures Big([]) == 0
  {
    BigOfMinBytes(tx.chainId);
    BigOfMinBytes(tx.nonce);
    BigOfMinBytes(tx.maxPriorityFeePerGas);
    BigOfMinBytes(tx.maxFeePerGas);
    BigOfMinBytes(tx.gasLimit);
  }

  lemma {:induction false} UnsignedRoundTrip(tx: Tx)
    requires Unsigned(tx).Ok? && |Unsigned(tx).value| <= MAX_BYTES
    ensures Eip1559Decode(Unsigned(tx).value) == Ok(Fields(tx, None))
  {
    hide MinBytes, Big, Encode, RlpDecode, Unsigned, Eip1559Decode;
    UnsignedIsList(tx);
    DecodePrinted(TxItems(tx), Unsigned(tx).value);
    BigOfFields(tx);
  }

  /** Two transactions with one signing payload are one transaction. */
  lemma {:induction false} UnsignedInjective(tx1: Tx, tx2: Tx)
    requires Unsigned(tx1).Ok? && Unsigned(tx1) == Unsigned(tx2) && |Unsigned(tx1).value| <= MAX_BYTES
    ensures tx1 == tx2
  {
    hide Unsigned, Eip1559Decode;
    UnsignedRoundTrip(tx1);
    UnsignedRoundTrip(tx2);
    UnsignedIsList(tx1);
    UnsignedIsList(tx2);
    HexInjective(tx1.to, tx2.to);
    HexInjective(tx1.data, tx2.data);
  }

  // ---- accepted bytes are not unique, and when they are --------------------

  /** No leading zero. */
  predicate Minimal(b: bytes) { b == [] || b[0] != 0 }

  /** The guards the decoder does not have. */
  predicate CanonicalFields(items: seq<Item>) {
    && |items| == 12
    && (forall i :: 0 <= i < 12 && i != 8 ==> items[i].Str?)
    && Minimal(items[0].b) && Minimal(items[1].b) && Minimal(items[2].b) && Minimal(items[3].b) && Minimal(items[4].b)
    && |items[5].b| == 20 && items[6].b == []
    && items[8] == List([])
    && (items[9].b == [] || items[9].b == [1])
    && Minimal(items[10].b) && |items[10].b| <= 32
    && Minimal(items[11].b) && |items[11].b| <= 32
  }

  /** 32 bytes with the leading zeros put back. */
  function PadTo32(b: bytes): bytes {
    if |b| >= 32 then b else Zeros(32 - |b|) + b
  }

  /** The transaction and signature that canonical fields spell. */
  function TxOf(items: seq<Item>): (Tx, Sig)
    requires CanonicalFields(items)
  {
    (Tx(Big(items[0].b), Big(items[1].b), Big(items[2].b), Big(items[3].b), Big(items[4].b),
        items[5].b, 0, items[7].b),
     Sig(Big(items[9].b), PadTo32(items[10].b), PadTo32(items[11].b)))
  }

  lemma {:induction false} CanonicalPad(b: bytes)
    requires Minimal(b) && |b| <= 32
    ensures |PadTo32(b)| == 32 && MinBytes(Big(PadTo32(b))) == b
  {
    hide MinBytes, Big;
    MinBytesOfBig(b);
    if |b| < 32 {
      BigOfPadded(32 - |b|, b);
    }
  }

  /** The twelve printed items, one by one. */
  lemma {:induction false} PrintedItems(tx: Tx, sig: Sig)
    requires Printable(tx) && WellFormedSig(sig)
    ensures var items := TxItems(tx) + SigItems(sig);
            && |items| == 12
            && items[0] == Str(MinBytes(tx.chainId)) && items[1] == Str(MinBytes(tx.nonce))
            && items[2] == Str(MinBytes(tx.maxPriorityFeePerGas)) && items[3] == Str(MinBytes(tx.maxFeePerGas))
            && items[4] == Str(MinBytes(tx.gasLimit)) && items[5] == Str(tx.to) && items[6] == Str([])
            && items[7] == Str(tx.data) && items[8] == List([])
            && items[9] == Str(MinBytes(sig.yParity)) && items[10] == Str(MinBytes(Big(sig.r)))
            && items[11] == Str(MinBytes(Big(sig.s)))
  {
    hide MinBytes, Big;
  }

  lemma {:induction false} EqualItems(a: seq<Item>, b: seq<Item>)
    requires |a| == |b| == 12
    requires a[0] == b[0] && a[1] == b[1] && a[2] == b[2] && a[3] == b[3] && a[4] == b[4] && a[5] == b[5]
    requires a[6] == b[6] && a[7] == b[7] && a[8] == b[8] && a[9] == b[9] && a[10] == b[10] && a[11] == b[11]
    ensures a == b
  {
  }

  lemma {:induction false} CanonicalSpells(items: seq<Item>)
    requires CanonicalFields(items)
    ensures var (tx, sig) := TxOf(items); Printable(tx) && WellFormedSig(sig)
  {
    hide MinBytes, Big, PadTo32;
    SmallValues();
    CanonicalPad(items[10].b);
    CanonicalPad(items[11].b);
  }

  lemma {:induction false} CanonicalItemsPrint(items: seq<Item>)
    requires CanonicalFields(items)
    ensures var (tx, sig) := TxOf(items);
            Printable(tx) && WellFormedSig(sig) && TxItems(tx) + SigItems(sig) == items
  {
    hide MinBytes, Big, PadTo32, Printable, WellFormedSig, TxItems, SigItems;
    CanonicalSpells(items);
    var (tx, sig) := TxOf(items);
    PrintedItems(tx, sig);
    MinBytesOfBig(items[0].b);
    MinBytesOfBig(items[1].b);
    MinBytesOfBig(items[2].b);
    MinBytesOfBig(items[3].b);
    MinBytesOfBig(items[4].b);
    SmallValues();
    CanonicalPad(items[10].b);
    CanonicalPad(items[11].b);
    EqualItems(TxItems(tx) + SigItems(sig), items);
  }

  lemma {:induction false} SmallValues()
    ensures Big([]) == 0 && Big([1]) == 1 && MinBytes(0) == [] && MinBytes(1) == [1]
  {
    assert Big([1]) == Big([1][..0]) * 256 + 1;
    assert MinBytes(1) == MinBytes(0) + [1];
  }

  lemma {:induction false} MinimalBytes(v: nat)
    ensures Minimal(MinBytes(v))
  {
    BigOfMinBytes(v);
  }

  lemma {:induction false} PrintedItemsCanonical(tx: Tx, sig: Sig)
    requires Printable(tx) && WellFormedSig(sig)
    ensures CanonicalFields(TxItems(tx) + SigItems(sig))
  {
    hide MinBytes, Big, Hex, PadStart, PadTo32, TxItems, SigItems, Minimal;
    PrintedItems(tx, sig);
    MinimalBytes(tx.chainId);
    MinimalBytes(tx.nonce);
    MinimalBytes(tx.maxPriorityFeePerGas);
    MinimalBytes(tx.maxFeePerGas);
    MinimalBytes(tx.gasLimit);
    MinimalBytes(Big(sig.r));
    MinimalBytes(Big(sig.s));
    PadRestores(sig.r);
    PadRestores(sig.s);
    SmallValues();
  }

  /** The list that a byte string decodes to, when it starts like a transaction. */
  function TxList(raw: bytes): Option<seq<Item>> {
    if raw == [] || raw[0] != 2 || RlpDecode(raw[1..]).Err? || RlpDecode(raw[1..]).value.Str? then None
    else Some(RlpDecode(raw[1..]).value.items)
  }

  /**
   * Of all byte strings, accepted by the decoder or not, the serializer prints exactly
   * those whose list passes the guards in CanonicalFields.
   */
  lemma {:induction false} PrintedExactly(raw: bytes)
    requires |raw| <= MAX_BYTES
    ensures (exists tx, sig :: Serialize(tx, sig) == Ok(raw))
       <==> TxList(raw).Some? && CanonicalFields(TxList(raw).value)
  {
    hide MinBytes, Big, Encode, RlpDecode, Serialize, CanonicalFields, TxOf, Eip1559Decode;
    if TxList(raw).Some? && CanonicalFields(TxList(raw).value) {
      CanonicalPrints(raw);
      var (tx, sig) := TxOf(TxList(raw).value);
      assert Serialize(tx, sig) == Ok(raw);
    }
    if tx, sig :| Serialize(tx, sig) == Ok(raw) {
      SerializeIsList(tx, sig);
      DecodePrinted(TxItems(tx) + SigItems(sig), raw);
      PrintedItemsCanonical(tx, sig);
      assert TxList(raw) == Some(TxItems(tx) + SigItems(sig));
    }
  }

  /** Canonical bytes are the serialization of what their fields spell. */
  lemma {:induction false} CanonicalPrints(raw: bytes)
    requires |raw| <= MAX_BYTES && TxList(raw).Some? && CanonicalFields(TxList(raw).value)
    ensures var (tx, sig) := TxOf(TxList(raw).value);
            Printable(tx) && WellFormedSig(sig) && Serialize(tx, sig) == Ok(raw)
  {
    hide MinBytes, Big, Encode, RlpDecode, Serialize, CanonicalFields, TxOf;
    var items := TxList(raw).value;
    CanonicalItemsPrint(items);
    var (tx, sig) := TxOf(items);
    SerializeIsList(tx, sig);
    RlpBijection(raw[1..], List(items));
    assert raw == [2] + raw[1..];
  }

  /**
   * Accepted bytes are not unique: put a leading zero before the chain id of any
   * serialized transaction and the decoder returns the same fields.
   */
  lemma {:induction false} AcceptedNotUnique(tx: Tx, sig: Sig)
    requires Serialize(tx, sig).Ok? && |Serialize(tx, sig).value| <= MAX_BYTES
    ensures var items := TxItems(tx) + SigItems(sig);
            var padded := items[0 := Str(Zeros(1) + MinBytes(tx.chainId))];
            var other := [2] + Encode(List(padded));
            |other| <= MAX_BYTES ==>
              && other != Serialize(tx, sig).value
              && Eip1559Decode(other) == Eip1559Decode(Serialize(tx, sig).value)
  {
    hide MinBytes, Big, Encode, RlpDecode, Serialize, Eip1559Decode;
    SerializeIsList(tx, sig);
    var items := TxItems(tx) + SigItems(sig);
    var padded := items[0 := Str(Zeros(1) + MinBytes(tx.chainId))];
    var other := [2] + Encode(List(padded));
    if |other| <= MAX_BYTES {
      DecodePrinted(items, Serialize(tx, sig).value);
      DecodePrinted(padded, other);
      BigOfPadded(1, MinBytes(tx.chainId));
      assert List(padded) != List(items) by {
        assert padded[0].b[0] == 0;
        BigOfMinBytes(tx.chainId);
      }
    }
  }
}
