/**
 * The formats byte by byte: what RLP, EIP-1559 and DER (packages/cs2-core/ecdsa/rlp.js,
 * eip1559.js, der.js, sign.js) write, and what each reader answers to every other input.
 */
module WireFormats {
  import opened Bytes
  import opened Text
  import opened Rlp
  import opened Eip1559
  import Der

  // ---- RLP -----------------------------------------------------------------

  /** A number in big-endian bytes without a leading zero. */
  predicate ShortestBytes(b: bytes, v: nat) { b != [] && b[0] != 0 && Big(b) == v }

  /** The header of a payload: one byte up to 55 bytes, else the length of the length and the length. */
  predicate Headed(text: bytes, short: nat, payload: bytes, lenBytes: bytes)
    requires short == 0x80 || short == 0xc0
  {
    if |payload| <= 55 then text == [short + |payload|] + payload
    else
      && ShortestBytes(lenBytes, |payload|) && 1 <= |lenBytes| <= 8
      && text == [short + 55 + |lenBytes|] + lenBytes + payload
  }

  lemma {:induction false} PrefixHeaded(shortBase: byte, payload: bytes) returns (lenBytes: bytes)
    requires shortBase == 0x80 || shortBase == 0xc0
    requires |payload| <= 9007199254740991
    ensures Headed(Prefix(shortBase, payload), shortBase, payload, lenBytes)
  {
    hide Big, MinBytes;
    lenBytes := MinBytes(|payload|);
    if |payload| > 55 {
      LengthBytes(payload);
      LongPrefix(shortBase, payload, lenBytes);
    }
  }

  /** A string is one byte below 0x80 itself, or its bytes behind a header from 0x80. */
  lemma {:induction false} StringSpelled(b: bytes) returns (lenBytes: bytes)
    requires |b| <= 9007199254740991
    ensures if |b| == 1 && b[0] < 0x80 then Encode(Str(b)) == b else Headed(Encode(Str(b)), 0x80, b, lenBytes)
  {
    hide Headed, Prefix;
    lenBytes := PrefixHeaded(0x80, b);
  }

  /** A list is its items' encodings, one after the other, behind a header from 0xc0. */
  lemma {:induction false} ListSpelled(items: seq<Item>) returns (lenBytes: bytes)
    requires |EncodeAll(items)| <= 9007199254740991
    ensures Headed(Encode(List(items)), 0xc0, EncodeAll(items), lenBytes)
  {
    hide Headed, Prefix, EncodeAll;
    lenBytes := PrefixHeaded(0xc0, EncodeAll(items));
  }

  lemma {:induction false} ItemsSpelled(items: seq<Item>, more: seq<Item>)
    ensures EncodeAll([]) == []
    ensures |items| == 1 ==> EncodeAll(items) == Encode(items[0])
    ensures EncodeAll(items + more) == EncodeAll(items) + EncodeAll(more)
  {
    hide Encode;
    if items == [] {
      assert items + more == more;
    } else {
      assert (items + more)[1..] == items[1..] + more;
      ItemsSpelled(items[1..], more);
      OneMore(items);
    }
  }

  lemma {:induction false} OneMore(items: seq<Item>)
    requires items != []
    ensures EncodeAll(items) == Encode(items[0]) + EncodeAll(items[1..])
  {
  }

  lemma {:induction false} ReadItemRefuses(buf: bytes, offset: nat)
    ensures ReadItem(buf, offset).Err? ==> ReadItem(buf, offset).error == RlpInvalid
    decreases |buf| - offset, 0
  {
    hide Big, ReadItems;
    if offset < |buf| && buf[offset] >= 0xc0 {
      var first, start := buf[offset], offset + 1;
      if first <= 0xf7 {
        ReadItemsRefuses(buf, start, start + (first - 0xc0));
      } else if ReadLen(buf, start, first - 0xf7).Ok? {
        var (len, next) := ReadLen(buf, start, first - 0xf7).value;
        ReadItemsRefuses(buf, next, next + len);
      }
    }
  }

  lemma {:induction false} ReadItemsRefuses(buf: bytes, start: nat, end: nat)
    requires start <= end
    ensures end <= |buf| && ReadItems(buf, start, end).Err? ==> ReadItems(buf, start, end).error == RlpInvalid
    decreases |buf| - start, 1
  {
    hide ReadItem;
    if start < end <= |buf| {
      ReadItemRefuses(buf, start);
      if ReadItem(buf, start).Ok? && ReadItem(buf, start).value.1 <= end {
        ReadItemsRefuses(buf, ReadItem(buf, start).value.1, end);
      }
    }
  }

  /** Everything that is no encoding is refused, with one error. */
  lemma {:induction false} RlpRefuses(buf: bytes)
    requires |buf| <= 9007199254740991
    ensures RlpDecode(buf) == Err(RlpInvalid) <==> !exists item :: buf == Encode(item)
  {
    hide ReadItem, Encode, RlpDecode;
    if RlpDecode(buf).Ok? {
      RlpBijection(buf, RlpDecode(buf).value);
    } else {
      DecodeRefuses(buf);
    }
    if item :| buf == Encode(item) {
      RlpBijection(buf, item);
    }
  }

  lemma {:induction false} DecodeRefuses(buf: bytes)
    ensures RlpDecode(buf).Err? ==> RlpDecode(buf).error == RlpInvalid
  {
    hide ReadItem;
    ReadItemRefuses(buf, 0);
  }

  // ---- EIP-1559 ------------------------------------------------------------

  predicate AllNonNegative(tx: Tx) {
    tx.chainId >= 0 && tx.nonce >= 0 && tx.maxPriorityFeePerGas >= 0 && tx.maxFeePerGas >= 0 && tx.gasLimit >= 0
  }

  /** The signing payload: type byte 2, and the nine fields in the order of EIP-1559. */
  lemma {:induction false} UnsignedSpelled(tx: Tx)
    ensures Unsigned(tx) == Err(Negative) <==> !AllNonNegative(tx)
    ensures Unsigned(tx) == Err(BadTx) <==> AllNonNegative(tx) && (|tx.to| != 20 || tx.value != 0)
    ensures AllNonNegative(tx) && |tx.to| == 20 && tx.value == 0 ==>
              Unsigned(tx) == Ok([2] + Encode(List([
                Str(MinBytes(tx.chainId)), Str(MinBytes(tx.nonce)), Str(MinBytes(tx.maxPriorityFeePerGas)),
                Str(MinBytes(tx.maxFeePerGas)), Str(MinBytes(tx.gasLimit)), Str(tx.to), Str([]), Str(tx.data),
                List([])])))
  {
    hide MinBytes, Encode, RlpNat, RlpBytes, RlpList;
    UnsignedIsList(tx);
  }

  /** The signed form: the parity and both scalars follow as integers. */
  lemma {:induction false} SerializeSpelled(tx: Tx, sig: Sig)
    ensures Serialize(tx, sig) == Err(Negative)
       <==> (sig.yParity == 0 || sig.yParity == 1) && |sig.r| == 32 && |sig.s| == 32 && !AllNonNegative(tx)
    ensures Serialize(tx, sig) == Err(BadTx)
       <==> || (sig.yParity != 0 && sig.yParity != 1) || |sig.r| != 32 || |sig.s| != 32
            || (AllNonNegative(tx) && (|tx.to| != 20 || tx.value != 0))
    ensures (sig.yParity == 0 || sig.yParity == 1) && |sig.r| == 32 && |sig.s| == 32
            && AllNonNegative(tx) && |tx.to| == 20 && tx.value == 0 ==>
              Serialize(tx, sig) == Ok([2] + Encode(List([
                Str(MinBytes(tx.chainId)), Str(MinBytes(tx.nonce)), Str(MinBytes(tx.maxPriorityFeePerGas)),
                Str(MinBytes(tx.maxFeePerGas)), Str(MinBytes(tx.gasLimit)), Str(tx.to), Str([]), Str(tx.data),
                List([]),
                Str(MinBytes(sig.yParity)), Str(MinBytes(Big(sig.r))), Str(MinBytes(Big(sig.s)))])))
  {
    hide MinBytes, Big, Encode, RlpNat, RlpBytes, RlpList;
    SerializeIsList(tx, sig);
    if Printable(tx) && WellFormedSig(sig) {
      assert TxItems(tx) + SigItems(sig) == [
        Str(MinBytes(tx.chainId)), Str(MinBytes(tx.nonce)), Str(MinBytes(tx.maxPriorityFeePerGas)),
        Str(MinBytes(tx.maxFeePerGas)), Str(MinBytes(tx.gasLimit)), Str(tx.to), Str([]), Str(tx.data), List([]),
        Str(MinBytes(sig.yParity)), Str(MinBytes(Big(sig.r))), Str(MinBytes(Big(sig.s)))];
    }
  }

  /** What a field reads as when it is a byte string. */
  lemma {:induction false} StringField(b: bytes)
    ensures FieldNat(Str(b)) == Some(Big(b)) && FieldText(Str(b)) == Hex(b)
  {
  }

  /** One element of a list that stands where an integer is expected. */
  lemma {:induction false} ElementExactly(item: Item)
    ensures ElementNat(item)
         == match item
            case Str(b) => if b == [] then Some(0) else if |b| == 1 then Some(b[0]) else None
            case List(items) => if items == [] then Some(0) else if |items| == 1 then ElementNat(items[0]) else None
  {
    hide Dec, DecValue;
    match item
    case Str(b) =>
      TextsOfBytes(b);
      if b == [] {
        NoDigits();
      } else if |b| == 1 {
        DecValueOfDec(b[0]);
      } else if Digits(ItemText(item)) {
        JoinedDigits(ByteTexts(b));
      }
    case List(items) =>
      if items == [] {
        NoDigits();
      } else if |items| == 1 {
        OneText(items);
      } else if Digits(ItemText(item)) {
        JoinedDigits(ItemTexts(items));
      }
  }

  lemma {:induction false} NoDigits()
    ensures DecValue([]) == 0
  {
  }

  lemma {:induction false} TextsOfBytes(b: bytes)
    ensures |ByteTexts(b)| == |b| && (|b| == 1 ==> ByteTexts(b) == [Dec(b[0])])
  {
    if b != [] {
      TextsOfBytes(b[1..]);
    }
  }

  lemma {:induction false} OneText(items: seq<Item>)
    requires |items| == 1
    ensures ItemTexts(items) == [ItemText(items[0])]
  {
  }

  /** A list reads as base 256 digits, element by element, and as its elements' padded texts. */
  lemma {:induction false} ListField(items: seq<Item>, item: Item)
    ensures FieldNat(List([])) == Some(0) && FieldText(List([])) == []
    ensures FieldNat(List(items + [item]))
         == match (FieldNat(List(items)), ElementNat(item))
            case (Some(value), Some(x)) => Some(value * 256 + x)
            case _ => None
    ensures FieldText(List(items + [item])) == FieldText(List(items)) + PadStart(ItemText(item), 2)
  {
    hide ElementNat, ItemText, PadStart;
    assert (items + [item])[..|items|] == items;
    CoercedHexAppend(items, item);
  }

  lemma {:induction false} CoercedHexAppend(items: seq<Item>, item: Item)
    ensures CoercedHex(items + [item]) == CoercedHex(items) + PadStart(ItemText(item), 2)
  {
    hide ItemText, PadStart;
    if items == [] {
      assert items + [item] == [item];
      assert CoercedHex([item][1..]) == [];
    } else {
      assert (items + [item])[1..] == items[1..] + [item];
      CoercedHexAppend(items[1..], item);
    }
  }

  /** The text of an element: decimal bytes, or its own elements' texts, with commas between. */
  lemma {:induction false} ElementText(b: bytes, x: byte, items: seq<Item>, item: Item)
    ensures ItemText(Str([])) == [] && ItemText(List([])) == []
    ensures ItemText(Str([x])) == Dec(x) && ItemText(List([item])) == ItemText(item)
    ensures b != [] ==> ItemText(Str([x] + b)) == Dec(x) + [44] + ItemText(Str(b))
    ensures items != [] ==> ItemText(List([item] + items)) == ItemText(item) + [44] + ItemText(List(items))
  {
    hide Dec;
    TextsOfBytes([x]);
    OneText([item]);
    TextsOfBytes(b);
    assert ([x] + b)[1..] == b && ([item] + items)[1..] == items;
    assert ItemTexts([item] + items) == [ItemText(item)] + ItemTexts(items);
    assert ByteTexts([x] + b) == [Dec(x)] + ByteTexts(b);
  }

  /** What is no type-2 list of nine or twelve fields. */
  predicate WrongShape(item: Item) { item.Str? || (|item.items| != 9 && |item.items| != 12) }

  /** A list of nine or twelve fields whose number fields all read as numbers. */
  predicate Readable(item: Item) {
    && !WrongShape(item)
    && FieldNat(item.items[0]).Some? && FieldNat(item.items[1]).Some? && FieldNat(item.items[2]).Some?
    && FieldNat(item.items[3]).Some? && FieldNat(item.items[4]).Some? && FieldNat(item.items[6]).Some?
    && (|item.items| == 12 ==> FieldNat(item.items[9]).Some?)
  }

  /** What the decoder refuses, and why, whatever the bytes. */
  lemma {:induction false} DecodeErrors(raw: bytes)
    requires |raw| <= 9007199254740991
    ensures Eip1559Decode(raw) == Err(BadTx)
       <==> raw == [] || raw[0] != 2 || exists item :: raw[1..] == Encode(item) && WrongShape(item)
    ensures Eip1559Decode(raw) == Err(BadRlp)
       <==> raw != [] && raw[0] == 2 && !exists item :: raw[1..] == Encode(item)
    ensures Eip1559Decode(raw) == Err(NotANumber)
       <==> raw != [] && raw[0] == 2
            && exists item :: raw[1..] == Encode(item) && !WrongShape(item) && !Readable(item)
    ensures Eip1559Decode(raw).Ok?
       <==> raw != [] && raw[0] == 2 && exists item :: raw[1..] == Encode(item) && Readable(item)
  {
    hide Encode, RlpDecode, DecodeItems, FieldNat;
    if raw != [] && raw[0] == 2 {
      RlpRefuses(raw[1..]);
      if RlpDecode(raw[1..]).Ok? {
        RlpBijection(raw[1..], RlpDecode(raw[1..]).value);
      }
      forall item | raw[1..] == Encode(item)
        ensures RlpDecode(raw[1..]) == Ok(item)
      {
        RlpBijection(raw[1..], item);
      }
    }
  }

  /** What the decoder reads: the fields in the order of EIP-1559. */
  lemma {:induction false} DecodeSpelled(raw: bytes, items: seq<Item>)
    requires |raw| <= 9007199254740991 && raw == [2] + Encode(List(items)) && Readable(List(items))
    ensures Eip1559Decode(raw).Ok?
    ensures var d := Eip1559Decode(raw).value;
            && Some(d.chainId) == FieldNat(items[0]) && Some(d.nonce) == FieldNat(items[1])
            && Some(d.maxPriorityFeePerGas) == FieldNat(items[2]) && Some(d.maxFeePerGas) == FieldNat(items[3])
            && Some(d.gasLimit) == FieldNat(items[4]) && d.to == FieldText(items[5])
            && Some(d.value) == FieldNat(items[6]) && d.data == FieldText(items[7])
            && (d.sig.Some? <==> |items| == 12)
            && (|items| == 12 ==>
                  && Some(d.sig.value.yParity) == FieldNat(items[9])
                  && d.sig.value.r == PadStart(FieldText(items[10]), 64)
                  && d.sig.value.s == PadStart(FieldText(items[11]), 64))
  {
    hide Encode, RlpDecode, FieldNat, FieldText, PadStart, Eip1559Decode;
    DecodePrinted(items, raw);
  }

  // ---- DER -----------------------------------------------------------------

  /** The contents of a DER INTEGER of a positive value: minimal, top bit clear. */
  predicate IntegerContents(a: bytes, v: nat) {
    && |a| >= 1 && a[0] < 0x80 && (a[0] == 0 ==> |a| >= 2 && a[1] >= 0x80) && Big(a) == v
  }

  /** SEQUENCE of two INTEGERs with one-byte lengths. */
  predicate SequenceOf(der: bytes, a: bytes, b: bytes) {
    && |a| <= 33 && |b| <= 33
    && der == [0x30, 4 + |a| + |b|] + ([0x02, |a|] + a) + ([0x02, |b|] + b)
  }

  lemma {:induction false} ContentsOf(v: nat) returns (a: bytes)
    requires 0 < v < Pow256(32)
    ensures IntegerContents(a, v) && |a| <= 33 && Der.ScalarDer(v) == [0x02, |a|] + a
    ensures forall other :: IntegerContents(other, v) ==> other == a
  {
    hide Big, MinBytes, Pow256, Der.IntegerBody, Der.StripZeros;
    a := Der.IntegerBody(MinBytes(v));
    Der.BodyOfFixedWidth(v);
    Der.MinimalIntegerIsBody(a);
    forall other | IntegerContents(other, v) ensures other == a {
      Der.MinimalIntegerIsBody(other);
    }
  }

  /**
   * derToRaw accepts exactly the sequences of two minimal INTEGERs in [1, order) that fit
   * 32 bytes each, and returns their values side by side.
   */
  lemma {:induction false} DerExactly(der: bytes, raw: bytes, order: int)
    ensures Der.DerToRaw(der, order) == Ok(raw)
       <==> && |raw| == 64 && 1 <= Big(raw[..32]) < order && 1 <= Big(raw[32..]) < order
            && exists a, b :: IntegerContents(a, Big(raw[..32])) && IntegerContents(b, Big(raw[32..]))
                              && SequenceOf(der, a, b)
  {
    hide Big, Pow256, ToBytes, IntegerContents, SequenceOf, Der.DerToRaw, Der.DerSeq, Der.ScalarDer;
    Der.DerBijection(der, raw, order);
    if |raw| == 64 && 1 <= Big(raw[..32]) < order && 1 <= Big(raw[32..]) < order {
      PrintedSequence(der, raw);
    }
  }

  lemma {:induction false} PrintedSequence(der: bytes, raw: bytes)
    requires |raw| == 64 && 1 <= Big(raw[..32]) && 1 <= Big(raw[32..])
    ensures Der.DerSeq(raw[..32], raw[32..]) == Ok(der)
       <==> exists a, b :: IntegerContents(a, Big(raw[..32])) && IntegerContents(b, Big(raw[32..]))
                           && SequenceOf(der, a, b)
  {
    hide Big, Pow256, ToBytes, IntegerContents, Der.DerSeq, Der.ScalarDer;
    Der.RawOfHalves(raw);
    ToBytesOfBig(raw[..32]);
    ToBytesOfBig(raw[32..]);
    var r, s := Big(raw[..32]), Big(raw[32..]);
    Der.DerSeqOfScalars(r, s);
    var a := ContentsOf(r);
    var b := ContentsOf(s);
    if Der.DerSeq(raw[..32], raw[32..]) == Ok(der) {
      assert SequenceOf(der, a, b);
    }
  }

  /** derInt writes the minimal INTEGER of any non-empty big-endian number, under one length byte. */
  lemma {:induction false} IntegerExactly(b: bytes, der: bytes)
    requires b != []
    ensures Big(b) > 0 ==>
              (Der.DerInt(b) == Ok(der)
               <==> exists a :: IntegerContents(a, Big(b)) && |a| < 128 && der == [0x02, |a|] + a)
    ensures Big(b) == 0 ==> Der.DerInt(b) == Ok([0x02, 1, 0])
    ensures Der.DerInt(b).Err? ==> Der.DerInt(b).error == Der.DerInvalid
  {
    hide Big, MinBytes, Der.StripZeros;
    if Big(b) > 0 {
      var minimal := MinBytes(Big(b));
      BigOfMinBytes(Big(b));
      Der.StripZerosIsMinimal(b);
      Der.StripZerosIsMinimal(minimal);
      Der.BodyOfMinimal(minimal);
      var a := Der.IntegerBody(minimal);
      BodyValue(minimal);
      Der.MinimalIntegerIsBody(a);
      forall other | IntegerContents(other, Big(b)) ensures other == a {
        Der.MinimalIntegerIsBody(other);
      }
    } else {
      ZerosStripped(b);
      assert [0x02, 1] + [0] == [0x02, 1, 0];
    }
  }

  lemma {:induction false} BodyValue(b: bytes)
    requires Der.StripZeros(b) == b
    ensures Big(Der.IntegerBody(b)) == Big(b)
  {
    if b != [] && b[0] >= 0x80 {
      assert [0] + b == Zeros(1) + b;
      BigOfPadded(1, b);
    }
  }

  lemma {:induction false} ZerosStripped(b: bytes)
    requires b != [] && Big(b) == 0
    ensures Der.StripZeros(b) == [0]
  {
    hide Big;
    if b[0] != 0 {
      NotZero(b);
    } else if |b| > 1 {
      assert b == Zeros(1) + b[1..];
      BigOfPadded(1, b[1..]);
      ZerosStripped(b[1..]);
    } else {
      assert b == [0];
    }
  }

  lemma {:induction false} NotZero(b: bytes)
    requires b != [] && b[0] != 0
    ensures Big(b) > 0
  {
    MinBytesOfBigCanonical(b);
  }

  /** Whatever is refused, by derToRaw or by lowS, is refused with one error. */
  lemma {:induction false} DerRefuses(der: bytes, sig: bytes, order: int)
    ensures Der.DerToRaw(der, order).Err? ==> Der.DerToRaw(der, order).error == Der.DerInvalid
    ensures Der.LowS(sig, order).Err? ==> Der.LowS(sig, order).error == Der.DerInvalid
  {
    hide Big, Der.MinimalInteger, Der.StripZeros, ToBytes;
  }

  /** Exactly the high s is replaced by its opposite. */
  lemma {:induction false} LowSExactly(sig: bytes, order: int)
    requires |sig| == 64 && 1 <= Big(sig[32..]) < order
    ensures Der.LowS(sig, order).Ok?
    ensures var low := Der.LowS(sig, order).value;
            && (2 * Big(sig[32..]) <= order ==> low == sig)
            && (2 * Big(sig[32..]) > order ==>
                  |low| == 64 && low[..32] == sig[..32] && Big(low[32..]) == order - Big(sig[32..]))
  {
    hide Big, ToBytes, Pow256;
    BigBound(sig[32..]);
    var s := Big(sig[32..]);
    if 2 * s > order {
      BigOfToBytes(order - s, 32);
      assert (sig[..32] + ToBytes(order - s, 32))[32..] == ToBytes(order - s, 32);
    }
  }

  /** highSDer keeps r and replaces s by its opposite. */
  lemma {:induction false} HighSExactly(raw: bytes, order: int)
    requires Der.RawSignature(raw, order) && order - Big(raw[32..]) < Pow256(32)
    ensures Der.HighSDer(raw, order).Ok?
    ensures Der.DerToRaw(Der.HighSDer(raw, order).value, order).Ok?
    ensures var high := Der.DerToRaw(Der.HighSDer(raw, order).value, order).value;
            |high| == 64 && high[..32] == raw[..32] && Big(high[32..]) == order - Big(raw[32..])
  {
    hide Big, ToBytes, Pow256, Der.DerSeq, Der.DerToRaw;
    var s := Big(raw[32..]);
    BigOfToBytes(order - s, 32);
    var high := raw[..32] + ToBytes(order - s, 32);
    assert high[..32] == raw[..32] && high[32..] == ToBytes(order - s, 32);
    Der.DerToRawComplete(high, order);
  }

  /** A DER length has one of three minimal forms; everything else is refused. */
  lemma {:induction false} LengthExactly(buf: bytes, offset: nat, length: nat, next: nat)
    ensures Der.ReadLength(buf, offset) == Ok((length, next))
       <==> || (offset < |buf| && buf[offset] == length < 0x80 && next == offset + 1)
            || (offset + 1 < |buf| && buf[offset] == 0x81 && buf[offset + 1] == length >= 0x80 && next == offset + 2)
            || (offset + 2 < |buf| && buf[offset] == 0x82 && buf[offset + 1] != 0
                && length == 256 * (buf[offset + 1] as int) + buf[offset + 2] as int && next == offset + 3)
    ensures Der.ReadLength(buf, offset).Err? ==> Der.ReadLength(buf, offset).error == Der.DerInvalid
  {
    hide Big;
    if offset + 1 < |buf| {
      BigOfOne(buf[offset + 1]);
      assert buf[offset + 1..offset + 2] == [buf[offset + 1]];
    }
    if offset + 2 < |buf| {
      BigAppend([buf[offset + 1]], buf[offset + 2]);
      assert buf[offset + 1..offset + 3] == [buf[offset + 1]] + [buf[offset + 2]];
    }
  }

  lemma {:induction false} BigOfOne(x: byte)
    ensures Big([x]) == x
  {
    assert [x][..0] == [];
  }
}
