/**
 * Strict DER signatures and low-S (packages/cs2-core/ecdsa/der.js), against the
 * printer in packages/cs2-core/ecdsa/sign.js.
 */
module Der {
  import opened Bytes

  /** der_invalid, and bad_scalar from bigToBytes. */
  datatype DerError = DerInvalid | ScalarMisfit

  type Parse = Result<(nat, nat), DerError>

  // ---- reader --------------------------------------------------------------

  /** A definite, minimal length and the offset after it. */
  function ReadLength(buf: bytes, offset: nat): (r: Parse)
    ensures r.Ok? ==> offset < r.value.1 <= |buf|
  {
    if offset >= |buf| then Err(DerInvalid)
    else if buf[offset] < 0x80 then Ok((buf[offset], offset + 1))
    else
      var count := buf[offset] - 0x80;
      if count == 0 || count > 2 then Err(DerInvalid)
      else if offset + 1 + count > |buf| then Err(DerInvalid)
      else if buf[offset + 1] == 0 then Err(DerInvalid)
      else
        var length := Big(buf[offset + 1..offset + 1 + count]);
        if length < 0x80 then Err(DerInvalid) else Ok((length, offset + 1 + count))
  }

  /** Leading zeros dropped, but never the last byte. */
  function StripZeros(b: bytes): bytes {
    if |b| > 1 && b[0] == 0 then StripZeros(b[1..]) else b
  }

  predicate MinimalInteger(content: bytes) {
    && |content| >= 1 && content[0] < 0x80
    && (content[0] == 0 ==> |content| >= 2 && content[1] >= 0x80)
  }

  /** An INTEGER in [1, order) and the offset after it. */
  function ReadScalar(buf: bytes, offset: nat, end: nat, order: int): (r: Parse)
    requires end <= |buf|
    ensures r.Ok? ==> offset < r.value.1 <= end
  {
    if offset >= end || buf[offset] != 0x02 then Err(DerInvalid)
    else match ReadLength(buf, offset + 1)
      case Err(e) => Err(e)
      case Ok((length, start)) =>
        if length < 1 || start + length > end then Err(DerInvalid)
        else
          var content := buf[start..start + length];
          if !MinimalInteger(content) || |StripZeros(content)| > 32 then Err(DerInvalid)
          else if Big(content) == 0 || Big(content) >= order then Err(DerInvalid)
          else Ok((Big(content), start + length))
  }

  function DerToRaw(buf: bytes, order: int): Result<bytes, DerError> {
    if |buf| < 8 || buf[0] != 0x30 then Err(DerInvalid)
    else match ReadLength(buf, 1)
      case Err(e) => Err(e)
      case Ok((length, next)) =>
        if next + length != |buf| then Err(DerInvalid)
        else match ReadScalar(buf, next, |buf|, order)
          case Err(e) => Err(e)
          case Ok((r, afterR)) =>
            match ReadScalar(buf, afterR, |buf|, order)
            case Err(e) => Err(e)
            case Ok((s, afterS)) =>
              if afterS != |buf| then Err(DerInvalid) else Ok(ToBytes(r, 32) + ToBytes(s, 32))
  }

  // ---- printer (sign.js) ---------------------------------------------------

  function IntegerBody(b: bytes): bytes {
    var body := StripZeros(b);
    if body != [] && body[0] >= 0x80 then [0] + body else body
  }

  function DerInt(b: bytes): Result<bytes, DerError> {
    var body := IntegerBody(b);
    if |body| >= 128 then Err(DerInvalid) else Ok([0x02, |body|] + body)
  }

  function DerSeq(r: bytes, s: bytes): Result<bytes, DerError> {
    match (DerInt(r), DerInt(s))
    case (Ok(a), Ok(b)) => if |a + b| >= 128 then Err(DerInvalid) else Ok([0x30, |a + b|] + a + b)
    case _ => Err(DerInvalid)
  }

  // ---- the scalar codec is a bijection -------------------------------------

  predicate Scalar(v: nat, order: int) { 1 <= v < order }

  lemma {:induction false} StripZerosIsMinimal(b: bytes)
    requires Big(b) > 0
    ensures StripZeros(b) == MinBytes(Big(b)) && StripZeros(b)[0] != 0
  {
    if |b| > 1 && b[0] == 0 {
      assert b == Zeros(1) + b[1..];
      BigOfPadded(1, b[1..]);
      StripZerosIsMinimal(b[1..]);
    } else {
      if b[0] == 0 {
        assert b == Zeros(1);
        BigOfZeros(1);
        assert false;
      }
      MinBytesOfBig(b);
    }
  }

  /** Minimal INTEGER contents are exactly the printed body of their value. */
  lemma {:induction false} MinimalIntegerIsBody(content: bytes)
    requires Big(content) > 0
    ensures MinimalInteger(content) <==> content == IntegerBody(MinBytes(Big(content)))
  {
    hide Big, MinBytes, StripZeros, IntegerBody;
    var minimal := MinBytes(Big(content));
    BigOfMinBytes(Big(content));
    StripZerosIsMinimal(content);
    BodyOfMinimal(minimal);
    StripStep(content);
    assert MinimalInteger(IntegerBody(minimal));
    if MinimalInteger(content) && content[0] == 0 {
      StripStep(content[1..]);
      assert content == [0] + content[1..];
    }
  }

  lemma {:induction false} BodyOfMinimal(minimal: bytes)
    requires Big(minimal) > 0 && MinBytes(Big(minimal)) == minimal
    ensures |minimal| >= 1 && minimal[0] != 0
    ensures IntegerBody(minimal) == if minimal[0] >= 0x80 then [0] + minimal else minimal
  {
    hide MinBytes, StripZeros;
    StripZerosIsMinimal(minimal);
  }

  lemma {:induction false} StripStep(b: bytes)
    ensures StripZeros(b) == if |b| > 1 && b[0] == 0 then StripZeros(b[1..]) else b
  {
  }

  /** The body printed for a value does not depend on how it was padded. */
  lemma {:induction false} BodyOfFixedWidth(v: nat)
    requires 0 < v < Pow256(32)
    ensures IntegerBody(ToBytes(v, 32)) == IntegerBody(MinBytes(v))
    ensures 1 <= |MinBytes(v)| <= |IntegerBody(MinBytes(v))| <= 33
    ensures Big(IntegerBody(MinBytes(v))) == v
  {
    hide Big, MinBytes, StripZeros, Pow256;
    BigOfToBytes(v, 32);
    BigOfMinBytes(v);
    StripZerosIsMinimal(ToBytes(v, 32));
    BodyOfMinimal(MinBytes(v));
    MinBytesLength(v, 32);
    if MinBytes(v)[0] >= 0x80 {
      assert IntegerBody(MinBytes(v)) == Zeros(1) + MinBytes(v);
      BigOfPadded(1, MinBytes(v));
    }
  }

  /** The printed INTEGER; a scalar's body is at most 33 bytes, so nothing wraps. */
  function ScalarDer(v: nat): bytes {
    [0x02, |IntegerBody(MinBytes(v))| % 256] + IntegerBody(MinBytes(v))
  }

  /** What an accepted INTEGER has passed. */
  lemma {:induction false} ReadScalarParts(buf: bytes, offset: nat, end: nat, order: int) returns (start: nat)
    requires end <= |buf| && ReadScalar(buf, offset, end, order).Ok?
    ensures var (v, next) := ReadScalar(buf, offset, end, order).value;
            && offset + 1 < start < next <= end
            && buf[offset] == 0x02 && ReadLength(buf, offset + 1) == Ok((next - start, start))
            && v == Big(buf[start..next]) && Scalar(v, order)
            && MinimalInteger(buf[start..next]) && |StripZeros(buf[start..next])| <= 32
  {
    hide Big, StripZeros, MinimalInteger, ReadLength;
    start := ReadLength(buf, offset + 1).value.1;
  }

  /** An INTEGER under a one-byte length, as the reader takes it. */
  lemma {:induction false} ReadShort(buf: bytes, offset: nat, next: nat, end: nat, order: int)
    requires offset + 2 < next <= end <= |buf| && next - offset < 0x80
    requires buf[offset] == 0x02 && buf[offset + 1] == next - offset - 2
    requires var content := buf[offset + 2..next];
             MinimalInteger(content) && |StripZeros(content)| <= 32 && Scalar(Big(content), order)
    ensures ReadScalar(buf, offset, end, order) == Ok((Big(buf[offset + 2..next]), next))
  {
    hide Big, StripZeros, MinimalInteger;
  }

  lemma {:induction false} LengthIsShort(buf: bytes, offset: nat, length: nat, start: nat)
    requires ReadLength(buf, offset) == Ok((length, start)) && length < 0x80
    ensures offset < |buf| && start == offset + 1 && buf[offset] == length
  {
    hide Big;
  }

  lemma {:induction false} Pow256Grows(m: nat, n: nat)
    requires m <= n
    ensures Pow256(m) <= Pow256(n)
  {
    if m < n {
      Pow256Grows(m, n - 1);
    }
  }

  /** A value whose digits fit 32 bytes. */
  lemma {:induction false} StrippedFits(content: bytes)
    requires Big(content) > 0 && |StripZeros(content)| <= 32
    ensures Big(content) < Pow256(32)
  {
    hide Big, MinBytes, StripZeros, Pow256;
    StripZerosIsMinimal(content);
    BigOfMinBytes(Big(content));
    BigBound(MinBytes(Big(content)));
    Pow256Grows(|StripZeros(content)|, 32);
  }

  lemma {:induction false} ReadScalarSound(buf: bytes, offset: nat, end: nat, order: int)
    requires end <= |buf|
    requires ReadScalar(buf, offset, end, order).Ok?
    ensures var (v, next) := ReadScalar(buf, offset, end, order).value;
            Scalar(v, order) && v < Pow256(32) && buf[offset..next] == ScalarDer(v)
  {
    hide Big, MinBytes, StripZeros, ToBytes, Pow256, ReadLength, ReadScalar, MinimalInteger, IntegerBody;
    var (v, next) := ReadScalar(buf, offset, end, order).value;
    var start := ReadScalarParts(buf, offset, end, order);
    var content := buf[start..next];
    StrippedFits(content);
    MinimalIntegerIsBody(content);
    BodyOfFixedWidth(v);
    assert |content| == next - start <= 33;
    LengthIsShort(buf, offset + 1, next - start, start);
    assert buf[offset..next] == [buf[offset], buf[offset + 1]] + content;
  }

  lemma {:induction false} ReadScalarComplete(buf: bytes, offset: nat, next: nat, end: nat, order: int, v: nat)
    requires offset <= next <= end <= |buf| && Scalar(v, order) && v < Pow256(32)
    requires buf[offset..next] == ScalarDer(v)
    ensures ReadScalar(buf, offset, end, order) == Ok((v, next))
  {
    hide Big, MinBytes, StripZeros, ToBytes, Pow256, IntegerBody, ReadScalar, MinimalInteger;
    BodyOfFixedWidth(v);
    var body, text := IntegerBody(MinBytes(v)), buf[offset..next];
    assert buf[offset] == text[0] && buf[offset + 1] == text[1];
    assert buf[offset + 2..next] == text[2..] == body;
    MinimalIntegerIsBody(body);
    StripZerosIsMinimal(body);
    MinBytesLength(v, 32);
    ReadShort(buf, offset, next, end, order);
  }

  // ---- the sequence codec is a bijection -----------------------------------

  /** A 64-byte r || s with both halves in [1, order). */
  predicate RawSignature(raw: bytes, order: int) {
    |raw| == 64 && Scalar(Big(raw[..32]), order) && Scalar(Big(raw[32..]), order)
  }

  lemma {:induction false} RawHalves(r: nat, s: nat, order: int)
    requires Scalar(r, order) && Scalar(s, order) && r < Pow256(32) && s < Pow256(32)
    ensures var raw := ToBytes(r, 32) + ToBytes(s, 32);
            && RawSignature(raw, order)
            && raw[..32] == ToBytes(r, 32) && raw[32..] == ToBytes(s, 32)
            && Big(raw[..32]) == r && Big(raw[32..]) == s
  {
    hide Pow256, Big, ToBytes;
    BigOfToBytes(r, 32);
    BigOfToBytes(s, 32);
  }

  lemma {:induction false} RawOfHalves(raw: bytes)
    requires |raw| == 64
    ensures raw == ToBytes(Big(raw[..32]), 32) + ToBytes(Big(raw[32..]), 32)
    ensures Big(raw[..32]) < Pow256(32) && Big(raw[32..]) < Pow256(32)
  {
    hide Pow256, Big, ToBytes;
    ToBytesOfBig(raw[..32]);
    ToBytesOfBig(raw[32..]);
    BigBound(raw[..32]);
    BigBound(raw[32..]);
  }

  lemma {:induction false} DerSeqOfScalars(r: nat, s: nat)
    requires 0 < r < Pow256(32) && 0 < s < Pow256(32)
    ensures |ScalarDer(r)| <= 35 && |ScalarDer(s)| <= 35
    ensures DerSeq(ToBytes(r, 32), ToBytes(s, 32))
         == Ok([0x30, |ScalarDer(r)| + |ScalarDer(s)|] + ScalarDer(r) + ScalarDer(s))
  {
    hide Pow256, Big, MinBytes, ToBytes, IntegerBody;
    BodyOfFixedWidth(r);
    BodyOfFixedWidth(s);
  }

  lemma {:induction false} DerToRawSound(der: bytes, order: int)
    requires DerToRaw(der, order).Ok?
    ensures var raw := DerToRaw(der, order).value;
            RawSignature(raw, order) && DerSeq(raw[..32], raw[32..]) == Ok(der)
  {
    hide Pow256, Big, ToBytes, ReadScalar, DerSeq, ScalarDer;
    var (length, next) := ReadLength(der, 1).value;
    var (r, afterR) := ReadScalar(der, next, |der|, order).value;
    var (s, afterS) := ReadScalar(der, afterR, |der|, order).value;
    ReadScalarSound(der, next, |der|, order);
    ReadScalarSound(der, afterR, |der|, order);
    DerSeqOfScalars(r, s);
    RawHalves(r, s, order);
    assert |der[next..afterR]| == |ScalarDer(r)| && |der[afterR..]| == |ScalarDer(s)|;
    assert length <= 70 && next == 2;
    assert der[afterR..afterS] == der[afterR..];
    assert der == [der[0], der[1]] + der[2..afterR] + der[afterR..];
  }

  lemma {:induction false} DerToRawComplete(raw: bytes, order: int)
    requires RawSignature(raw, order)
    ensures DerSeq(raw[..32], raw[32..]).Ok?
    ensures DerToRaw(DerSeq(raw[..32], raw[32..]).value, order) == Ok(raw)
  {
    hide Pow256, Big, ToBytes, ReadScalar, DerSeq, ScalarDer;
    var r, s := Big(raw[..32]), Big(raw[32..]);
    RawOfHalves(raw);
    ToBytesOfBig(raw[..32]);
    ToBytesOfBig(raw[32..]);
    DerSeqOfScalars(r, s);
    ScalarDerSize(r);
    ScalarDerSize(s);
    var der := DerSeq(raw[..32], raw[32..]).value;
    var mid := 2 + |ScalarDer(r)|;
    assert der[2..mid] == ScalarDer(r);
    assert der[mid..|der|] == ScalarDer(s);
    ReadScalarComplete(der, 2, mid, |der|, order, r);
    ReadScalarComplete(der, mid, |der|, |der|, order, s);
    assert ReadLength(der, 1) == Ok((|der| - 2, 2));
  }

  lemma {:induction false} ScalarDerSize(v: nat)
    requires 0 < v < Pow256(32)
    ensures |ScalarDer(v)| >= 3
  {
    BodyOfFixedWidth(v);
  }

  /**
   * DER is a bijection onto raw signatures: a byte string decodes to raw exactly
   * when it is what the printer makes of raw, and raw's halves are in range.
   */
  lemma {:induction false} DerBijection(der: bytes, raw: bytes, order: int)
    ensures DerToRaw(der, order) == Ok(raw)
       <==> RawSignature(raw, order) && DerSeq(raw[..32], raw[32..]) == Ok(der)
  {
    hide DerToRaw, DerSeq;
    if DerToRaw(der, order) == Ok(raw) {
      DerToRawSound(der, order);
    }
    if RawSignature(raw, order) {
      DerToRawComplete(raw, order);
    }
  }

  // ---- low-S ---------------------------------------------------------------

  function LowS(sig: bytes, order: int): Result<bytes, DerError>
  {
    if |sig| != 64 then Err(DerInvalid)
    else
      var s := Big(sig[32..]);
      if s == 0 || s >= order then Err(DerInvalid)
      else if s <= order / 2 then Ok(sig)
      else Ok(sig[..32] + ToBytes(order - s, 32))
  }

  function NormalizeDer(der: bytes, order: int): Result<bytes, DerError>
  {
    match DerToRaw(der, order)
    case Err(e) => Err(e)
    case Ok(raw) => LowS(raw, order)
  }

  /** highSDer (sign.js): the other signature with the same r. */
  function HighSDer(raw: bytes, order: int): Result<bytes, DerError>
    requires |raw| == 64
  {
    var s := order - Big(raw[32..]);
    if s < 0 || s >= Pow256(32) then Err(ScalarMisfit) else DerSeq(raw[..32], ToBytes(s, 32))
  }

  /** Low-S lands in [1, order/2], keeps r, negates s or keeps it, and is idempotent. */
  lemma {:induction false} LowSNormal(sig: bytes, order: int)
    ensures LowS(sig, order).Ok? <==> |sig| == 64 && Scalar(Big(sig[32..]), order)
    ensures LowS(sig, order).Ok? ==>
              var low := LowS(sig, order).value;
              && |low| == 64 && low[..32] == sig[..32]
              && 1 <= Big(low[32..]) <= order / 2
              && (Big(low[32..]) == Big(sig[32..]) || Big(low[32..]) == order - Big(sig[32..]))
              && LowS(low, order) == Ok(low)
  {
    hide Pow256, Big, ToBytes;
    if LowS(sig, order).Ok? {
      var s, low := Big(sig[32..]), LowS(sig, order).value;
      if s > order / 2 {
        BigBound(sig[32..]);
        BigOfToBytes(order - s, 32);
        assert low[32..] == ToBytes(order - s, 32);
      }
    }
  }

  /**
   * The high-S DER of a low-S signature exists exactly if the other s fits 32 bytes,
   * and then normalizes back to it.
   */
  lemma {:induction false} NormalizeHighS(raw: bytes, order: int)
    requires RawSignature(raw, order) && Big(raw[32..]) <= order / 2
    ensures HighSDer(raw, order).Ok? <==> order - Big(raw[32..]) < Pow256(32)
    ensures order - Big(raw[32..]) >= Pow256(32) ==> HighSDer(raw, order) == Err(ScalarMisfit)
    ensures HighSDer(raw, order).Ok? ==> NormalizeDer(HighSDer(raw, order).value, order) == Ok(raw)
  {
    hide Pow256, Big, ToBytes, DerSeq, DerToRaw;
    var s := Big(raw[32..]);
    if order - s < Pow256(32) {
      var high := raw[..32] + ToBytes(order - s, 32);
      BigOfToBytes(order - s, 32);
      assert high[..32] == raw[..32] && high[32..] == ToBytes(order - s, 32);
      DerToRawComplete(high, order);
      RawOfHalves(raw);
      ToBytesOfBig(raw[32..]);
      assert raw == raw[..32] + raw[32..];
    }
  }

  // ---- the code's loops ----------------------------------------------------

  method ReadLengthLoop(buf: bytes, offset: nat) returns (r: Parse)
    ensures r == ReadLength(buf, offset)
  {
    if offset >= |buf| { return Err(DerInvalid); }
    var first := buf[offset];
    if first < 0x80 { return Ok((first, offset + 1)); }
    var count := first - 0x80;
    if count == 0 || count > 2 { return Err(DerInvalid); }
    if offset + 1 + count > |buf| { return Err(DerInvalid); }
    if buf[offset + 1] == 0 { return Err(DerInvalid); }
    var length: nat := 0;
    for i := 0 to count
      invariant length == Big(buf[offset + 1..offset + 1 + i])
    {
      assert buf[offset + 1..offset + 1 + i + 1][..i] == buf[offset + 1..offset + 1 + i];
      length := length * 256 + buf[offset + 1 + i];
    }
    if length < 0x80 { return Err(DerInvalid); }
    return Ok((length, offset + 1 + count));
  }

  method ReadScalarLoop(buf: bytes, offset: nat, end: nat, order: int) returns (r: Parse)
    requires end <= |buf|
    ensures r == ReadScalar(buf, offset, end, order)
  {
    hide Big, ReadLength, StripZeros;
    if offset >= end || buf[offset] != 0x02 { return Err(DerInvalid); }
    var header := ReadLengthLoop(buf, offset + 1);
    if header.Err? { return Err(header.error); }
    var (length, start) := header.value;
    if length < 1 { return Err(DerInvalid); }
    var last := start + length;
    if last > end { return Err(DerInvalid); }
    if buf[start] >= 0x80 { return Err(DerInvalid); }
    if buf[start] == 0 {
      if length == 1 || buf[start + 1] < 0x80 { return Err(DerInvalid); }
    }
    var i := start;
    while i < last - 1 && buf[i] == 0
      invariant start <= i < last
      invariant StripZeros(buf[start..last]) == StripZeros(buf[i..last])
    {
      StripStep(buf[i..last]);
      assert buf[i..last][1..] == buf[i + 1..last];
      i := i + 1;
    }
    StripStep(buf[i..last]);
    if last - i > 32 { return Err(DerInvalid); }
    var value := BytesToBig(buf[start..last]);
    if value == 0 || value >= order { return Err(DerInvalid); }
    return Ok((value, last));
  }

  /** derToRaw writes both scalars into one 64-byte buffer. */
  method DerToRawBuffer(der: bytes, order: int) returns (r: Result<array<byte>, DerError>)
    ensures r.Ok? ==> fresh(r.value) && DerToRaw(der, order) == Ok(r.value[..])
    ensures r.Err? ==> DerToRaw(der, order) == Err(r.error)
  {
    hide Pow256, Big, ToBytes, ReadScalar;
    if |der| < 8 || der[0] != 0x30 { return Err(DerInvalid); }
    var header := ReadLengthLoop(der, 1);
    if header.Err? { return Err(header.error); }
    var (length, next) := header.value;
    if next + length != |der| { return Err(DerInvalid); }
    var first := ReadScalarLoop(der, next, |der|, order);
    if first.Err? { return Err(first.error); }
    ReadScalarSound(der, next, |der|, order);
    var second := ReadScalarLoop(der, first.value.1, |der|, order);
    if second.Err? { return Err(second.error); }
    ReadScalarSound(der, first.value.1, |der|, order);
    if second.value.1 != |der| { return Err(DerInvalid); }
    var rBytes := BigToBytes(first.value.0, 32);
    var sBytes := BigToBytes(second.value.0, 32);
    ToBytesOfBig(rBytes.value);
    ToBytesOfBig(sBytes.value);
    var out := new byte[64];
    forall i | 0 <= i < 32 { out[i] := rBytes.value[i]; }
    forall i | 0 <= i < 32 { out[32 + i] := sBytes.value[i]; }
    assert out[..] == rBytes.value + sBytes.value;
    return Ok(out);
  }

  /** lowS overwrites the second half of a copy. */
  method LowSBuffer(sig: bytes, order: int) returns (r: Result<array<byte>, DerError>)
    ensures r.Ok? ==> fresh(r.value) && LowS(sig, order) == Ok(r.value[..])
    ensures r.Err? ==> LowS(sig, order) == Err(r.error)
  {
    hide Pow256, Big, ToBytes;
    if |sig| != 64 { return Err(DerInvalid); }
    var s := BytesToBig(sig[32..]);
    if s == 0 || s >= order { return Err(DerInvalid); }
    var out := new byte[64](i requires 0 <= i < 64 => sig[i]);
    assert out[..] == sig;
    if s <= order / 2 { return Ok(out); }
    BigBound(sig[32..]);
    var flipped := BigToBytes(order - s, 32);
    ToBytesOfBig(flipped.value);
    forall i | 0 <= i < 32 { out[32 + i] := flipped.value[i]; }
    assert out[..] == sig[..32] + flipped.value;
    return Ok(out);
  }

  /** derInt: skip leading zeros, then add one back if the top bit is set. */
  method DerIntLoop(b: bytes) returns (r: Result<bytes, DerError>)
    ensures r == DerInt(b)
  {
    var i := 0;
    while i + 1 < |b| && b[i] == 0
      invariant 0 <= i && (b == [] || i < |b|) && (b == [] ==> i == 0)
      invariant StripZeros(b) == StripZeros(b[i..])
    {
      assert b[i..][1..] == b[i + 1..];
      i := i + 1;
    }
    var body := b[i..];
    if body != [] && body[0] >= 0x80 { body := [0] + body; }
    if |body| >= 128 { return Err(DerInvalid); }
    return Ok([0x02, |body|] + body);
  }
}
