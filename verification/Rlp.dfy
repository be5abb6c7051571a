/**
 * Ethereum RLP (packages/cs2-core/ecdsa/rlp.js): a printer, a strict reader, and
 * the proof that they are inverse bijections.
 */
module Rlp {
  import opened Bytes

  datatype Item = Str(b: bytes) | List(items: seq<Item>)

  datatype RlpError = RlpInvalid | RlpNegative

  /** No byte array of the host is longer. */
  const MAX_BYTES: nat := 0x1F_FFFF_FFFF_FFFF

  // ---- printer -------------------------------------------------------------

  /** The first byte is written into a byte array, so it wraps. */
  function Prefix(shortBase: byte, payload: bytes): bytes {
    if |payload| <= 55 then [(shortBase + |payload|) % 256] + payload
    else [(shortBase + 55 + |MinBytes(|payload|)|) % 256] + MinBytes(|payload|) + payload
  }

  function RlpBytes(b: bytes): bytes {
    if |b| == 1 && b[0] < 0x80 then b else Prefix(0x80, b)
  }

  function Concat(parts: seq<bytes>): bytes {
    if parts == [] then [] else parts[0] + Concat(parts[1..])
  }

  function RlpList(encodedItems: seq<bytes>): bytes { Prefix(0xc0, Concat(encodedItems)) }

  /** rlpInt, where it does not throw. */
  function RlpNat(v: nat): bytes { RlpBytes(MinBytes(v)) }

  /** A nested item, printed with rlpBytes and rlpList. */
  function Encode(item: Item): bytes
    decreases item, 1
  {
    match item
    case Str(b) => RlpBytes(b)
    case List(items) => Prefix(0xc0, EncodeAll(items))
  }

  function EncodeAll(items: seq<Item>): bytes
    decreases items, 0
  {
    if items == [] then [] else Encode(items[0]) + EncodeAll(items[1..])
  }

  /** rlpList over printed items prints the list. */
  lemma {:induction false} ListOfEncoded(items: seq<Item>, parts: seq<bytes>)
    requires |parts| == |items|
    requires forall i :: 0 <= i < |items| ==> parts[i] == Encode(items[i])
    ensures Concat(parts) == EncodeAll(items)
    ensures RlpList(parts) == Encode(List(items))
  {
    if items != [] {
      ListOfEncoded(items[1..], parts[1..]);
    }
  }

  // ---- reader --------------------------------------------------------------

  /** A value read and the offset after it. */
  type Parse<+T> = Result<(T, nat), RlpError>

  function ReadLen(buf: bytes, offset: nat, count: nat): (r: Parse<nat>)
    ensures r.Ok? ==> r.value.1 == offset + count <= |buf|
  {
    if count == 0 || offset + count > |buf| then Err(RlpInvalid)
    else if buf[offset] == 0 then Err(RlpInvalid)
    else Ok((Big(buf[offset..offset + count]), offset + count))
  }

  function ReadItem(buf: bytes, offset: nat): (r: Parse<Item>)
    ensures r.Ok? ==> offset < r.value.1 <= |buf|
    decreases |buf| - offset, 0
  {
    if offset >= |buf| then Err(RlpInvalid)
    else
      var first, start := buf[offset], offset + 1;
      if first < 0x80 then Ok((Str([first]), start))
      else if first <= 0xb7 then
        var len := first - 0x80;
        if start + len > |buf| then Err(RlpInvalid)
        else if len == 1 && buf[start] < 0x80 then Err(RlpInvalid)
        else Ok((Str(buf[start..start + len]), start + len))
      else if first <= 0xbf then
        match ReadLen(buf, start, first - 0xb7)
        case Err(e) => Err(e)
        case Ok((len, next)) =>
          if len < 56 || next + len > |buf| then Err(RlpInvalid)
          else Ok((Str(buf[next..next + len]), next + len))
      else if first <= 0xf7 then ReadList(buf, start, start + (first - 0xc0))
      else
        match ReadLen(buf, start, first - 0xf7)
        case Err(e) => Err(e)
        case Ok((len, next)) => if len < 56 then Err(RlpInvalid) else ReadList(buf, next, next + len)
  }

  function ReadList(buf: bytes, start: nat, end: nat): (r: Parse<Item>)
    requires start <= end
    ensures r.Ok? ==> r.value.0.List? && r.value.1 == end <= |buf|
    decreases |buf| - start, 2
  {
    if end > |buf| then Err(RlpInvalid)
    else match ReadItems(buf, start, end)
      case Err(e) => Err(e)
      case Ok(items) => Ok((List(items), end))
  }

  /** The items that fill buf[start..end] exactly. */
  function ReadItems(buf: bytes, start: nat, end: nat): Result<seq<Item>, RlpError>
    requires start <= end <= |buf|
    decreases |buf| - start, 1
  {
    if start == end then Ok([])
    else match ReadItem(buf, start)
      case Err(e) => Err(e)
      case Ok((item, next)) =>
        if next > end then Err(RlpInvalid)
        else match ReadItems(buf, next, end)
          case Err(e) => Err(e)
          case Ok(rest) => Ok([item] + rest)
  }

  function RlpDecode(buf: bytes): Result<Item, RlpError> {
    match ReadItem(buf, 0)
    case Err(e) => Err(e)
    case Ok((item, next)) => if next != |buf| then Err(RlpInvalid) else Ok(item)
  }

  // ---- accepted bytes are the encoding of what was read --------------------

  lemma {:induction false} LongPrefix(shortBase: byte, payload: bytes, lenBytes: bytes)
    requires |payload| > 55 && MinBytes(|payload|) == lenBytes && shortBase + 55 + |lenBytes| < 256
    ensures Prefix(shortBase, payload) == [shortBase + 55 + |lenBytes|] + lenBytes + payload
  {
    hide MinBytes;
  }

  lemma {:induction false} ReadLenCanonical(buf: bytes, offset: nat, count: nat)
    requires ReadLen(buf, offset, count).Ok?
    ensures var (len, next) := ReadLen(buf, offset, count).value;
            next == offset + count && MinBytes(len) == buf[offset..next]
  {
    hide Big, MinBytes;
    MinBytesOfBig(buf[offset..offset + count]);
  }

  /** A long header as the reader accepts it is the one the printer writes. */
  lemma {:induction false} LongHeader(buf: bytes, start: nat, count: nat, shortBase: byte)
    requires 1 <= count <= 8 && shortBase <= 0xc0 && ReadLen(buf, start, count).Ok? && start >= 1
    requires buf[start - 1] == shortBase + 55 + count
    ensures var (len, next) := ReadLen(buf, start, count).value;
            len >= 56 && next + len <= |buf| ==>
              buf[start - 1..next + len] == Prefix(shortBase, buf[next..next + len])
  {
    hide Big, MinBytes, Prefix, ReadLen;
    var (len, next) := ReadLen(buf, start, count).value;
    ReadLenCanonical(buf, start, count);
    if len >= 56 && next + len <= |buf| {
      var lenBytes, payload := buf[start..next], buf[next..next + len];
      LongPrefix(shortBase, payload, lenBytes);
      assert buf[start - 1..next + len] == [buf[start - 1]] + lenBytes + payload;
    }
  }

  lemma {:induction false} ShortHeader(buf: bytes, start: nat, len: nat, shortBase: byte)
    requires len <= 55 && shortBase <= 0xc0 && 1 <= start && start + len <= |buf|
    requires buf[start - 1] == shortBase + len
    ensures buf[start - 1..start + len] == Prefix(shortBase, buf[start..start + len])
  {
    assert buf[start - 1..start + len] == [buf[start - 1]] + buf[start..start + len];
  }

  lemma {:induction false} ReadItemSound(buf: bytes, offset: nat)
    requires ReadItem(buf, offset).Ok?
    ensures var (item, next) := ReadItem(buf, offset).value; buf[offset..next] == Encode(item)
    decreases |buf| - offset, 0
  {
    hide Big, MinBytes, Prefix, ReadItems, EncodeAll;
    var first, start := buf[offset], offset + 1;
    var (item, next) := ReadItem(buf, offset).value;
    if first < 0x80 {
      assert buf[offset..start] == [first];
    } else if first <= 0xb7 {
      ShortHeader(buf, start, first - 0x80, 0x80);
    } else if first <= 0xbf {
      LongHeader(buf, start, first - 0xb7, 0x80);
    } else if first <= 0xf7 {
      ShortHeader(buf, start, first - 0xc0, 0xc0);
      ReadItemsSound(buf, start, next);
    } else {
      LongHeader(buf, start, first - 0xf7, 0xc0);
      ReadItemsSound(buf, start + (first - 0xf7), next);
    }
  }

  lemma {:induction false} ReadItemsSound(buf: bytes, start: nat, end: nat)
    requires start <= end <= |buf| && ReadItems(buf, start, end).Ok?
    ensures buf[start..end] == EncodeAll(ReadItems(buf, start, end).value)
    decreases |buf| - start, 1
  {
    hide ReadItem, Encode;
    if start != end {
      var (item, next) := ReadItem(buf, start).value;
      ReadItemSound(buf, start);
      ReadItemsSound(buf, next, end);
      var items := ReadItems(buf, start, end).value;
      assert items[0] == item && items[1..] == ReadItems(buf, next, end).value;
      assert buf[start..end] == buf[start..next] + buf[next..end];
    }
  }

  // ---- every encoding is accepted ------------------------------------------

  lemma {:induction false} LengthBytes(payload: bytes)
    requires 55 < |payload| <= MAX_BYTES
    ensures 1 <= |MinBytes(|payload|)| <= 8
    ensures MinBytes(|payload|)[0] != 0 && Big(MinBytes(|payload|)) == |payload|
  {
    BigOfMinBytes(|payload|);
    assert Pow256(8) == 0x1_0000_0000_0000_0000;
    MinBytesLength(|payload|, 8);
  }

  /** Where the printer put the payload, and the length the reader finds there. */
  lemma {:induction false} ReadPrefix(buf: bytes, offset: nat, next: nat, shortBase: byte, payload: bytes)
    requires offset <= next <= |buf| <= MAX_BYTES && (shortBase == 0x80 || shortBase == 0xc0)
    requires buf[offset..next] == Prefix(shortBase, payload)
    ensures offset + 1 + |payload| <= next && buf[next - |payload|..next] == payload
    ensures if |payload| <= 55 then
              buf[offset] == shortBase + |payload| && offset + 1 + |payload| == next
            else
              var count := buf[offset] as int - (shortBase + 55);
              1 <= count <= 8 && ReadLen(buf, offset + 1, count) == Ok((|payload|, next - |payload|))
  {
    hide Big, MinBytes, Prefix;
    var text := buf[offset..next];
    PrefixParts(shortBase, payload);
    SliceOfSlice(buf, offset, next, |text| - |payload|, |text|);
    assert text[0] == buf[offset];
    if |payload| > 55 {
      LengthBytes(payload);
      var lenBytes := MinBytes(|payload|);
      SliceOfSlice(buf, offset, next, 1, 1 + |lenBytes|);
      assert buf[offset + 1] == lenBytes[0];
    }
  }

  lemma {:induction false} SliceOfSlice(buf: bytes, offset: nat, next: nat, from: nat, to: nat)
    requires offset <= next <= |buf| && from <= to <= next - offset
    ensures buf[offset..next][from..to] == buf[offset + from..offset + to]
  {
    var a, b := buf[offset..next][from..to], buf[offset + from..offset + to];
    assert forall k :: 0 <= k < to - from ==> a[k] == buf[offset..next][from + k] == b[k];
  }

  /** The first byte, the length bytes and the payload of a printed string or list. */
  lemma {:induction false} PrefixParts(shortBase: byte, payload: bytes)
    ensures var (text, lenBytes) := (Prefix(shortBase, payload), MinBytes(|payload|));
            if |payload| <= 55 then
              |text| == 1 + |payload| && text[0] == (shortBase + |payload|) % 256 && text[1..] == payload
            else
              && |text| == 1 + |lenBytes| + |payload| && text[0] == (shortBase + 55 + |lenBytes|) % 256
              && text[1..1 + |lenBytes|] == lenBytes && text[1 + |lenBytes|..] == payload
  {
    hide MinBytes;
  }

  lemma {:induction false} ReadOneByte(buf: bytes, offset: nat, next: nat, b: bytes)
    requires offset <= next <= |buf| && buf[offset..next] == b && |b| == 1 && b[0] < 0x80
    ensures ReadItem(buf, offset) == Ok((Str(b), next))
  {
    hide ReadLen, ReadList;
    assert buf[offset] == b[0] && b == [b[0]];
  }

  lemma {:induction false} ReadString(buf: bytes, offset: nat, next: nat, b: bytes)
    requires offset <= next <= |buf| <= MAX_BYTES && buf[offset..next] == Prefix(0x80, b)
    requires !(|b| == 1 && b[0] < 0x80)
    ensures ReadItem(buf, offset) == Ok((Str(b), next))
  {
    hide Prefix, ReadLen, ReadList;
    ReadPrefix(buf, offset, next, 0x80, b);
    if |b| == 1 {
      assert buf[next - 1] == buf[next - 1..next][0] == b[0];
    }
  }

  lemma {:induction false} ReadHeadedList(buf: bytes, offset: nat, next: nat, payload: bytes, items: seq<Item>)
    requires offset <= next <= |buf| <= MAX_BYTES && buf[offset..next] == Prefix(0xc0, payload)
    requires |payload| <= next && ReadItems(buf, next - |payload|, next) == Ok(items)
    ensures ReadItem(buf, offset) == Ok((List(items), next))
  {
    hide Prefix, ReadLen, ReadItems;
    ReadPrefix(buf, offset, next, 0xc0, payload);
  }

  lemma {:induction false} ReadItemComplete(buf: bytes, offset: nat, next: nat, item: Item)
    requires offset <= next <= |buf| <= MAX_BYTES
    requires buf[offset..next] == Encode(item)
    ensures ReadItem(buf, offset) == Ok((item, next))
    decreases item, 1
  {
    hide Big, MinBytes, Prefix, EncodeAll, ReadLen, ReadItem;
    match item
    case Str(b) =>
      if |b| == 1 && b[0] < 0x80 {
        ReadOneByte(buf, offset, next, b);
      } else {
        ReadString(buf, offset, next, b);
      }
    case List(items) =>
      var payload := EncodeAll(items);
      ReadPrefix(buf, offset, next, 0xc0, payload);
      ReadItemsComplete(buf, next - |payload|, next, items);
      ReadHeadedList(buf, offset, next, payload, items);
  }

  lemma {:induction false} ReadItemsComplete(buf: bytes, start: nat, end: nat, items: seq<Item>)
    requires start <= end <= |buf| <= MAX_BYTES
    requires buf[start..end] == EncodeAll(items)
    ensures ReadItems(buf, start, end) == Ok(items)
    decreases items, 0
  {
    hide ReadItem, Encode;
    if items != [] {
      var head := Encode(items[0]);
      var next := start + |head|;
      EncodeNotEmpty(items[0]);
      assert buf[start..next] == buf[start..end][..|head|] == head;
      assert buf[next..end] == buf[start..end][|head|..] == EncodeAll(items[1..]);
      ReadItemComplete(buf, start, next, items[0]);
      ReadItemsComplete(buf, next, end, items[1..]);
      assert items == [items[0]] + items[1..];
    }
  }

  lemma {:induction false} EncodeNotEmpty(item: Item)
    ensures Encode(item) != []
  {
  }

  /**
   * RLP is a bijection: a byte string decodes to an item exactly when it is that
   * item's encoding.
   */
  lemma {:induction false} RlpBijection(buf: bytes, item: Item)
    requires |buf| <= MAX_BYTES
    ensures RlpDecode(buf) == Ok(item) <==> buf == Encode(item)
  {
    hide ReadItem, Encode;
    assert buf[0..|buf|] == buf;
    if RlpDecode(buf) == Ok(item) {
      ReadItemSound(buf, 0);
    }
    if buf == Encode(item) {
      ReadItemComplete(buf, 0, |buf|, item);
    }
  }

  /** rlpInt prints canonical strings, read back by rlpIntValue. */
  lemma {:induction false} RlpIntRoundTrip(v: nat)
    requires |RlpNat(v)| <= MAX_BYTES
    ensures RlpDecode(RlpNat(v)) == Ok(Str(MinBytes(v))) && Big(MinBytes(v)) == v
  {
    hide Big, MinBytes, RlpBytes, RlpDecode;
    BigOfMinBytes(v);
    RlpBijection(RlpNat(v), Str(MinBytes(v)));
  }

  // ---- the code's loops ----------------------------------------------------

  /** encodeLen: push low bytes, then reverse. */
  method EncodeLen(len: nat) returns (out: bytes)
    ensures out == MinBytes(len)
  {
    out := [];
    var n := len;
    while n > 0
      invariant MinBytes(len) == MinBytes(n) + Reversed(out)
    {
      out := out + [n % 256];
      n := n / 256;
    }
    out := Reversed(out);
  }

  function Reversed(s: bytes): (r: bytes) {
    if s == [] then [] else [s[|s| - 1]] + Reversed(s[..|s| - 1])
  }

  /** rlpInt: the same loop on a big integer; negative values are refused. */
  method RlpInt(value: int) returns (r: Result<bytes, RlpError>)
    ensures r == if value < 0 then Err(RlpNegative) else Ok(RlpNat(value))
  {
    if value < 0 {
      return Err(RlpNegative);
    }
    if value == 0 {
      assert RlpBytes(MinBytes(0)) == [0x80];
      return Ok([0x80]);
    }
    var minimal := EncodeLen(value);
    return Ok(RlpBytes(minimal));
  }

  /** prefix: fill a fresh buffer. */
  method WritePrefix(shortBase: byte, payload: bytes) returns (out: array<byte>)
    ensures fresh(out) && out[..] == Prefix(shortBase, payload)
  {
    hide MinBytes;
    var lenBytes: bytes := [];
    var first: int := shortBase + |payload|;
    if |payload| > 55 {
      lenBytes := EncodeLen(|payload|);
      first := shortBase + 55 + |lenBytes|;
    }
    out := new byte[1 + |lenBytes| + |payload|];
    out[0] := first % 256;
    CopyInto(out, lenBytes, 1);
    ghost var head := out[..1 + |lenBytes|];
    assert head[..1] == [first % 256] && head[1..] == lenBytes;
    CopyInto(out, payload, 1 + |lenBytes|);
    assert out[..1] == head[..1] && out[1..1 + |lenBytes|] == head[1..];
    assert out[..1] == [first % 256];
    assert out[1 + |lenBytes|..] == payload;
    assert out[..] == out[..1] + out[1..1 + |lenBytes|] + out[1 + |lenBytes|..];
  }

  /** TypedArray.set. */
  method CopyInto(out: array<byte>, part: bytes, at: nat)
    requires at + |part| <= out.Length
    modifies out
    ensures out[..at] == old(out[..at]) && out[at..at + |part|] == part
    ensures out[at + |part|..] == old(out[at + |part|..])
  {
    forall i | 0 <= i < |part| {
      out[at + i] := part[i];
    }
  }

  /** readLen: fold the length bytes. */
  method ReadLenLoop(buf: bytes, offset: nat, count: nat) returns (r: Parse<nat>)
    ensures r == ReadLen(buf, offset, count)
  {
    if count == 0 || offset + count > |buf| {
      return Err(RlpInvalid);
    }
    if buf[offset] == 0 {
      return Err(RlpInvalid);
    }
    var len: nat := 0;
    for i := 0 to count
      invariant len == Big(buf[offset..offset + i])
    {
      assert buf[offset..offset + i + 1][..i] == buf[offset..offset + i];
      len := len * 256 + buf[offset + i];
    }
    return Ok((len, offset + count));
  }

  method ReadItemLoop(buf: bytes, offset: nat) returns (r: Parse<Item>)
    ensures r == ReadItem(buf, offset)
    decreases |buf| - offset, 0
  {
    hide ReadItems;
    if offset >= |buf| {
      return Err(RlpInvalid);
    }
    var first, start := buf[offset], offset + 1;
    if first < 0x80 {
      return Ok((Str([first]), start));
    }
    if first <= 0xb7 {
      var len := first - 0x80;
      if start + len > |buf| { return Err(RlpInvalid); }
      if len == 1 && buf[start] < 0x80 { return Err(RlpInvalid); }
      return Ok((Str(buf[start..start + len]), start + len));
    }
    if first <= 0xbf {
      var header := ReadLenLoop(buf, start, first - 0xb7);
      if header.Err? { return Err(header.error); }
      var (len, next) := header.value;
      if len < 56 || next + len > |buf| { return Err(RlpInvalid); }
      return Ok((Str(buf[next..next + len]), next + len));
    }
    if first <= 0xf7 {
      r := ReadListLoop(buf, start, start + (first - 0xc0));
      return;
    }
    var header := ReadLenLoop(buf, start, first - 0xf7);
    if header.Err? { return Err(header.error); }
    var (len, next) := header.value;
    if len < 56 { return Err(RlpInvalid); }
    r := ReadListLoop(buf, next, next + len);
  }

  /** readList: read items and push them until the list's end. */
  method ReadListLoop(buf: bytes, start: nat, end: nat) returns (r: Parse<Item>)
    requires start <= end
    ensures r == ReadList(buf, start, end)
    decreases |buf| - start, 2
  {
    hide ReadItem;
    if end > |buf| {
      return Err(RlpInvalid);
    }
    var items: seq<Item> := [];
    var offset := start;
    assert forall rest: seq<Item> :: items + rest == rest;
    while offset < end
      invariant start <= offset <= end
      invariant match ReadItems(buf, offset, end)
                case Ok(rest) => ReadItems(buf, start, end) == Ok(items + rest)
                case Err(e) => ReadItems(buf, start, end) == Err(e)
    {
      var item := ReadItemLoop(buf, offset);
      if item.Err? { return Err(item.error); }
      if item.value.1 > end { return Err(RlpInvalid); }
      assert forall rest :: items + ([item.value.0] + rest) == (items + [item.value.0]) + rest;
      items := items + [item.value.0];
      offset := item.value.1;
    }
    assert items + [] == items;
    return Ok((List(items), end));
  }

  method Decode(buf: bytes) returns (r: Result<Item, RlpError>)
    ensures r == RlpDecode(buf)
  {
    var item := ReadItemLoop(buf, 0);
    if item.Err? { return Err(item.error); }
    if item.value.1 != |buf| { return Err(RlpInvalid); }
    return Ok(item.value.0);
  }
}
