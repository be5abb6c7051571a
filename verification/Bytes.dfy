/**
 * Byte strings and the integer/byte bijection that the codecs and the
 * signatures rest on (packages/cs2-core/ecdsa/bytes.js).
 */
module Bytes {

  type byte = b: int | 0 <= b < 256
  type bytes = seq<byte>

  datatype Option<+T> = None | Some(value: T)
  datatype Result<+T, +E> = Ok(value: T) | Err(error: E)

  /** 256 to the power n. */
  function Pow256(n: nat): (r: nat)
    ensures r >= 1
  {
    if n == 0 then 1 else 256 * Pow256(n - 1)
  }

  /** 2 to the power h. */
  function Pow2(h: nat): (r: nat)
    ensures r >= 1
  {
    if h == 0 then 1 else 2 * Pow2(h - 1)
  }

  /** The integer a byte string spells, most significant byte first. */
  function Big(b: bytes): nat {
    if |b| == 0 then 0 else Big(b[..|b| - 1]) * 256 + b[|b| - 1]
  }

  /** The `len` low-order bytes of v, most significant first. */
  function ToBytes(v: nat, len: nat): (r: bytes)
    ensures |r| == len
  {
    if len == 0 then [] else ToBytes(v / 256, len - 1) + [v % 256]
  }

  /** The bytes of v without leading zeros; empty for zero. */
  function MinBytes(v: nat): bytes {
    if v == 0 then [] else MinBytes(v / 256) + [v % 256]
  }

  lemma {:induction false} BigAppend(b: bytes, x: byte)
    ensures Big(b + [x]) == Big(b) * 256 + x
  {
    assert (b + [x])[..|b|] == b;
  }

  /** The bytes in front count Pow256 of the bytes behind. */
  lemma {:induction false} BigConcat(a: bytes, b: bytes)
    ensures Big(a + b) == Big(a) * Pow256(|b|) + Big(b)
  {
    if b == [] {
      assert a + b == a;
    } else {
      var init, last := b[..|b| - 1], b[|b| - 1];
      BigConcat(a, init);
      assert a + b == (a + init) + [last] && b == init + [last];
      BigAppend(a + init, last);
      BigAppend(init, last);
      OneByteFurther(Big(a), Pow256(|init|), Big(init), last);
    }
  }

  lemma {:induction false} OneByteFurther(a: nat, p: nat, b: nat, x: nat)
    ensures (a * p + b) * 256 + x == a * (256 * p) + (b * 256 + x)
  {
  }

  lemma {:induction false} BigBound(b: bytes)
    ensures Big(b) < Pow256(|b|)
  {
    if |b| != 0 {
      BigBound(b[..|b| - 1]);
    }
  }

  /** The last byte and the bytes before it, as quotient and remainder. */
  lemma {:induction false} DigitsApart(head: nat, last: byte)
    ensures (head * 256 + last) / 256 == head && (head * 256 + last) % 256 == last
  {
  }

  /** One byte of ToBytes. */
  lemma {:induction false} ToBytesStep(v: nat, len: nat)
    requires len > 0
    ensures ToBytes(v, len) == ToBytes(v / 256, len - 1) + [v % 256]
    ensures v < Pow256(len) <==> v / 256 < Pow256(len - 1)
  {
  }

  lemma {:induction false} ToBytesOfBig(b: bytes)
    ensures ToBytes(Big(b), |b|) == b
  {
    if |b| != 0 {
      var init, last := b[..|b| - 1], b[|b| - 1];
      ToBytesOfBig(init);
      DigitsApart(Big(init), last);
      ToBytesStep(Big(b), |b|);
      hide ToBytes;
      assert b == init + [last];
    }
  }

  lemma {:induction false} BigOfToBytes(v: nat, len: nat)
    requires v < Pow256(len)
    ensures Big(ToBytes(v, len)) == v
  {
    hide ToBytes, Big, Pow256;
    if len == 0 {
      NoBytes(v);
    } else {
      var head, last: byte := v / 256, v % 256;
      ToBytesStep(v, len);
      BigOfToBytes(head, len - 1);
      BigAppend(ToBytes(head, len - 1), last);
    }
  }

  lemma {:induction false} NoBytes(v: nat)
    ensures ToBytes(v, 0) == [] && Pow256(0) == 1 && Big([]) == 0
  {
  }

  lemma {:induction false} BigOfMinBytes(v: nat)
    ensures Big(MinBytes(v)) == v
    ensures MinBytes(v) != [] ==> MinBytes(v)[0] != 0
  {
    if v != 0 {
      var init := MinBytes(v / 256);
      BigOfMinBytes(v / 256);
      BigAppend(init, v % 256);
      assert MinBytes(v)[0] == if init == [] then v % 256 else init[0];
    }
  }

  /** A byte string is the minimal form of its own value iff it has no leading zero. */
  lemma {:induction false} MinBytesOfBig(b: bytes)
    ensures MinBytes(Big(b)) == b <==> b == [] || b[0] != 0
  {
    BigOfMinBytes(Big(b));
    if b != [] && b[0] != 0 {
      MinBytesOfBigCanonical(b);
    }
  }

  lemma {:induction false} MinBytesOfBigCanonical(b: bytes)
    requires b != [] && b[0] != 0
    ensures Big(b) > 0 && MinBytes(Big(b)) == b
  {
    var init := b[..|b| - 1];
    if init != [] {
      MinBytesOfBigCanonical(init);
    } else {
      assert b == [b[0]];
    }
    assert Big(b) / 256 == Big(init);
    assert b == init + [b[|b| - 1]];
  }

  /** Leading zeros do not change the value. */
  lemma {:induction false} BigOfPadded(z: nat, b: bytes)
    ensures Big(Zeros(z) + b) == Big(b)
  {
    var whole := Zeros(z) + b;
    if b == [] {
      assert whole == Zeros(z);
      BigOfZeros(z);
    } else {
      assert whole[..|whole| - 1] == Zeros(z) + b[..|b| - 1];
      BigOfPadded(z, b[..|b| - 1]);
    }
  }

  function Zeros(n: nat): (r: bytes)
    ensures |r| == n && forall i :: 0 <= i < n ==> r[i] == 0
  {
    seq(n, _ => 0)
  }

  lemma {:induction false} BigOfZeros(n: nat)
    ensures Big(Zeros(n)) == 0
  {
    if n != 0 {
      assert Zeros(n)[..n - 1] == Zeros(n - 1);
      BigOfZeros(n - 1);
    }
  }

  lemma {:induction false} MinBytesLength(v: nat, n: nat)
    requires v < Pow256(n)
    ensures |MinBytes(v)| <= n
  {
    if v != 0 {
      MinBytesLength(v / 256, n - 1);
    }
  }

  /** A fixed-width string is its minimal form behind the missing zeros. */
  lemma {:induction false} ToBytesIsPadded(v: nat, n: nat)
    requires v < Pow256(n)
    ensures |MinBytes(v)| <= n
    ensures ToBytes(v, n) == Zeros(n - |MinBytes(v)|) + MinBytes(v)
  {
    MinBytesLength(v, n);
    var padded := Zeros(n - |MinBytes(v)|) + MinBytes(v);
    BigOfPadded(n - |MinBytes(v)|, MinBytes(v));
    BigOfMinBytes(v);
    ToBytesOfBig(padded);
  }

  /** bytes.js bytesToBig: fold the bytes left to right. */
  method BytesToBig(b: bytes) returns (value: nat)
    ensures value == Big(b)
  {
    value := 0;
    for i := 0 to |b|
      invariant value == Big(b[..i])
    {
      assert b[..i + 1][..i] == b[..i];
      value := value * 256 + b[i];
    }
    assert b[..|b|] == b;
  }

  datatype ScalarError = BadScalar

  lemma {:induction false} ConcatAssoc<T>(a: seq<T>, b: seq<T>, c: seq<T>)
    ensures (a + b) + c == a + (b + c)
  {
  }

  /** bytes.js bigToBytes: fill a buffer from its last byte; refuse a value that does not fit. */
  method BigToBytes(value: int, length: nat) returns (r: Result<bytes, ScalarError>)
    ensures r.Ok? <==> 0 <= value < Pow256(length)
    ensures r.Ok? ==> |r.value| == length && Big(r.value) == value
  {
    if value < 0 {
      return Err(BadScalar);
    }
    hide ToBytes, Pow256, Big;
    var out := new byte[length];
    var v: nat := value;
    var i := length;
    while i > 0
      invariant 0 <= i <= length
      invariant ToBytes(value, length) == ToBytes(v, i) + out[i..]
      invariant value < Pow256(length) <==> v < Pow256(i)
    {
      ghost var before := out[i..];
      ToBytesStep(v, i);
      ghost var v0 := v;
      i := i - 1;
      out[i] := v % 256;
      v := v / 256;
      assert out[i..] == [v0 % 256] + before;
      ConcatAssoc(ToBytes(v, i), [v0 % 256], before);
    }
    NoBytes(v);
    if v != 0 {
      return Err(BadScalar);
    }
    assert out[..] == out[0..] == ToBytes(v, 0) + out[0..];
    BigOfToBytes(value, length);
    return Ok(out[..]);
  }
}
