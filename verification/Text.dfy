/** Text as bytes: labels, decimal and hex digits, and joined parts. */
module Text {
  import opened Bytes

  const BAR: byte := 124
  const COMMA: byte := 44

  function Ascii(s: string): (r: bytes)
    ensures |r| == |s|
  {
    seq(|s|, i requires 0 <= i < |s| => if s[i] < 128 as char then s[i] as int else 0)
  }

  predicate Digits(text: bytes) { forall i :: 0 <= i < |text| ==> 48 <= text[i] <= 57 }

  /** Decimal digits. */
  function Dec(n: nat): (r: bytes)
    ensures r != [] && Digits(r)
  {
    if n < 10 then [48 + n] else Dec(n / 10) + [48 + n % 10]
  }

  /** The number that decimal digits spell. */
  function DecValue(text: bytes): nat
    requires Digits(text)
  {
    if text == [] then 0 else DecValue(text[..|text| - 1]) * 10 + (text[|text| - 1] - 48)
  }

  function HexDigit(d: nat): (r: byte)
    requires d < 16
    ensures 48 <= r <= 57 || 97 <= r <= 102
  {
    if d < 10 then 48 + d else 87 + d
  }

  /** Lowercase hex. */
  function Hex(b: bytes): (r: bytes)
    ensures |r| == 2 * |b| && forall i :: 0 <= i < |r| ==> 48 <= r[i] <= 57 || 97 <= r[i] <= 102
  {
    if b == [] then [] else [HexDigit(b[0] / 16), HexDigit(b[0] % 16)] + Hex(b[1..])
  }

  /** padStart(width, '0'). */
  function PadStart(text: bytes, width: nat): bytes {
    if |text| >= width then text else seq(width - |text|, _ => 48) + text
  }

  /** Parts with a separator between them. */
  function JoinWith(parts: seq<bytes>, sep: byte): bytes {
    if parts == [] then []
    else if |parts| == 1 then parts[0]
    else parts[0] + [sep] + JoinWith(parts[1..], sep)
  }

  lemma {:induction false} DecValueOfDec(n: nat)
    ensures DecValue(Dec(n)) == n
  {
    if n < 10 {
      assert Dec(n)[..0] == [];
    } else {
      DecValueOfDec(n / 10);
      assert Dec(n)[..|Dec(n)| - 1] == Dec(n / 10);
    }
  }

  lemma {:induction false} DecInjective(m: nat, n: nat)
    requires Dec(m) == Dec(n)
    ensures m == n
  {
    DecValueOfDec(m);
    DecValueOfDec(n);
  }

  lemma {:induction false} HexInjective(a: bytes, b: bytes)
    requires Hex(a) == Hex(b)
    ensures a == b
  {
    if a != [] && b != [] {
      assert Hex(a)[0] == Hex(b)[0] && Hex(a)[1] == Hex(b)[1];
      assert Hex(a)[2..] == Hex(a[1..]) && Hex(b)[2..] == Hex(b[1..]);
      HexInjective(a[1..], b[1..]);
      assert a == [a[0]] + a[1..] && b == [b[0]] + b[1..];
    }
  }

  lemma {:induction false} HexStep(b: bytes)
    requires b != []
    ensures Hex(b) == [HexDigit(b[0] / 16), HexDigit(b[0] % 16)] + Hex(b[1..])
  {
  }

  /** Leading zero bytes are leading zero digits: padding the bytes pads the hex form. */
  lemma {:induction false} HexPadded(z: nat, b: bytes)
    ensures Hex(Zeros(z) + b) == PadStart(Hex(b), 2 * (z + |b|))
  {
    hide Hex;
    var padded := Zeros(z) + b;
    if z == 0 {
      assert padded == b;
    } else {
      HexPadded(z - 1, b);
      HexStep(padded);
      assert padded[1..] == Zeros(z - 1) + b;
      assert Hex(padded) == [48, 48] + PadStart(Hex(b), 2 * (z - 1 + |b|));
    }
  }

  predicate Free(parts: seq<bytes>, sep: byte) { forall i :: 0 <= i < |parts| ==> sep !in parts[i] }

  lemma {:induction false} FirstSeparator(a: bytes, r: bytes, b: bytes, t: bytes, sep: byte)
    requires a + [sep] + r == b + [sep] + t && sep !in a
    ensures |a| <= |b|
  {
    assert (b + [sep] + t)[|b|] == sep;
    assert forall i :: 0 <= i < |a| ==> (a + [sep] + r)[i] == a[i];
  }

  /** Parts free of the separator can be read off the joined text. */
  lemma {:induction false} JoinWithInjective(xs: seq<bytes>, ys: seq<bytes>, sep: byte)
    requires |xs| == |ys| > 0 && Free(xs, sep) && Free(ys, sep) && JoinWith(xs, sep) == JoinWith(ys, sep)
    ensures xs == ys
  {
    if |xs| == 1 {
      assert xs == [xs[0]] && ys == [ys[0]];
    } else {
      var x, y := JoinWith(xs, sep), JoinWith(ys, sep);
      FirstSeparator(xs[0], JoinWith(xs[1..], sep), ys[0], JoinWith(ys[1..], sep), sep);
      FirstSeparator(ys[0], JoinWith(ys[1..], sep), xs[0], JoinWith(xs[1..], sep), sep);
      assert xs[0] == x[..|xs[0]|] && ys[0] == y[..|ys[0]|];
      assert JoinWith(xs[1..], sep) == x[|xs[0]| + 1..] && JoinWith(ys[1..], sep) == y[|ys[0]| + 1..];
      JoinWithInjective(xs[1..], ys[1..], sep);
      assert xs == [xs[0]] + xs[1..] && ys == [ys[0]] + ys[1..];
    }
  }

  // ---- what the digits are -------------------------------------------------

  /** ASCII text is its characters' codes. */
  lemma {:induction false} AsciiSpelled(s: string, i: nat)
    requires i < |s| && s[i] < 128 as char
    ensures Ascii(s)[i] == s[i] as int
  {
  }

  /** Hex is two lowercase digits a byte, the high one first. */
  lemma {:induction false} HexSpelled(b: bytes, i: nat)
    requires i < |b|
    ensures Hex(b)[2 * i] == Ascii("0123456789abcdef")[b[i] / 16]
    ensures Hex(b)[2 * i + 1] == Ascii("0123456789abcdef")[b[i] % 16]
  {
    hide Hex;
    HexStep(b);
    if i == 0 {
      DigitSpelled(b[0] / 16);
      DigitSpelled(b[0] % 16);
    } else {
      HexSpelled(b[1..], i - 1);
    }
  }

  lemma {:induction false} DigitSpelled(d: nat)
    requires d < 16
    ensures HexDigit(d) == Ascii("0123456789abcdef")[d]
  {
    assert "0123456789abcdef"[d] == (if d < 10 then 48 + d else 87 + d) as char;
  }

  /** Decimal digits print back exactly when there is no leading zero. */
  lemma {:induction false} DecExactly(text: bytes)
    requires Digits(text) && text != []
    ensures Dec(DecValue(text)) == text <==> |text| == 1 || text[0] != 48
  {
    var init, last := text[..|text| - 1], text[|text| - 1];
    if |text| == 1 {
      assert DecValue(init) == 0;
      assert text == [last];
    } else {
      DecExactly(init);
      LastDigit(DecValue(init), last - 48);
      assert text == init + [last] && init[0] == text[0];
      if text[0] == 48 {
        NoLeadingZero(DecValue(text));
      } else {
        DigitsPositive(init);
      }
    }
  }

  lemma {:induction false} LastDigit(head: nat, d: nat)
    requires d < 10
    ensures (head * 10 + d) / 10 == head && (head * 10 + d) % 10 == d
  {
  }

  lemma {:induction false} NoLeadingZero(n: nat)
    ensures |Dec(n)| == 1 || Dec(n)[0] != 48
  {
    if n >= 10 {
      NoLeadingZero(n / 10);
    }
  }

  lemma {:induction false} DigitsPositive(text: bytes)
    requires Digits(text) && text != [] && text[0] != 48
    ensures DecValue(text) > 0
  {
    if |text| > 1 {
      DigitsPositive(text[..|text| - 1]);
    } else {
      assert DecValue(text[..0]) == 0;
    }
  }

  /** Padding puts zeros in front, up to the width, and changes nothing behind them. */
  lemma {:induction false} PadSpelled(text: bytes, width: nat, i: nat)
    ensures var r := PadStart(text, width);
            && |r| == (if |text| >= width then |text| else width)
            && r[|r| - |text|..] == text && (i < |r| - |text| ==> r[i] == 48)
  {
  }

  /** One part more, behind one separator more. */
  lemma {:induction false} JoinMore(part: bytes, rest: seq<bytes>, sep: byte)
    ensures JoinWith([], sep) == [] && JoinWith([part], sep) == part
    ensures rest != [] ==> JoinWith([part] + rest, sep) == part + [sep] + JoinWith(rest, sep)
  {
    assert ([part] + rest)[1..] == rest;
  }
}
