/**
 * Text helpers shared by the modules: decimal rendering as Rust's `to_string` and
 * `format!("{:02}")` produce it, the byte-wise ordering of Rust's `String`, and the
 * UTF-8 encoding that turns a `String` into `Bytes`.
 */
module Text {

  newtype byte = x: int | 0 <= x < 256

  predicate IsDigit(c: char) {
    '0' <= c <= '9'
  }

  function DigitChar(d: nat): (c: char)
    requires d < 10
    ensures IsDigit(c) && c as int - '0' as int == d
  {
    ('0' as int + d) as char
  }

  function DigitValue(c: char): (d: nat)
    requires IsDigit(c)
    ensures d < 10 && DigitChar(d) == c
  {
    c as int - '0' as int
  }

  /** Unpadded decimal rendering of a natural number, most significant digit first. */
  function NatToDecimal(n: nat): (s: string)
    ensures 1 <= |s|
    ensures forall i :: 0 <= i < |s| ==> IsDigit(s[i])
    ensures n < 10 <==> |s| == 1
    decreases n
  {
    if n < 10 then [DigitChar(n)] else NatToDecimal(n / 10) + [DigitChar(n % 10)]
  }

  /** Rust's `i32::to_string`: a minus sign for negative values, no padding. */
  function IntToDecimal(i: int): (s: string)
    ensures 1 <= |s|
    ensures s[0] == '-' <==> i < 0
  {
    if i < 0 then "-" + NatToDecimal(-i) else NatToDecimal(i)
  }

  /** The value of a non-empty run of decimal digits. */
  function DecimalValue(s: string): nat
    requires forall i :: 0 <= i < |s| ==> IsDigit(s[i])
    decreases |s|
  {
    if s == [] then 0 else DecimalValue(s[..|s| - 1]) * 10 + DigitValue(s[|s| - 1])
  }

  lemma {:induction false} DecimalValueOfNatToDecimal(n: nat)
    ensures DecimalValue(NatToDecimal(n)) == n
    decreases n
  {
    var s := NatToDecimal(n);
    if n >= 10 {
      DecimalValueOfNatToDecimal(n / 10);
      assert s[..|s| - 1] == NatToDecimal(n / 10);
    }
  }

  lemma NatToDecimalInjective(a: nat, b: nat)
    requires NatToDecimal(a) == NatToDecimal(b)
    ensures a == b
  {
    DecimalValueOfNatToDecimal(a);
    DecimalValueOfNatToDecimal(b);
  }

  lemma IntToDecimalInjective(a: int, b: int)
    requires IntToDecimal(a) == IntToDecimal(b)
    ensures a == b
  {
    var sa, sb := IntToDecimal(a), IntToDecimal(b);
    if a < 0 && b < 0 {
      assert sa[1..] == NatToDecimal(-a) && sb[1..] == NatToDecimal(-b);
      NatToDecimalInjective(-a, -b);
    } else if 0 <= a && 0 <= b {
      NatToDecimalInjective(a, b);
    }
  }

  /** `k` zero digits. */
  function Zeros(k: nat): (s: string)
    ensures |s| == k && forall i :: 0 <= i < k ==> s[i] == '0'
  {
    seq(k, _ => '0')
  }

  /** Leading zeros do not change the value of a run of digits. */
  lemma {:induction false} DecimalValueZerosPrefix(k: nat, t: string)
    requires forall i :: 0 <= i < |t| ==> IsDigit(t[i])
    ensures forall i :: 0 <= i < |Zeros(k) + t| ==> IsDigit((Zeros(k) + t)[i])
    ensures DecimalValue(Zeros(k) + t) == DecimalValue(t)
    decreases |t|, k
  {
    var z := Zeros(k);
    if t == [] {
      assert z + t == z;
      if k > 0 {
        assert z[..k - 1] == Zeros(k - 1);
        DecimalValueZerosPrefix(k - 1, []);
        assert Zeros(k - 1) + [] == Zeros(k - 1);
      }
    } else {
      var u := z + t;
      assert u[..|u| - 1] == z + t[..|t| - 1] && u[|u| - 1] == t[|t| - 1];
      DecimalValueZerosPrefix(k, t[..|t| - 1]);
    }
  }

  /** A run of digits that does not start with `0` has a positive value. */
  lemma {:induction false} LeadingDigitPositive(d: string)
    requires d != [] && d[0] != '0' && forall i :: 0 <= i < |d| ==> IsDigit(d[i])
    ensures DecimalValue(d) >= 1
    decreases |d|
  {
    if |d| > 1 {
      LeadingDigitPositive(d[..|d| - 1]);
    } else {
      assert d[..0] == [];
    }
  }

  /** A run of digits without a leading zero is the rendering of its own value. */
  lemma {:induction false} CanonicalDecimal(d: string)
    requires d != [] && d[0] != '0' && forall i :: 0 <= i < |d| ==> IsDigit(d[i])
    ensures NatToDecimal(DecimalValue(d)) == d
    decreases |d|
  {
    var n := DecimalValue(d);
    var c := DigitValue(d[|d| - 1]);
    if |d| == 1 {
      assert d[..|d| - 1] == [];
      assert n == DecimalValue(d[..|d| - 1]) * 10 + c;
    } else {
      var init := d[..|d| - 1];
      CanonicalDecimal(init);
      LeadingDigitPositive(init);
      assert n == DecimalValue(init) * 10 + c;
      assert n / 10 == DecimalValue(init) && n % 10 == c;
      assert init + [d[|d| - 1]] == d;
    }
  }

  /** How many zeros lead a run of digits, not counting its last digit. */
  function LeadingZeros(d: string): nat
    decreases |d|
  {
    if |d| > 1 && d[0] == '0' then 1 + LeadingZeros(d[1..]) else 0
  }

  /** Every non-empty run of digits is its leading zeros followed by the rendering of its value. */
  lemma {:induction false} DigitsAreZerosThenDecimal(d: string)
    requires d != [] && forall i :: 0 <= i < |d| ==> IsDigit(d[i])
    ensures d == Zeros(LeadingZeros(d)) + NatToDecimal(DecimalValue(d))
    decreases |d|
  {
    if |d| > 1 && d[0] == '0' {
      var rest := d[1..];
      DigitsAreZerosThenDecimal(rest);
      assert DecimalValue(d) == DecimalValue(rest) by {
        assert d == Zeros(1) + rest;
        DecimalValueZerosPrefix(1, rest);
      }
      assert Zeros(LeadingZeros(d)) == ['0'] + Zeros(LeadingZeros(rest));
      assert d == [d[0]] + rest;
    } else if d[0] != '0' {
      CanonicalDecimal(d);
      assert Zeros(0) + d == d;
    } else {
      assert d[..|d| - 1] == [];
      assert DecimalValue(d) == DecimalValue(d[..|d| - 1]) * 10 + DigitValue(d[0]);
      assert Zeros(0) + NatToDecimal(0) == d;
    }
  }

  /** Rust's `format!("{:02}", n)`: at least two digits, zero-padded on the left. */
  function Pad2(n: nat): (s: string)
  {
    if n < 10 then "0" + NatToDecimal(n) else NatToDecimal(n)
  }

  lemma Pad2Digits(n: nat)
    requires n < 100
    ensures Pad2(n) == [DigitChar(n / 10), DigitChar(n % 10)]
  {
    if n >= 10 {
      assert NatToDecimal(n / 10) == [DigitChar(n / 10)];
    }
  }

  lemma Pad2Injective(a: nat, b: nat)
    requires a < 100 && b < 100 && Pad2(a) == Pad2(b)
    ensures a == b
  {
    Pad2Digits(a);
    Pad2Digits(b);
    assert DigitChar(a / 10) == DigitChar(b / 10) && DigitChar(a % 10) == DigitChar(b % 10);
  }

  // ---------------------------------------------------------------------------
  // The ordering of Rust's `String`: lexicographic over UTF-8 bytes, which is the
  // same as lexicographic over code points.

  predicate Less(a: string, b: string)
    decreases |a|
  {
    if a == [] then b != []
    else if b == [] then false
    else if a[0] == b[0] then Less(a[1..], b[1..])
    else a[0] < b[0]
  }

  lemma {:induction false} LessIrreflexive(a: string)
    ensures !Less(a, a)
    decreases |a|
  {
    if a != [] {
      LessIrreflexive(a[1..]);
    }
  }

  lemma {:induction false} LessAsymmetric(a: string, b: string)
    requires Less(a, b)
    ensures !Less(b, a)
    decreases |a|
  {
    if a != [] && b != [] && a[0] == b[0] {
      LessAsymmetric(a[1..], b[1..]);
    }
  }

  lemma {:induction false} LessTransitive(a: string, b: string, c: string)
    requires Less(a, b) && Less(b, c)
    ensures Less(a, c)
    decreases |a|
  {
    if a != [] && b != [] && c != [] && a[0] == b[0] && b[0] == c[0] {
      LessTransitive(a[1..], b[1..], c[1..]);
    }
  }

  lemma {:induction false} LessTotal(a: string, b: string)
    requires a != b
    ensures Less(a, b) || Less(b, a)
    decreases |a|
  {
    if a != [] && b != [] && a[0] == b[0] {
      assert a == [a[0]] + a[1..] && b == [b[0]] + b[1..];
      LessTotal(a[1..], b[1..]);
    }
  }

  /** Comparing two strings of equal length decides the comparison of any extensions. */
  lemma {:induction false} LessExtend(a: string, b: string, x: string, y: string)
    requires |a| == |b| && Less(a, b)
    ensures Less(a + x, b + y)
    decreases |a|
  {
    if a[0] == b[0] {
      assert (a + x)[1..] == a[1..] + x && (b + y)[1..] == b[1..] + y;
      LessExtend(a[1..], b[1..], x, y);
    }
  }

  /** A common prefix does not change the comparison. */
  lemma {:induction false} LessCommonPrefix(p: string, x: string, y: string)
    requires Less(x, y)
    ensures Less(p + x, p + y)
    decreases |p|
  {
    if p != [] {
      assert (p + x)[0] == (p + y)[0];
      assert (p + x)[1..] == p[1..] + x && (p + y)[1..] == p[1..] + y;
      LessCommonPrefix(p[1..], x, y);
      assert Less(p + x, p + y) == Less((p + x)[1..], (p + y)[1..]);
    } else {
      assert p + x == x && p + y == y;
    }
  }

  lemma Pad2Ordered(a: nat, b: nat)
    requires a < b < 100
    ensures Less(Pad2(a), Pad2(b))
  {
    Pad2Digits(a);
    Pad2Digits(b);
    if a / 10 == b / 10 {
      assert a % 10 < b % 10;
      assert Pad2(a)[1..] == [DigitChar(a % 10)];
    }
  }

  // ---------------------------------------------------------------------------
  // UTF-8: the byte length Rust's `str::len` reports and the bytes of `String::into_bytes`.

  /** The number of bytes UTF-8 uses for one code point. */
  function Utf8Width(c: char): (w: nat)
    ensures 1 <= w <= 4
  {
    var v := c as int;
    if v < 0x80 then 1 else if v < 0x800 then 2 else if v < 0x1_0000 then 3 else 4
  }

  /** Rust's `str::len`: the length in UTF-8 bytes. */
  function ByteLength(s: string): nat
  {
    if s == [] then 0 else Utf8Width(s[0]) + ByteLength(s[1..])
  }

  function EncodeChar(c: char): (bs: seq<byte>)
    ensures |bs| == Utf8Width(c)
    ensures c as int < 0x80 ==> bs == [c as int as byte]
  {
    var v := c as int;
    if v < 0x80 then [v as byte]
    else if v < 0x800 then [(0xC0 + v / 0x40) as byte, (0x80 + v % 0x40) as byte]
    else if v < 0x1_0000 then
      [(0xE0 + v / 0x1000) as byte, (0x80 + (v / 0x40) % 0x40) as byte, (0x80 + v % 0x40) as byte]
    else
      [(0xF0 + v / 0x4_0000) as byte, (0x80 + (v / 0x1000) % 0x40) as byte,
       (0x80 + (v / 0x40) % 0x40) as byte, (0x80 + v % 0x40) as byte]
  }

  /** The UTF-8 bytes of a string. */
  function Encode(s: string): seq<byte>
  {
    if s == [] then [] else EncodeChar(s[0]) + Encode(s[1..])
  }

  lemma {:induction false} EncodeLength(s: string)
    ensures |Encode(s)| == ByteLength(s)
    decreases |s|
  {
    if s != [] {
      EncodeLength(s[1..]);
    }
  }

  lemma {:induction false} EncodeAppend(a: string, b: string)
    ensures Encode(a + b) == Encode(a) + Encode(b)
    decreases |a|
  {
    if a != [] {
      assert (a + b)[0] == a[0] && (a + b)[1..] == a[1..] + b;
      EncodeAppend(a[1..], b);
      assert Encode(a + b) == EncodeChar(a[0]) + Encode(a[1..] + b);
    } else {
      assert a + b == b;
    }
  }

  /** For text made only of ASCII characters, bytes and characters agree one to one. */
  lemma {:induction false} AsciiByteLength(s: string)
    requires forall i :: 0 <= i < |s| ==> s[i] as int < 0x80
    ensures ByteLength(s) == |s|
    decreases |s|
  {
    if s != [] {
      AsciiByteLength(s[1..]);
    }
  }
}
