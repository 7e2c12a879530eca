/** UTF-8 as section 4 of RFC 3629 defines it. */
module Utf8 {
  import opened Wrappers

  type byte = b: nat | b < 256

  /** Unicode scalar values. */
  predicate Scalar(n: int) {
    0 <= n < 0xD800 || 0xE000 <= n < 0x110000
  }

  function EncodeScalar(n: nat): (bytes: seq<byte>)
    requires Scalar(n)
    ensures 1 <= |bytes| <= 4
  {
    if n < 0x80 then [n]
    else if n < 0x800 then [0xC0 + n / 0x40, 0x80 + n % 0x40]
    else if n < 0x10000 then [0xE0 + n / 0x1000, 0x80 + n / 0x40 % 0x40, 0x80 + n % 0x40]
    else [0xF0 + n / 0x40000, 0x80 + n / 0x1000 % 0x40, 0x80 + n / 0x40 % 0x40, 0x80 + n % 0x40]
  }

  predicate Tail(b: byte) {
    0x80 <= b <= 0xBF
  }

  /** The width announced by a leading byte; 0 for bytes that lead nothing. */
  function Width(first: byte): nat {
    if first < 0x80 then 1
    else if 0xC2 <= first <= 0xDF then 2
    else if 0xE0 <= first <= 0xEF then 3
    else if 0xF0 <= first <= 0xF4 then 4
    else 0
  }

  /** The grammar's UTF8-1 to UTF8-4 rules. */
  predicate WellFormed(bytes: seq<byte>) {
    && bytes != []
    && |bytes| == Width(bytes[0])
    && (forall i :: 1 <= i < |bytes| ==> Tail(bytes[i]))
    && (bytes[0] == 0xE0 ==> bytes[1] >= 0xA0)
    && (bytes[0] == 0xED ==> bytes[1] <= 0x9F)
    && (bytes[0] == 0xF0 ==> bytes[1] >= 0x90)
    && (bytes[0] == 0xF4 ==> bytes[1] <= 0x8F)
  }

  function DecodeScalar(bytes: seq<byte>): (n: nat)
    requires WellFormed(bytes)
    ensures Scalar(n)
  {
    match |bytes|
    case 1 => bytes[0]
    case 2 => 0x40 * Payload(bytes[0], 0xC0) + Payload(bytes[1], 0x80)
    case 3 => 0x1000 * Payload(bytes[0], 0xE0) + 0x40 * Payload(bytes[1], 0x80) + Payload(bytes[2], 0x80)
    case _ =>
      0x40000 * Payload(bytes[0], 0xF0) + 0x1000 * Payload(bytes[1], 0x80)
      + 0x40 * Payload(bytes[2], 0x80) + Payload(bytes[3], 0x80)
  }

  function Payload(b: byte, marker: nat): int {
    b - marker
  }

  /** Base-64 digits of a number are unique. */
  lemma Digits(n: nat, a: nat, b: nat, c: nat, d: nat)
    requires b < 0x40 && c < 0x40 && d < 0x40
    requires n == 0x40000 * a + 0x1000 * b + 0x40 * c + d
    ensures n / 0x40000 == a && n / 0x1000 % 0x40 == b && n / 0x40 % 0x40 == c && n % 0x40 == d
    ensures n / 0x1000 == 0x40 * a + b
  {
    assert n / 0x40 == 0x1000 * a + 0x40 * b + c;
    assert n / 0x1000 == 0x40 * a + b;
  }

  lemma DecodeEncode(n: nat)
    requires Scalar(n)
    ensures WellFormed(EncodeScalar(n)) && DecodeScalar(EncodeScalar(n)) == n
  {
    var d, q := n % 0x40, n / 0x40;
    var c, r := q % 0x40, q / 0x40;
    Digits(n, r / 0x40, r % 0x40, c, d);
  }

  lemma EncodeDecode(bytes: seq<byte>)
    requires WellFormed(bytes)
    ensures EncodeScalar(DecodeScalar(bytes)) == bytes
  {
    if |bytes| == 2 {
      Digits(DecodeScalar(bytes), 0, 0, bytes[0] - 0xC0, bytes[1] - 0x80);
    } else if |bytes| == 3 {
      Digits(DecodeScalar(bytes), 0, bytes[0] - 0xE0, bytes[1] - 0x80, bytes[2] - 0x80);
    } else if |bytes| == 4 {
      Digits(DecodeScalar(bytes), bytes[0] - 0xF0, bytes[1] - 0x80, bytes[2] - 0x80, bytes[3] - 0x80);
    }
  }

  // -----------------------------------------------------------------------
  // Texts

  type scalar = n: nat | Scalar(n)

  type Text = seq<scalar>

  function Encode(text: Text): seq<byte> {
    if text == [] then [] else EncodeScalar(text[0]) + Encode(text[1..])
  }

  /** `str::from_utf8`: the text of well-formed bytes. */
  function FromUtf8(bytes: seq<byte>): Option<Text>
    decreases |bytes|
  {
    if bytes == [] then Some([])
    else
      var width := Width(bytes[0]);
      if width == 0 || width > |bytes| || !WellFormed(bytes[..width]) then None
      else
        var rest := FromUtf8(bytes[width..]);
        if rest.None? then None else Some([DecodeScalar(bytes[..width])] + rest.value)
  }

  lemma {:induction false} EncodeAppend(a: Text, b: Text)
    ensures Encode(a + b) == Encode(a) + Encode(b)
  {
    hide EncodeScalar;
    if a == [] {
      assert a + b == b;
    } else {
      EncodeAppend(a[1..], b);
      assert (a + b)[1..] == a[1..] + b;
    }
  }

  /** One well-formed character in front. */
  lemma FromUtf8Step(one: seq<byte>, rest: seq<byte>)
    requires WellFormed(one)
    ensures FromUtf8(one + rest) ==
              if FromUtf8(rest).None? then None else Some([DecodeScalar(one)] + FromUtf8(rest).value)
  {
    assert (one + rest)[..|one|] == one && (one + rest)[|one|..] == rest;
  }

  lemma {:induction false} FromUtf8Encode(text: Text)
    ensures FromUtf8(Encode(text)) == Some(text)
  {
    if text != [] {
      DecodeEncode(text[0]);
      FromUtf8Step(EncodeScalar(text[0]), Encode(text[1..]));
      FromUtf8Encode(text[1..]);
      assert [text[0]] + text[1..] == text;
    }
  }

  /** Lexicographic order of byte strings. */
  predicate ByteLess(a: seq<byte>, b: seq<byte>) {
    b != [] && (a == [] || a[0] < b[0] || (a[0] == b[0] && ByteLess(a[1..], b[1..])))
  }

  lemma {:induction false} SamePrefix(p: seq<byte>, x: seq<byte>, y: seq<byte>)
    ensures ByteLess(p + x, p + y) <==> ByteLess(x, y)
  {
    if p == [] {
      assert p + x == x && p + y == y;
    } else {
      SamePrefix(p[1..], x, y);
      assert (p + x)[1..] == p[1..] + x && (p + y)[1..] == p[1..] + y;
    }
  }

  lemma {:induction false} FirstDifference(p: seq<byte>, q: seq<byte>, i: nat)
    requires i < |p| && i < |q| && p[..i] == q[..i] && p[i] < q[i]
    ensures ByteLess(p, q) && !ByteLess(q, p)
  {
    if i > 0 {
      assert p[0] == p[..i][0] && q[0] == q[..i][0];
      assert p[1..][..i - 1] == p[..i][1..] && q[1..][..i - 1] == q[..i][1..];
      FirstDifference(p[1..], q[1..], i - 1);
    }
  }

  lemma DigitOrder(x: nat, y: nat)
    requires x <= y
    ensures x / 0x40 <= y / 0x40 && (x / 0x40 == y / 0x40 ==> x % 0x40 <= y % 0x40)
    ensures x / 0x40 == y / 0x40 && x % 0x40 == y % 0x40 ==> x == y
  {}

  lemma Quotients(x: nat)
    ensures x / 0x1000 == x / 0x40 / 0x40 && x / 0x40000 == x / 0x40 / 0x40 / 0x40
  {}

  /** Four-byte encodings: the first byte that differs decides. */
  lemma FourByteOrder(x: nat, y: nat) returns (i: nat)
    requires 0x10000 <= x < y && Scalar(y)
    ensures var p, q := EncodeScalar(x), EncodeScalar(y);
            i < |p| && i < |q| && p[..i] == q[..i] && p[i] < q[i]
  {
    Quotients(x);
    Quotients(y);
    DigitOrder(x, y);
    DigitOrder(x / 0x40, y / 0x40);
    DigitOrder(x / 0x40 / 0x40, y / 0x40 / 0x40);
    i := if x / 0x40 / 0x40 / 0x40 < y / 0x40 / 0x40 / 0x40 then 0
         else if x / 0x40 / 0x40 < y / 0x40 / 0x40 then 1
         else if x / 0x40 < y / 0x40 then 2 else 3;
  }

  lemma ThreeByteOrder(x: nat, y: nat) returns (i: nat)
    requires Scalar(x) && Scalar(y) && 0x800 <= x < y < 0x10000
    ensures var p, q := EncodeScalar(x), EncodeScalar(y);
            i < |p| && i < |q| && p[..i] == q[..i] && p[i] < q[i]
  {
    Quotients(x);
    Quotients(y);
    DigitOrder(x, y);
    DigitOrder(x / 0x40, y / 0x40);
    i := if x / 0x40 / 0x40 < y / 0x40 / 0x40 then 0 else if x / 0x40 < y / 0x40 then 1 else 2;
  }

  /** Where the encodings of two scalar values first differ, the greater value
      has the greater byte. */
  lemma ScalarOrder(x: nat, y: nat) returns (i: nat)
    requires Scalar(x) && Scalar(y) && x < y
    ensures var p, q := EncodeScalar(x), EncodeScalar(y);
            i < |p| && i < |q| && p[..i] == q[..i] && p[i] < q[i]
  {
    if x >= 0x10000 {
      i := FourByteOrder(x, y);
    } else if x >= 0x800 && y < 0x10000 {
      i := ThreeByteOrder(x, y);
    } else if x >= 0x80 && y < 0x800 {
      DigitOrder(x, y);
      i := if x / 0x40 < y / 0x40 then 0 else 1;
    } else {
      i := 0;
    }
  }

  /** Strings compare by code point just as their encodings compare by byte. */
  predicate Less(a: Text, b: Text) {
    b != [] && (a == [] || a[0] < b[0] || (a[0] == b[0] && Less(a[1..], b[1..])))
  }

  lemma {:induction false} LessIsByteLess(a: Text, b: Text)
    ensures Less(a, b) <==> ByteLess(Encode(a), Encode(b))
  {
    hide EncodeScalar;
    if a != [] && b != [] {
      if a[0] == b[0] {
        LessIsByteLess(a[1..], b[1..]);
        SamePrefix(EncodeScalar(a[0]), Encode(a[1..]), Encode(b[1..]));
      } else {
        if a[0] < b[0] {
          var i := ScalarOrder(a[0], b[0]);
          FirstDifference(Encode(a), Encode(b), i);
        } else {
          var i := ScalarOrder(b[0], a[0]);
          FirstDifference(Encode(b), Encode(a), i);
        }
      }
    }
  }
}
