/**
 Wide strings converted to UTF-8. The output is read by a decoder that follows section 3 of RFC 3629, and
 the input by one that follows section 2.2 of RFC 2781; the two always agree.
 */
module Utf8 {
  import opened Bits
  import opened Bytes
  import opened Wrappers

  // ---- UTF-8 ----

  const MAX_CODE_POINT1: nat := 0x7F
  const MAX_CODE_POINT2: nat := 0x7FF
  const MAX_CODE_POINT3: nat := 0xFFFF
  const MAX_CODE_POINT4: nat := 0x1F_FFFF

  /** The encoding table, with the range of four bytes as wide as the code has it. */
  function Encode(c: nat): (r: seq<byte>)
    requires c <= MAX_CODE_POINT4
    ensures 1 <= |r| <= 4
  {
    if c <= 0x7F then [c]
    else if c <= 0x7FF then [0xC0 + c / 0x40, 0x80 + c % 0x40]
    else if c <= 0xFFFF then [0xE0 + c / 0x1000, 0x80 + c / 0x40 % 0x40, 0x80 + c % 0x40]
    else [0xF0 + c / 0x4_0000, 0x80 + c / 0x1000 % 0x40, 0x80 + c / 0x40 % 0x40, 0x80 + c % 0x40]
  }

  /** The Unicode scalar values: the code points that are no surrogates. */
  predicate Scalar(c: nat) { c <= 0x10_FFFF && !(0xD800 <= c <= 0xDFFF) }

  predicate Continues(b: byte) { 0x80 <= b <= 0xBF }

  /** The value bits of a byte whose marker bits are `marker`. */
  function Above(b: byte, marker: byte): nat
    requires marker <= b
  {
    b - marker
  }

  /** The shortest form is demanded, and a scalar value unless `lenient`. */
  function Checked(c: nat, least: nat, n: nat, lenient: bool): Option<(nat, nat)> {
    if c >= least && (lenient || Scalar(c)) then Some((c, n)) else None
  }

  /** The first code point of some bytes, and the number of bytes it takes. */
  function DecodeOne(b: seq<byte>, lenient: bool): (r: Option<(nat, nat)>)
    requires b != []
    ensures r.Some? ==> 1 <= r.value.1 <= |b|
  {
    if b[0] <= 0x7F then Checked(b[0], 0, 1, lenient)
    else if 0xC0 <= b[0] <= 0xDF && |b| >= 2 && Continues(b[1]) then
      Checked(Above(b[0], 0xC0) * 0x40 + Above(b[1], 0x80), 0x80, 2, lenient)
    else if 0xE0 <= b[0] <= 0xEF && |b| >= 3 && Continues(b[1]) && Continues(b[2]) then
      Checked(Above(b[0], 0xE0) * 0x1000 + Above(b[1], 0x80) * 0x40 + Above(b[2], 0x80), 0x800, 3, lenient)
    else if 0xF0 <= b[0] <= 0xF7 && |b| >= 4 && Continues(b[1]) && Continues(b[2]) && Continues(b[3]) then
      Checked(Above(b[0], 0xF0) * 0x4_0000 + Above(b[1], 0x80) * 0x1000 + Above(b[2], 0x80) * 0x40 + Above(b[3],
        0x80), 0x1_0000, 4, lenient)
    else None
  }

  function Decode(b: seq<byte>, lenient: bool): Option<seq<nat>>
    decreases |b|
  {
    if b == [] then Some([]) else
      match DecodeOne(b, lenient)
      case None => None
      case Some((c, n)) => Cons(c, Decode(b[n..], lenient))
  }

  function Cons(c: nat, rest: Option<seq<nat>>): Option<seq<nat>> {
    match rest
    case None => None
    case Some(cs) => Some([c] + cs)
  }

  function EncodeAll(cs: seq<nat>): seq<byte>
    requires forall k :: 0 <= k < |cs| ==> cs[k] <= MAX_CODE_POINT4
  {
    if cs == [] then [] else Encode(cs[0]) + EncodeAll(cs[1..])
  }

  /** Decoding the first code point recovers it exactly if it is one that may be encoded. */
  lemma {:induction false} DecodeEncode(c: nat, rest: seq<byte>, lenient: bool)
    requires c <= MAX_CODE_POINT4
    ensures DecodeOne(Encode(c) + rest, lenient) == if lenient || Scalar(c) then Some((c, |Encode(c)|)) else None
  {
    hide Scalar;
    if c <= MAX_CODE_POINT3 {
      Digits(c);
    } else {
      DecodeFour(c, rest, lenient);
    }
  }

  lemma {:induction false} DecodeFour(c: nat, rest: seq<byte>, lenient: bool)
    requires MAX_CODE_POINT3 < c <= MAX_CODE_POINT4
    ensures DecodeOne(Encode(c) + rest, lenient) == if lenient || Scalar(c) then Some((c, |Encode(c)|)) else None
  {
    hide Scalar;
    Digits(c);
    var b := Encode(c) + rest;
    assert b[0] >= 0xF0 && Continues(b[1]) && Continues(b[2]) && Continues(b[3]);
  }

  /** The base-64 digits of a number. */
  lemma {:induction false} Digits(c: nat)
    ensures c / 0x1000 == c / 0x40 / 0x40 && c / 0x4_0000 == c / 0x40 / 0x40 / 0x40
  {
  }

  ghost predicate AllScalar(cs: seq<nat>) {
    forall k :: 0 <= k < |cs| ==> Scalar(cs[k])
  }

  lemma {:induction false} ScalarCons(c: nat, cs: seq<nat>)
    ensures AllScalar([c] + cs) <==> Scalar(c) && AllScalar(cs)
  {
    assert forall k :: 0 <= k < |cs| ==> ([c] + cs)[k + 1] == cs[k];
    assert ([c] + cs)[0] == c;
  }

  /** The encoding of some code points decodes to them, strictly if and only if all are scalar values. */
  lemma {:induction false} DecodeEncodeAll(cs: seq<nat>, lenient: bool)
    requires forall k :: 0 <= k < |cs| ==> cs[k] <= MAX_CODE_POINT4
    ensures Decode(EncodeAll(cs), lenient) == if lenient || AllScalar(cs) then Some(cs) else None
  {
    if cs != [] {
      hide Encode, DecodeOne, Scalar;
      var c, rest := cs[0], EncodeAll(cs[1..]);
      DecodeEncode(c, rest, lenient);
      DecodeEncodeAll(cs[1..], lenient);
      assert (Encode(c) + rest)[|Encode(c)|..] == rest;
      assert cs == [c] + cs[1..];
      ScalarCons(c, cs[1..]);
    }
  }

  /** No two sequences of code points have the same encoding. */
  lemma {:induction false} EncodingUnique(cs: seq<nat>, ds: seq<nat>)
    requires forall k :: 0 <= k < |cs| ==> cs[k] <= MAX_CODE_POINT4
    requires forall k :: 0 <= k < |ds| ==> ds[k] <= MAX_CODE_POINT4
    ensures EncodeAll(cs) == EncodeAll(ds) <==> cs == ds
  {
    DecodeEncodeAll(cs, true);
    DecodeEncodeAll(ds, true);
  }

  // ---- UTF-16 ----

  predicate High(u: nat) { 0xD800 <= u <= 0xDBFF }

  predicate Low(u: nat) { 0xDC00 <= u <= 0xDFFF }

  function Pair(high: nat, low: nat): nat
    requires High(high) && Low(low)
  {
    (high - 0xD800) * 0x400 + (low - 0xDC00) + 0x1_0000
  }

  /** The code points of a UTF-16 string. */
  function Utf16Decode(u: seq<nat>): Option<seq<nat>> {
    if u == [] then Some([])
    else if !High(u[0]) && !Low(u[0]) then Cons(u[0], Utf16Decode(u[1..]))
    else if High(u[0]) && |u| > 1 && Low(u[1]) then Cons(Pair(u[0], u[1]), Utf16Decode(u[2..]))
    else None
  }

  /** Surrogates come in pairs. */
  ghost predicate WellFormed(u: seq<nat>) {
    && (forall k :: 0 <= k < |u| && High(u[k]) ==> k + 1 < |u| && Low(u[k + 1]))
    && (forall k :: 0 <= k < |u| && Low(u[k]) ==> k > 0 && High(u[k - 1]))
  }

  lemma {:induction false} DecodesIfWellFormed(u: seq<nat>)
    ensures Utf16Decode(u).Some? <==> WellFormed(u)
  {
    if u != [] {
      if !High(u[0]) && !Low(u[0]) {
        DecodesIfWellFormed(u[1..]);
        FirstUnit(u, 1);
      } else if High(u[0]) && |u| > 1 && Low(u[1]) {
        DecodesIfWellFormed(u[2..]);
        FirstUnit(u, 2);
      }
    }
  }

  lemma {:induction false} FirstUnit(u: seq<nat>, n: nat)
    requires n <= |u| && ((n == 1 && !High(u[0]) && !Low(u[0])) || (n == 2 && High(u[0]) && Low(u[1])))
    ensures WellFormed(u) <==> WellFormed(u[n..])
  {
  }

  // ---- the conversion ----

  predicate IsUtf16SurrogatePair(first: nat, second: nat, utf16: bool) {
    utf16 && And(first, 0xFC00) == 0xD800 && And(second, 0xFC00) == 0xDC00
  }

  function CreateCodePointFromUtf16SurrogatePair(first: nat, second: nat, utf16: bool): nat {
    var mask := ShiftLeft(1, 10) - 1;
    if utf16 then Or(ShiftLeft(And(first, mask), 10), And(second, mask)) + 0x1_0000 else first
  }

  lemma {:induction false} PowersOfTwo()
    ensures Pow2(3) == 8 && Pow2(4) == 16 && Pow2(5) == 32 && Pow2(6) == 64 && Pow2(10) == 1024
  {
    assert Pow2(3) == 8;
    assert Pow2(6) == 64;
    assert Pow2(8) == 256;
  }

  lemma {:induction false} SurrogateMask(u: nat)
    requires u < 0x1_0000
    ensures And(u, 0xFC00) == u - u % 0x400
  {
    hide And, Pow2, ShiftLeft, ShiftRight;
    PowersOfTwo();
    ShiftIsProduct(63, 10);
    HighMask(u, 63, 10);
    MaskIsMod(ShiftRight(u, 10), 6);
    ShiftIsDiv(u, 10);
    ShiftIsProduct(u / 1024, 10);
  }

  /** The masks recognise surrogates and combine them as RFC 2781 does. */
  lemma {:induction false} SurrogatePairs(first: nat, second: nat)
    requires first < 0x1_0000 && second < 0x1_0000
    ensures IsUtf16SurrogatePair(first, second, true) <==> High(first) && Low(second)
    ensures High(first) && Low(second) ==>
      CreateCodePointFromUtf16SurrogatePair(first, second, true) == Pair(first, second)
  {
    hide And, Or, ShiftLeft, Pow2;
    PowersOfTwo();
    SurrogateMask(first);
    SurrogateMask(second);
    MaskIsMod(first, 10);
    MaskIsMod(second, 10);
    ShiftIsProduct(1, 10);
    ShiftIsProduct(first % 1024, 10);
    OrIsSum(first % 1024, 10, second % 1024);
  }

  /** The code points the loop goes through. */
  function CodePoints(u: seq<nat>, utf16: bool): seq<nat> {
    if u == [] then []
    else if |u| > 1 && IsUtf16SurrogatePair(u[0], u[1], utf16) then
      [CreateCodePointFromUtf16SurrogatePair(u[0], u[1], utf16)] + CodePoints(u[2..], utf16)
    else [u[0]] + CodePoints(u[1..], utf16)
  }

  ghost predicate Units(u: seq<nat>) {
    forall k :: 0 <= k < |u| ==> u[k] < 0x1_0000
  }

  /** For UTF-16 these are code points, and scalar values exactly if the string is well-formed. */
  lemma {:induction false} CodePointsDecoded(u: seq<nat>)
    requires Units(u)
    ensures forall k :: 0 <= k < |CodePoints(u, true)| ==> CodePoints(u, true)[k] <= 0x10_FFFF
    ensures Utf16Decode(u) == if AllScalar(CodePoints(u, true)) then Some(CodePoints(u, true)) else None
  {
    if u != [] {
      hide IsUtf16SurrogatePair, CreateCodePointFromUtf16SurrogatePair;
      var cs := CodePoints(u, true);
      if |u| > 1 {
        SurrogatePairs(u[0], u[1]);
      }
      if |u| > 1 && High(u[0]) && Low(u[1]) {
        CodePointsDecoded(u[2..]);
        assert cs == [Pair(u[0], u[1])] + CodePoints(u[2..], true);
        ScalarCons(Pair(u[0], u[1]), CodePoints(u[2..], true));
      } else {
        CodePointsDecoded(u[1..]);
        assert cs == [u[0]] + CodePoints(u[1..], true);
        ScalarCons(u[0], CodePoints(u[1..], true));
      }
    }
  }

  /** The UInt32 values. */
  const UINT32: nat := 0x1_0000_0000

  /** The `%X` format. */
  function UpperHex(n: nat): (r: seq<byte>)
    ensures forall k :: 0 <= k < |r| ==> r[k] != 0
  {
    var digit: byte := if n % 16 < 10 then 0x30 + n % 16 else 0x37 + n % 16;
    if n < 16 then [digit] else UpperHex(n / 16) + [digit]
  }

  lemma {:induction false} UpperHexLength(n: nat, digits: nat)
    requires digits > 0 && n < Pow2(4 * digits)
    ensures |UpperHex(n)| <= digits
  {
    if n >= 16 {
      assert Pow2(4 * digits) == 16 * Pow2(4 * (digits - 1)) by {
        Pow2Add(4, 4 * (digits - 1));
        PowersOfTwo();
      }
      UpperHexLength(n / 16, digits - 1);
    }
  }

  /** "(Invalid Unicode 0x" in ASCII. */
  const INVALID: seq<byte> := [
    0x28, 0x49, 0x6E, 0x76, 0x61, 0x6C, 0x69, 0x64, 0x20, 0x55, 0x6E, 0x69, 0x63, 0x6F, 0x64, 0x65, 0x20, 0x30, 0x78
  ]

  /** What CodePointToUtf8 leaves in the buffer: an encoding, or a message for numbers of more than 21 bits. */
  function Text(c: nat): (r: seq<byte>)
    ensures r != []
  {
    if c <= MAX_CODE_POINT4 then Encode(c) else INVALID + UpperHex(c) + [0x29]
  }

  function TextAll(cs: seq<nat>): seq<byte> {
    if cs == [] then [] else Text(cs[0]) + TextAll(cs[1..])
  }

  lemma {:induction false} TextLength(c: nat)
    requires c < UINT32
    ensures |Text(c)| <= 28
    ensures c != 0 ==> forall k :: 0 <= k < |Text(c)| ==> Text(c)[k] != 0
  {
    if c > MAX_CODE_POINT4 {
      assert Pow2(4 * 8) == UINT32 by {
        PowersOfTwo();
        Pow2Add(6, 10);
        Pow2Add(16, 16);
      }
      UpperHexLength(c, 8);
    }
  }

  /**
   A number is converted to its UTF-8 encoding exactly if it is a Unicode scalar value: larger numbers get
   the message, or from 0x110000 to 0x1FFFFF four bytes that are not UTF-8.
   */
  lemma {:induction false} ConvertedIffScalar(c: nat)
    requires c < UINT32
    ensures Decode(Text(c), false) == Some([c]) <==> Scalar(c)
    ensures 0x10_FFFF < c <= MAX_CODE_POINT4 ==> Decode(Text(c), false) == None
  {
    hide Encode, DecodeOne, UpperHex;
    if c <= MAX_CODE_POINT4 {
      assert Text(c) == EncodeAll([c]);
      ScalarCons(c, []);
      DecodeEncodeAll([c], false);
    } else {
      var t := Text(c);
      AsciiFirst(t);
    }
  }

  /** For example, 0x110000 becomes four bytes that are not UTF-8. */
  lemma {:induction false} BeyondUnicodeExample()
    ensures Text(0x11_0000) == [0xF4, 0x90, 0x80, 0x80] && Decode(Text(0x11_0000), false) == None
  {
    ConvertedIffScalar(0x11_0000);
  }

  lemma {:induction false} AsciiFirst(t: seq<byte>)
    requires t != [] && t[0] <= 0x7F
    ensures Decode(t, false) == Cons(t[0], Decode(t[1..], false))
  {
  }

  /** Returns the `n` lowest bits and the others shifted to the right. */
  method ChopLowBits(bits: nat, n: nat) returns (low: nat, rest: nat)
    ensures low == bits % Pow2(n) && rest == bits / Pow2(n)
  {
    ShiftIsProduct(1, n);
    MaskIsMod(bits, n);
    ShiftIsDiv(bits, n);
    low, rest := And(bits, ShiftLeft(1, n) - 1), ShiftRight(bits, n);
  }

  /** Marker bits joined to lower bits. */
  lemma {:induction false} Marked(marker: nat, m: nat, k: nat, x: nat)
    requires marker == Pow2(k) * m && x < Pow2(k)
    ensures Or(marker, x) == marker + x
  {
    ShiftIsProduct(m, k);
    OrIsSum(m, k, x);
  }

  /** A byte 10xxxxxx. */
  method Continuation(bits: nat) returns (b: byte, rest: nat)
    ensures b == 0x80 + bits % 0x40 && rest == bits / 0x40
  {
    PowersOfTwo();
    var low;
    low, rest := ChopLowBits(bits, 6);
    Marked(0x80, 2, 6, low);
    b := Or(0x80, low);
  }

  method CodePointToUtf8(codePoint: nat, str: array<byte>)
    requires codePoint < UINT32 && str.Length >= 32
    modifies str
    ensures |Text(codePoint)| < 32 && str[..|Text(codePoint)|] == Text(codePoint) && str[|Text(codePoint)|] == 0
  {
    hide Or, Pow2, UpperHex;
    PowersOfTwo();
    TextLength(codePoint);
    Digits(codePoint);
    var c := codePoint;
    if c <= MAX_CODE_POINT1 {
      str[1] := 0;
      str[0] := c;
    } else if c <= MAX_CODE_POINT2 {
      str[2] := 0;
      str[1], c := Continuation(c);
      Marked(0xC0, 6, 5, c);
      str[0] := Or(0xC0, c);
    } else if c <= MAX_CODE_POINT3 {
      str[3] := 0;
      str[2], c := Continuation(c);
      str[1], c := Continuation(c);
      Marked(0xE0, 14, 4, c);
      str[0] := Or(0xE0, c);
    } else if c <= MAX_CODE_POINT4 {
      str[4] := 0;
      str[3], c := Continuation(c);
      str[2], c := Continuation(c);
      str[1], c := Continuation(c);
      Marked(0xF0, 30, 3, c);
      str[0] := Or(0xF0, c);
    } else {
      StrNCpy(str, INVALID + UpperHex(c) + [0x29], 32);
      str[31] := 0;
    }
  }

  method StrNCpy(str: array<byte>, text: seq<byte>, n: nat)
    requires |text| < n <= str.Length
    modifies str
    ensures str[..|text|] == text && str[|text|] == 0
  {
    var i := 0;
    while i < n
      invariant 0 <= i <= n
      invariant forall k :: 0 <= k < i ==> str[k] == if k < |text| then text[k] else 0
    {
      str[i] := if i < |text| then text[i] else 0;
      i := i + 1;
    }
  }

  /** A C string: the bytes before the first NUL. */
  function UntilNul(s: seq<byte>): seq<byte> {
    if s == [] || s[0] == 0 then [] else [s[0]] + UntilNul(s[1..])
  }

  lemma {:induction false} UntilNulIs(s: seq<byte>, e: seq<byte>)
    requires |e| < |s| && s[..|e|] == e && s[|e|] == 0 && forall k :: 0 <= k < |e| ==> e[k] != 0
    ensures UntilNul(s) == e
  {
    if e != [] {
      assert s[0] == s[..|e|][0] == e[0];
      assert s[1..][..|e| - 1] == s[..|e|][1..] == e[1..];
      UntilNulIs(s[1..], e[1..]);
    }
  }

  /** The units before the first NUL, at most `n`. */
  function Prefix(str: seq<nat>, n: nat): seq<nat> {
    if n == 0 || str == [] || str[0] == 0 then [] else [str[0]] + Prefix(str[1..], n - 1)
  }

  /** What is converted: all of the string if the limit is -1. */
  function Taken(str: seq<nat>, numChars: int): seq<nat> {
    if numChars == -1 then Prefix(str, |str|) else if numChars < 0 then [] else Prefix(str, numChars)
  }

  /** wcslen */
  function Length(str: seq<nat>): (n: nat)
    requires 0 in str
    ensures n < |str| && str[n] == 0
    ensures Prefix(str, n) == Prefix(str, |str|)
  {
    if str[0] == 0 then 0 else
      var n := Length(str[1..]);
      1 + n
  }

  lemma {:induction false} PrefixStep(str: seq<nat>, i: nat, n: nat)
    requires i < n && i < |str| && str[i] != 0
    ensures var u, v := Prefix(str[i..], n - i), Prefix(str[i + 1..], n - i - 1);
      && u == [str[i]] + v
      && (v != [] ==> i + 1 < n && i + 1 < |str| && v[0] == str[i + 1] != 0)
      && (v == [] ==> i + 1 == n || i + 1 == |str| || str[i + 1] == 0)
  {
    assert str[i..][1..] == str[i + 1..];
  }

  lemma {:induction false} PrefixUnits(str: seq<nat>, n: nat)
    requires Units(str)
    ensures Units(Prefix(str, n))
  {
    if n > 0 && str != [] && str[0] != 0 {
      PrefixUnits(str[1..], n - 1);
      var u := Prefix(str[1..], n - 1);
      assert forall k :: 0 < k < |u| + 1 ==> ([str[0]] + u)[k] == u[k - 1];
    }
  }

  lemma {:induction false} NulIsNoSurrogate(first: nat, utf16: bool)
    ensures !IsUtf16SurrogatePair(first, 0, utf16)
  {
  }

  lemma {:induction false} CodePointBound(first: nat, second: nat, utf16: bool)
    requires IsUtf16SurrogatePair(first, second, utf16) && (utf16 ==> first < 0x1_0000 && second < 0x1_0000)
    ensures 0 < CreateCodePointFromUtf16SurrogatePair(first, second, utf16) < UINT32
  {
    SurrogatePairs(first, second);
  }

  /** One turn of the loop, on the code points still to come. */
  lemma {:induction false} CodePointStep(str: seq<nat>, i: nat, n: nat, utf16: bool)
    requires i < n && i < |str| && str[i] != 0
    ensures var cs := CodePoints(Prefix(str[i..], n - i), utf16);
      if i + 1 < n && i + 1 < |str| && IsUtf16SurrogatePair(str[i], str[i + 1], utf16)
      then str[i + 1] != 0 && cs == [CreateCodePointFromUtf16SurrogatePair(str[i], str[i + 1],
        utf16)] + CodePoints(Prefix(str[i + 2..], n - i - 2), utf16)
      else cs == [str[i]] + CodePoints(Prefix(str[i + 1..], n - i - 1), utf16)
  {
    hide IsUtf16SurrogatePair, CreateCodePointFromUtf16SurrogatePair, Prefix;
    NulIsNoSurrogate(str[i], utf16);
    PrefixStep(str, i, n);
    var u, v := Prefix(str[i..], n - i), Prefix(str[i + 1..], n - i - 1);
    assert u[1..] == v;
    if v != [] {
      PrefixStep(str, i + 1, n);
      assert u[2..] == Prefix(str[i + 2..], n - i - 2);
    }
  }

  /** The buffer of one code point, as the stream reads it. */
  method Convert(c: nat) returns (text: seq<byte>)
    requires 0 < c < UINT32
    ensures text == Text(c)
  {
    hide Text;
    var buffer := new byte[32];
    CodePointToUtf8(c, buffer);
    TextLength(c);
    UntilNulIs(buffer[..], Text(c));
    text := UntilNul(buffer[..]);
  }

  lemma {:induction false} TextIsEncoding(cs: seq<nat>)
    requires forall k :: 0 <= k < |cs| ==> cs[k] <= MAX_CODE_POINT4
    ensures TextAll(cs) == EncodeAll(cs)
  {
    if cs != [] {
      TextIsEncoding(cs[1..]);
    }
  }

  /**
   The output for a UTF-16 string decodes, as UTF-8, to what the input decodes to, as UTF-16, and does not
   decode if the input does not; leniently it always decodes to the units of lone surrogates, too.
   */
  lemma {:induction false} SameCodePoints(u: seq<nat>)
    requires Units(u)
    ensures Decode(TextAll(CodePoints(u, true)), false) == Utf16Decode(u)
    ensures Decode(TextAll(CodePoints(u, true)), true) == Some(CodePoints(u, true))
  {
    hide CodePoints, Decode, TextAll, Utf16Decode, AllScalar, EncodeAll;
    var cs := CodePoints(u, true);
    CodePointsDecoded(u);
    TextIsEncoding(cs);
    DecodeEncodeAll(cs, false);
    DecodeEncodeAll(cs, true);
  }

  method WideStringToUtf8(str: seq<nat>, limit: int, utf16: bool) returns (stream: seq<byte>)
    requires forall k :: 0 <= k < |str| ==> str[k] < if utf16 then 0x1_0000 else UINT32
    requires limit == -1 || limit > |str| ==> 0 in str
    ensures stream == TextAll(CodePoints(Taken(str, limit), utf16))
    ensures utf16 ==> Decode(stream, false) == Utf16Decode(Taken(str, limit))
  {
    hide CodePoints, TextAll, Decode, Utf16Decode, Text, IsUtf16SurrogatePair, CreateCodePointFromUtf16SurrogatePair,
         Prefix;
    var numChars := limit;
    if limit == -1 {
      numChars := Length(str);
    }
    stream := [];
    ghost var n: nat := if numChars < 0 then 0 else numChars;
    ghost var all := TextAll(CodePoints(Prefix(str, n), utf16));
    TakenIs(str, limit, n);
    var i := 0;
    assert str[0..] == str;
    while i < numChars
      invariant 0 <= i <= n && i <= |str| && forall k :: 0 <= k < i ==> str[k] != 0
      invariant stream + TextAll(CodePoints(Prefix(str[i..], n - i), utf16)) == all
    {
      if str[i] == 0 {
        break;
      }
      CodePointStep(str, i, n, utf16);
      var codePoint;
      if i + 1 < numChars && IsUtf16SurrogatePair(str[i], str[i + 1], utf16) {
        CodePointBound(str[i], str[i + 1], utf16);
        codePoint := CreateCodePointFromUtf16SurrogatePair(str[i], str[i + 1], utf16);
        i := i + 1;
      } else {
        codePoint := str[i];
      }
      i := i + 1;
      TextStep(codePoint, CodePoints(Prefix(str[i..], n - i), utf16));
      var text := Convert(codePoint);
      stream := stream + text;
    }
    NothingLeft(str, i, n, utf16);
    if utf16 {
      PrefixUnits(str, n);
      SameCodePoints(Prefix(str, n));
    }
  }

  lemma {:induction false} TakenIs(str: seq<nat>, limit: int, n: nat)
    requires limit == -1 ==> 0 in str && n == Length(str)
    requires limit != -1 ==> n == if limit < 0 then 0 else limit
    ensures Taken(str, limit) == Prefix(str, n)
  {
  }

  lemma {:induction false} TextStep(c: nat, cs: seq<nat>)
    ensures TextAll([c] + cs) == Text(c) + TextAll(cs)
  {
    assert ([c] + cs)[1..] == cs;
  }

  lemma {:induction false} NothingLeft(str: seq<nat>, i: nat, n: nat, utf16: bool)
    requires i <= n && i <= |str| && (i == n || i == |str| || str[i] == 0)
    ensures TextAll(CodePoints(Prefix(str[i..], n - i), utf16)) == []
  {
  }

  // ---- what the conversion goes through ----

  /** The units converted are those before the first NUL, and no more than the limit says. */
  lemma {:induction false} TakenUnits(str: seq<nat>, limit: int)
    ensures var n := |Taken(str, limit)|;
      && n <= |str| && Taken(str, limit) == str[..n] && 0 !in Taken(str, limit)
      && (limit >= 0 ==> n <= limit && (n == limit || n == |str| || str[n] == 0))
      && (limit == -1 ==> n == |str| || str[n] == 0)
      && (limit < -1 ==> n == 0)
  {
    PrefixUnitsOf(str, if limit == -1 then |str| else if limit < 0 then 0 else limit);
  }

  lemma {:induction false} PrefixUnitsOf(str: seq<nat>, n: nat)
    ensures var u := Prefix(str, n);
      |u| <= |str| && |u| <= n && u == str[..|u|] && 0 !in u && (|u| == n || |u| == |str| || str[|u|] == 0)
  {
    if n > 0 && str != [] && str[0] != 0 {
      PrefixUnitsOf(str[1..], n - 1);
      var v := Prefix(str[1..], n - 1);
      assert str[..1 + |v|] == [str[0]] + str[1..][..|v|];
    }
  }

  /** Four-byte units are code points. */
  lemma {:induction false} WideUnits(u: seq<nat>)
    ensures CodePoints(u, false) == u
  {
    if u != [] {
      WideUnits(u[1..]);
    }
  }

  /** The message for a number that is too large, character by character. */
  lemma {:induction false} InvalidMessage(c: nat)
    requires c > MAX_CODE_POINT4
    ensures var t, lead := Text(c), "(Invalid Unicode 0x";
      && |t| == |lead| + |UpperHex(c)| + 1
      && (forall k :: 0 <= k < |lead| ==> t[k] == lead[k] as int)
      && t[|lead|..|t| - 1] == UpperHex(c) && t[|t| - 1] == ')' as int
  {
    var t, lead := Text(c), "(Invalid Unicode 0x";
    assert |INVALID| == |lead|;
    assert forall k :: 0 <= k < |lead| ==> INVALID[k] == lead[k] as int;
  }

  /** The number that upper-case hexadecimal digits stand for. */
  ghost function HexNumber(t: seq<byte>): nat {
    if t == [] then 0 else
      var d := t[|t| - 1];
      16 * HexNumber(t[..|t| - 1]) + (if 48 <= d <= 57 then d - 48 else if 65 <= d <= 70 then d - 55 else 0)
  }

  /** The `%X` format: the digits 0 to 9 and A to F, no leading zero, and the number itself. */
  lemma {:induction false} UpperHexIs(n: nat)
    ensures var t := UpperHex(n);
      && t != [] && HexNumber(t) == n
      && (forall k :: 0 <= k < |t| ==> 48 <= t[k] <= 57 || 65 <= t[k] <= 70)
      && (n > 0 ==> t[0] != 48)
  {
    if n >= 16 {
      UpperHexIs(n / 16);
      assert UpperHex(n)[..|UpperHex(n)| - 1] == UpperHex(n / 16);
    } else {
      assert UpperHex(n)[..0] == [];
      assert HexNumber([]) == 0;
    }
  }
}
