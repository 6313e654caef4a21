/**
 Byte strings printed as C string literals. `Lex` reads literals as sections 6.4.4.4 and 6.4.5 of ISO C99
 define them, adjacent ones joined; it recovers the bytes unless a NUL is followed by an octal digit.
 */
module Literals {
  import opened Bytes
  import opened Wrappers

  // ---- the lexer ----

  predicate OctalDigit(ch: char) { '0' <= ch <= '7' }

  predicate HexDigit(ch: char) { '0' <= ch <= '9' || 'a' <= ch <= 'f' || 'A' <= ch <= 'F' }

  function HexValue(ch: char): (v: nat)
    requires HexDigit(ch)
    ensures v < 16
  {
    if '0' <= ch <= '9' then ch as int - '0' as int
    else if 'a' <= ch <= 'f' then ch as int - 'a' as int + 10
    else ch as int - 'A' as int + 10
  }

  /** The number of octal digits at the start, at most `max`. */
  function OctalRun(t: string, max: nat): (n: nat)
    ensures n <= |t| && n <= max && forall k :: 0 <= k < n ==> OctalDigit(t[k])
  {
    if max == 0 || t == "" || !OctalDigit(t[0]) then 0 else 1 + OctalRun(t[1..], max - 1)
  }

  /** The number of hexadecimal digits at the start. */
  function HexRun(t: string): (n: nat)
    ensures n <= |t| && forall k :: 0 <= k < n ==> HexDigit(t[k])
  {
    if t == "" || !HexDigit(t[0]) then 0 else 1 + HexRun(t[1..])
  }

  function OctalValue(ch: char): (v: nat)
    requires OctalDigit(ch)
    ensures v < 8
  {
    ch as int - '0' as int
  }

  function OctalNumber(t: string): nat
    requires forall k :: 0 <= k < |t| ==> OctalDigit(t[k])
  {
    if t == "" then 0 else 8 * OctalNumber(t[..|t| - 1]) + OctalValue(t[|t| - 1])
  }

  function HexNumber(t: string): nat
    requires forall k :: 0 <= k < |t| ==> HexDigit(t[k])
  {
    if t == "" then 0 else 16 * HexNumber(t[..|t| - 1]) + HexValue(t[|t| - 1])
  }

  /** The simple escape sequences. */
  function SimpleEscape(ch: char): Option<byte> {
    match ch
    case '\'' => Some(0x27)
    case '"' => Some(0x22)
    case '?' => Some(0x3F)
    case '\\' => Some(0x5C)
    case 'a' => Some(7)
    case 'b' => Some(8)
    case 'f' => Some(12)
    case 'n' => Some(10)
    case 'r' => Some(13)
    case 't' => Some(9)
    case 'v' => Some(11)
    case _ => None
  }

  /** The character value has to fit in an unsigned char. */
  function Prepend(value: nat, rest: Option<seq<byte>>): Option<seq<byte>> {
    match rest
    case None => None
    case Some(bytes) => if value < 256 then Some([value] + bytes) else None
  }

  /** The characters of a literal up to its closing quote, and the literals that follow it. */
  function Inside(t: string): Option<seq<byte>>
    decreases |t|
  {
    if t == "" || t[0] == '\n' then None
    else if t[0] == '"' then Between(t[1..])
    else if t[0] != '\\' then Prepend(t[0] as int, Inside(t[1..]))
    else if |t| == 1 then None
    else if SimpleEscape(t[1]).Some? then Prepend(SimpleEscape(t[1]).value, Inside(t[2..]))
    else if OctalDigit(t[1]) then
      var n := OctalRun(t[1..], 3);
      Prepend(OctalNumber(t[1..][..n]), Inside(t[1..][n..]))
    else if t[1] == 'x' && HexRun(t[2..]) > 0 then
      var n := HexRun(t[2..]);
      Prepend(HexNumber(t[2..][..n]), Inside(t[2..][n..]))
    else None
  }

  /** White space between adjacent literals. */
  function Between(t: string): Option<seq<byte>>
    decreases |t|
  {
    if t == "" then Some([])
    else if t[0] == '"' then Inside(t[1..])
    else if t[0] == ' ' || t[0] == '\t' || t[0] == '\n' then Between(t[1..])
    else None
  }

  function Lex(t: string): Option<seq<byte>> {
    if t != "" && t[0] == '"' then Inside(t[1..]) else None
  }

  // ---- the printer ----

  datatype CharFormat = AsIs | HexEscape | SpecialEscape

  predicate IsPrintableAscii(c: byte) { 0x20 <= c <= 0x7E }

  predicate IsXDigit(c: byte) {
    0x30 <= c <= 0x39 || 0x41 <= c <= 0x46 || 0x61 <= c <= 0x66
  }

  /** One digit of the `%X` format. */
  function UpperHexDigit(v: nat): char
    requires v < 16
  {
    "0123456789ABCDEF"[v]
  }

  function UpperHex(c: byte): string {
    if c < 16 then [UpperHexDigit(c)] else [UpperHexDigit(c / 16), UpperHexDigit(c % 16)]
  }

  /** The text and format of a character literal, without quotes. */
  function CharLiteral(c: byte): (string, CharFormat) {
    if c == 0 then ("\\0", SpecialEscape)
    else if c == 0x27 then ("\\'", SpecialEscape)
    else if c == 0x5C then ("\\\\", SpecialEscape)
    else if c == 7 then ("\\a", SpecialEscape)
    else if c == 8 then ("\\b", SpecialEscape)
    else if c == 12 then ("\\f", SpecialEscape)
    else if c == 10 then ("\\n", SpecialEscape)
    else if c == 13 then ("\\r", SpecialEscape)
    else if c == 9 then ("\\t", SpecialEscape)
    else if c == 11 then ("\\v", SpecialEscape)
    else if IsPrintableAscii(c) then ([c as char], AsIs)
    else ("\\x" + UpperHex(c), HexEscape)
  }

  function StringLiteralChar(c: byte): (string, CharFormat) {
    if c == 0x27 then ("'", AsIs) else if c == 0x22 then ("\\\"", SpecialEscape) else CharLiteral(c)
  }

  /** The rest of a literal; `hex` says that a hexadecimal escape comes before it. */
  function Rest(b: seq<byte>, hex: bool): string {
    if b == [] then "\"" else
      var (text, format) := StringLiteralChar(b[0]);
      (if hex && IsXDigit(b[0]) then "\" \"" else "") + text + Rest(b[1..], format == HexEscape)
  }

  class Stream {
    var text: string

    constructor ()
      ensures text == ""
    {
      text := "";
    }

    method Put(s: string)
      modifies this
      ensures text == old(text) + s
    {
      text := text + s;
    }
  }

  method PrintAsCharLiteralTo(c: byte, os: Stream) returns (format: CharFormat)
    modifies os
    ensures os.text == old(os.text) + CharLiteral(c).0 && format == CharLiteral(c).1
  {
    match c {
      case 0 => os.Put("\\0");
      case 0x27 => os.Put("\\'");
      case 0x5C => os.Put("\\\\");
      case 7 => os.Put("\\a");
      case 8 => os.Put("\\b");
      case 12 => os.Put("\\f");
      case 10 => os.Put("\\n");
      case 13 => os.Put("\\r");
      case 9 => os.Put("\\t");
      case 11 => os.Put("\\v");
      case _ =>
        if IsPrintableAscii(c) {
          os.Put([c as char]);
          return AsIs;
        } else {
          os.Put("\\x" + UpperHex(c));
          return HexEscape;
        }
    }
    return SpecialEscape;
  }

  method PrintAsStringLiteralTo(c: byte, os: Stream) returns (format: CharFormat)
    modifies os
    ensures os.text == old(os.text) + StringLiteralChar(c).0 && format == StringLiteralChar(c).1
  {
    if c == 0x27 {
      os.Put("'");
      return AsIs;
    } else if c == 0x22 {
      os.Put("\\\"");
      return SpecialEscape;
    }
    format := PrintAsCharLiteralTo(c, os);
  }

  /** Print the bytes as string literals that read back as the bytes, octal digits after a NUL aside. */
  method PrintCharsAsStringTo(b: seq<byte>, os: Stream)
    modifies os
    ensures os.text == old(os.text) + "\"" + Rest(b, false)
    ensures Lex("\"" + Rest(b, false)) == Some(Merged(b))
    ensures Spells(b, false, Rest(b, false))
  {
    SpelledRest(b, false);
    hide Rest, StringLiteralChar, Merged, Lex;
    LexPrinted(b);
    os.Put("\"");
    var isPreviousHex := false;
    var index := 0;
    assert b[0..] == b;
    while index < |b|
      invariant 0 <= index <= |b|
      invariant os.text + Rest(b[index..], isPreviousHex) == old(os.text) + "\"" + Rest(b, false)
    {
      RestStep(b, index, isPreviousHex);
      var cur := b[index];
      if isPreviousHex && IsXDigit(cur) {
        os.Put("\" \"");
      }
      var format := PrintAsStringLiteralTo(cur, os);
      isPreviousHex := format == HexEscape;
      index := index + 1;
    }
    RestEnd(isPreviousHex);
    assert b[index..] == [];
    os.Put("\"");
  }

  lemma {:induction false} RestStep(b: seq<byte>, i: nat, hex: bool)
    requires i < |b|
    ensures var (text, format) := StringLiteralChar(b[i]);
      var gap := if hex && IsXDigit(b[i]) then "\" \"" else "";
      Rest(b[i..], hex) == gap + text + Rest(b[i + 1..], format == HexEscape)
  {
    assert b[i..][1..] == b[i + 1..];
  }

  lemma {:induction false} RestEnd(hex: bool)
    ensures Rest([], hex) == "\""
  {
  }

  // ---- what the text looks like ----

  /** The value of an upper-case hexadecimal digit. */
  ghost predicate UpperDigit(ch: char, v: int) {
    ('0' <= ch <= '9' && ch as int - 48 == v) || ('A' <= ch <= 'F' && ch as int - 55 == v)
  }

  ghost predicate ShownInHex(c: byte) {
    1 <= c <= 6 || 14 <= c <= 31 || 127 <= c
  }

  /** The text of one byte, by ranges of bytes. */
  ghost predicate Shows(c: byte, t: string) {
    && (0x20 <= c <= 0x7E && c != 0x22 && c != 0x5C ==> t == [c as char])
    && (c == 0x22 ==> t == "\\\"")
    && (c == 0x5C ==> t == "\\\\")
    && (c == 0 ==> t == "\\0")
    && (7 <= c <= 13 ==> t == ['\\', "abtnvfr"[c - 7]])
    && (ShownInHex(c) && c < 16 ==> |t| == 3 && t[..2] == "\\x" && UpperDigit(t[2], c))
    && (ShownInHex(c) && c >= 16 ==>
        |t| == 4 && t[..2] == "\\x" && UpperDigit(t[2], c / 16) && UpperDigit(t[3], c % 16))
  }

  /**
   The text of some bytes and the closing quote; `hex` says that a hexadecimal escape comes before them. The
   quotes are closed and opened again between such an escape and a hexadecimal digit, and nowhere else.
   */
  ghost predicate Spells(b: seq<byte>, hex: bool, t: string)
    decreases |b|
  {
    if b == [] then t == "\"" else
      var digit := 48 <= b[0] <= 57 || 65 <= b[0] <= 70 || 97 <= b[0] <= 102;
      var gap := if hex && digit then 3 else 0;
      && |t| >= gap && (hex && digit ==> t[..3] == "\" \"")
      && exists n | gap <= n <= |t| :: Shows(b[0], t[gap..n]) && Spells(b[1..], ShownInHex(b[0]), t[n..])
  }

  lemma {:induction false} UpperDigits(v: nat)
    requires v < 16
    ensures UpperDigit(UpperHexDigit(v), v)
  {
  }

  lemma {:induction false} CharShown(c: byte)
    ensures Shows(c, StringLiteralChar(c).0) && (StringLiteralChar(c).1 == HexEscape <==> ShownInHex(c))
  {
    hide UpperHexDigit, UpperDigit;
    UpperDigits(c % 16);
    UpperDigits(c / 16);
  }

  lemma {:induction false} SpelledRest(b: seq<byte>, hex: bool)
    ensures Spells(b, hex, Rest(b, hex))
    decreases |b|
  {
    if b != [] {
      hide Shows, StringLiteralChar, ShownInHex;
      var (text, format) := StringLiteralChar(b[0]);
      CharShown(b[0]);
      SpelledRest(b[1..], format == HexEscape);
      var gap := if hex && IsXDigit(b[0]) then "\" \"" else "";
      var rest := Rest(b[1..], format == HexEscape);
      var t := gap + text + rest;
      var n := |gap| + |text|;
      assert t == Rest(b, hex) && t[|gap|..n] == text && t[n..] == rest;
      assert hex && IsXDigit(b[0]) ==> t[..3] == gap;
    }
  }

  /** The text of a single byte. */
  lemma {:induction false} OneByte(c: byte, t: string)
    requires Spells([c], false, t)
    ensures t != "" && t[|t| - 1] == '"' && Shows(c, t[..|t| - 1])
  {
    hide Shows;
    var n :| 0 <= n <= |t| && Shows(c, t[0..n]) && Spells([c][1..], ShownInHex(c), t[n..]);
    assert t[n..] == "\"";
    assert t[..|t| - 1] == t[0..n] && t[n..][0] == t[n];
  }

  /** Bytes that need no escape are printed as they are. */
  lemma {:induction false} PlainString(b: seq<byte>, t: string)
    requires Spells(b, false, t) && forall k :: 0 <= k < |b| ==> 0x20 <= b[k] <= 0x7E && b[k] != 0x22 && b[k] != 0x5C
    ensures |t| == |b| + 1 && t[|b|] == '"' && forall k :: 0 <= k < |b| ==> t[k] == b[k] as char
    decreases |b|
  {
    if b != [] {
      var n :| 0 <= n <= |t| && Shows(b[0], t[0..n]) && Spells(b[1..], ShownInHex(b[0]), t[n..]);
      assert |t[0..n]| == 1 && t[0] == t[0..n][0];
      PlainString(b[1..], t[n..]);
      forall k | 0 < k < |b|
        ensures t[k] == b[k] as char
      {
        assert t[k] == t[n..][k - 1] && b[k] == b[1..][k - 1];
      }
      assert t[|b|] == t[n..][|b| - 1];
    }
  }

  // ---- reading back ----

  /** The number of bytes at the start that are octal digits, at most `max`. */
  function OctalBytes(b: seq<byte>, max: nat): (n: nat)
    ensures n <= |b| && n <= max && forall k :: 0 <= k < n ==> 0x30 <= b[k] <= 0x37
  {
    if max == 0 || b == [] || !(0x30 <= b[0] <= 0x37) then 0 else 1 + OctalBytes(b[1..], max - 1)
  }

  /** What is read back: a NUL takes up to two octal digits after it and becomes their number. */
  function Merged(b: seq<byte>): seq<byte> {
    if b == [] then [] else
      if b[0] != 0 then [b[0]] + Merged(b[1..])
      else
        var n := OctalBytes(b[1..], 2);
        [NumberOf(b[1..][..n])] + Merged(b[1..][n..])
  }

  /** The number that up to two octal digits stand for. */
  function NumberOf(digits: seq<byte>): byte
    requires |digits| <= 2 && forall k :: 0 <= k < |digits| ==> 0x30 <= digits[k] <= 0x37
  {
    if |digits| == 0 then 0
    else if |digits| == 1 then digits[0] - 0x30
    else
      var high, low := digits[0] - 0x30, digits[1] - 0x30;
      8 * high + low
  }

  lemma {:induction false} HexRunStops(h: string, rest: string)
    requires (forall k :: 0 <= k < |h| ==> HexDigit(h[k])) && (rest != "" ==> !HexDigit(rest[0]))
    ensures HexRun(h + rest) == |h|
  {
    if h != "" {
      HexRunStops(h[1..], rest);
      assert (h + rest)[1..] == h[1..] + rest;
    } else {
      assert h + rest == rest;
    }
  }

  /** `%X` and the value of hexadecimal digits are inverse. */
  lemma {:induction false} UpperHexValue(c: byte)
    ensures var h := UpperHex(c);
      |h| > 0 && (forall k :: 0 <= k < |h| ==> HexDigit(h[k])) && HexNumber(h) == c
  {
    hide HexDigit, HexValue, UpperHexDigit;
    DigitValue(c % 16);
    DigitValue(c / 16);
    var h := UpperHex(c);
    if c >= 16 {
      assert h[..1] == [UpperHexDigit(c / 16)];
      SingleHex(UpperHexDigit(c / 16));
    } else {
      SingleHex(UpperHexDigit(c));
    }
  }

  lemma {:induction false} DigitValue(v: nat)
    requires v < 16
    ensures HexDigit(UpperHexDigit(v)) && HexValue(UpperHexDigit(v)) == v
  {
  }

  lemma {:induction false} SingleHex(ch: char)
    requires HexDigit(ch)
    ensures HexNumber([ch]) == HexValue(ch)
  {
  }

  /** After a hexadecimal escape comes no hexadecimal digit. */
  lemma {:induction false} RestAfterHex(b: seq<byte>)
    ensures Rest(b, true) != "" && !HexDigit(Rest(b, true)[0])
  {
    if b != [] && !IsXDigit(b[0]) {
      FirstChar(b[0]);
    }
  }

  /** What the text of a character starts with. */
  lemma {:induction false} FirstChar(c: byte)
    ensures var (text, format) := StringLiteralChar(c);
      && text != ""
      && (format == AsIs ==> text == [c as char] && text[0] != '"' && text[0] != '\\' && text[0] != '\n')
      && (format != AsIs ==> text[0] == '\\')
      && (format == HexEscape ==> text == "\\x" + UpperHex(c) && c != 0)
      && (format == SpecialEscape && c != 0 ==> |text| == 2 && SimpleEscape(text[1]) == Some(c))
      && (c == 0 ==> text == "\\0" && format == SpecialEscape)
      && (0x30 <= c <= 0x37 || IsXDigit(c) ==> format == AsIs)
  {
    hide UpperHex;
  }

  /** A closing and an opening quote between two characters make no difference. */
  lemma {:induction false} Gap(t: string)
    ensures Inside("\" \"" + t) == Inside(t)
  {
    var s := "\" \"" + t;
    var s1 := " \"" + t;
    var s2 := "\"" + t;
    assert s[1..] == s1 && s1[1..] == s2 && s2[1..] == t;
    assert Inside(s) == Between(s1);
    assert Between(s1) == Between(s2);
  }

  lemma {:induction false} PlainChar(ch: char, rest: string)
    requires ch != '"' && ch != '\\' && ch != '\n'
    ensures Inside([ch] + rest) == Prepend(ch as int, Inside(rest))
  {
    assert ([ch] + rest)[1..] == rest;
  }

  lemma {:induction false} SimpleChar(text: string, rest: string)
    requires |text| == 2 && text[0] == '\\' && SimpleEscape(text[1]).Some?
    ensures Inside(text + rest) == Prepend(SimpleEscape(text[1]).value, Inside(rest))
  {
    assert (text + rest)[2..] == rest;
  }

  lemma {:induction false} HexChar(c: byte, rest: string)
    requires rest != "" && !HexDigit(rest[0])
    ensures Inside("\\x" + UpperHex(c) + rest) == Prepend(c, Inside(rest))
  {
    hide UpperHex, HexDigit, HexNumber;
    UpperHexValue(c);
    HexRunStops(UpperHex(c), rest);
    var t := "\\x" + UpperHex(c) + rest;
    assert t[2..] == UpperHex(c) + rest;
    assert t[2..][..|UpperHex(c)|] == UpperHex(c) && t[2..][|UpperHex(c)|..] == rest;
  }

  /** The octal digits that come after a NUL are the bytes that are octal digits. */
  lemma {:induction false} OctalRest(b: seq<byte>, max: nat)
    ensures var n := OctalBytes(b, max);
      && OctalRun(Rest(b, false), max) == n
      && Rest(b, false)[n..] == Rest(b[n..], false)
      && (forall k :: 0 <= k < n ==> 0x30 <= b[k] <= 0x37 && Rest(b, false)[k] == b[k] as char)
    decreases max
  {
    hide Rest;
    var r := Rest(b, false);
    RestHead(b);
    if OctalBytes(b, max) > 0 {
      OctalRest(b[1..], max - 1);
      var n := OctalBytes(b[1..], max - 1);
      assert r[1..] == Rest(b[1..], false);
      assert r[1 + n..] == r[1..][n..] && b[1 + n..] == b[1..][n..];
    }
  }

  lemma {:induction false} RestHead(b: seq<byte>)
    ensures var r := Rest(b, false);
      if b != [] && 0x30 <= b[0] <= 0x37 then r == [b[0] as char] + Rest(b[1..], false)
      else r != "" && !OctalDigit(r[0])
  {
    if b != [] {
      hide StringLiteralChar;
      FirstChar(b[0]);
    }
  }

  lemma {:induction false} OctalEscape(t: string)
    requires |t| >= 2 && t[0] == '\\' && OctalDigit(t[1])
    ensures var n := OctalRun(t[1..], 3);
      Inside(t) == Prepend(OctalNumber(t[1..][..n]), Inside(t[1..][n..]))
  {
    hide OctalNumber, HexRun, HexNumber;
  }

  /** An octal escape whose digits are a zero and the run after it. */
  lemma {:induction false} OctalChar(rest: string)
    ensures var n := OctalRun(rest, 2);
      Inside("\\0" + rest) == Prepend(OctalNumber("0" + rest[..n]), Inside(rest[n..]))
  {
    hide OctalNumber, Inside;
    var n := OctalRun(rest, 2);
    var t := "\\0" + rest;
    var digits := "0" + rest;
    assert t[1..] == digits && digits[1..] == rest;
    assert OctalRun(digits, 3) == 1 + n;
    assert digits[..1 + n] == "0" + rest[..n] && digits[1 + n..] == rest[n..];
    OctalEscape(t);
  }

  lemma {:induction false} NulChar(b: seq<byte>)
    ensures var n := OctalBytes(b, 2);
      Inside("\\0" + Rest(b, false)) == Prepend(NumberOf(b[..n]), Inside(Rest(b[n..], false)))
  {
    hide Inside, Rest, OctalRun, OctalBytes, OctalNumber, NumberOf;
    var n := OctalBytes(b, 2);
    OctalRest(b, 2);
    OctalChar(Rest(b, false));
    OctalDigits(b[..n], Rest(b, false)[..n]);
  }

  lemma {:induction false} OctalDigits(digits: seq<byte>, t: string)
    requires |digits| == |t| <= 2 && forall k :: 0 <= k < |t| ==> 0x30 <= digits[k] <= 0x37 && t[k] == digits[k] as char
    ensures (forall k :: 0 <= k < |"0" + t| ==> OctalDigit(("0" + t)[k])) && OctalNumber("0" + t) == NumberOf(digits)
  {
    var z := "0" + t;
    assert z[..1] == "0";
    assert OctalNumber("") == 0 && OctalNumber("0") == 0;
    if |t| == 1 {
      assert z[..|z| - 1] == "0";
    } else if |t| == 2 {
      assert z[..2][..1] == "0";
      assert OctalNumber(z[..2]) == OctalValue(t[0]);
    }
  }

  /** The text of any character but a NUL reads back as the character. */
  lemma {:induction false} ReadChar(c: byte, rest: string)
    requires c != 0 && rest != "" && (StringLiteralChar(c).1 == HexEscape ==> !HexDigit(rest[0]))
    ensures Inside(StringLiteralChar(c).0 + rest) == Prepend(c, Inside(rest))
  {
    hide Inside, StringLiteralChar, UpperHex, HexDigit, SimpleEscape;
    FirstChar(c);
    var (text, format) := StringLiteralChar(c);
    if format == AsIs {
      PlainChar(c as char, rest);
    } else if format == SpecialEscape {
      SimpleChar(text, rest);
    } else {
      HexChar(c, rest);
    }
  }

  lemma {:induction false} RestNotEmpty(b: seq<byte>, hex: bool)
    ensures Rest(b, hex) != ""
  {
    if b != [] {
      FirstChar(b[0]);
    }
  }

  lemma {:induction false} LexRest(b: seq<byte>, hex: bool)
    ensures Inside(Rest(b, hex)) == Some(Merged(b))
    decreases |b|
  {
    hide Inside, OctalBytes, StringLiteralChar, HexDigit, UpperHex, NumberOf;
    if b == [] {
      EmptyRest();
    } else {
      var c, tail := b[0], b[1..];
      var (text, format) := StringLiteralChar(c);
      var rest := Rest(tail, format == HexEscape);
      FirstChar(c);
      Gap(text + rest);
      assert "" + text + rest == text + rest;
      assert "\" \"" + text + rest == "\" \"" + (text + rest);
      if c == 0 {
        NulChar(tail);
        LexRest(tail[OctalBytes(tail, 2)..], false);
      } else {
        LexRest(tail, format == HexEscape);
        RestNotEmpty(tail, format == HexEscape);
        RestAfterHex(tail);
        ReadChar(c, rest);
      }
    }
  }

  lemma {:induction false} EmptyRest()
    ensures Inside("\"") == Some([])
  {
    assert "\""[1..] == "";
  }

  lemma {:induction false} LexPrinted(b: seq<byte>)
    ensures Lex("\"" + Rest(b, false)) == Some(Merged(b))
  {
    LexRest(b, false);
    assert ("\"" + Rest(b, false))[1..] == Rest(b, false);
  }

  // ---- the round trip ----

  /** A NUL is followed by an octal digit. */
  ghost predicate Ambiguous(b: seq<byte>) {
    exists k :: 0 <= k < |b| - 1 && b[k] == 0 && 0x30 <= b[k + 1] <= 0x37
  }

  lemma {:induction false} MergedLength(b: seq<byte>)
    ensures |Merged(b)| <= |b|
    ensures !Ambiguous(b) ==> Merged(b) == b
    ensures Ambiguous(b) ==> |Merged(b)| < |b|
  {
    if b != [] {
      var n := if b[0] == 0 then OctalBytes(b[1..], 2) else 0;
      MergedLength(b[1..][n..]);
      AmbiguousLater(b);
      assert b[1..][0..] == b[1..];
    }
  }

  lemma {:induction false} AmbiguousLater(b: seq<byte>)
    requires b != []
    ensures b[0] == 0 && OctalBytes(b[1..], 2) > 0 ==> Ambiguous(b)
    ensures b[0] != 0 || OctalBytes(b[1..], 2) == 0 ==> (Ambiguous(b) <==> Ambiguous(b[1..]))
  {
    if b[0] == 0 && OctalBytes(b[1..], 2) > 0 {
      assert b[0] == 0 && 0x30 <= b[0 + 1] <= 0x37;
    } else if Ambiguous(b) {
      var k :| 0 <= k < |b| - 1 && b[k] == 0 && 0x30 <= b[k + 1] <= 0x37;
      assert k > 0;
      assert b[1..][k - 1] == 0 && 0x30 <= b[1..][k - 1 + 1] <= 0x37;
    }
  }

  /** Reading back gives the bytes if and only if no NUL is followed by an octal digit. */
  lemma {:induction false} RoundTrip(b: seq<byte>)
    ensures Lex("\"" + Rest(b, false)) == Some(b) <==> !Ambiguous(b)
  {
    LexPrinted(b);
    MergedLength(b);
  }

  /** For example, a NUL and the digit 1 are read back as one byte. */
  lemma {:induction false} RoundTripExample()
    ensures Lex("\"" + Rest([0, 0x31], false)) == Some([1]) && Ambiguous([0, 0x31])
  {
    var b: seq<byte> := [0, 0x31];
    LexPrinted(b);
    assert b[1..] == [0x31] && b[1..][1..] == [];
    assert b[0] == 0 && 0x30 <= b[0 + 1] <= 0x37;
    assert Merged(b) == [1];
  }
}
