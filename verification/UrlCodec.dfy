/** encode_query_param, decode_url and their helpers in thirdpart/include/http/httplib.h:
    percent-encoding as in section 2.1 of RFC 3986, plus the `%uXXXX` extension. */
module UrlCodec {
  import opened Basics

  const PERCENT: Byte := 0x25
  const PLUS: Byte := 0x2B
  const SPACE: Byte := 0x20
  const LOWER_U: Byte := 0x75

  predicate Alphanumeric(b: Byte) {
    0x30 <= b <= 0x39 || 0x41 <= b <= 0x5A || 0x61 <= b <= 0x7A
  }

  /** Bytes that encode_query_param leaves alone: alphanumerics and `- _ . ! ~ * ' ( )`. */
  predicate Plain(b: Byte) {
    || Alphanumeric(b)
    || b == 0x2D || b == 0x5F || b == 0x2E || b == 0x21 || b == 0x7E
    || b == 0x2A || b == 0x27 || b == 0x28 || b == 0x29
  }

  // ---------- Hexadecimal ----------

  function UpperHex(d: int): Byte
    requires 0 <= d < 16
  {
    if d < 10 then 0x30 + d else 0x41 + d - 10
  }

  function HexValue(b: Byte): (v: Option<int>)
    ensures v.Some? ==> 0 <= v.value < 16
  {
    if 0x30 <= b <= 0x39 then Some(b - 0x30)
    else if 0x41 <= b <= 0x46 then Some(b - 0x41 + 10)
    else if 0x61 <= b <= 0x66 then Some(b - 0x61 + 10)
    else None
  }

  /** The value of the `cnt` hex digits at `i`, most significant first, or nothing if the string
      ends or another byte comes first. */
  function HexNumber(s: seq<Byte>, i: nat, cnt: nat, acc: nat): Option<nat>
    decreases cnt
  {
    if cnt == 0 then Some(acc)
    else if i >= |s| then None
    else
      match HexValue(s[i])
      case Some(v) => HexNumber(s, i + 1, cnt - 1, acc * 16 + v)
      case None => None
  }

  method FromHexToI(s: seq<Byte>, i: nat, cnt: nat) returns (val: Option<nat>)
    ensures val == if cnt == 0 && i >= |s| then None else HexNumber(s, i, cnt, 0)
  {
    if i >= |s| {
      return None;
    }
    var acc: nat := 0;
    var pos, left := i, cnt;
    while left > 0
      invariant 0 <= left <= cnt && pos + left == i + cnt && pos <= |s|
      invariant HexNumber(s, pos, left, acc) == HexNumber(s, i, cnt, 0)
    {
      // s[s.size()] is the terminating NUL
      var c := if pos == |s| then 0 else s[pos];
      if c == 0 {
        return None;
      }
      var v := HexValue(c);
      if v.None? {
        return None;
      }
      acc := acc * 16 + v.value;
      pos, left := pos + 1, left - 1;
    }
    return Some(acc);
  }

  // ---------- UTF-8 ----------

  function ToUtf8(code: nat): seq<Byte> {
    if code < 0x80 then
      [code]
    else if code < 0x800 then
      [0xC0 + code / 64, 0x80 + code % 64]
    else if code < 0xD800 then
      [0xE0 + code / 4096, 0x80 + code / 64 % 64, 0x80 + code % 64]
    else if code < 0xE000 then
      []
    else if code < 0x10000 then
      [0xE0 + code / 4096, 0x80 + code / 64 % 64, 0x80 + code % 64]
    else if code < 0x110000 then
      [0xF0 + code / 262144, 0x80 + code / 4096 % 64, 0x80 + code / 64 % 64, 0x80 + code % 64]
    else
      []
  }

  predicate Continuation(b: Byte) {
    0x80 <= b < 0xC0
  }

  /** A UTF-8 decoder for one character, by the bit layout of section 3 of RFC 3629; it refuses
      overlong forms and surrogates. */
  function FromUtf8(s: seq<Byte>): Option<nat> {
    if |s| == 1 && s[0] < 0x80 then
      Some(s[0])
    else if |s| == 2 && 0xC0 <= s[0] < 0xE0 && Continuation(s[1]) then
      var code: int := (s[0] as int - 0xC0) * 64 + (s[1] as int - 0x80);
      if code < 0x80 then None else Some(code)
    else if |s| == 3 && 0xE0 <= s[0] < 0xF0 && Continuation(s[1]) && Continuation(s[2]) then
      var code: int := ((s[0] as int - 0xE0) * 64 + (s[1] as int - 0x80)) * 64 + (s[2] as int - 0x80);
      if code < 0x800 || 0xD800 <= code < 0xE000 then None else Some(code)
    else if |s| == 4 && 0xF0 <= s[0] < 0xF8 && Continuation(s[1]) && Continuation(s[2]) && Continuation(s[3]) then
      var code: int := (((s[0] as int - 0xF0) * 64 + (s[1] as int - 0x80)) * 64 + (s[2] as int - 0x80)) * 64 + (s[3] as int - 0x80);
      if code < 0x10000 || code >= 0x110000 then None else Some(code)
    else
      None
  }

  /** The writer is inverted by the standard's decoder exactly on the Unicode scalar values;
      every other number is silently dropped. */
  lemma Utf8RoundTrip(code: nat)
    ensures FromUtf8(ToUtf8(code)) == Some(code) <==> (code < 0xD800 || 0xE000 <= code < 0x110000)
    ensures FromUtf8(ToUtf8(code)) != Some(code) ==> ToUtf8(code) == []
  {
    assert code == code / 64 * 64 + code % 64;
    assert code / 64 == code / 64 / 64 * 64 + code / 64 % 64 && code / 64 / 64 == code / 4096;
    assert code / 4096 == code / 4096 / 64 * 64 + code / 4096 % 64 && code / 4096 / 64 == code / 262144;
  }

  // ---------- Encoding ----------

  function EncodeByte(b: Byte): seq<Byte> {
    if Plain(b) then [b] else [PERCENT, UpperHex(b / 16), UpperHex(b % 16)]
  }

  function Encode(value: seq<Byte>): seq<Byte>
    decreases |value|
  {
    if value == [] then [] else EncodeByte(value[0]) + Encode(value[1..])
  }

  method EncodeQueryParam(value: seq<Byte>) returns (escaped: seq<Byte>)
    ensures escaped == Encode(value)
    ensures forall plusIsSpace :: Decode(escaped, 0, plusIsSpace) == value
  {
    hide UpperHex, Decode, Encode;
    escaped := [];
    EncodeSplit(value, 0);
    for i := 0 to |value|
      invariant escaped == Encode(value[..i])
    {
      var c := value[i];
      EncodeSplit(value, i);
      if Plain(c) {
        escaped := escaped + [c];
      } else {
        escaped := escaped + [PERCENT, UpperHex(c / 16), UpperHex(c % 16)];
      }
    }
    assert value[..|value|] == value;
    forall plusIsSpace: bool ensures Decode(escaped, 0, plusIsSpace) == value {
      RoundTrip(value, plusIsSpace);
    }
  }

  /** Encoding extends byte by byte at the end too. */
  lemma {:induction false} EncodeSplit(value: seq<Byte>, i: nat)
    requires i <= |value|
    ensures Encode(value[..0]) == []
    ensures i < |value| ==> Encode(value[..i + 1]) == Encode(value[..i]) + EncodeByte(value[i])
    decreases i
  {
    hide EncodeByte;
    if 0 < i < |value| {
      EncodeSplit(value[1..], i - 1);
      assert value[..i + 1][1..] == value[1..][..i] && value[..i][1..] == value[1..][..i - 1];
    } else if i < |value| {
      assert value[..1][1..] == [];
    }
  }

  // ---------- Decoding ----------

  /** What one iteration at `i` appends, and how many bytes it passes over. */
  function DecodeAt(s: seq<Byte>, i: nat, plusIsSpace: bool): (r: (seq<Byte>, nat))
    requires i < |s|
    ensures r.1 > 0 && i + r.1 <= |s|
  {
    if s[i] == PERCENT && i + 1 < |s| then
      if s[i + 1] == LOWER_U then
        match HexNumber(s, i + 2, 4, 0)
        case Some(code) => HexNumberInside(s, i + 2, 4, 0); (ToUtf8(code), 6)
        case None => ([s[i]], 1)
      else
        match HexNumber(s, i + 1, 2, 0)
        case Some(code) => HexNumberInside(s, i + 1, 2, 0); ([code % 256], 3)
        case None => ([s[i]], 1)
    else if plusIsSpace && s[i] == PLUS then
      ([SPACE], 1)
    else
      ([s[i]], 1)
  }

  lemma {:induction false} HexNumberInside(s: seq<Byte>, i: nat, cnt: nat, acc: nat)
    requires cnt > 0 && HexNumber(s, i, cnt, acc).Some?
    ensures i + cnt <= |s|
    decreases cnt
  {
    if cnt > 1 {
      HexNumberInside(s, i + 1, cnt - 1, acc * 16 + HexValue(s[i]).value);
    }
  }

  function Decode(s: seq<Byte>, i: nat, plusIsSpace: bool): seq<Byte>
    decreases |s| - i
  {
    if i >= |s| then [] else
      var (bytes, step) := DecodeAt(s, i, plusIsSpace);
      bytes + Decode(s, i + step, plusIsSpace)
  }

  method DecodeUrl(s: seq<Byte>, convertPlusToSpace: bool) returns (result: seq<Byte>)
    ensures result == Decode(s, 0, convertPlusToSpace)
  {
    hide ToUtf8, HexNumber, Decode;
    result := [];
    DecodeEnd(s, convertPlusToSpace);
    var i := 0;
    while i < |s|
      invariant 0 <= i <= |s|
      invariant result + Decode(s, i, convertPlusToSpace) == Decode(s, 0, convertPlusToSpace)
    {
      ghost var at, before := i, result;
      DecodeHere(s, i, convertPlusToSpace);
      if s[i] == PERCENT && i + 1 < |s| {
        if s[i + 1] == LOWER_U {
          var val := FromHexToI(s, i + 2, 4);
          if val.Some? {
            HexNumberInside(s, i + 2, 4, 0);
            result := result + ToUtf8(val.value);
            i := i + 5;
          } else {
            result := result + [s[i]];
          }
        } else {
          var val := FromHexToI(s, i + 1, 2);
          if val.Some? {
            HexNumberInside(s, i + 1, 2, 0);
            result := result + [val.value % 256];
            i := i + 2;
          } else {
            result := result + [s[i]];
          }
        }
      } else if convertPlusToSpace && s[i] == PLUS {
        result := result + [SPACE];
      } else {
        result := result + [s[i]];
      }
      i := i + 1;
      assert (result, i) == (before + DecodeAt(s, at, convertPlusToSpace).0, at + DecodeAt(s, at, convertPlusToSpace).1);
    }
  }

  lemma DecodeEnd(s: seq<Byte>, plusIsSpace: bool)
    ensures Decode(s, |s|, plusIsSpace) == []
  {
  }

  lemma DecodeHere(s: seq<Byte>, i: nat, plusIsSpace: bool)
    requires i < |s|
    ensures var r := DecodeAt(s, i, plusIsSpace);
            Decode(s, i, plusIsSpace) == r.0 + Decode(s, i + r.1, plusIsSpace)
  {
  }

  // ---------- Round trip ----------

  /** Decoding resumes at the end of any encoded byte. */
  lemma EncodedByteDecodes(before: seq<Byte>, b: Byte, after: seq<Byte>, plusIsSpace: bool)
    ensures DecodeAt(before + EncodeByte(b) + after, |before|, plusIsSpace) == ([b], |EncodeByte(b)|)
  {
    var s := before + EncodeByte(b) + after;
    var i := |before|;
    if Plain(b) {
      assert s[i] == b;
    } else {
      var hi, lo := UpperHex(b / 16), UpperHex(b % 16);
      assert s[i] == PERCENT && s[i + 1] == hi && s[i + 2] == lo;
      assert HexNumber(s, i + 2, 1, b / 16) == Some(b / 16 * 16 + b % 16);
      assert HexNumber(s, i + 1, 2, 0) == HexNumber(s, i + 2, 1, b / 16);
    }
  }

  lemma {:induction false} SuffixDecodes(before: seq<Byte>, value: seq<Byte>, plusIsSpace: bool)
    ensures Decode(before + Encode(value), |before|, plusIsSpace) == value
    decreases |value|
  {
    hide DecodeAt, EncodeByte;
    if value == [] {
    } else {
      var here, rest := EncodeByte(value[0]), Encode(value[1..]);
      assert before + Encode(value) == before + here + rest == (before + here) + rest;
      EncodedByteDecodes(before, value[0], rest, plusIsSpace);
      assert here != [] by { EncodeByteNonempty(value[0]); }
      SuffixDecodes(before + here, value[1..], plusIsSpace);
      assert value == [value[0]] + value[1..];
    }
  }

  lemma EncodeByteNonempty(b: Byte)
    ensures EncodeByte(b) != []
  {
  }

  /** Decoding inverts encoding on every byte string, whichever way `+` is read. */
  lemma RoundTrip(value: seq<Byte>, plusIsSpace: bool)
    ensures Decode(Encode(value), 0, plusIsSpace) == value
  {
    assert [] + Encode(value) == Encode(value);
    SuffixDecodes([], value, plusIsSpace);
  }

  // ---------- What is escaped, and how ----------

  const CAPITALS: string := "ABCDEFGHIJKLMNOPQRSTUVWXYZ"
  const SMALL_LETTERS: string := "abcdefghijklmnopqrstuvwxyz"
  const NUMERALS: string := "0123456789"
  const MARKS: string := "-_.!~*'()"

  /** The bytes that may stand for themselves. */
  predicate Unescaped(c: char) {
    c in CAPITALS || c in SMALL_LETTERS || c in NUMERALS || c in MARKS
  }

  /** Delimiters of a URL or a query (section 2.2 of RFC 3986), and the space. */
  const DELIMITERS: set<char> := {':', '/', '?', '#', '[', ']', '@', '$', '&', '+', ',', ';', '=', ' '}

  const UPPER_DIGITS: string := "0123456789ABCDEF"
  const LOWER_DIGITS: string := "0123456789abcdef"

  lemma InRange(b: Byte, first: Byte, all: string)
    requires first as int + |all| <= 256
    requires forall k :: 0 <= k < |all| ==> all[k] as int == first + k
    ensures b as char in all <==> first <= b < first + |all|
  {
    if first <= b < first + |all| {
      assert all[b - first] as int == b;
    }
  }

  lemma PlainIsUnescaped(b: Byte)
    ensures Plain(b) <==> Unescaped(b as char)
  {
    InRange(b, 0x41, CAPITALS);
    InRange(b, 0x61, SMALL_LETTERS);
    InRange(b, 0x30, NUMERALS);
  }

  lemma UpperHexIsDigit(d: int)
    requires 0 <= d < 16
    ensures UpperHex(d) as char == UPPER_DIGITS[d]
  {
  }

  /** The hex digits, in either case, have the values of their places; no other byte is one. */
  lemma HexDigits(b: Byte, d: int)
    requires 0 <= d < 16
    ensures HexValue(b) == Some(d) <==> b as char == UPPER_DIGITS[d] || b as char == LOWER_DIGITS[d]
  {
  }

  /** A byte stands for itself if and only if it is a letter, a digit or one of nine marks; any other
      byte becomes a percent sign and its two upper-case hex digits. */
  lemma LeftAloneIff(b: Byte)
    ensures Encode([b]) == [b] <==> Unescaped(b as char)
    ensures !Unescaped(b as char) ==>
      |Encode([b])| == 3 && Encode([b])[0] as char == '%'
      && Encode([b])[1] as char == UPPER_DIGITS[b / 16] && Encode([b])[2] as char == UPPER_DIGITS[b % 16]
  {
    hide Plain;
    PlainIsUnescaped(b);
    UpperHexIsDigit(b / 16);
    UpperHexIsDigit(b % 16);
    assert [b][1..] == [] && Encode([b]) == EncodeByte(b) + [];
  }

  lemma UnescapedIsNoDelimiter(b: Byte)
    requires Unescaped(b as char)
    ensures b as char !in DELIMITERS
  {
    hide Unescaped;
    PlainIsUnescaped(b);
  }

  lemma UpperDigitIsUnescaped(d: int)
    requires 0 <= d < 16
    ensures UpperHex(d) as char in UPPER_DIGITS && Unescaped(UpperHex(d) as char)
  {
    hide Unescaped;
    UpperHexIsDigit(d);
    PlainIsUnescaped(UpperHex(d));
  }

  lemma EncodedByteIsSafe(b: Byte, k: nat)
    requires k < |EncodeByte(b)|
    ensures var e := EncodeByte(b);
            && (Unescaped(e[k] as char) || e[k] as char == '%') && e[k] as char !in DELIMITERS
            && (e[k] as char == '%' ==> k == 0 && |e| == 3 && e[1] as char in UPPER_DIGITS && e[2] as char in UPPER_DIGITS)
  {
    hide UpperHex, Unescaped, UPPER_DIGITS;
    PlainIsUnescaped(b);
    UpperDigitIsUnescaped(b / 16);
    UpperDigitIsUnescaped(b % 16);
    var c := EncodeByte(b)[k];
    if Unescaped(c as char) {
      UnescapedIsNoDelimiter(c);
      PlainIsUnescaped(c);
    }
  }

  /** The encoding is safe to put in a query: nothing but unescaped bytes and percent signs, so no
      delimiter, and each percent sign starts a two-digit upper-case escape. */
  lemma {:induction false} EncodingIsSafe(value: seq<Byte>, k: nat)
    requires k < |Encode(value)|
    ensures var e := Encode(value);
            && (Unescaped(e[k] as char) || e[k] as char == '%') && e[k] as char !in DELIMITERS
            && (e[k] as char == '%' ==> k + 2 < |e| && e[k + 1] as char in UPPER_DIGITS && e[k + 2] as char in UPPER_DIGITS)
    decreases |value|
  {
    hide EncodeByte, Unescaped, DELIMITERS, UPPER_DIGITS;
    var n := |EncodeByte(value[0])|;
    if k < n {
      EncodedByteIsSafe(value[0], k);
    } else {
      EncodingIsSafe(value[1..], k - n);
    }
  }

  // ---------- What decoding reads ----------

  predicate Digits(s: seq<Byte>, n: nat) {
    n <= |s| && forall k :: 0 <= k < n ==> HexValue(s[k]).Some?
  }

  /** The number of the first `n` digits. */
  function Number(s: seq<Byte>, n: nat): nat
    requires Digits(s, n)
  {
    if n == 0 then 0 else Number(s, n - 1) * 16 + HexValue(s[n - 1]).value
  }

  lemma {:induction false} HexNumberReads(s: seq<Byte>, i: nat, n: nat, acc: nat, done: nat)
    requires i + done <= |s| && done <= n && Digits(s[i..], done) && acc == Number(s[i..], done)
    ensures HexNumber(s, i + done, n - done, acc) == if Digits(s[i..], n) then Some(Number(s[i..], n)) else None
    decreases n - done
  {
    if done < n && i + done < |s| {
      assert s[i..][done] == s[i + done];
      if HexValue(s[i + done]).Some? {
        HexNumberReads(s, i, n, acc * 16 + HexValue(s[i + done]).value, done + 1);
      }
    }
  }

  lemma TwoDigits(s: seq<Byte>, i: nat)
    requires i <= |s|
    ensures HexNumber(s, i, 2, 0) == if Digits(s[i..], 2) then Some(Number(s[i..], 2)) else None
    ensures Digits(s[i..], 2) ==> s[i] as char != 'u' && Number(s[i..], 2) < 256
  {
    hide HexNumber;
    HexNumberReads(s, i, 2, 0, 0);
    if Digits(s[i..], 2) {
      assert s[i..][0] == s[i] && HexValue(s[i]).Some?;
      assert Number(s[i..], 1) == HexValue(s[i]).value;
    }
  }

  lemma FourDigits(s: seq<Byte>, i: nat)
    requires i <= |s|
    ensures HexNumber(s, i, 4, 0) == if Digits(s[i..], 4) then Some(Number(s[i..], 4)) else None
  {
    HexNumberReads(s, i, 4, 0, 0);
  }

  /** One character of a string at a time: an escape of two digits is that byte, `%u` and four digits
      that code point, a plus a space if asked for, and everything else, a percent sign without its
      digits included, stands for itself. */
  lemma DecodeReads(s: seq<Byte>, i: nat, plusIsSpace: bool)
    requires i < |s|
    ensures var c, after := s[i] as char, s[i + 1..];
            Decode(s, i, plusIsSpace) ==
              if c == '%' && Digits(after, 2) then [Number(after, 2)] + Decode(s, i + 3, plusIsSpace)
              else if c == '%' && after != [] && after[0] as char == 'u' && Digits(after[1..], 4) then
                ToUtf8(Number(after[1..], 4)) + Decode(s, i + 6, plusIsSpace)
              else if c == '+' && plusIsSpace then [0x20] + Decode(s, i + 1, plusIsSpace)
              else [s[i]] + Decode(s, i + 1, plusIsSpace)
  {
    hide ToUtf8, HexNumber, Digits, Number, Decode, HexValue;
    DecodeHere(s, i, plusIsSpace);
    if i + 1 < |s| {
      TwoDigits(s, i + 1);
      FourDigits(s, i + 2);
      assert s[i + 1..][1..] == s[i + 2..];
    } else {
      NoDigits(s[i + 1..]);
    }
  }

  lemma NoDigits(s: seq<Byte>)
    requires s == []
    ensures !Digits(s, 2)
  {
  }
}
