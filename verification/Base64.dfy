/** base64_encode of thirdpart/include/http/httplib.h against section 4 of RFC 4648.

    The program packs bytes into a 32-bit accumulator that it never clears; `Encode` and
    `Decode` are the group-of-three definitions of the standard, stated without it. */
module Base64 {
  import opened Basics

  type Sextet = s: int | 0 <= s < 64

  const UPPER: string := "ABCDEFGHIJKLMNOPQRSTUVWXYZ"
  const LOWER: string := "abcdefghijklmnopqrstuvwxyz"
  const DIGITS: string := "0123456789"
  const ALPHABET: string := UPPER + LOWER + DIGITS + "+/"

  function Letter(s: Sextet): char {
    ALPHABET[s]
  }

  // ---------- The standard ----------

  function Encode(data: seq<Byte>): string
    decreases |data|
  {
    if data == [] then
      []
    else if |data| == 1 then
      [Letter(data[0] / 4), Letter(data[0] % 4 * 16), '=', '=']
    else if |data| == 2 then
      [Letter(data[0] / 4), Letter(data[0] % 4 * 16 + data[1] / 16), Letter(data[1] % 16 * 4), '=']
    else
      Group(data[0], data[1], data[2]) + Encode(data[3..])
  }

  function Group(a: Byte, b: Byte, c: Byte): string {
    [Letter(a / 4), Letter(a % 4 * 16 + b / 16), Letter(b % 16 * 4 + c / 64), Letter(c % 64)]
  }

  function Value(c: char): Option<Sextet> {
    if 'A' <= c <= 'Z' then Some(c as int - 'A' as int)
    else if 'a' <= c <= 'z' then Some(c as int - 'a' as int + 26)
    else if '0' <= c <= '9' then Some(c as int - '0' as int + 52)
    else if c == '+' then Some(62)
    else if c == '/' then Some(63)
    else None
  }

  function First(a: Sextet, b: Sextet): Byte {
    a * 4 + b / 16
  }

  function Second(b: Sextet, c: Sextet): Byte {
    b % 16 * 16 + c / 4
  }

  function Third(c: Sextet, d: Sextet): Byte {
    c % 4 * 64 + d
  }

  /** A strict decoder: whole quads, padding only at the end and over zero bits. */
  function Decode(s: string): Option<seq<Byte>>
    decreases |s|
  {
    if s == [] then
      Some([])
    else if |s| < 4 then
      None
    else
      match (Value(s[0]), Value(s[1]), Value(s[2]), Value(s[3]))
      case (Some(a), Some(b), Some(c), Some(d)) =>
        (match Decode(s[4..])
         case Some(rest) => Some([First(a, b), Second(b, c), Third(c, d)] + rest)
         case None => None)
      case (Some(a), Some(b), Some(c), None) =>
        if |s| == 4 && s[3] == '=' && c % 4 == 0 then Some([First(a, b), Second(b, c)]) else None
      case (Some(a), Some(b), None, None) =>
        if |s| == 4 && s[2] == '=' && s[3] == '=' && b % 16 == 0 then Some([First(a, b)]) else None
      case _ => None
  }

  lemma SplitJoin(a: Byte, b: Byte, c: Byte)
    ensures First(a / 4, a % 4 * 16 + b / 16) == a
    ensures Second(a % 4 * 16 + b / 16, b % 16 * 4 + c / 64) == b
    ensures Third(b % 16 * 4 + c / 64, c % 64) == c
  {
  }

  /** The lookup table, read off: Table 1 of the standard. */
  lemma Table(s: Sextet)
    ensures s < 26 ==> Letter(s) as int == 'A' as int + s
    ensures 26 <= s < 52 ==> Letter(s) as int == 'a' as int + s - 26
    ensures 52 <= s < 62 ==> Letter(s) as int == '0' as int + s - 52
    ensures s == 62 ==> Letter(s) == '+'
    ensures s == 63 ==> Letter(s) == '/'
  {
    if s < 26 {
      assert forall k :: 0 <= k < 26 ==> UPPER[k] as int == 'A' as int + k;
      assert ALPHABET[s] == UPPER[s];
    } else if s < 52 {
      assert forall k :: 0 <= k < 26 ==> LOWER[k] as int == 'a' as int + k;
      assert ALPHABET[s] == LOWER[s - 26];
    } else if s < 62 {
      assert forall k :: 0 <= k < 10 ==> DIGITS[k] as int == '0' as int + k;
      assert ALPHABET[s] == DIGITS[s - 52];
    } else {
      assert ALPHABET[62] == '+' && ALPHABET[63] == '/';
    }
  }

  lemma LetterValue(s: Sextet)
    ensures Value(Letter(s)) == Some(s)
  {
    hide Letter;
    Table(s);
  }

  lemma PaddingHasNoValue()
    ensures Value('=') == None
  {
  }

  lemma {:induction false} EncodedLength(data: seq<Byte>)
    ensures |Encode(data)| == (|data| + 2) / 3 * 4
    decreases |data|
  {
    hide Letter;
    if |data| >= 3 {
      EncodedLength(data[3..]);
    }
  }

  lemma GroupDecodes(a: Byte, b: Byte, c: Byte, s: string)
    requires Decode(s).Some?
    ensures Decode(Group(a, b, c) + s) == Some([a, b, c] + Decode(s).value)
  {
    hide Letter, Value, First, Second, Third;
    LetterValue(a / 4);
    LetterValue(a % 4 * 16 + b / 16);
    LetterValue(b % 16 * 4 + c / 64);
    LetterValue(c % 64);
    SplitJoin(a, b, c);
    assert (Group(a, b, c) + s)[4..] == s;
  }

  lemma PairDecodes(a: Byte, b: Byte)
    ensures Decode(Encode([a, b])) == Some([a, b])
  {
    hide Letter, Value, First, Second, Third;
    LetterValue(a / 4);
    LetterValue(a % 4 * 16 + b / 16);
    LetterValue(b % 16 * 4);
    PaddingHasNoValue();
    SplitJoin(a, b, 0);
  }

  lemma SingleDecodes(a: Byte)
    ensures Decode(Encode([a])) == Some([a])
  {
    hide Letter, Value, First, Second, Third;
    LetterValue(a / 4);
    LetterValue(a % 4 * 16);
    PaddingHasNoValue();
    SplitJoin(a, 0, 0);
  }

  lemma NothingDecodes()
    ensures Decode(Encode([])) == Some([])
  {
  }

  /** The decoder inverts the encoder on every input. */
  lemma {:induction false} RoundTrip(data: seq<Byte>)
    ensures Decode(Encode(data)) == Some(data)
    decreases |data|
  {
    hide Decode, Letter;
    if data == [] {
      NothingDecodes();
    } else if |data| == 1 {
      SingleDecodes(data[0]);
      assert data == [data[0]];
    } else if |data| == 2 {
      PairDecodes(data[0], data[1]);
      assert data == [data[0], data[1]];
    } else {
      RoundTrip(data[3..]);
      GroupDecodes(data[0], data[1], data[2], Encode(data[3..]));
      assert data == [data[0], data[1], data[2]] + data[3..];
    }
  }

  lemma ValueLetter(c: char)
    requires Value(c).Some?
    ensures Letter(Value(c).value) == c
  {
    hide Letter;
    Table(Value(c).value);
  }

  lemma JoinSplit(a: Sextet, b: Sextet, c: Sextet, d: Sextet)
    ensures First(a, b) / 4 == a
    ensures First(a, b) % 4 * 16 + Second(b, c) / 16 == b
    ensures Second(b, c) % 16 * 4 + Third(c, d) / 64 == c
    ensures Third(c, d) % 64 == d
    ensures b % 16 == 0 ==> First(a, b) % 4 * 16 == b
    ensures c % 4 == 0 ==> Second(b, c) % 16 * 4 == c
  {
  }

  /** A last quad, padded or not, is the encoding of what it decodes to. */
  lemma LastQuad(s: string)
    requires |s| == 4 && Decode(s).Some? && Value(s[3]).None?
    ensures Encode(Decode(s).value) == s
  {
    hide Letter, Value, First, Second, Third;
    var a, b, c := Value(s[0]), Value(s[1]), Value(s[2]);
    ValueLetter(s[0]);
    ValueLetter(s[1]);
    JoinSplit(a.value, b.value, if c.Some? then c.value else 0, 0);
    if c.Some? {
      ValueLetter(s[2]);
    }
  }

  lemma WholeQuad(s: string)
    requires |s| >= 4 && Decode(s).Some? && Value(s[3]).Some?
    ensures Decode(s[4..]).Some? && Decode(s).value[3..] == Decode(s[4..]).value && |Decode(s).value| >= 3
    ensures var d := Decode(s).value; Group(d[0], d[1], d[2]) == s[..4]
  {
    hide Letter, Value, First, Second, Third;
    ValueLetter(s[0]);
    ValueLetter(s[1]);
    ValueLetter(s[2]);
    ValueLetter(s[3]);
    JoinSplit(Value(s[0]).value, Value(s[1]).value, Value(s[2]).value, Value(s[3]).value);
  }

  /** The strict decoder accepts nothing but encodings. */
  lemma {:induction false} DecodesOnlyEncodings(s: string)
    requires Decode(s).Some?
    ensures Encode(Decode(s).value) == s
    decreases |s|
  {
    hide Value, Letter;
    if s == [] {
    } else if Value(s[3]).Some? {
      hide Decode, Group;
      WholeQuad(s);
      DecodesOnlyEncodings(s[4..]);
      assert s == s[..4] + s[4..];
    } else {
      LastQuadOnly(s);
      LastQuad(s);
    }
  }

  lemma LastQuadOnly(s: string)
    requires |s| >= 4 && Decode(s).Some? && Value(s[3]).None?
    ensures |s| == 4
  {
    hide Value;
  }

  lemma {:induction false} EncodeConcat(a: seq<Byte>, b: seq<Byte>)
    requires |a| % 3 == 0
    ensures Encode(a + b) == Encode(a) + Encode(b)
    decreases |a|
  {
    hide Letter;
    if a == [] {
      assert a + b == b;
    } else {
      assert (a + b)[3..] == a[3..] + b;
      EncodeConcat(a[3..], b);
    }
  }

  // ---------- The accumulator loop ----------

  /** Two's complement wrap of a 32-bit signed integer. */
  function Wrap32(x: int): (w: int)
    ensures -0x8000_0000 <= w < 0x8000_0000
    ensures (w - x) % 0x1_0000_0000 == 0
  {
    (x + 0x8000_0000) % 0x1_0000_0000 - 0x8000_0000
  }

  /** `v >> n` on a signed integer. */
  function Sar(v: int, n: nat): int {
    v / Pow2(n)
  }

  /** `v & 0x3F` on a two's complement integer. */
  function Low6(v: int): Sextet {
    v % 64
  }

  /** The letters already written for the bytes of an unfinished group. */
  function Partial(tail: seq<Byte>): string
    requires |tail| < 3
  {
    if tail == [] then []
    else if |tail| == 1 then [Letter(tail[0] / 4)]
    else [Letter(tail[0] / 4), Letter(tail[0] % 4 * 16 + tail[1] / 16)]
  }

  lemma Pow2Small()
    ensures Pow2(0) == 1 && Pow2(2) == 4 && Pow2(4) == 16 && Pow2(6) == 64
  {
    assert Pow2(3) == 8 && Pow2(5) == 32;
  }

  lemma DivMod(x: int, q: int, r: int, m: int)
    requires 0 <= r < m && x == q * m + r
    ensures x / m == q && x % m == r
  {
    var d := x / m - q;
    MulBounds(d, m);
    assert x == x / m * m + x % m;
    assert d * m == r - x % m;
  }

  lemma MulBounds(d: int, m: int)
    requires m > 0
    ensures d >= 1 ==> d * m >= m
    ensures d <= -1 ==> d * m <= -m
  {
  }

  /** Wrapping the accumulator keeps its low 16 bits: the last two bytes. */
  lemma AccumulatorLow(val: int, c: Byte, next: int)
    requires next == Wrap32(val * 256) + c
    ensures next % 256 == c
    ensures next % 65536 == val % 256 * 256 + c
  {
    hide Wrap32;
    var q := (Wrap32(val * 256) - val * 256) / 0x1_0000_0000;
    var h, l := val / 256, val % 256;
    assert next == val * 256 + c + q * 0x1_0000_0000;
    assert val == h * 256 + l;
    DivMod(next, val + q * 0x100_0000, c, 256);
    DivMod(next, h + q * 0x1_0000, l * 256 + c, 65536);
  }

  /** What the four possible reads of the accumulator yield. */
  lemma AccumulatorReads(val: int)
    ensures Low6(Sar(val, 0)) == val % 256 % 64
    ensures Low6(Sar(val, 2)) == val % 256 / 4
    ensures Low6(Sar(val, 4)) == val % 65536 / 256 % 4 * 16 + val % 256 / 16
    ensures Low6(Sar(val, 6)) == val % 65536 / 256 % 16 * 4 + val % 256 / 64
  {
    hide Pow2;
    Pow2Small();
    var h, l := val / 65536, val % 65536;
    var b, c := l / 256, l % 256;
    assert val == h * 65536 + b * 256 + c;
    DivMod(val, h * 256 + b, c, 256);
    DivMod(val, h * 1024 + b * 4 + c / 64, c % 64, 64);
    DivMod(val / 64, h * 16 + b / 16, b % 16 * 4 + c / 64, 64);
    DivMod(val, h * 4096 + b * 16 + c / 16, c % 16, 16);
    DivMod(val / 16, h * 64 + b / 4, b % 4 * 16 + c / 16, 64);
    DivMod(val, h * 16384 + b * 64 + c / 4, c % 4, 4);
    DivMod(val / 4, h * 256 + b, c / 4, 64);
    DivMod(val, h * 1024 + b * 4 + c / 64, c % 64, 64);
    assert Sar(val, 0) == val;
  }

  /** What the reads after the last byte yield: the low bits of that byte, shifted up. */
  lemma AccumulatorFlush(val: int)
    ensures Low6(Sar(Wrap32(val * 256), 4)) == val % 256 % 4 * 16
    ensures Low6(Sar(Wrap32(val * 256), 6)) == val % 256 % 16 * 4
  {
    hide Wrap32, Low6, Sar;
    AccumulatorLow(val, 0, Wrap32(val * 256));
    AccumulatorReads(Wrap32(val * 256));
  }

  /** The letters the inner loop writes, by how much of the group it completes. */
  function Written(val: int, top: int): string {
    if top == 2 then [Letter(Low6(Sar(val, 2)))]
    else if top == 4 then [Letter(Low6(Sar(val, 4)))]
    else [Letter(Low6(Sar(val, 6))), Letter(Low6(Sar(val, 0)))]
  }

  lemma WrittenIs(val: int, top: int)
    ensures top == 2 || top == 4 ==> Written(val, top) == [Letter(Low6(Sar(val, top)))]
    ensures top == 6 ==> Written(val, top) == [Letter(Low6(Sar(val, 6))), Letter(Low6(Sar(val, 0)))]
  {
    hide Letter, Low6, Sar;
  }

  method EncodeBase64(data: seq<Byte>) returns (out: string)
    ensures out == Encode(data)
    ensures |out| == (|data| + 2) / 3 * 4 && Decode(out) == Some(data)
  {
    hide *;
    out := [];
    var val := 0;
    var valb := -6;
    ghost var g := 0;
    Nothing();
    for i := 0 to |data|
      invariant 0 <= g <= i < g + 3 && g % 3 == 0
      invariant valb == 2 * (i - g) - 6
      invariant i > 0 ==> val % 256 == data[i - 1]
      invariant out == Encode(data[..g]) + Partial(data[g..i])
    {
      ghost var before, prev := out, val;
      val := Wrap32(val * 256) + data[i];
      AccumulatorLow(prev, data[i], val);
      valb := valb + 8;
      ghost var top := valb;
      while valb >= 0
        invariant valb == top || valb == top - 6 || (top == 6 && valb == top - 12)
        invariant valb == top ==> out == before
        invariant valb == top - 6 ==> out == before + [Letter(Low6(Sar(val, top)))]
        invariant valb == top - 12 ==> out == before + [Letter(Low6(Sar(val, 6))), Letter(Low6(Sar(val, 0)))]
      {
        out := out + [Letter(Low6(Sar(val, valb)))];
        valb := valb - 6;
      }
      WrittenIs(val, top);
      Extend(data, g, i, val, out);
      if i + 1 == g + 3 {
        g := g + 3;
      }
    }
    EncodeTail(data, g);
    Tail(data[g..], val);
    assert data[g..|data|] == data[g..];
    ghost var pads := if valb == -6 then "" else if valb == -4 then "==" else "=";
    if valb > -6 {
      out := out + [Letter(Low6(Sar(Wrap32(val * 256), valb + 8)))];
    }
    assert Encode(data) == out + pads;
    WholeQuads(data);
    EncodedLength(data);
    RoundTrip(data);
    while |out| % 4 != 0
      invariant Encode(data) == out + pads && (pads == "" || pads == "=" || pads == "==")
      decreases |pads|
    {
      out := out + ['='];
      pads := pads[1..];
    }
  }

  lemma Nothing()
    ensures Encode([]) == [] && Partial([]) == []
  {
  }

  /** One byte more: the group grows, or closes. */
  lemma Extend(data: seq<Byte>, g: nat, i: nat, val: int, out: string)
    requires g <= i < g + 3 && i < |data| && g % 3 == 0
    requires val % 256 == data[i] && (i > g ==> val % 65536 == (data[i - 1] as int) * 256 + data[i] as int)
    requires out == Encode(data[..g]) + Partial(data[g..i]) + Written(val, 2 * (i - g) + 2)
    ensures i < g + 2 ==> out == Encode(data[..g]) + Partial(data[g..i + 1])
    ensures i == g + 2 ==> out == Encode(data[..g + 3]) + Partial(data[g + 3..i + 1])
  {
    hide Letter, Low6, Sar, Encode;
    AccumulatorReads(val);
    if i == g {
      assert data[g..i] == [] && data[g..i + 1] == [data[i]];
    } else if i == g + 1 {
      Middle(val, data[g], data[i]);
      assert data[g..i] == [data[g]] && data[g..i + 1] == [data[g], data[i]];
    } else {
      Last(val, data[i - 1], data[i]);
      var three := data[g..g + 3];
      assert data[g..i] == [data[g], data[g + 1]] && data[g + 3..i + 1] == [];
      assert data[..g + 3] == data[..g] + three;
      EncodeConcat(data[..g], three);
      OneGroup(three);
    }
  }

  lemma Middle(val: int, a: Byte, b: Byte)
    requires val % 256 == b && val % 65536 == (a as int) * 256 + b as int
    ensures Low6(Sar(val, 4)) == a % 4 * 16 + b / 16
  {
    hide Low6, Sar;
    AccumulatorReads(val);
    DivMod(val % 65536, a, b, 256);
  }

  lemma Last(val: int, b: Byte, c: Byte)
    requires val % 256 == c && val % 65536 == (b as int) * 256 + c as int
    ensures Low6(Sar(val, 6)) == b % 16 * 4 + c / 64
    ensures Low6(Sar(val, 0)) == c % 64
  {
    hide Low6, Sar;
    AccumulatorReads(val);
    DivMod(val % 65536, b, c, 256);
  }

  lemma OneGroup(three: seq<Byte>)
    requires |three| == 3
    ensures Encode(three) == Group(three[0], three[1], three[2])
  {
    hide Letter;
    assert three[3..] == [];
  }

  /** The encoding is that of the closed groups followed by that of the unfinished one. */
  lemma EncodeTail(data: seq<Byte>, g: nat)
    requires g <= |data| && g % 3 == 0
    ensures Encode(data) == Encode(data[..g]) + Encode(data[g..])
  {
    hide Encode;
    assert data == data[..g] + data[g..];
    EncodeConcat(data[..g], data[g..]);
  }

  lemma {:induction false} WholeQuads(data: seq<Byte>)
    ensures |Encode(data)| % 4 == 0
    decreases |data|
  {
    hide Letter;
    if |data| >= 3 {
      WholeQuads(data[3..]);
    }
  }

  lemma Tail(tail: seq<Byte>, val: int)
    requires |tail| < 3 && (tail != [] ==> val % 256 == tail[|tail| - 1])
    ensures tail == [] ==> Encode(tail) == Partial(tail)
    ensures |tail| == 1 ==> Encode(tail) == Partial(tail) + [Letter(Low6(Sar(Wrap32(val * 256), 4))), '=', '=']
    ensures |tail| == 2 ==> Encode(tail) == Partial(tail) + [Letter(Low6(Sar(Wrap32(val * 256), 6))), '=']
  {
    hide Letter, Low6, Sar, Wrap32, Encode, Partial;
    AccumulatorFlush(val);
    if tail == [] {
      Nothing();
    } else if |tail| == 1 {
      assert tail == [tail[0]];
      TailOne(tail[0]);
    } else {
      assert tail == [tail[0], tail[1]];
      TailTwo(tail[0], tail[1]);
    }
  }

  lemma TailOne(a: Byte)
    ensures Encode([a]) == Partial([a]) + [Letter(a % 4 * 16), '=', '=']
  {
    hide Letter;
  }

  lemma TailTwo(a: Byte, b: Byte)
    ensures Encode([a, b]) == Partial([a, b]) + [Letter(b % 16 * 4), '=']
  {
    hide Letter;
  }
  /** The test vector of section 10 of RFC 4648 for the four bytes of "foob". */
  lemma TestVector()
    ensures Encode([0x66, 0x6F, 0x6F, 0x62]) == "Zm9vYg=="
  {
    hide Letter;
    var data: seq<Byte> := [0x66, 0x6F, 0x6F, 0x62];
    assert data[3..] == [0x62];
    assert Letter(25) == 'Z' && Letter(38) == 'm' && Letter(61) == '9' && Letter(47) == 'v' by { FirstLetters(); }
    assert Letter(24) == 'Y' && Letter(32) == 'g' by { FirstLetters(); }
    assert Encode(data) == Group(0x66, 0x6F, 0x6F) + Encode([0x62]);
  }

  lemma FirstLetters()
    ensures Letter(25) == 'Z' && Letter(38) == 'm' && Letter(61) == '9' && Letter(47) == 'v'
    ensures Letter(24) == 'Y' && Letter(32) == 'g'
  {
  }
}
