/** Chunked transfer coding (section 4.1 of RFC 7230) in thirdpart/include/http/httplib.h:
    from_i_to_hex, the coding and its reading as functions on byte strings. ChunkedIo.dfy holds
    the loops that run over a stream. */
module ChunkedCodec {
  import opened Basics
  import UrlCodec

  const CR: Byte := 0x0D
  const LF: Byte := 0x0A
  const CRLF: seq<Byte> := [CR, LF]
  const ULONG_MAX: nat := 0xFFFF_FFFF_FFFF_FFFF
  const DONE_MARKER: seq<Byte> := [0x30, CR, LF, CR, LF]

  // ---------- from_i_to_hex and strtoul ----------

  function LowerHex(d: int): Byte
    requires 0 <= d < 16
  {
    if d < 10 then 0x30 + d else 0x61 + d - 10
  }

  function HexOf(n: nat): (s: seq<Byte>)
    ensures s != []
  {
    if n < 16 then [LowerHex(n)] else HexOf(n / 16) + [LowerHex(n % 16)]
  }

  method FromIToHex(size: nat) returns (ret: seq<Byte>)
    ensures ret == HexOf(size)
    ensures StrToUl(ret) == (if size <= ULONG_MAX then size else ULONG_MAX, |ret|)
  {
    ret := [LowerHex(size % 16)];
    var n := size / 16;
    while n > 0
      invariant (if n > 0 then HexOf(n) else []) + ret == HexOf(size)
    {
      ret := [LowerHex(n % 16)] + ret;
      n := n / 16;
    }
    assert ret + [] == ret;
    HexLineParses(size, []);
  }

  predicate IsSpace(b: Byte) {
    b == 0x20 || 0x09 <= b <= 0x0D
  }

  function SkipSpaces(s: seq<Byte>, i: nat): nat
    decreases |s| - i
  {
    if i < |s| && IsSpace(s[i]) then SkipSpaces(s, i + 1) else i
  }

  function DigitsEnd(s: seq<Byte>, i: nat): (e: nat)
    ensures i <= e && (i <= |s| ==> e <= |s|)
    decreases |s| - i
  {
    if i < |s| && UrlCodec.HexValue(s[i]).Some? then DigitsEnd(s, i + 1) else i
  }

  /** The number read from `s[i..e]`, after `acc`, up to the first byte that is not a digit. */
  function DigitsValue(s: seq<Byte>, i: nat, e: nat, acc: nat): nat
    requires e <= |s|
    decreases e - i
  {
    if i >= e then acc else
      match UrlCodec.HexValue(s[i])
      case Some(v) => DigitsValue(s, i + 1, e, acc * 16 + v)
      case None => acc
  }

  /** strtoul in base 16 for a 64-bit unsigned long: leading space, sign and 0x prefix allowed,
      overflow saturates, a minus sign negates modulo 2^64. Returns the value and the end index,
      which is 0 when nothing was converted. */
  function StrToUl(s: seq<Byte>): (r: (nat, nat))
    ensures r.0 <= ULONG_MAX && r.1 <= |s|
  {
    var i := SkipSpaces(s, 0);
    var signed := i < |s| && (s[i] == 0x2B || s[i] == 0x2D);
    var j := if signed then i + 1 else i;
    var prefixed := j + 2 < |s| && s[j] == 0x30 && (s[j + 1] == 0x78 || s[j + 1] == 0x58)
      && UrlCodec.HexValue(s[j + 2]).Some?;
    var k := if prefixed then j + 2 else j;
    var e := DigitsEnd(s, k);
    if e == k || e > |s| then (0, 0) else
      var v := DigitsValue(s, k, e, 0);
      if v > ULONG_MAX then (ULONG_MAX, e)
      else if signed && s[i] == 0x2D then ((ULONG_MAX + 1 - v) % (ULONG_MAX + 1), e)
      else (v, e)
  }

  lemma {:induction false} HexIsDigits(n: nat)
    ensures forall k :: 0 <= k < |HexOf(n)| ==> UrlCodec.HexValue(HexOf(n)[k]).Some? && HexOf(n)[k] != 0x78 && HexOf(n)[k] != 0x58
  {
    if n >= 16 {
      HexIsDigits(n / 16);
    }
  }

  /** The printed form: lower-case digits, and no leading zero but for zero itself. */
  lemma {:induction false} HexIsCanonical(n: nat)
    ensures forall k :: 0 <= k < |HexOf(n)| ==> HexOf(n)[k] as char in "0123456789abcdef"
    ensures HexOf(n)[0] as char == '0' <==> n == 0
  {
    LowerHexIsDigit(n % 16);
    if n >= 16 {
      HexIsCanonical(n / 16);
    }
  }

  lemma LowerHexIsDigit(d: int)
    requires 0 <= d < 16
    ensures LowerHex(d) as char == "0123456789abcdef"[d]
  {
  }

  lemma {:induction false} DigitsEndRun(s: seq<Byte>, i: nat, e: nat)
    requires i <= e <= |s|
    requires forall k :: i <= k < e ==> UrlCodec.HexValue(s[k]).Some?
    requires e < |s| ==> UrlCodec.HexValue(s[e]).None?
    ensures DigitsEnd(s, i) == e
    decreases e - i
  {
    if i < e {
      DigitsEndRun(s, i + 1, e);
    }
  }

  /** Reading one more digit at the end multiplies by 16 and adds it. */
  lemma {:induction false} DigitsValueLast(s: seq<Byte>, i: nat, e: nat, acc: nat)
    requires i <= e < |s|
    requires forall k :: i <= k <= e ==> UrlCodec.HexValue(s[k]).Some?
    ensures DigitsValue(s, i, e + 1, acc) == DigitsValue(s, i, e, acc) * 16 + UrlCodec.HexValue(s[e]).value
    decreases e - i
  {
    if i < e {
      DigitsValueLast(s, i + 1, e, acc * 16 + UrlCodec.HexValue(s[i]).value);
    } else {
      assert DigitsValue(s, e + 1, e + 1, acc * 16 + UrlCodec.HexValue(s[e]).value) == acc * 16 + UrlCodec.HexValue(s[e]).value;
    }
  }

  lemma {:induction false} DigitsValuePrefix(s: seq<Byte>, t: seq<Byte>, i: nat, e: nat, acc: nat)
    requires i <= e <= |s| && e <= |t| && s[..e] == t[..e]
    ensures DigitsValue(s, i, e, acc) == DigitsValue(t, i, e, acc)
    decreases e - i
  {
    if i < e {
      assert s[..e][i] == t[..e][i];
      match UrlCodec.HexValue(s[i]) {
        case Some(v) => DigitsValuePrefix(s, t, i + 1, e, acc * 16 + v);
        case None =>
      }
    }
  }

  /** Base-16 parsing inverts the printing loop, for every number. */
  lemma {:induction false} HexValueInverts(n: nat, after: seq<Byte>)
    ensures DigitsValue(HexOf(n) + after, 0, |HexOf(n)|, 0) == n
  {
    var h := HexOf(n);
    HexIsDigits(n);
    DigitsValuePrefix(h + after, h, 0, |h|, 0);
    if n < 16 {
      assert DigitsValue(h, 1, 1, n) == n;
    } else {
      HexValueInverts(n / 16, [LowerHex(n % 16)]);
      DigitsValueLast(h, 0, |h| - 1, 0);
    }
  }

  /** The number a list of digits stands for. */
  function Value16(digits: seq<Byte>): nat
    requires forall k :: 0 <= k < |digits| ==> UrlCodec.HexValue(digits[k]).Some?
  {
    if digits == [] then 0 else
      var n := |digits| - 1;
      Value16(digits[..n]) * 16 + UrlCodec.HexValue(digits[n]).value
  }

  lemma {:induction false} DigitsValueIs(s: seq<Byte>, i: nat, e: nat)
    requires i <= e <= |s| && forall k :: i <= k < e ==> UrlCodec.HexValue(s[k]).Some?
    ensures DigitsValue(s, i, e, 0) == Value16(s[i..e])
    decreases e - i
  {
    if i < e {
      DigitsValueIs(s, i, e - 1);
      DigitsValueLast(s, i, e - 1, 0);
      assert s[i..e][..e - i - 1] == s[i..e - 1] && s[i..e][e - i - 1] == s[e - 1];
    }
  }

  lemma {:induction false} SpacesSkipped(s: seq<Byte>, i: nat, n: nat)
    requires i <= n <= |s| && (forall k :: i <= k < n ==> IsSpace(s[k])) && (n < |s| ==> !IsSpace(s[n]))
    ensures SkipSpaces(s, i) == n
    decreases n - i
  {
    if i < n {
      SpacesSkipped(s, i + 1, n);
    }
  }

  /** A numeral as the C standard lays it out for strtoul in base 16: white space, a sign, a prefix and
      digits, each of the first three possibly empty. */
  datatype Numeral = Numeral(space: seq<Byte>, sign: seq<Byte>, prefix: seq<Byte>, digits: seq<Byte>)

  function NumeralText(m: Numeral): seq<Byte> {
    m.space + m.sign + m.prefix + m.digits
  }

  predicate WellFormed(m: Numeral) {
    && (forall k :: 0 <= k < |m.space| ==> m.space[k] as char in {' ', '\t', '\n', '\U{00000B}', '\U{00000C}', '\r'})
    && (m.sign == [] || m.sign == [0x2B] || m.sign == [0x2D])
    && (m.prefix == [] || m.prefix == [0x30, 0x78] || m.prefix == [0x30, 0x58])
    && (forall k :: 0 <= k < |m.digits| ==> UrlCodec.HexValue(m.digits[k]).Some?)
  }

  predicate StartsWithDigit(s: seq<Byte>) {
    s != [] && UrlCodec.HexValue(s[0]).Some?
  }

  /** What follows does not belong to the numeral: no digit, and no `x` and digit behind a lone zero. */
  predicate EndsBefore(m: Numeral, after: seq<Byte>) {
    && !StartsWithDigit(after)
    && (m.prefix == [] && m.digits == [0x30] && after != [] ==> !((after[0] == 0x78 || after[0] == 0x58) && StartsWithDigit(after[1..])))
  }

  predicate IsSign(b: Byte) {
    b == 0x2B || b == 0x2D
  }

  /** strtoul finds its way: `i` ends the white space, `j` the sign, `k` the prefix, `e` the digits. */
  predicate Layout(s: seq<Byte>, i: nat, j: nat, k: nat, e: nat) {
    && i <= j <= k < e <= |s| && SkipSpaces(s, 0) == i
    && j == (if IsSign(s[i]) then i + 1 else i)
    && (k == if j + 2 < |s| && s[j] == 0x30 && (s[j + 1] == 0x78 || s[j + 1] == 0x58) && StartsWithDigit(s[j + 2..]) then j + 2 else j)
    && DigitsEnd(s, k) == e
  }

  lemma StrToUlAt(s: seq<Byte>, i: nat, j: nat, k: nat, e: nat)
    requires Layout(s, i, j, k, e)
    ensures var v := DigitsValue(s, k, e, 0);
            StrToUl(s) == (if v > ULONG_MAX then ULONG_MAX else if s[i] == 0x2D && v > 0 then 0x1_0000_0000_0000_0000 - v else v, e)
  {
    hide UrlCodec.HexValue, SkipSpaces, DigitsEnd, DigitsValue;
  }

  /** `s` is the numeral followed by `after`. */
  predicate Parts(s: seq<Byte>, m: Numeral, after: seq<Byte>, i: nat, j: nat, k: nat, e: nat) {
    && i <= j <= k <= e <= |s|
    && s[..i] == m.space && s[i..j] == m.sign && s[j..k] == m.prefix && s[k..e] == m.digits && s[e..] == after
  }

  lemma TextParts(m: Numeral, after: seq<Byte>)
    ensures var i, j := |m.space|, |m.space| + |m.sign|; var k := j + |m.prefix|;
            Parts(NumeralText(m) + after, m, after, i, j, k, k + |m.digits|)
  {
  }

  lemma SpacesEnd(s: seq<Byte>, m: Numeral, after: seq<Byte>, i: nat, j: nat, k: nat, e: nat)
    requires WellFormed(m) && Parts(s, m, after, i, j, k, e) && k < e
    ensures SkipSpaces(s, 0) == i && (i < j <==> IsSign(s[i])) && (s[i] == 0x2D <==> m.sign == [0x2D]) && j <= i + 1
  {
    assert forall p :: 0 <= p < i ==> s[p] == m.space[p];
    assert i < j ==> s[i] == m.sign[0];
    assert j < k ==> s[j] == m.prefix[0];
    assert s[k] == m.digits[0];
    SpacesSkipped(s, 0, i);
  }

  lemma DigitsEndHere(s: seq<Byte>, m: Numeral, after: seq<Byte>, i: nat, j: nat, k: nat, e: nat)
    requires WellFormed(m) && Parts(s, m, after, i, j, k, e) && !StartsWithDigit(after)
    ensures DigitsEnd(s, k) == e
  {
    assert forall p :: 0 <= p < |m.digits| ==> s[k + p] == m.digits[p];
    assert e < |s| ==> s[e] == after[0];
    DigitsEndRun(s, k, e);
  }

  lemma PrefixHere(s: seq<Byte>, m: Numeral, after: seq<Byte>, i: nat, j: nat, k: nat, e: nat)
    requires WellFormed(m) && Parts(s, m, after, i, j, k, e) && k < e && EndsBefore(m, after)
    ensures k == if j + 2 < |s| && s[j] == 0x30 && (s[j + 1] == 0x78 || s[j + 1] == 0x58) && StartsWithDigit(s[j + 2..]) then j + 2 else j
  {
    assert s[k] == m.digits[0] && s[k..][0] == s[k];
    if j < k {
      assert s[j] == m.prefix[0] && s[j + 1] == m.prefix[1];
    } else if k + 1 < e {
      assert s[k + 1] == m.digits[1];
    } else if e < |s| {
      assert m.digits == [s[k]] && s[e] == after[0] && s[e + 1..] == after[1..];
    }
  }

  lemma NumeralLayout(m: Numeral, after: seq<Byte>)
    requires WellFormed(m) && m.digits != [] && EndsBefore(m, after)
    ensures var s := NumeralText(m) + after;
            var i, j := |m.space|, |m.space| + |m.sign|; var k := j + |m.prefix|; var e := k + |m.digits|;
            && Layout(s, i, j, k, e) && s[k..e] == m.digits
            && (s[i] == 0x2D <==> m.sign == [0x2D])
  {
    hide WellFormed, NumeralText, IsSign, StartsWithDigit, SkipSpaces, DigitsEnd;
    var s := NumeralText(m) + after;
    var i, j := |m.space|, |m.space| + |m.sign|;
    var k := j + |m.prefix|;
    var e := k + |m.digits|;
    TextParts(m, after);
    SpacesEnd(s, m, after, i, j, k, e);
    DigitsEndHere(s, m, after, i, j, k, e);
    PrefixHere(s, m, after, i, j, k, e);
  }

  /** strtoul reads exactly the numeral: its value, saturated at ULONG_MAX and negated modulo 2^64
      after a minus sign, and its end. */
  lemma StrToUlReads(m: Numeral, after: seq<Byte>)
    requires WellFormed(m) && m.digits != [] && EndsBefore(m, after)
    ensures var v := Value16(m.digits);
            StrToUl(NumeralText(m) + after) ==
              (if v > ULONG_MAX then ULONG_MAX else if m.sign == [0x2D] && v > 0 then 0x1_0000_0000_0000_0000 - v else v,
               |NumeralText(m)|)
  {
    hide StrToUl, Layout, EndsBefore, DigitsValue;
    var s := NumeralText(m) + after;
    var i, j := |m.space|, |m.space| + |m.sign|;
    var k := j + |m.prefix|;
    var e := k + |m.digits|;
    NumeralLayout(m, after);
    StrToUlAt(s, i, j, k, e);
    assert forall p :: 0 <= p < |m.digits| ==> s[k..e][p] == s[k + p];
    DigitsValueIs(s, k, e);
  }

  lemma HexNumeral(n: nat, after: seq<Byte>)
    requires after == [] || (UrlCodec.HexValue(after[0]).None? && after[0] != 0x78 && after[0] != 0x58)
    ensures var m := Numeral([], [], [], HexOf(n));
            WellFormed(m) && EndsBefore(m, after) && NumeralText(m) == HexOf(n) && Value16(HexOf(n)) == n
  {
    hide HexOf;
    var h := HexOf(n);
    HexIsDigits(n);
    HexValueInverts(n, []);
    assert h + [] == h && h[0..|h|] == h;
    DigitsValueIs(h, 0, |h|);
  }

  /** A printed number followed by anything that is not a digit or an `x` reads back as itself. */
  lemma HexLineParses(n: nat, after: seq<Byte>)
    requires after == [] || (UrlCodec.HexValue(after[0]).None? && after[0] != 0x78 && after[0] != 0x58)
    ensures StrToUl(HexOf(n) + after) == (if n <= ULONG_MAX then n else ULONG_MAX, |HexOf(n)|)
  {
    hide StrToUl, WellFormed, EndsBefore, NumeralText;
    HexNumeral(n, after);
    StrToUlReads(Numeral([], [], [], HexOf(n)), after);
  }

  /** Without a digit behind white space and sign nothing is converted. */
  lemma StrToUlReadsNothing(m: Numeral, after: seq<Byte>)
    requires WellFormed(m) && m.prefix == [] && m.digits == [] && !StartsWithDigit(after)
    requires after != [] ==> !IsSpace(after[0]) && (m.sign == [] ==> after[0] != 0x2B && after[0] != 0x2D)
    ensures StrToUl(NumeralText(m) + after) == (0, 0)
  {
    var s := NumeralText(m) + after;
    var i, j := |m.space|, |m.space| + |m.sign|;
    assert s[..i] == m.space && s[i..j] == m.sign && s[j..] == after;
    SpacesSkipped(s, 0, i);
    DigitsEndRun(s, j, j);
  }

  // ---------- Lines ----------

  /** Where the first line of `s` ends: just after its first LF, or at the end. */
  function LineEnd(s: seq<Byte>): (k: nat)
    ensures k <= |s|
    ensures s != [] ==> k > 0
  {
    if s == [] then 0 else if s[0] == LF then 1 else 1 + LineEnd(s[1..])
  }

  /** The bytes of a buffer seen as a C string. */
  function CString(s: seq<Byte>): seq<Byte> {
    if s == [] || s[0] == 0 then [] else [s[0]] + CString(s[1..])
  }

  predicate EndsLine(s: seq<Byte>) {
    s != [] && s[|s| - 1] == LF
  }

  /** Whether getline succeeds: a line was completed, or the stream ended cleanly inside one. */
  predicate LineRead(s: seq<Byte>, failing: bool) {
    EndsLine(s[..LineEnd(s)]) || (s != [] && !failing)
  }

  lemma {:induction false} FirstLine(a: seq<Byte>, b: seq<Byte>)
    requires forall k :: 0 <= k < |a| ==> a[k] != LF
    ensures LineEnd(a + [LF] + b) == |a| + 1
  {
    if a != [] {
      assert (a + [LF] + b)[1..] == a[1..] + [LF] + b;
      FirstLine(a[1..], b);
    }
  }

  lemma {:induction false} NoNulIsCString(s: seq<Byte>)
    requires forall k :: 0 <= k < |s| ==> s[k] != 0
    ensures CString(s) == s
  {
    if s != [] {
      NoNulIsCString(s[1..]);
      assert s == [s[0]] + s[1..];
    }
  }

  lemma {:induction false} CStringEndsAtNul(a: seq<Byte>, b: seq<Byte>)
    requires forall k :: 0 <= k < |a| ==> a[k] != 0
    ensures CString(a + [0] + b) == a
  {
    if a != [] {
      assert (a + [0] + b)[1..] == a[1..] + [0] + b;
      CStringEndsAtNul(a[1..], b);
      assert a == [a[0]] + a[1..];
    }
  }

  // ---------- The coding ----------

  function Chunk(payload: seq<Byte>): seq<Byte> {
    HexOf(|payload|) + CRLF + payload + CRLF
  }

  function Chunks(writes: seq<seq<Byte>>): seq<Byte>
    decreases |writes|
  {
    if writes == [] then [] else Chunk(writes[0]) + Chunks(writes[1..])
  }

  function Coding(writes: seq<seq<Byte>>): seq<Byte> {
    Chunks(writes) + DONE_MARKER
  }

  lemma {:induction false} ChunksAppend(writes: seq<seq<Byte>>, w: seq<Byte>)
    ensures Chunks(writes + [w]) == Chunks(writes) + Chunk(w)
    decreases |writes|
  {
    if writes == [] {
      assert Chunks([w]) == Chunk(w) + Chunks([]);
    } else {
      assert (writes + [w])[1..] == writes[1..] + [w];
      ChunksAppend(writes[1..], w);
    }
  }

  // ---------- The reader ----------

  /** What read_content_chunked returns, has handed to the receiver, and leaves in the stream. */
  datatype Outcome = Outcome(ok: bool, body: seq<Byte>, rest: seq<Byte>)

  /** read_content_chunked on a stream holding `s`; after it, reads give an error if `failing`,
      else end of file. */
  function Read(s: seq<Byte>, failing: bool): Outcome {
    if LineRead(s, failing)
    then ReadFrom(s[..LineEnd(s)], s[LineEnd(s)..], failing)
    else Outcome(false, [], s[LineEnd(s)..])
  }

  /** The loop, entered with a chunk-size line already read. */
  function ReadFrom(line: seq<Byte>, s: seq<Byte>, failing: bool): Outcome
    decreases |s|
  {
    var (len, end) := StrToUl(CString(line));
    if end == 0 || len == ULONG_MAX then
      Outcome(false, [], s)
    else if len == 0 then
      Outcome(LineRead(s, failing) && CString(s[..LineEnd(s)]) == CRLF, [], s[LineEnd(s)..])
    else if |s| < len then
      Outcome(false, s, [])
    else
      var s1 := s[len..];
      if !LineRead(s1, failing) then
        Outcome(false, s[..len], s1[LineEnd(s1)..])
      else if CString(s1[..LineEnd(s1)]) != CRLF then
        // the loop is left with a non-zero chunk length, which counts as success
        Outcome(true, s[..len], s1[LineEnd(s1)..])
      else
        var s2 := s1[LineEnd(s1)..];
        if !LineRead(s2, failing) then
          Outcome(false, s[..len], s2[LineEnd(s2)..])
        else
          var r := ReadFrom(s2[..LineEnd(s2)], s2[LineEnd(s2)..], failing);
          Outcome(r.ok, s[..len] + r.body, r.rest)
  }

  lemma LineThen(a: seq<Byte>, s: seq<Byte>, failing: bool)
    requires forall k :: 0 <= k < |a| ==> a[k] != LF && a[k] != 0
    ensures var t := a + [LF] + s;
            && LineRead(t, failing)
            && t[..LineEnd(t)] == a + [LF] && t[LineEnd(t)..] == s
            && CString(t[..LineEnd(t)]) == a + [LF]
  {
    FirstLine(a, s);
    NoNulIsCString(a + [LF]);
  }

  /** A stream that begins with a chunk-size line: the loop is entered with that line. */
  lemma SizeLine(n: nat, s: seq<Byte>, failing: bool)
    requires n < ULONG_MAX
    ensures var t := HexOf(n) + CRLF + s;
            && LineRead(t, failing)
            && t[LineEnd(t)..] == s
            && StrToUl(CString(t[..LineEnd(t)])) == (n, |HexOf(n)|)
  {
    hide LineRead, StrToUl, LineEnd, CString, HexOf;
    HexIsDigits(n);
    LineThen(HexOf(n) + [CR], s, failing);
    assert HexOf(n) + CRLF + s == (HexOf(n) + [CR]) + [LF] + s;
    assert (HexOf(n) + [CR]) + [LF] == HexOf(n) + CRLF;
    HexLineParses(n, CRLF);
  }

  lemma CrlfLine(s: seq<Byte>, failing: bool)
    ensures var t := CRLF + s;
            LineRead(t, failing) && t[LineEnd(t)..] == s && CString(t[..LineEnd(t)]) == CRLF
  {
    hide LineRead;
    LineThen([CR], s, failing);
    assert CRLF + s == [CR] + [LF] + s;
  }

  /** Reading a well-formed chunk delivers its payload and goes on with what follows. */
  lemma ReadChunk(w: seq<Byte>, s: seq<Byte>, failing: bool)
    requires 0 < |w| < ULONG_MAX
    ensures var r := Read(s, failing);
            Read(Chunk(w) + s, failing) == Outcome(r.ok, w + r.body, r.rest)
  {
    hide LineRead, StrToUl, LineEnd, HexOf, CString;
    var data := w + (CRLF + s);
    assert Chunk(w) + s == HexOf(|w|) + CRLF + data;
    SizeLine(|w|, data, failing);
    assert HexOf(|w|) != [];
    assert data[..|w|] == w && data[|w|..] == CRLF + s;
    CrlfLine(s, failing);
    assert w + [] == w;
  }

  lemma ReadLastChunk(tail: seq<Byte>, failing: bool)
    ensures Read(DONE_MARKER + tail, failing) == Outcome(true, [], tail)
  {
    hide LineRead, StrToUl, LineEnd, CString;
    assert HexOf(0) == [0x30];
    assert DONE_MARKER + tail == HexOf(0) + CRLF + (CRLF + tail);
    SizeLine(0, CRLF + tail, failing);
    CrlfLine(tail, failing);
  }

  /** The reader inverts the writer: it succeeds, delivers exactly the concatenation of the
      writes, and stops exactly at the end of the coding. */
  lemma {:induction false} RoundTrip(writes: seq<seq<Byte>>, tail: seq<Byte>, failing: bool)
    requires forall k :: 0 <= k < |writes| ==> 0 < |writes[k]| < ULONG_MAX
    ensures Read(Coding(writes) + tail, failing) == Outcome(true, Flatten(writes), tail)
    decreases |writes|
  {
    hide Read, Chunk;
    if writes == [] {
      assert Coding(writes) + tail == DONE_MARKER + tail;
      ReadLastChunk(tail, failing);
    } else {
      var after := Coding(writes[1..]) + tail;
      assert Coding(writes) + tail == Chunk(writes[0]) + after;
      RoundTrip(writes[1..], tail, failing);
      ReadChunk(writes[0], after, failing);
    }
  }

  // ---------- Truncated bodies ----------

  lemma NothingRead(failing: bool)
    ensures !LineRead([], failing)
  {
  }

  /** A stream that ends inside its first line, or just after it, is refused. */
  lemma EndsInFirstLine(s: seq<Byte>, failing: bool)
    requires LineEnd(s) == |s|
    ensures !Read(s, failing).ok
  {
    hide StrToUl, LineRead, CString;
    NothingRead(failing);
  }

  lemma {:induction false} NoLf(s: seq<Byte>)
    requires forall k :: 0 <= k < |s| ==> s[k] != LF
    ensures LineEnd(s) == |s|
  {
    if s != [] {
      NoLf(s[1..]);
    }
  }

  /** A lone CR is a line only to a stream that ends cleanly, and is not CRLF. */
  lemma LoneCr(failing: bool)
    ensures LineRead([CR], failing) == !failing
    ensures CString([CR][..LineEnd([CR])]) == [CR] && [CR][LineEnd([CR])..] == []
  {
    assert [CR][..1] == [CR] && [CR][1..] == [];
  }

  /** A stream that ends inside a chunk, or inside the last one (whose data is empty), is accepted
      only if it is data, ends cleanly, and nothing is missing but the last LF. */
  lemma CutChunk(w: seq<Byte>, n: nat, failing: bool)
    requires |w| < ULONG_MAX && n < |Chunk(w)|
    ensures var r := Read(Chunk(w)[..n], failing);
            && (r.ok <==> w != [] && !failing && n == |Chunk(w)| - 1)
            && (r.ok ==> r.body == w && r.rest == [])
  {
    hide StrToUl, LineRead, HexOf, CString, LineEnd;
    var h := HexOf(|w|);
    var s := Chunk(w)[..n];
    if n <= |h| + 1 {
      HexIsDigits(|w|);
      assert forall k :: 0 <= k < n ==> s[k] == (h + [CR])[k];
      NoLf(s);
      EndsInFirstLine(s, failing);
    } else {
      var m := n - |h| - 2;
      var data := (w + CRLF)[..m];
      assert s == h + CRLF + data;
      SizeLine(|w|, data, failing);
      NothingRead(failing);
      LoneCr(failing);
      if m == |w| {
        assert data == w && w[..|w|] == w && w[|w|..] == [];
      } else if m > |w| {
        assert data[..|w|] == w && data[|w|..] == [CR];
      }
    }
  }

  /** `n` bytes of the coding are its first `k` chunks, all but their final LF. */
  predicate BeforeLf(writes: seq<seq<Byte>>, k: nat, n: nat) {
    1 <= k <= |writes| && n + 1 == |Chunks(writes[..k])|
  }

  lemma FirstLf(writes: seq<seq<Byte>>, k: nat, n: nat)
    requires writes != [] && n < |Chunk(writes[0])|
    ensures BeforeLf(writes, k, n) <==> k == 1 && n + 1 == |Chunk(writes[0])|
  {
    hide HexOf;
    if 1 <= k <= |writes| {
      ChunksSplit(writes[..k], 1);
      assert writes[..k][..1] == [writes[0]];
      assert Chunks([writes[0]]) == Chunk(writes[0]) + [];
      if k > 1 {
        assert writes[..k][1..] == [writes[1]] + writes[2..k];
      } else {
        assert writes[..k][1..] == [];
      }
    }
  }

  lemma LaterLf(writes: seq<seq<Byte>>, k: nat, n: nat)
    requires writes != [] && n >= |Chunk(writes[0])|
    ensures BeforeLf(writes, k, n) <==> k > 0 && BeforeLf(writes[1..], k - 1, n - |Chunk(writes[0])|)
    ensures BeforeLf(writes, k, n) ==> 0 < k <= |writes| && Flatten(writes[..k]) == writes[0] + Flatten(writes[1..][..k - 1])
  {
    hide Chunk;
    if 1 <= k <= |writes| {
      assert writes[..k][1..] == writes[1..][..k - 1];
    }
  }

  /** Exactly which cut-off bodies are accepted: those whose stream ends cleanly just before the
      final LF of some chunk. They pass for finished bodies of the writes up to that chunk. */
  lemma {:induction false} TruncationAcceptedIff(writes: seq<seq<Byte>>, n: nat, failing: bool)
    requires forall k :: 0 <= k < |writes| ==> 0 < |writes[k]| < ULONG_MAX
    requires n < |Coding(writes)|
    ensures var r := Read(Coding(writes)[..n], failing);
            && (r.ok <==> !failing && exists k: nat :: BeforeLf(writes, k, n))
            && (forall k: nat :: !failing && BeforeLf(writes, k, n) ==> r == Outcome(true, Flatten(writes[..k]), []))
    decreases |writes|
  {
    hide Read, Chunk, BeforeLf;
    if writes == [] {
      assert forall k: nat :: !BeforeLf(writes, k, n) by { NoWrites(n); }
      EmptyChunk();
      CutChunk([], n, failing);
    } else if n < |Chunk(writes[0])| {
      assert Coding(writes)[..n] == Chunk(writes[0])[..n];
      CutChunk(writes[0], n, failing);
      FirstLf(writes, 1, n);
      forall k: nat ensures BeforeLf(writes, k, n) ==> k == 1 && n + 1 == |Chunk(writes[0])| {
        FirstLf(writes, k, n);
      }
      assert writes[..1] == [writes[0]];
      assert Flatten([writes[0]]) == writes[0] + [];
    } else {
      var n' := n - |Chunk(writes[0])|;
      var rest := Coding(writes[1..])[..n'];
      assert Coding(writes)[..n] == Chunk(writes[0]) + rest;
      ReadChunk(writes[0], rest, failing);
      TruncationAcceptedIff(writes[1..], n', failing);
      forall k: nat | BeforeLf(writes, k, n)
        ensures 0 < k <= |writes| && BeforeLf(writes[1..], k - 1, n')
        ensures Flatten(writes[..k]) == writes[0] + Flatten(writes[1..][..k - 1])
      {
        LaterLf(writes, k, n);
      }
      if j: nat :| BeforeLf(writes[1..], j, n') {
        LaterLf(writes, j + 1, n);
        assert BeforeLf(writes, j + 1, n);
      }
    }
  }

  lemma NoWrites(n: nat)
    ensures forall k: nat :: !BeforeLf([], k, n)
  {
  }

  lemma EmptyChunk()
    ensures Chunk([]) == DONE_MARKER == Coding([])
  {
  }

  lemma {:induction false} ChunksSplit(writes: seq<seq<Byte>>, n: nat)
    requires n <= |writes|
    ensures Chunks(writes) == Chunks(writes[..n]) + Chunks(writes[n..])
    decreases n
  {
    hide Chunk;
    if n == 0 {
      assert writes[n..] == writes;
    } else {
      ChunksSplit(writes[1..], n - 1);
      assert writes[1..][..n - 1] == writes[..n][1..] && writes[1..][n - 1..] == writes[n..];
    }
  }

  /** For one, without its last chunk a body is refused, whatever was delivered meanwhile. */
  lemma TruncatedIsRefused(writes: seq<seq<Byte>>, failing: bool)
    requires forall k :: 0 <= k < |writes| ==> 0 < |writes[k]| < ULONG_MAX
    ensures !Read(Chunks(writes), failing).ok
  {
    hide Read, Chunk;
    var n := |Chunks(writes)|;
    TruncationAcceptedIff(writes, n, failing);
    assert Coding(writes)[..n] == Chunks(writes);
    forall k: nat ensures !BeforeLf(writes, k, n) {
      if BeforeLf(writes, k, n) {
        ChunksSplit(writes, k);
      }
    }
  }

  // ---------- Exactly what the reader accepts ----------

  /** A chunk as it stands in a stream: its size line, in any form strtoul reads, and its data. */
  datatype Piece = Piece(line: seq<Byte>, data: seq<Byte>)

  /** One line, complete with its LF. */
  predicate IsLine(line: seq<Byte>) {
    EndsLine(line) && LineEnd(line) == |line|
  }

  predicate SizeOf(line: seq<Byte>, n: nat) {
    IsLine(line) && n < ULONG_MAX && StrToUl(CString(line)).0 == n && StrToUl(CString(line)).1 != 0
  }

  function Join(pieces: seq<Piece>): seq<Byte>
    decreases |pieces|
  {
    if pieces == [] then [] else pieces[0].line + (pieces[0].data + (CRLF + Join(pieces[1..])))
  }

  function Data(pieces: seq<Piece>): seq<Byte>
    decreases |pieces|
  {
    if pieces == [] then [] else pieces[0].data + Data(pieces[1..])
  }

  ghost predicate Sized(pieces: seq<Piece>) {
    forall k :: 0 <= k < |pieces| ==> pieces[k].data != [] && SizeOf(pieces[k].line, |pieces[k].data|)
  }

  /** A finished body: chunks, a line of size zero, an empty line. */
  ghost predicate Complete(s: seq<Byte>, pieces: seq<Piece>, last: seq<Byte>, rest: seq<Byte>) {
    Sized(pieces) && SizeOf(last, 0) && s == Join(pieces) + (last + (CRLF + rest))
  }

  /** The data of the last piece is followed by something other than CRLF: a line, or the end of
      the stream after at least one byte. */
  ghost predicate Broken(s: seq<Byte>, pieces: seq<Piece>, p: Piece, bad: seq<Byte>, rest: seq<Byte>, failing: bool) {
    && Sized(pieces) && p.data != [] && SizeOf(p.line, |p.data|)
    && bad != CRLF && LineRead(bad + rest, failing) && LineEnd(bad + rest) == |bad|
    && s == Join(pieces) + (p.line + (p.data + (bad + rest)))
  }

  lemma {:induction false} LineEndPrefix(line: seq<Byte>, t: seq<Byte>)
    requires IsLine(line)
    ensures LineEnd(line + t) == |line|
    decreases |line|
  {
    assert (line + t)[1..] == line[1..] + t;
    if line[0] != LF {
      LineEndPrefix(line[1..], t);
    }
  }

  /** The first line of a stream is complete, or is all of it. */
  lemma {:induction false} FirstLineShape(s: seq<Byte>)
    requires s != []
    ensures var line := s[..LineEnd(s)]; IsLine(line) || (LineEnd(s) == |s| && !EndsLine(line))
    decreases |s|
  {
    if s[0] != LF && |s| > 1 {
      FirstLineShape(s[1..]);
      var line, tail := s[..LineEnd(s)], s[1..][..LineEnd(s[1..])];
      assert line == [s[0]] + tail && line[1..] == tail;
    } else {
      assert s[..1] == [s[0]] && [s[0]][1..] == [];
    }
  }

  lemma SizeLineReads(line: seq<Byte>, n: nat, t: seq<Byte>, failing: bool)
    requires SizeOf(line, n)
    ensures Read(line + t, failing) == ReadFrom(line, t, failing)
  {
    hide ReadFrom, StrToUl;
    LineEndPrefix(line, t);
    assert (line + t)[..|line|] == line && (line + t)[|line|..] == t;
  }

  /** One well-formed chunk is passed over. */
  lemma PieceReads(p: Piece, t: seq<Byte>, failing: bool)
    requires p.data != [] && SizeOf(p.line, |p.data|)
    ensures var s := p.line + (p.data + (CRLF + t)); var r := Read(t, failing);
            Read(s, failing) == Outcome(r.ok, p.data + r.body, r.rest)
  {
    hide StrToUl, LineRead, LineEnd, CString, IsLine;
    var after := p.data + (CRLF + t);
    SizeLineReads(p.line, |p.data|, after, failing);
    CrlfLine(t, failing);
    assert after[..|p.data|] == p.data && after[|p.data|..] == CRLF + t;
    assert p.data + [] == p.data;
  }

  lemma {:induction false} PiecesRead(pieces: seq<Piece>, t: seq<Byte>, failing: bool)
    requires Sized(pieces)
    ensures var r := Read(t, failing);
            Read(Join(pieces) + t, failing) == Outcome(r.ok, Data(pieces) + r.body, r.rest)
    decreases |pieces|
  {
    hide Read, SizeOf;
    if pieces == [] {
      assert Join(pieces) + t == t;
      assert [] + Read(t, failing).body == Read(t, failing).body;
    } else {
      var p, more := pieces[0], Join(pieces[1..]) + t;
      PiecesRead(pieces[1..], t, failing);
      PieceReads(p, more, failing);
      assert Join(pieces) + t == p.line + (p.data + (CRLF + more));
      assert p.data + (Data(pieces[1..]) + Read(t, failing).body) == p.data + Data(pieces[1..]) + Read(t, failing).body;
    }
  }

  lemma CompleteIsAccepted(s: seq<Byte>, pieces: seq<Piece>, last: seq<Byte>, rest: seq<Byte>, failing: bool)
    requires Complete(s, pieces, last, rest)
    ensures Read(s, failing) == Outcome(true, Data(pieces), rest)
  {
    hide StrToUl, LineRead, LineEnd, CString, IsLine;
    PiecesRead(pieces, last + (CRLF + rest), failing);
    SizeLineReads(last, 0, CRLF + rest, failing);
    CrlfLine(rest, failing);
    assert Data(pieces) + [] == Data(pieces);
  }

  lemma BrokenIsAccepted(s: seq<Byte>, pieces: seq<Piece>, p: Piece, bad: seq<Byte>, rest: seq<Byte>, failing: bool)
    requires Broken(s, pieces, p, bad, rest, failing)
    ensures Read(s, failing) == Outcome(true, Data(pieces) + p.data, rest)
  {
    hide StrToUl, LineRead, LineEnd, CString, IsLine, Join;
    var t := p.line + (p.data + (bad + rest));
    var after := p.data + (bad + rest);
    PiecesRead(pieces, t, failing);
    SizeLineReads(p.line, |p.data|, after, failing);
    assert after[..|p.data|] == p.data && after[|p.data|..] == bad + rest;
    assert (bad + rest)[..|bad|] == bad && (bad + rest)[|bad|..] == rest;
    CrlfOnly(bad + rest);
  }

  /** A first line reads as the C string CRLF only if it is CRLF. */
  lemma CrlfOnly(s: seq<Byte>)
    ensures CString(s[..LineEnd(s)]) == CRLF <==> s[..LineEnd(s)] == CRLF
  {
    var line := s[..LineEnd(s)];
    if CString(line) == CRLF {
      CStringPrefix(line);
      assert line[..2] == CRLF && line[0] == CR && line[1] == LF;
      assert s[0] == CR && s[1] == LF && s[1..][0] == LF;
      assert LineEnd(s) == 2;
    } else if line == CRLF {
      NoNulIsCString(line);
    }
  }

  lemma {:induction false} CStringPrefix(s: seq<Byte>)
    ensures |CString(s)| <= |s| && CString(s) == s[..|CString(s)|]
  {
    if s != [] && s[0] != 0 {
      CStringPrefix(s[1..]);
    }
  }

  datatype Shape = Shape(complete: bool, pieces: seq<Piece>, line: seq<Byte>, p: Piece, bad: seq<Byte>, rest: seq<Byte>)

  ghost predicate Explains(w: Shape, s: seq<Byte>, failing: bool) {
    if w.complete then Complete(s, w.pieces, w.line, w.rest)
    else Broken(s, w.pieces, w.p, w.bad, w.rest, failing)
  }

  lemma FinishedShape(line: seq<Byte>, rest: seq<Byte>, failing: bool)
    requires SizeOf(line, 0)
    ensures Explains(Shape(true, [], line, Piece([], []), [], rest), line + (CRLF + rest), failing)
  {
    hide SizeOf;
    assert Join([]) + (line + (CRLF + rest)) == line + (CRLF + rest);
  }

  lemma BrokenShape(line: seq<Byte>, data: seq<Byte>, t: seq<Byte>, failing: bool)
    requires data != [] && SizeOf(line, |data|) && LineRead(t, failing) && t[..LineEnd(t)] != CRLF
    ensures Explains(Shape(false, [], [], Piece(line, data), t[..LineEnd(t)], t[LineEnd(t)..]), line + (data + t), failing)
  {
    hide SizeOf, LineRead, LineEnd;
    assert t[..LineEnd(t)] + t[LineEnd(t)..] == t;
    assert Join([]) + (line + (data + t)) == line + (data + t);
  }

  lemma LongerShape(line: seq<Byte>, data: seq<Byte>, v: Shape, t: seq<Byte>, failing: bool)
    requires data != [] && SizeOf(line, |data|) && Explains(v, t, failing)
    ensures Explains(v.(pieces := [Piece(line, data)] + v.pieces), line + (data + (CRLF + t)), failing)
  {
    hide SizeOf, LineRead, LineEnd, Join, Sized;
    MorePieces(Piece(line, data), v.pieces);
    Regroup(line, data, Join(v.pieces), if v.complete then v.line + (CRLF + v.rest) else v.p.line + (v.p.data + (v.bad + v.rest)));
  }

  /** What success says about the first line, and about what comes after it. */
  lemma AcceptedStart(s: seq<Byte>, failing: bool)
    requires Read(s, failing).ok
    ensures var line, t := s[..LineEnd(s)], s[LineEnd(s)..]; var n := StrToUl(CString(line)).0;
            && SizeOf(line, n)
            && (n == 0 ==> t[..LineEnd(t)] == CRLF)
            && (n > 0 ==> n <= |t| && LineRead(t[n..], failing))
  {
    hide StrToUl, CString, LineEnd;
    var line, t := s[..LineEnd(s)], s[LineEnd(s)..];
    FirstLineShape(s);
    NothingLeft();
    CrlfOnly(t);
  }

  lemma AcceptedNext(s: seq<Byte>, failing: bool)
    requires Read(s, failing).ok
    ensures var line, t := s[..LineEnd(s)], s[LineEnd(s)..]; var n := StrToUl(CString(line)).0;
            0 < n <= |t| && t[n..][..LineEnd(t[n..])] == CRLF ==> Read(t[n..][LineEnd(t[n..])..], failing).ok
  {
    hide StrToUl, CString, LineEnd, LineRead;
    var t := s[LineEnd(s)..];
    var n := StrToUl(CString(s[..LineEnd(s)])).0;
    if 0 < n <= |t| {
      CrlfOnly(t[n..]);
    }
  }

  /** The first line and the data it announces, cut off an accepted stream. */
  lemma AcceptedCut(s: seq<Byte>, failing: bool) returns (line: seq<Byte>, data: seq<Byte>, t: seq<Byte>)
    requires Read(s, failing).ok
    ensures s == line + (data + t) && SizeOf(line, |data|)
    ensures data == [] ==> t[..LineEnd(t)] == CRLF
    ensures data != [] ==> LineRead(t, failing)
    ensures data != [] && t[..LineEnd(t)] == CRLF ==> Read(t[LineEnd(t)..], failing).ok
  {
    hide StrToUl, CString, LineEnd, Read, LineRead, SizeOf;
    AcceptedStart(s, failing);
    AcceptedNext(s, failing);
    line := s[..LineEnd(s)];
    var u := s[LineEnd(s)..];
    var n := StrToUl(CString(line)).0;
    data, t := u[..n], u[n..];
    assert u == data + t;
    assert n == 0 ==> t == u;
  }

  lemma {:induction false} AcceptedHasShape(s: seq<Byte>, failing: bool) returns (w: Shape)
    requires Read(s, failing).ok
    ensures Explains(w, s, failing)
    decreases |s|
  {
    hide *;
    var line, data, t := AcceptedCut(s, failing);
    var rest := t[LineEnd(t)..];
    assert t == t[..LineEnd(t)] + rest;
    if data == [] {
      FinishedShape(line, rest, failing);
      w := Shape(true, [], line, Piece([], []), [], rest);
      assert data + t == CRLF + rest;
    } else if t[..LineEnd(t)] != CRLF {
      BrokenShape(line, data, t, failing);
      w := Shape(false, [], [], Piece(line, data), t[..LineEnd(t)], rest);
    } else {
      var v := AcceptedHasShape(rest, failing);
      LongerShape(line, data, v, rest, failing);
      w := v.(pieces := [Piece(line, data)] + v.pieces);
    }
  }

  lemma NothingLeft()
    ensures LineEnd([]) == 0
  {
  }

  lemma Regroup(line: seq<Byte>, data: seq<Byte>, joined: seq<Byte>, t: seq<Byte>)
    ensures line + (data + (CRLF + joined)) + t == line + (data + (CRLF + (joined + t)))
  {
  }

  lemma MorePieces(p: Piece, pieces: seq<Piece>)
    ensures Join([p] + pieces) == p.line + (p.data + (CRLF + Join(pieces)))
    ensures p.data != [] && SizeOf(p.line, |p.data|) && Sized(pieces) ==> Sized([p] + pieces)
  {
    hide SizeOf;
    assert ([p] + pieces)[1..] == pieces;
  }

  /** The reader reports success on the finished bodies and, beyond them, exactly on the streams
      that break off with something other than CRLF behind the data of a chunk. */
  lemma AcceptsExactly(s: seq<Byte>, failing: bool)
    ensures Read(s, failing).ok <==> exists w :: Explains(w, s, failing)
  {
    hide Read;
    if Read(s, failing).ok {
      var w := AcceptedHasShape(s, failing);
    }
    if w :| Explains(w, s, failing) {
      if w.complete {
        CompleteIsAccepted(s, w.pieces, w.line, w.rest, failing);
      } else {
        BrokenIsAccepted(s, w.pieces, w.p, w.bad, w.rest, failing);
      }
    }
  }

  /** For one: a chunk holding "A" followed by "X", and nothing more. */
  lemma BrokenExample(failing: bool)
    ensures Read([0x31, CR, LF, 0x41, 0x58, LF], failing) == Outcome(true, [0x41], [])
  {
    hide StrToUl;
    var p, bad := Piece([0x31, CR, LF], [0x41]), [0x58, LF];
    var s := [0x31, CR, LF, 0x41, 0x58, LF];
    assert HexOf(1) == [0x31] && [0x31] + CRLF == p.line;
    HexLineParses(1, CRLF);
    LineThen([0x31, CR], [], failing);
    assert [0x31, CR] + [LF] + [] == p.line && p.line[..LineEnd(p.line)] == p.line;
    LineThen([0x58], [], failing);
    assert [0x58] + [LF] + [] == bad + [] == bad;
    assert s == Join([]) + (p.line + (p.data + (bad + [])));
    BrokenIsAccepted(s, [], p, bad, [], failing);
    assert Data([]) + p.data == [0x41];
  }
}
