/** The CRC16-Modbus checksum of src/common/utils/checksum_utils.h.

    `Crc` is the checksum as a fold over bytes, `FeedBits` the same computation one message
    bit at a time, least significant bit first. The error-detection theorems are proved on
    the bit-serial form, where each step is an invertible map, and carried back to bytes. */
module Crc16 {

  // ---------- The register as bits ----------

  function Xor(a: bv16, b: bv16): bv16 {
    a ^ b
  }

  function Half(a: bv16): bv16 {
    a >> 1
  }

  predicate Odd(a: bv16) {
    a & 0x0001 != 0
  }

  predicate Top(a: bv16) {
    a & 0x8000 != 0
  }

  /** One shift/xor round; 0xA001 is the reflected generator polynomial. */
  function Round(crc: bv16): bv16 {
    if Odd(crc) then Xor(Half(crc), 0xA001) else Half(crc)
  }

  function Rounds(n: nat, crc: bv16): bv16 {
    if n == 0 then crc else Rounds(n - 1, Round(crc))
  }

  /** The register after `data`, starting from `crc`. */
  function Feed(crc: bv16, data: seq<bv8>): bv16
    decreases |data|
  {
    if data == [] then crc else Feed(Rounds(8, Xor(crc, data[0] as bv16)), data[1..])
  }

  function Crc(data: seq<bv8>): bv16 {
    Feed(0xFFFF, data)
  }

  method ComputeCrc(data: array<bv8>, len: nat) returns (crc: bv16)
    requires len <= data.Length
    ensures crc == Crc(data[..len])
  {
    hide *;
    crc := 0xFFFF;
    FeedStart(data[..len]);
    assert data[0..len] == data[..len];
    for i := 0 to len
      invariant Feed(crc, data[i..len]) == Crc(data[..len])
    {
      FeedStep(crc, data[i..len]);
      assert data[i..len][1..] == data[i + 1..len];
      crc := crc ^ (data[i] as bv16);
      ghost var start := crc;
      for j := 0 to 8
        invariant Rounds(8 - j, crc) == Rounds(8, start)
      {
        RoundsStep(8 - j, crc);
        if crc & 0x0001 != 0 {
          crc := (crc >> 1) ^ 0xA001;
        } else {
          crc := crc >> 1;
        }
      }
      RoundsDone(crc);
    }
    assert data[len..len] == [];
    FeedDone(crc);
  }

  lemma FeedStart(data: seq<bv8>)
    ensures Feed(0xFFFF, data) == Crc(data)
  {
  }

  lemma FeedDone(crc: bv16)
    ensures Feed(crc, []) == crc
  {
  }

  lemma FeedStep(crc: bv16, data: seq<bv8>)
    requires data != []
    ensures Feed(crc, data) == Feed(Rounds(8, crc ^ (data[0] as bv16)), data[1..])
  {
    hide Rounds;
  }

  lemma RoundsStep(n: nat, crc: bv16)
    requires n > 0
    ensures Rounds(n, crc) == Rounds(n - 1, if crc & 0x0001 != 0 then (crc >> 1) ^ 0xA001 else crc >> 1)
  {
    hide Round;
    RoundIs(crc);
  }

  lemma RoundsDone(crc: bv16)
    ensures Rounds(0, crc) == crc
  {
  }

  lemma RoundIs(crc: bv16)
    ensures Round(crc) == if crc & 0x0001 != 0 then (crc >> 1) ^ 0xA001 else crc >> 1
  {
  }

  method VerifyCrc(data: array<bv8>, len: nat, expected: bv16) returns (ok: bool)
    requires len <= data.Length
    ensures ok <==> expected == Crc(data[..len])
  {
    var crc := ComputeCrc(data, len);
    ok := crc == expected;
  }

  lemma EightRounds(crc: bv16)
    ensures Rounds(8, crc) == Round(Round(Round(Round(Round(Round(Round(Round(crc))))))))
  {
    hide Round;
    FourRounds(4, crc);
    FourRounds(0, Round(Round(Round(Round(crc)))));
  }

  lemma FourRounds(n: nat, crc: bv16)
    ensures Rounds(n + 4, crc) == Rounds(n, Round(Round(Round(Round(crc)))))
  {
    hide Round;
    assert Rounds(n + 4, crc) == Rounds(n + 3, Round(crc));
    assert Rounds(n + 3, Round(crc)) == Rounds(n + 2, Round(Round(crc)));
  }

  /** The worked example of section 6.2.2 of the MODBUS over Serial Line guide: the message 02 07 has
      the checksum 1241. It fixes the start value and the generator. */
  lemma WorkedExample()
    ensures Crc([0x02, 0x07]) == 0x1241
  {
    hide Rounds;
    EightRounds(0xFFFD);
    var mid := Rounds(8, 0xFFFD);
    EightRounds(Xor(mid, 0x0007));
    assert Xor(0xFFFF, 0x02) == 0xFFFD;
    assert [0x02 as bv8, 0x07][1..] == [0x07] && [0x07 as bv8][1..] == [];
    assert Feed(mid, [0x07]) == Rounds(8, Xor(mid, 0x0007));
  }

  /** Feeding a concatenation continues from the register left by its first part. */
  lemma {:induction false} FeedConcat(crc: bv16, a: seq<bv8>, b: seq<bv8>)
    ensures Feed(crc, a + b) == Feed(Feed(crc, a), b)
    decreases |a|
  {
    if a == [] {
      assert a + b == b;
    } else {
      assert (a + b)[1..] == a[1..] + b;
      FeedConcat(Rounds(8, crc ^ (a[0] as bv16)), a[1..], b);
    }
  }

  // ---------- Register algebra ----------

  lemma XorAssociates(a: bv16, b: bv16, c: bv16)
    ensures Xor(a, Xor(b, c)) == Xor(Xor(a, b), c)
  {
  }

  lemma XorCommutes(a: bv16, b: bv16)
    ensures Xor(a, b) == Xor(b, a)
  {
  }

  lemma XorZero(a: bv16)
    ensures Xor(a, 0) == a
  {
  }

  lemma XorSelf(a: bv16)
    ensures Xor(a, a) == 0
  {
  }

  lemma XorUnshift(a: bv16, b: bv16, c: bv16)
    requires Xor(a, c) == Xor(b, c)
    ensures a == b
  {
  }

  lemma XorTwice(a: bv16, c: bv16)
    ensures Xor(Xor(a, c), c) == a
  {
  }

  lemma XorOut(a: bv16, b: bv16, c: bv16)
    ensures Xor(Xor(a, c), b) == Xor(Xor(a, b), c)
  {
    hide Xor;
    XorAssociates(a, c, b);
    XorCommutes(c, b);
    XorAssociates(a, b, c);
  }

  lemma XorCommon(a: bv16, b: bv16, c: bv16)
    ensures Xor(Xor(a, c), Xor(b, c)) == Xor(a, b)
  {
    hide Xor;
    XorAssociates(Xor(a, c), b, c);
    XorOut(a, b, c);
    XorTwice(Xor(a, b), c);
  }

  lemma HalfXor(a: bv16, b: bv16)
    ensures Half(Xor(a, b)) == Xor(Half(a), Half(b))
  {
  }

  lemma OddXor(a: bv16, b: bv16)
    ensures Odd(Xor(a, b)) == (Odd(a) != Odd(b))
  {
  }

  lemma TopXor(a: bv16, b: bv16)
    ensures Top(Xor(a, b)) == (Top(a) != Top(b))
  {
  }

  lemma TopOfHalf(a: bv16)
    ensures !Top(Half(a)) && Top(Xor(Half(a), 0xA001))
  {
  }

  lemma FlipLow(a: bv16)
    ensures Half(Xor(a, 1)) == Half(a) && Odd(Xor(a, 1)) == !Odd(a)
  {
  }

  lemma SameHalves(a: bv16, b: bv16)
    requires Half(a) == Half(b) && Odd(a) == Odd(b)
    ensures a == b
  {
  }

  lemma RoundLinear(a: bv16, b: bv16)
    ensures Round(Xor(a, b)) == Xor(Round(a), Round(b))
  {
    hide Xor, Half, Odd, Top;
    HalfXor(a, b);
    OddXor(a, b);
    XorCommon(Half(a), Half(b), 0xA001);
    XorOut(Half(a), Half(b), 0xA001);
    XorAssociates(Half(a), Half(b), 0xA001);
  }

  /** The top bit after a round says which branch it took, so a round can be undone. */
  lemma RoundTop(a: bv16)
    ensures Top(Round(a)) == Odd(a)
  {
    hide Xor, Half, Odd, Top;
    TopOfHalf(a);
  }

  lemma RoundInjective(a: bv16, b: bv16)
    requires Round(a) == Round(b)
    ensures a == b
  {
    hide Xor, Half, Odd, Top;
    RoundTop(a);
    RoundTop(b);
    if Odd(a) {
      XorUnshift(Half(a), Half(b), 0xA001);
    }
    SameHalves(a, b);
  }

  // ---------- The bit-serial form ----------

  function WithBit(crc: bv16, b: bool): bv16 {
    if b then Xor(crc, 1) else crc
  }

  /** One message bit: xored into the lowest position, then one round. */
  function Step(crc: bv16, b: bool): bv16 {
    Round(WithBit(crc, b))
  }

  function FeedBits(crc: bv16, bits: seq<bool>): bv16
    decreases |bits|
  {
    if bits == [] then crc else FeedBits(Step(crc, bits[0]), bits[1..])
  }

  function LowBits(x: bv16, n: nat): (bits: seq<bool>)
    ensures |bits| == n
    decreases n
  {
    if n == 0 then [] else [Odd(x)] + LowBits(Half(x), n - 1)
  }

  function ByteBits(b: bv8): (bits: seq<bool>)
    ensures |bits| == 8
  {
    LowBits(b as bv16, 8)
  }

  /** The message bits in transmission order: bytes in order, each least significant bit first. */
  function Bits(data: seq<bv8>): (bits: seq<bool>)
    ensures |bits| == 8 * |data|
    decreases |data|
  {
    if data == [] then [] else ByteBits(data[0]) + Bits(data[1..])
  }

  lemma {:induction false} FeedBitsConcat(crc: bv16, a: seq<bool>, b: seq<bool>)
    ensures FeedBits(crc, a + b) == FeedBits(FeedBits(crc, a), b)
    decreases |a|
  {
    hide Step;
    if a == [] {
      assert a + b == b;
    } else {
      assert (a + b)[1..] == a[1..] + b;
      FeedBitsConcat(Step(crc, a[0]), a[1..], b);
    }
  }

  function ShiftBy(x: bv16, n: nat): bv16
    decreases n
  {
    if n == 0 then x else ShiftBy(Half(x), n - 1)
  }

  lemma {:induction false} ShiftOnce(x: bv16, n: nat)
    ensures ShiftBy(Half(x), n) == Half(ShiftBy(x, n))
    decreases n
  {
    hide Half;
    if n > 0 {
      ShiftOnce(Half(x), n - 1);
    }
  }

  lemma ShiftWhole(x: bv16)
    ensures ShiftBy(x, 8) == x >> 8 && ShiftBy(x, 15) == x >> 15
  {
    hide Half;
    var x2 := Half(Half(x));
    var x4 := Half(Half(x2));
    var x6 := Half(Half(x4));
    var x8 := Half(Half(x6));
    var x10 := Half(Half(x8));
    var x12 := Half(Half(x10));
    var x14 := Half(Half(x12));
    assert ShiftBy(x, 8) == ShiftBy(x2, 6) == ShiftBy(x4, 4) == ShiftBy(x6, 2) == x8;
    assert ShiftBy(x, 15) == ShiftBy(x2, 13) == ShiftBy(x4, 11) == ShiftBy(x6, 9) == ShiftBy(x8, 7);
    assert ShiftBy(x8, 7) == ShiftBy(x10, 5) == ShiftBy(x12, 3) == ShiftBy(x14, 1) == Half(x14);
    Halves(x);
    Halves(x8);
  }

  lemma Halves(x: bv16)
    ensures Half(Half(Half(Half(Half(Half(Half(Half(x)))))))) == x >> 8
    ensures Half(Half(Half(Half(Half(Half(Half(x))))))) == x >> 7
  {
  }

  lemma {:induction false} ShiftedOutTop(x: bv16, n: nat)
    requires n <= 15 && ShiftBy(x, n) == 0
    ensures !Top(x)
    decreases 15 - n
  {
    if n == 15 {
      ShiftWhole(x);
      TopIsLast(x);
    } else {
      hide Half, Top;
      ShiftOnce(x, n);
      assert Half(0) == 0 by { HalfZero(); }
      ShiftedOutTop(x, n + 1);
    }
  }

  lemma HalfZero()
    ensures Half(0) == 0
  {
  }

  lemma TopIsLast(x: bv16)
    ensures Top(x) == (x >> 15 != 0)
  {
  }

  lemma ShiftByte(b: bv8)
    ensures ShiftBy(b as bv16, 8) == 0
  {
    ShiftWhole(b as bv16);
  }

  lemma RoundDefers(crc: bv16, x: bv16)
    ensures Round(Xor(crc, x)) == Xor(Step(crc, Odd(x)), Half(x))
  {
    hide Xor, Half, Odd;
    if Odd(x) {
      FlipLow(x);
      XorCommon(crc, x, 1);
      RoundLinear(Xor(crc, 1), Xor(x, 1));
    } else {
      RoundLinear(crc, x);
    }
  }

  /** Xoring `x` in at once and running `n` rounds is feeding its low `n` bits one at a time,
      with the bits of `x` not yet fed still pending. */
  lemma {:induction false} RoundsAreBits(crc: bv16, x: bv16, n: nat)
    ensures Rounds(n, Xor(crc, x)) == Xor(FeedBits(crc, LowBits(x, n)), ShiftBy(x, n))
    decreases n
  {
    hide Xor, Half, Odd, Step, Round;
    if n > 0 {
      RoundDefers(crc, x);
      RoundsAreBits(Step(crc, Odd(x)), Half(x), n - 1);
      assert LowBits(x, n)[1..] == LowBits(Half(x), n - 1);
    }
  }

  lemma ByteIsBits(crc: bv16, b: bv8)
    ensures Rounds(8, Xor(crc, b as bv16)) == FeedBits(crc, ByteBits(b))
  {
    hide Xor, Rounds, FeedBits, LowBits;
    RoundsAreBits(crc, b as bv16, 8);
    ShiftByte(b);
    XorZero(FeedBits(crc, ByteBits(b)));
  }

  /** The byte loop computes the bit-serial register. */
  lemma {:induction false} FeedIsBitSerial(crc: bv16, data: seq<bv8>)
    ensures Feed(crc, data) == FeedBits(crc, Bits(data))
    decreases |data|
  {
    hide Xor, ByteBits, Rounds, FeedBits;
    if data == [] {
      assert FeedBits(crc, []) == crc by { FeedNothing(crc); }
    } else {
      ByteIsBits(crc, data[0]);
      FeedBitsConcat(crc, ByteBits(data[0]), Bits(data[1..]));
      FeedIsBitSerial(Rounds(8, Xor(crc, data[0] as bv16)), data[1..]);
    }
  }

  lemma FeedNothing(crc: bv16)
    ensures FeedBits(crc, []) == crc
  {
  }

  // ---------- Injectivity ----------

  lemma StepInjective(x: bv16, y: bv16, b: bool)
    requires Step(x, b) == Step(y, b)
    ensures x == y
  {
    hide Xor, Round;
    RoundInjective(WithBit(x, b), WithBit(y, b));
    if b {
      XorUnshift(x, y, 1);
    }
  }

  lemma {:induction false} FeedBitsInjective(x: bv16, y: bv16, bits: seq<bool>)
    requires FeedBits(x, bits) == FeedBits(y, bits)
    ensures x == y
    decreases |bits|
  {
    hide Step;
    if bits == [] {
    } else {
      FeedBitsInjective(Step(x, bits[0]), Step(y, bits[0]), bits[1..]);
      StepInjective(x, y, bits[0]);
    }
  }

  /** A step that leaves equal top bits has consumed equal low bits, so all it did to the
      difference of the registers is shift it. */
  lemma StepShiftsDifference(x: bv16, a: bool, y: bv16, b: bool)
    requires !Top(Xor(Step(x, a), Step(y, b)))
    ensures Xor(Step(x, a), Step(y, b)) == Half(Xor(x, y))
    ensures x == y ==> a == b
  {
    hide Xor, Half, Odd, Top;
    var u, v := WithBit(x, a), WithBit(y, b);
    TopXor(Round(u), Round(v));
    RoundTop(u);
    RoundTop(v);
    XorCommon(Half(u), Half(v), 0xA001);
    FlipLow(x);
    FlipLow(y);
    HalfXor(x, y);
  }

  /** Registers that meet after at most 16 bits differed only in as many low bits. */
  lemma {:induction false} MeetingRegisters(x: bv16, a: seq<bool>, y: bv16, b: seq<bool>)
    requires |a| == |b| <= 16 && FeedBits(x, a) == FeedBits(y, b)
    ensures ShiftBy(Xor(x, y), |a|) == 0
    ensures a != [] ==> !Top(Xor(Step(x, a[0]), Step(y, b[0])))
    decreases |a|
  {
    hide Xor, Half, Odd, Step, Top;
    if a == [] {
      XorSelf(x);
    } else {
      var x', y' := Step(x, a[0]), Step(y, b[0]);
      MeetingRegisters(x', a[1..], y', b[1..]);
      ShiftedOutTop(Xor(x', y'), |a| - 1);
      StepShiftsDifference(x, a[0], y, b[0]);
    }
  }

  lemma {:induction false} WindowInjective(crc: bv16, a: seq<bool>, b: seq<bool>)
    requires |a| == |b| <= 16 && FeedBits(crc, a) == FeedBits(crc, b)
    ensures a == b
    decreases |a|
  {
    hide Xor, Half, Odd, Step, Top, ShiftBy;
    if a == [] {
    } else {
      MeetingRegisters(crc, a, crc, b);
      StepShiftsDifference(crc, a[0], crc, b[0]);
      WindowInjective(Step(crc, a[0]), a[1..], b[1..]);
      assert a == [a[0]] + a[1..];
      assert b == [b[0]] + b[1..];
    }
  }

  lemma {:induction false} LowBitsInjective(x: bv16, y: bv16, n: nat)
    requires LowBits(x, n) == LowBits(y, n) && ShiftBy(x, n) == ShiftBy(y, n)
    ensures x == y
    decreases n
  {
    hide Half, Odd;
    if n > 0 {
      assert LowBits(x, n)[0] == Odd(x) && LowBits(y, n)[0] == Odd(y);
      assert LowBits(x, n)[1..] == LowBits(Half(x), n - 1) && LowBits(y, n)[1..] == LowBits(Half(y), n - 1);
      LowBitsInjective(Half(x), Half(y), n - 1);
      SameHalves(x, y);
    }
  }

  lemma ByteBitsInjective(a: bv8, b: bv8)
    requires ByteBits(a) == ByteBits(b)
    ensures a == b
  {
    hide LowBits, ShiftBy;
    ShiftByte(a);
    ShiftByte(b);
    LowBitsInjective(a as bv16, b as bv16, 8);
  }

  lemma {:induction false} BitsInjective(a: seq<bv8>, b: seq<bv8>)
    requires |a| == |b| && Bits(a) == Bits(b)
    ensures a == b
    decreases |a|
  {
    hide ByteBits;
    if a == [] {
    } else {
      assert Bits(a)[..8] == ByteBits(a[0]) && Bits(b)[..8] == ByteBits(b[0]);
      assert Bits(a)[8..] == Bits(a[1..]) && Bits(b)[8..] == Bits(b[1..]);
      ByteBitsInjective(a[0], b[0]);
      BitsInjective(a[1..], b[1..]);
    }
  }

  // ---------- Error detection ----------

  /** The two bit strings agree at every position outside `[k, k + 16)`. */
  ghost predicate AgreeOutside(a: seq<bool>, b: seq<bool>, k: nat) {
    |a| == |b| && forall j :: 0 <= j < |a| && !(k <= j < k + 16) ==> a[j] == b[j]
  }

  /** Every corruption confined to 16 consecutive message bits, whatever its alignment, changes
      the checksum. */
  lemma BurstDetected(sent: seq<bv8>, got: seq<bv8>, k: nat)
    requires |sent| == |got| && sent != got
    requires AgreeOutside(Bits(sent), Bits(got), k)
    ensures Crc(sent) != Crc(got)
  {
    hide Crc, Bits, FeedBits;
    if Crc(sent) == Crc(got) {
      FeedIsBitSerial(0xFFFF, sent);
      FeedIsBitSerial(0xFFFF, got);
      assert FeedBits(0xFFFF, Bits(sent)) == FeedBits(0xFFFF, Bits(got)) by { CrcIsFeed(sent); CrcIsFeed(got); }
      BitBurst(0xFFFF, Bits(sent), Bits(got), k);
      BitsInjective(sent, got);
    }
  }

  lemma CrcIsFeed(data: seq<bv8>)
    ensures Crc(data) == Feed(0xFFFF, data)
  {
  }

  lemma BitBurst(crc: bv16, a: seq<bool>, b: seq<bool>, k: nat)
    requires AgreeOutside(a, b, k) && FeedBits(crc, a) == FeedBits(crc, b)
    ensures a == b
  {
    hide FeedBits;
    var lo := if k <= |a| then k else |a|;
    var hi := if k + 16 <= |a| then k + 16 else |a|;
    var c := FeedBits(crc, a[..lo]);
    assert a[..lo] == b[..lo] && a[hi..] == b[hi..];
    FeedSplit(crc, a, lo, hi);
    FeedSplit(crc, b, lo, hi);
    FeedBitsInjective(FeedBits(c, a[lo..hi]), FeedBits(c, b[lo..hi]), a[hi..]);
    WindowInjective(c, a[lo..hi], b[lo..hi]);
    Rejoin(a, lo, hi);
    Rejoin(b, lo, hi);
  }

  lemma Rejoin(bits: seq<bool>, lo: nat, hi: nat)
    requires lo <= hi <= |bits|
    ensures bits == bits[..lo] + bits[lo..hi] + bits[hi..]
  {
  }

  lemma FeedSplit(crc: bv16, bits: seq<bool>, lo: nat, hi: nat)
    requires lo <= hi <= |bits|
    ensures FeedBits(crc, bits) == FeedBits(FeedBits(FeedBits(crc, bits[..lo]), bits[lo..hi]), bits[hi..])
  {
    hide FeedBits;
    assert bits == bits[..lo] + (bits[lo..hi] + bits[hi..]);
    FeedBitsConcat(crc, bits[..lo], bits[lo..hi] + bits[hi..]);
    FeedBitsConcat(FeedBits(crc, bits[..lo]), bits[lo..hi], bits[hi..]);
  }

  /** In particular two messages that differ only within two adjacent bytes never collide. */
  lemma AdjacentBytesDetected(sent: seq<bv8>, got: seq<bv8>, i: nat)
    requires |sent| == |got| && sent != got
    requires forall j :: 0 <= j < |sent| && j != i && j != i + 1 ==> sent[j] == got[j]
    ensures Crc(sent) != Crc(got)
  {
    hide ByteBits, Bits, Crc;
    forall j | 0 <= j < |Bits(sent)| && !(8 * i <= j < 8 * i + 16) ensures Bits(sent)[j] == Bits(got)[j] {
      BitsAt(sent, j);
      BitsAt(got, j);
    }
    BurstDetected(sent, got, 8 * i);
  }

  lemma {:induction false} BitsAt(data: seq<bv8>, j: nat)
    requires j < 8 * |data|
    ensures Bits(data)[j] == ByteBits(data[j / 8])[j % 8]
    decreases |data|
  {
    hide ByteBits;
    if j >= 8 {
      BitsAt(data[1..], j - 8);
    }
  }

  // ---------- Parity ----------

  /** Whether an odd number of the low `n` bits is set. */
  predicate Parity(x: bv16, n: nat)
    decreases n
  {
    if n == 0 then false else Odd(x) != Parity(Half(x), n - 1)
  }

  predicate OddOnes(bits: seq<bool>)
    decreases |bits|
  {
    if bits == [] then false else bits[0] != OddOnes(bits[1..])
  }

  lemma {:induction false} ParityXor(x: bv16, y: bv16, n: nat)
    ensures Parity(Xor(x, y), n) == (Parity(x, n) != Parity(y, n))
    decreases n
  {
    hide Xor, Half, Odd;
    if n > 0 {
      HalfXor(x, y);
      OddXor(x, y);
      ParityXor(Half(x), Half(y), n - 1);
    }
  }

  lemma {:induction false} ParityTop(x: bv16, n: nat)
    ensures Parity(x, n + 1) == (Parity(x, n) != Odd(ShiftBy(x, n)))
    decreases n
  {
    hide Half, Odd;
    if n > 0 {
      ParityTop(Half(x), n - 1);
    }
  }

  lemma ParityOfGenerator()
    ensures Parity(0xA001, 16) && Parity(1, 16)
  {
    assert Parity(0xA001, 16) == (true != Parity(0x5000, 15));
    assert Parity(0x5000, 15) == Parity(0x2800, 14) == Parity(0x1400, 13) == Parity(0x0A00, 12) == Parity(0x0500, 11);
    assert Parity(0x0500, 11) == Parity(0x0280, 10) == Parity(0x0140, 9) == Parity(0x00A0, 8) == Parity(0x0050, 7);
    assert Parity(0x0050, 7) == Parity(0x0028, 6) == Parity(0x0014, 5) == Parity(0x000A, 4) == Parity(0x0005, 3);
    assert Parity(0x0005, 3) == (true != Parity(0x0002, 2));
    assert Parity(0x0002, 2) == Parity(0x0001, 1) == true;
    ParityZero(15);
    assert Half(1) == 0;
  }

  lemma {:induction false} ParityZero(n: nat)
    ensures !Parity(0, n)
  {
    if n > 0 {
      HalfZero();
      ParityZero(n - 1);
    }
  }

  /** The generator has an odd number of terms below the top one, so a round keeps parity. */
  lemma RoundKeepsParity(x: bv16)
    ensures Parity(Round(x), 16) == Parity(x, 16)
  {
    hide Xor, Half, Odd, ShiftBy;
    var y := Half(x);
    assert Parity(x, 16) == (Odd(x) != Parity(y, 15)) by { ParityUnfold(x, 15); }
    ParityTop(y, 15);
    LastShiftEven(x);
    ParityXor(y, 0xA001, 16);
    ParityOfGenerator();
  }

  lemma ParityUnfold(x: bv16, n: nat)
    ensures Parity(x, n + 1) == (Odd(x) != Parity(Half(x), n))
  {
  }

  lemma LastShiftEven(x: bv16)
    ensures !Odd(ShiftBy(Half(x), 15))
  {
    hide ShiftBy;
    ShiftWhole(Half(x));
  }

  lemma StepParity(x: bv16, b: bool)
    ensures Parity(Step(x, b), 16) == (Parity(x, 16) != b)
  {
    hide Xor, Round, Parity;
    RoundKeepsParity(WithBit(x, b));
    ParityXor(x, 1, 16);
    ParityOfGenerator();
  }

  lemma {:induction false} FeedParity(crc: bv16, bits: seq<bool>)
    ensures Parity(FeedBits(crc, bits), 16) == (Parity(crc, 16) != OddOnes(bits))
    decreases |bits|
  {
    hide Step, Parity;
    if bits == [] {
    } else {
      FeedParity(Step(crc, bits[0]), bits[1..]);
      StepParity(crc, bits[0]);
    }
  }

  /** The number of positions at which two bit strings differ. */
  function Distance(a: seq<bool>, b: seq<bool>): nat
    requires |a| == |b|
    decreases |a|
  {
    if a == [] then 0 else (if a[0] != b[0] then 1 else 0) + Distance(a[1..], b[1..])
  }

  lemma {:induction false} DistanceParity(a: seq<bool>, b: seq<bool>)
    requires |a| == |b|
    ensures (OddOnes(a) != OddOnes(b)) == (Distance(a, b) % 2 == 1)
    decreases |a|
  {
    if a == [] {
    } else {
      DistanceParity(a[1..], b[1..]);
    }
  }

  /** Every corruption that flips an odd number of bits, anywhere, changes the checksum. */
  lemma OddErrorsDetected(sent: seq<bv8>, got: seq<bv8>)
    requires |sent| == |got| && Distance(Bits(sent), Bits(got)) % 2 == 1
    ensures Crc(sent) != Crc(got)
  {
    hide Feed, Bits, FeedBits, Parity, Distance, OddOnes;
    FeedIsBitSerial(0xFFFF, sent);
    FeedIsBitSerial(0xFFFF, got);
    FeedParity(0xFFFF, Bits(sent));
    FeedParity(0xFFFF, Bits(got));
    DistanceParity(Bits(sent), Bits(got));
  }

  // ---------- The appended checksum ----------

  function Low(crc: bv16): bv8 {
    (crc & 0xFF) as bv8
  }

  function High(crc: bv16): bv8 {
    (crc >> 8) as bv8
  }

  function Ones(n: nat): bv16 {
    if n == 0 then 0 else (Ones(n - 1) << 1) | 1
  }

  lemma ClearStep(x: bv16, m: bv16)
    requires x & ((m << 1) | 1) == 0
    ensures !Odd(x) && Half(x) & m == 0
  {
  }

  /** Rounds on a register whose low bits are clear only shift. */
  lemma {:induction false} RoundsShift(x: bv16, n: nat)
    requires x & Ones(n) == 0
    ensures Rounds(n, x) == ShiftBy(x, n)
    decreases n
  {
    hide Half, Odd;
    if n > 0 {
      ClearStep(x, Ones(n - 1));
      RoundsShift(Half(x), n - 1);
    }
  }

  lemma LowCleared(c: bv16)
    ensures Xor(c, Low(c) as bv16) & 0xFF == 0
    ensures Xor(c, Low(c) as bv16) >> 8 == High(c) as bv16
  {
  }

  lemma EightOnes()
    ensures Ones(8) == 0xFF
  {
    assert Ones(4) == 0xF;
    assert Ones(6) == 0x3F;
  }

  lemma OwnChecksumClears(c: bv16)
    ensures Feed(c, [Low(c), High(c)]) == 0
  {
    hide Low, High, Xor, Rounds, ShiftBy, Ones;
    var x := Xor(c, Low(c) as bv16);
    LowCleared(c);
    EightOnes();
    RoundsShift(x, 8);
    ShiftWhole(x);
    XorSelf(High(c) as bv16);
    RoundsShift(0, 8);
    ShiftWhole(0);
    assert [Low(c), High(c)][1..] == [High(c)];
    assert Feed(c, [Low(c), High(c)]) == Feed(Rounds(8, x), [High(c)]);
    assert Feed(Rounds(8, x), [High(c)]) == Feed(Rounds(8, 0), []);
  }

  /** A message followed by two bytes has checksum zero exactly when those bytes are its own
      checksum, low byte first. */
  lemma ResidueZero(data: seq<bv8>, lo: bv8, hi: bv8)
    ensures Crc(data + [lo, hi]) == 0 <==> lo == Low(Crc(data)) && hi == High(Crc(data))
  {
    hide Low, High, Feed;
    var c := Crc(data);
    var own := [Low(c), High(c)];
    FeedConcat(0xFFFF, data, own);
    OwnChecksumClears(c);
    if [lo, hi] != own {
      var sent, got := data + own, data + [lo, hi];
      assert sent[|data|..] == own && got[|data|..] == [lo, hi];
      AdjacentBytesDetected(sent, got, |data|);
    }
  }
}
