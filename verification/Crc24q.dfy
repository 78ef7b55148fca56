/** The CRC-24Q of src/rtcm.py: what the bit-serial register computes, and which errors it detects. */
module Crc24q {
  import opened ByteStrings

  // ----- the reference definition: remainder of polynomial division over GF(2) -----

  /**
   * Whether the generator has a term `i + 1` places below its leading one, x^24. The others are
   * x^23, x^18, x^17, x^14, x^11, x^10, x^7, x^6, x^5, x^4, x^3, x and 1.
   */
  predicate Generator(i: int)
  {
    i == 0 || i == 5 || i == 6 || i == 9 || i == 12 || i == 13 || i == 16 || i == 17 || i == 18 ||
    i == 19 || i == 20 || i == 22 || i == 23
  }

  /** One line of long division: cancel the leading term, if present, with the generator. */
  function Cancel(m: seq<bool>): (r: seq<bool>)
    requires |m| >= 25
    ensures |r| == |m| - 1
  {
    seq(|m| - 1, i requires 0 <= i < |m| - 1 => m[i + 1] != (m[0] && Generator(i)))
  }

  function Remainder(m: seq<bool>): (r: seq<bool>)
    requires |m| >= 24
    ensures |r| == 24
    decreases |m|
  {
    if |m| == 24 then m else Remainder(Cancel(m))
  }

  function Zeros(n: nat): (r: seq<bool>)
    ensures |r| == n && forall i :: 0 <= i < n ==> !r[i]
  {
    seq(n, _ => false)
  }

  /** The message times x^24, modulo the generator. The leading zeros let short messages divide too. */
  function Checksum(data: Bytes): (r: seq<bool>)
    ensures |r| == 24
  {
    Remainder(Zeros(24) + (Bits(data) + Zeros(24)))
  }

  /** The check a receiver makes: the last three bytes spell the checksum of the rest. */
  predicate CheckOk(frame: Bytes)
    requires |frame| >= 3
  {
    Checksum(frame[..|frame| - 3]) == Bits(frame[|frame| - 3..])
  }

  // ----- registers of 24 bits, most significant first -----

  type Register = s: seq<bool> | |s| == 24 witness Zeros(24)

  /** Shift in one bit at the bottom, and reduce by the generator when a bit comes out at the top. */
  function Step(s: Register, bit: bool): Register
  {
    Cancel(s + [bit])
  }

  function Shifts(s: Register, n: nat): Register
    decreases n
  {
    if n == 0 then s else Shifts(Step(s, false), n - 1)
  }

  /** The register of the source: message bits enter at the top. */
  function Feed(s: Register, bits: seq<bool>): Register
    decreases |bits|
  {
    if bits == [] then s else Feed(Step(Xor(s, [bits[0]] + Zeros(23)), false), bits[1..])
  }

  /** The division register: message bits enter at the bottom. */
  function Divide(s: Register, bits: seq<bool>): Register
    decreases |bits|
  {
    if bits == [] then s else Divide(Step(s, bits[0]), bits[1..])
  }

  lemma StepLinear(s: Register, t: Register, x: bool, y: bool)
    ensures Step(Xor(s, t), x != y) == Xor(Step(s, x), Step(t, y))
  {
    var l, r := Step(Xor(s, t), x != y), Xor(Step(s, x), Step(t, y));
    assert forall i :: 0 <= i < 24 ==> l[i] == r[i];
  }

  /** Shifting loses nothing: the generator has a constant term. */
  lemma StepInjective(s: Register, t: Register)
    requires Step(s, false) == Step(t, false)
    ensures s == t
  {
    assert Generator(23);
    assert Step(s, false)[23] == s[0] && Step(t, false)[23] == t[0];
    forall i | 0 < i < 24
      ensures s[i] == t[i]
    {
      assert Step(s, false)[i - 1] == (s[i] != (s[0] && Generator(i - 1)));
      assert Step(t, false)[i - 1] == (t[i] != (t[0] && Generator(i - 1)));
    }
  }

  lemma StepZero()
    ensures Step(Zeros(24), false) == Zeros(24)
  {
  }

  lemma {:induction false} ShiftsLinear(s: Register, t: Register, n: nat)
    ensures Shifts(Xor(s, t), n) == Xor(Shifts(s, n), Shifts(t, n))
    decreases n
  {
    if n > 0 {
      StepLinear(s, t, false, false);
      ShiftsLinear(Step(s, false), Step(t, false), n - 1);
    }
  }

  lemma {:induction false} ShiftsInjective(s: Register, t: Register, n: nat)
    requires Shifts(s, n) == Shifts(t, n)
    ensures s == t
    decreases n
  {
    if n > 0 {
      ShiftsInjective(Step(s, false), Step(t, false), n - 1);
      StepInjective(s, t);
    }
  }

  lemma {:induction false} ShiftsZero(n: nat)
    ensures Shifts(Zeros(24), n) == Zeros(24)
  {
    if n > 0 {
      StepZero();
      ShiftsZero(n - 1);
    }
  }

  lemma {:induction false} ShiftsAdd(s: Register, m: nat, n: nat)
    ensures Shifts(Shifts(s, m), n) == Shifts(s, m + n)
    decreases m
  {
    if m > 0 {
      ShiftsAdd(Step(s, false), m - 1, n);
    }
  }

  lemma {:induction false} FeedAppend(s: Register, a: seq<bool>, b: seq<bool>)
    ensures Feed(s, a + b) == Feed(Feed(s, a), b)
    decreases |a|
  {
    if a == [] {
      assert a + b == b;
    } else {
      assert (a + b)[0] == a[0] && (a + b)[1..] == a[1..] + b;
      FeedAppend(Step(Xor(s, [a[0]] + Zeros(23)), false), a[1..], b);
    }
  }

  lemma {:induction false} DivideAppend(s: Register, a: seq<bool>, b: seq<bool>)
    ensures Divide(s, a + b) == Divide(Divide(s, a), b)
    decreases |a|
  {
    if a == [] {
      assert a + b == b;
    } else {
      assert (a + b)[0] == a[0] && (a + b)[1..] == a[1..] + b;
      DivideAppend(Step(s, a[0]), a[1..], b);
    }
  }

  /** Feeding at most 24 bits amounts to XORing them in at the top and then shifting them through. */
  lemma {:induction false} FeedIsXorThenShifts(s: Register, bits: seq<bool>)
    requires |bits| <= 24
    ensures Feed(s, bits) == Shifts(Xor(s, bits + Zeros(24 - |bits|)), |bits|)
    decreases |bits|
  {
    if bits == [] {
      assert Xor(s, bits + Zeros(24)) == s;
    } else {
      var rest := bits[1..];
      var next := Step(Xor(s, [bits[0]] + Zeros(23)), false);
      FeedIsXorThenShifts(next, rest);
      var l, r := Xor(next, rest + Zeros(24 - |rest|)), Step(Xor(s, bits + Zeros(24 - |bits|)), false);
      forall i | 0 <= i < 24
        ensures l[i] == r[i]
      {
        var x := Xor(s, bits + Zeros(24 - |bits|));
        assert i < 23 ==> x[i + 1] == (s[i + 1] != (rest + Zeros(24 - |rest|))[i]);
      }
      assert l == r;
    }
  }

  lemma {:induction false} FeedLinear(s: Register, t: Register, a: seq<bool>, b: seq<bool>)
    requires |a| == |b|
    ensures Feed(Xor(s, t), Xor(a, b)) == Xor(Feed(s, a), Feed(t, b))
    decreases |a|
  {
    if a != [] {
      var x, y := [a[0]] + Zeros(23), [b[0]] + Zeros(23);
      assert Xor(Xor(s, t), [Xor(a, b)[0]] + Zeros(23)) == Xor(Xor(s, x), Xor(t, y));
      StepLinear(Xor(s, x), Xor(t, y), false, false);
      assert Xor(a, b)[1..] == Xor(a[1..], b[1..]);
      FeedLinear(Step(Xor(s, x), false), Step(Xor(t, y), false), a[1..], b[1..]);
    }
  }

  // ----- the two registers compute the reference -----

  lemma {:induction false} RemainderIsDivide(s: Register, bits: seq<bool>)
    ensures Remainder(s + bits) == Divide(s, bits)
    decreases |bits|
  {
    if bits == [] {
      assert s + bits == s;
    } else {
      var rest := bits[1..];
      var m := s + bits;
      var r := Step(s, bits[0]) + rest;
      forall i | 0 <= i < |m| - 1
        ensures Cancel(m)[i] == r[i]
      {
        assert m[i + 1] == if i < 23 then s[i + 1] else if i == 23 then bits[0] else rest[i - 24];
        assert i < 24 ==> (s + [bits[0]])[i + 1] == m[i + 1];
      }
      assert Cancel(m) == r;
      RemainderIsDivide(Step(s, bits[0]), rest);
    }
  }

  lemma {:induction false} DivideZeros(s: Register, n: nat)
    ensures Divide(s, Zeros(n)) == Shifts(s, n)
    decreases n
  {
    if n > 0 {
      assert Zeros(n)[1..] == Zeros(n - 1);
      DivideZeros(Step(s, false), n - 1);
    }
  }

  /** A bit at the bottom reaches the top in 23 shifts. */
  lemma {:induction false} BottomToTop(s: Register, k: nat)
    requires k <= 23 && forall i :: 0 <= i < 24 && s[i] ==> i == k
    ensures Shifts(s, k) == [s[k]] + Zeros(23)
    decreases k
  {
    if k == 0 {
      assert s == [s[0]] + Zeros(23);
    } else {
      var t := Step(s, false);
      assert forall i :: 0 <= i < 24 ==> t[i] == (i < 23 && s[i + 1]);
      BottomToTop(t, k - 1);
    }
  }

  /** A bit at the top of the register, and one at the bottom. */
  function Top(b: bool): Register
  {
    [b] + Zeros(23)
  }

  function Bottom(b: bool): Register
  {
    Zeros(23) + [b]
  }

  lemma BottomBit(b: bool)
    ensures Step(Top(b), false) == Shifts(Bottom(b), 24)
  {
    BottomToTop(Bottom(b), 23);
    ShiftsAdd(Bottom(b), 23, 1);
    ShiftsOnce(Shifts(Bottom(b), 23));
  }

  lemma ShiftsOnce(s: Register)
    ensures Shifts(s, 1) == Step(s, false)
  {
  }

  lemma StepAfterShifts(s: Register, n: nat)
    ensures Step(Shifts(s, n), false) == Shifts(Step(s, false), n)
  {
    ShiftsAdd(s, n, 1);
    ShiftsOnce(Shifts(s, n));
  }

  lemma StepSplits(s: Register, b: bool)
    ensures Step(s, b) == Xor(Step(s, false), Bottom(b))
  {
  }

  lemma SumsCorrespond(high: Register, top: Register, low: Register, bottom: Register)
    requires Step(high, false) == Shifts(low, 24) && Step(top, false) == Shifts(bottom, 24)
    ensures Step(Xor(high, top), false) == Shifts(Xor(low, bottom), 24)
  {
    StepLinear(high, top, false, false);
    ShiftsLinear(low, bottom, 24);
  }

  /** A bit that enters at the top is a bit that entered at the bottom 24 shifts before. */
  lemma TopIsBottomLater(s: Register, b: bool)
    ensures Step(Xor(Shifts(s, 24), Top(b)), false) == Shifts(Step(s, b), 24)
  {
    var high, low, top, bottom := Shifts(s, 24), Step(s, false), Top(b), Bottom(b);
    assert Step(high, false) == Shifts(low, 24) by {
      StepAfterShifts(s, 24);
    }
    assert Step(top, false) == Shifts(bottom, 24) by {
      BottomBit(b);
    }
    SumsCorrespond(high, top, low, bottom);
    StepSplits(s, b);
  }

  lemma {:induction false} FeedIsShiftedDivide(s: Register, bits: seq<bool>)
    ensures Feed(Shifts(s, 24), bits) == Shifts(Divide(s, bits), 24)
    decreases |bits|
  {
    if bits != [] {
      TopIsBottomLater(s, bits[0]);
      FeedIsShiftedDivide(Step(s, bits[0]), bits[1..]);
    }
  }

  /** Feeding the message at the top of a zero register gives the polynomial remainder. */
  lemma ChecksumIsFeed(data: Bytes)
    ensures Checksum(data) == Feed(Zeros(24), Bits(data))
  {
    var bits := Bits(data);
    RemainderIsDivide(Zeros(24), bits + Zeros(24));
    DivideAppend(Zeros(24), bits, Zeros(24));
    DivideZeros(Divide(Zeros(24), bits), 24);
    FeedIsShiftedDivide(Zeros(24), bits);
    ShiftsZero(24);
  }

  // ----- the loops of the source -----

  const LIMIT: nat := 0x1000000
  const POLY: nat := 0x1864CFB

  /** What one turn of the inner loop leaves in `crc`. */
  function Turn(c: nat): nat
  {
    if c * 2 / LIMIT % 2 == 1 then NatXor(c * 2, POLY) else c * 2
  }

  lemma Powers()
    ensures Pow2(8) == 256 && Pow2(16) == 0x10000 && Pow2(24) == LIMIT && Pow2(25) == 2 * LIMIT
  {
    assert Pow2(4) == 16 && Pow2(12) == 0x1000 && Pow2(20) == 0x100000;
  }

  function GeneratorBits(): (r: seq<bool>)
    ensures |r| == 24
    ensures forall i :: 0 <= i < 24 ==> r[i] == Generator(i)
  {
    seq(24, i => Generator(i))
  }

  lemma PowerTable()
    ensures Pow2(0) == 1 && Pow2(1) == 2 && Pow2(2) == 4 && Pow2(3) == 8 && Pow2(4) == 16
    ensures Pow2(5) == 32 && Pow2(6) == 64 && Pow2(7) == 128 && Pow2(8) == 256
  {
  }

  lemma PolyHigh()
    ensures NatBits(0x186, 9) == [true] + GeneratorBits()[..8]
  {
    PowerTable();
    var b, g := NatBits(0x186, 9), [true] + GeneratorBits()[..8];
    assert b[0] == g[0] && b[1] == g[1] && b[2] == g[2];
    assert b[3] == g[3] && b[4] == g[4] && b[5] == g[5];
    assert b[6] == g[6] && b[7] == g[7] && b[8] == g[8];
  }

  lemma PolyMiddle()
    ensures NatBits(0x4C, 8) == GeneratorBits()[8..16]
  {
    PowerTable();
    var b, g := NatBits(0x4C, 8), GeneratorBits()[8..16];
    assert b[0] == g[0] && b[1] == g[1] && b[2] == g[2];
    assert b[3] == g[3] && b[4] == g[4] && b[5] == g[5];
    assert b[6] == g[6] && b[7] == g[7];
  }

  lemma PolyLow()
    ensures NatBits(0xFB, 8) == GeneratorBits()[16..]
  {
    PowerTable();
    var b, g := NatBits(0xFB, 8), GeneratorBits()[16..];
    assert b[0] == g[0] && b[1] == g[1] && b[2] == g[2];
    assert b[3] == g[3] && b[4] == g[4] && b[5] == g[5];
    assert b[6] == g[6] && b[7] == g[7];
  }

  /** The constant of the source has exactly the generator's terms. */
  lemma PolyBits()
    ensures NatBits(POLY, 25) == [true] + GeneratorBits()
  {
    NatBitsByte(0x1864C, 0xFB, 17);
    NatBitsByte(0x186, 0x4C, 9);
    PolyHigh();
    PolyMiddle();
    PolyLow();
    var g := GeneratorBits();
    assert [true] + g == [true] + g[..8] + g[8..16] + g[16..];
  }

  lemma DoubleBits(c: nat, n: nat)
    ensures NatBits(c * 2, n + 1) == NatBits(c, n) + [false]
  {
    NatBitsHalve(c * 2, n + 1);
  }

  /** The carry out of a doubling is the bit that was at the top. */
  lemma CarryIsTopBit(c: nat)
    requires c < LIMIT
    ensures (c * 2 / LIMIT % 2 == 1) == NatBits(c, 24)[0]
  {
    Powers();
    assert 2 * Pow2(23) == LIMIT;
  }

  lemma TurnIsStep(c: nat)
    requires c < LIMIT
    ensures Turn(c) < LIMIT
    ensures NatBits(Turn(c), 24) == Step(NatBits(c, 24), false)
  {
    DoubleBits(c, 24);
    CarryIsTopBit(c);
    var s := NatBits(c, 24);
    NatBitsTail(Turn(c), 24);
    if s[0] {
      NatXorBits(c * 2, POLY, 25);
      PolyBits();
      assert NatBits(Turn(c), 25) == Xor(s + [false], [true] + GeneratorBits());
      assert NatBits(Turn(c), 25)[1..] == Step(s, false);
      Powers();
      NatXorBound(c * 2, POLY, 25);
      TopBitClear(Turn(c));
    } else {
      assert NatBits(Turn(c), 25)[1..] == Step(s, false);
      TopBitClear(Turn(c));
    }
  }

  lemma TopBitClear(c: nat)
    requires c < 2 * LIMIT && !NatBits(c, 25)[0]
    ensures c < LIMIT
  {
    Powers();
  }

  lemma EntryBits(b: byte)
    ensures NatBits(b as nat * 0x10000, 24) == NatBits(b, 8) + Zeros(16)
  {
    Powers();
    NatBitsPeel(b, 0, 8, 16);
    ZeroBits(16);
  }

  lemma {:induction false} ZeroBits(n: nat)
    ensures NatBits(0, n) == Zeros(n)
  {
    if n > 0 {
      NatBitsHalve(0, n);
      ZeroBits(n - 1);
    }
  }

  lemma EntryFits(c: nat, b: byte)
    requires c < LIMIT
    ensures NatXor(c, b as nat * 0x10000) < LIMIT
    ensures NatBits(NatXor(c, b as nat * 0x10000), 24) == Xor(NatBits(c, 24), NatBits(b, 8) + Zeros(16))
  {
    Powers();
    NatXorBound(c, b as nat * 0x10000, 24);
    NatXorBits(c, b as nat * 0x10000, 24);
    EntryBits(b);
  }

  /** The register after the first `i` bytes. */
  function After(data: Bytes, i: nat): Register
    requires i <= |data|
  {
    Feed(Zeros(24), Bits(data[..i]))
  }

  lemma AfterEnds(data: Bytes)
    ensures After(data, 0) == NatBits(0, 24)
    ensures After(data, |data|) == Checksum(data)
  {
    ZeroBits(24);
    assert data[..|data|] == data;
    ChecksumIsFeed(data);
  }

  lemma AfterNext(data: Bytes, i: nat)
    requires i < |data|
    ensures After(data, i + 1) == Shifts(Xor(After(data, i), NatBits(data[i], 8) + Zeros(16)), 8)
  {
    var b := NatBits(data[i], 8);
    assert data[..i + 1] == data[..i] + [data[i]];
    BitsAppend(data[..i], [data[i]]);
    BitsOne(data[i]);
    FeedAppend(Zeros(24), Bits(data[..i]), b);
    FeedIsXorThenShifts(After(data, i), b);
  }

  lemma AfterByte(crc: nat, data: Bytes, i: nat)
    requires i < |data| && crc < LIMIT && NatBits(crc, 24) == After(data, i)
    ensures var entered := NatXor(crc, data[i] as nat * 0x10000);
      entered < LIMIT && Shifts(NatBits(entered, 24), 8) == After(data, i + 1)
  {
    EntryFits(crc, data[i]);
    AfterNext(data, i);
  }

  /** The body of the inner loop. */
  method TurnOnce(crc: nat) returns (next: nat)
    requires crc < LIMIT
    ensures next < LIMIT && NatBits(next, 24) == Step(NatBits(crc, 24), false)
  {
    TurnIsStep(crc);
    next := crc * 2;
    if next / LIMIT % 2 == 1 {
      next := NatXor(next, POLY);
    }
  }

  /** What `8 - k` more shifts make of `crc` is what eight make of the start. */
  predicate ShiftsLeft(crc: nat, start: nat, k: nat)
  {
    k <= 8 && crc < LIMIT && Shifts(NatBits(crc, 24), 8 - k) == Shifts(NatBits(start, 24), 8)
  }

  lemma OneShiftLess(crc: nat, start: nat, k: nat, next: nat)
    requires k < 8 && ShiftsLeft(crc, start, k)
    requires next < LIMIT && NatBits(next, 24) == Step(NatBits(crc, 24), false)
    ensures ShiftsLeft(next, start, k + 1)
  {
  }

  /** The inner loop of the source. */
  method TurnEight(start: nat) returns (crc: nat)
    requires start < LIMIT
    ensures crc < LIMIT
    ensures NatBits(crc, 24) == Shifts(NatBits(start, 24), 8)
  {
    crc := start;
    for k := 0 to 8
      invariant ShiftsLeft(crc, start, k)
    {
      var next := TurnOnce(crc);
      OneShiftLess(crc, start, k, next);
      crc := next;
    }
  }

  /** `crc` is the register after the first `i` bytes. */
  predicate Holds(crc: nat, data: Bytes, i: nat)
  {
    i <= |data| && crc < LIMIT && NatBits(crc, 24) == After(data, i)
  }

  lemma HoldsAtStart(data: Bytes)
    ensures Holds(0, data, 0)
  {
    AfterEnds(data);
  }

  lemma HoldsAtEnd(crc: nat, data: Bytes)
    requires Holds(crc, data, |data|)
    ensures crc < LIMIT && crc % LIMIT == crc && NatBits(crc, 24) == Checksum(data)
  {
    AfterEnds(data);
  }

  /** The body of the outer loop. */
  method TakeByte(crc: nat, data: Bytes, i: nat) returns (next: nat)
    requires i < |data| && Holds(crc, data, i)
    ensures Holds(next, data, i + 1)
  {
    AfterByte(crc, data, i);
    next := TurnEight(NatXor(crc, data[i] as nat * 0x10000));
  }

  /**
   * The two nested loops of the source compute the polynomial remainder. `crc` is an unbounded
   * number there, so shifts are written as products and the masks as quotients and remainders.
   */
  method ComputeCrc24q(data: Bytes) returns (crc: nat)
    ensures crc < LIMIT
    ensures NatBits(crc, 24) == Checksum(data)
  {
    crc := 0;
    HoldsAtStart(data);
    for i := 0 to |data|
      invariant Holds(crc, data, i)
    {
      crc := TakeByte(crc, data, i);
    }
    HoldsAtEnd(crc, data);
    crc := crc % LIMIT;
  }

  /** The 24-bit number the last three bytes spell. */
  function Trailer(frame: Bytes): nat
    requires |frame| >= 3
  {
    var n := |frame|;
    frame[n - 3] as nat * 0x10000 + frame[n - 2] as nat * 0x100 + frame[n - 1]
  }

  lemma TrailerBits(frame: Bytes)
    requires |frame| >= 3
    ensures Trailer(frame) < LIMIT && NatBits(Trailer(frame), 24) == Bits(frame[|frame| - 3..])
  {
    var x, y, z := frame[|frame| - 3], frame[|frame| - 2], frame[|frame| - 1];
    var high: nat := x;
    assert frame[|frame| - 3..] == [x] + ([y] + [z]);
    BitsAppend([x], [y] + [z]);
    BitsAppend([y], [z]);
    BitsOne(x);
    BitsOne(y);
    BitsOne(z);
    NatBitsByte(high, y, 8);
    NatBitsByte(high * 256 + y, z, 16);
  }

  /** The comparison of the source, computed CRC against the three trailing bytes, decides the check. */
  lemma ComparisonDecidesCheck(frame: Bytes, crc: nat)
    requires |frame| >= 3 && crc < LIMIT && NatBits(crc, 24) == Checksum(frame[..|frame| - 3])
    ensures crc == Trailer(frame) <==> CheckOk(frame)
  {
    TrailerBits(frame);
    Powers();
    NatRoundTrip(crc, 24);
    NatRoundTrip(Trailer(frame), 24);
  }

  // ----- the check as a zero residue -----

  /** A frame passes the check exactly when the remainder of the whole frame, trailer included, is 0. */
  lemma CheckIsZeroResidue(frame: Bytes)
    requires |frame| >= 3
    ensures CheckOk(frame) <==> Checksum(frame) == Zeros(24)
  {
    var n := |frame| - 3;
    var body, tail := frame[..n], frame[n..];
    assert frame == body + tail;
    ChecksumIsFeed(frame);
    ChecksumIsFeed(body);
    BitsAppend(body, tail);
    FeedAppend(Zeros(24), Bits(body), Bits(tail));
    var c, t := Checksum(body), Bits(tail);
    FeedIsXorThenShifts(c, t);
    assert t + Zeros(0) == t;
    ShiftsZero(24);
    if Checksum(frame) == Zeros(24) {
      ShiftsInjective(Xor(c, t), Zeros(24), 24);
      forall i | 0 <= i < 24 ensures c[i] == t[i] { assert !Xor(c, t)[i]; }
    }
    assert c == t ==> Xor(c, t) == Zeros(24);
  }

  /** Appending the checksum gives residue 0, and no other 24-bit trailer does. */
  lemma OnlyTheCrcFits(body: Bytes, trailer: Bytes)
    requires |trailer| == 3
    ensures Checksum(body + trailer) == Zeros(24) <==> Bits(trailer) == Checksum(body)
  {
    CheckIsZeroResidue(body + trailer);
    assert (body + trailer)[..|body|] == body && (body + trailer)[|body|..] == trailer;
  }

  function XorBytes(a: Bytes, b: Bytes): (r: Bytes)
    requires |a| == |b|
    ensures |r| == |a|
  {
    if a == [] then []
    else
      Powers();
      NatXorBound(a[0], b[0], 8);
      [NatXor(a[0], b[0])] + XorBytes(a[1..], b[1..])
  }

  lemma XorAppend(a: seq<bool>, b: seq<bool>, x: seq<bool>, y: seq<bool>)
    requires |a| == |x| && |b| == |y|
    ensures Xor(a + b, x + y) == Xor(a, x) + Xor(b, y)
  {
  }

  lemma {:induction false} XorBytesBits(a: Bytes, b: Bytes)
    requires |a| == |b|
    ensures Bits(XorBytes(a, b)) == Xor(Bits(a), Bits(b))
  {
    if a != [] {
      NatXorBits(a[0], b[0], 8);
      XorBytesBits(a[1..], b[1..]);
      XorAppend(NatBits(a[0], 8), Bits(a[1..]), NatBits(b[0], 8), Bits(b[1..]));
    }
  }

  /** The CRC of the XOR of two equally long messages is the XOR of their CRCs. */
  lemma ChecksumLinear(a: Bytes, b: Bytes)
    requires |a| == |b|
    ensures Checksum(XorBytes(a, b)) == Xor(Checksum(a), Checksum(b))
  {
    ChecksumIsFeed(a);
    ChecksumIsFeed(b);
    ChecksumIsFeed(XorBytes(a, b));
    XorBytesBits(a, b);
    assert Xor(Zeros(24), Zeros(24)) == Zeros(24);
    FeedLinear(Zeros(24), Zeros(24), Bits(a), Bits(b));
  }

  // ----- which errors the check detects -----

  lemma {:induction false} FeedZeros(s: Register, n: nat)
    ensures Feed(s, Zeros(n)) == Shifts(s, n)
    decreases n
  {
    if n > 0 {
      assert Zeros(n)[1..] == Zeros(n - 1);
      assert Xor(s, [false] + Zeros(23)) == s;
      FeedZeros(Step(s, false), n - 1);
    }
  }

  /** The set bits of an error pattern all lie in the 24 positions from `k` on, and there is one. */
  ghost predicate Burst(error: seq<bool>, k: nat)
  {
    true in error && forall i :: 0 <= i < |error| && error[i] ==> k <= i < k + 24
  }

  /** At most 24 bits, one of them set, leave something in a zero register. */
  lemma WindowLeavesResidue(mid: seq<bool>)
    requires |mid| <= 24 && true in mid
    ensures Feed(Zeros(24), mid) != Zeros(24)
  {
    FeedIsXorThenShifts(Zeros(24), mid);
    var w := Xor(Zeros(24), mid + Zeros(24 - |mid|));
    assert w != Zeros(24) by {
      var i :| 0 <= i < |mid| && mid[i];
      assert w[i];
    }
    ShiftsZero(|mid|);
    if Shifts(w, |mid|) == Zeros(24) {
      ShiftsInjective(w, Zeros(24), |mid|);
    }
  }

  /** Zeros in front leave a zero register as it is, and zeros behind lose nothing. */
  lemma ZerosAround(m: nat, mid: seq<bool>, n: nat)
    requires Feed(Zeros(24), mid) != Zeros(24)
    ensures Feed(Zeros(24), Zeros(m) + (mid + Zeros(n))) != Zeros(24)
  {
    FeedAppend(Zeros(24), Zeros(m), mid + Zeros(n));
    FeedZeros(Zeros(24), m);
    ShiftsZero(m);
    FeedAppend(Zeros(24), mid, Zeros(n));
    var r := Feed(Zeros(24), mid);
    FeedZeros(r, n);
    ShiftsZero(n);
    if Shifts(r, n) == Zeros(24) {
      ShiftsInjective(r, Zeros(24), n);
    }
  }

  lemma BurstLeavesResidue(error: seq<bool>, k: nat)
    requires Burst(error, k)
    ensures Feed(Zeros(24), error) != Zeros(24)
  {
    var n := |error|;
    var hi := if k + 24 <= n then k + 24 else n;
    var mid := error[k..hi];
    assert error == Zeros(k) + (mid + Zeros(n - hi));
    assert true in mid by {
      var i :| 0 <= i < n && error[i];
      assert mid[i - k];
    }
    WindowLeavesResidue(mid);
    ZerosAround(k, mid, n - hi);
  }

  function Ones(bits: seq<bool>): nat
  {
    if bits == [] then 0 else (if bits[0] then 1 else 0) + Ones(bits[1..])
  }

  predicate OddOnes(bits: seq<bool>) { Ones(bits) % 2 == 1 }

  lemma {:induction false} OnesAppend(a: seq<bool>, b: seq<bool>)
    ensures Ones(a + b) == Ones(a) + Ones(b)
  {
    if a == [] {
      assert a + b == b;
    } else {
      assert (a + b)[1..] == a[1..] + b;
      OnesAppend(a[1..], b);
    }
  }

  lemma {:induction false} OnesZeros(n: nat)
    ensures Ones(Zeros(n)) == 0
  {
    if n > 0 {
      assert Zeros(n)[1..] == Zeros(n - 1);
      OnesZeros(n - 1);
    }
  }

  /** Whether the generator has an odd number of terms `i + 1` or more places below its leading one. */
  predicate GeneratorOdd(i: nat)
    requires i <= 24
    decreases 24 - i
  {
    if i == 24 then false else Generator(i) != GeneratorOdd(i + 1)
  }

  lemma {:induction false} CancelParity(m: seq<bool>, i: nat)
    requires |m| >= 25 && i <= |m| - 1
    ensures OddOnes(Cancel(m)[i..]) == (OddOnes(m[i + 1..]) != (m[0] && i <= 24 && GeneratorOdd(i)))
    decreases |m| - i
  {
    if i < |m| - 1 {
      assert m[i + 1..][1..] == m[i + 2..];
      assert Cancel(m)[i..][1..] == Cancel(m)[i + 1..];
      CancelParity(m, i + 1);
    }
  }

  /** The generator has fourteen terms in all, an even number. */
  lemma GeneratorIsEven()
    ensures GeneratorOdd(0)
  {
    GeneratorTail();
    assert GeneratorOdd(10);
    assert !GeneratorOdd(8);
    assert GeneratorOdd(6);
    assert !GeneratorOdd(4);
    assert !GeneratorOdd(2);
  }

  lemma GeneratorTail()
    ensures GeneratorOdd(12)
  {
    assert !GeneratorOdd(22);
    assert GeneratorOdd(20);
    assert GeneratorOdd(18);
    assert GeneratorOdd(16);
    assert GeneratorOdd(14);
  }

  /** So long division keeps the parity of the number of set bits. */
  lemma {:induction false} RemainderParity(m: seq<bool>)
    requires |m| >= 24
    ensures OddOnes(Remainder(m)) == OddOnes(m)
    decreases |m|
  {
    if |m| > 24 {
      CancelParity(m, 0);
      GeneratorIsEven();
      assert Cancel(m)[0..] == Cancel(m);
      RemainderParity(Cancel(m));
    }
  }

  lemma OddLeavesResidue(error: Bytes)
    requires OddOnes(Bits(error))
    ensures Checksum(error) != Zeros(24)
  {
    OnesAppend(Zeros(24), Bits(error) + Zeros(24));
    OnesAppend(Bits(error), Zeros(24));
    OnesZeros(24);
    RemainderParity(Zeros(24) + (Bits(error) + Zeros(24)));
  }

  /** Error patterns the check is guaranteed to catch: short bursts and odd numbers of flipped bits. */
  ghost predicate Detectable(error: Bytes)
  {
    (exists k: nat :: Burst(Bits(error), k)) || OddOnes(Bits(error))
  }

  /** A frame that passed the check fails it after any detectable error. */
  lemma ErrorDetected(frame: Bytes, error: Bytes)
    requires |frame| == |error| >= 3
    requires CheckOk(frame) && Detectable(error)
    ensures !CheckOk(XorBytes(frame, error))
  {
    CheckIsZeroResidue(frame);
    CheckIsZeroResidue(XorBytes(frame, error));
    ChecksumLinear(frame, error);
    assert Xor(Zeros(24), Checksum(error)) == Checksum(error);
    if OddOnes(Bits(error)) {
      OddLeavesResidue(error);
    } else {
      var k: nat :| Burst(Bits(error), k);
      ChecksumIsFeed(error);
      BurstLeavesResidue(Bits(error), k);
    }
  }
}
