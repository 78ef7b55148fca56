/**
 * The bit reader and the station messages of src/rtcm.py: 1005/1006 (reference point) and
 * 1007/1008/1033 (descriptors), as laid out in section 3.5 of RTCM 10403.2. Coordinates are kept as the
 * raw integers on the wire.
 */
module Messages {
  import opened ByteStrings
  import Rtcm
  import Texts

  // ----- the bit reader -----

  /** The number spelled by `n` bits from bit position `pos` on. */
  function Field(data: Bytes, pos: nat, n: nat): nat
    requires pos + n <= 8 * |data|
  {
    BitsNat(Bits(data)[pos..pos + n])
  }

  lemma FieldStep(data: Bytes, pos: nat, n: nat)
    requires pos + n < 8 * |data|
    ensures Field(data, pos, n + 1) ==
      2 * Field(data, pos, n) + data[(pos + n) / 8] as nat / Pow2(7 - (pos + n) % 8) % 2
  {
    var bits := Bits(data);
    assert bits[pos..pos + n + 1] == bits[pos..pos + n] + [bits[pos + n]];
    OneMoreBit(bits[pos..pos + n], bits[pos + n]);
    BitValue(data, pos + n);
  }

  lemma OneMoreBit(bits: seq<bool>, bit: bool)
    ensures BitsNat(bits + [bit]) == 2 * BitsNat(bits) + if bit then 1 else 0
  {
    assert (bits + [bit])[..|bits|] == bits;
  }

  /** The bit at a position, counted from the most significant of its byte. */
  lemma BitValue(data: Bytes, p: nat)
    requires p < 8 * |data|
    ensures data[p / 8] as nat / Pow2(7 - p % 8) % 2 == if Bits(data)[p] then 1 else 0
  {
    BitsAt(data, p);
  }

  /** Reading `a` bits and then `b` bits splits what reading `a + b` bits gives. */
  lemma ReadSplits(data: Bytes, pos: nat, a: nat, b: nat)
    requires pos + a + b <= 8 * |data|
    ensures Field(data, pos, a + b) == Field(data, pos, a) * Pow2(b) + Field(data, pos + a, b)
  {
    var bits := Bits(data);
    assert bits[pos..pos + (a + b)] == bits[pos..pos + a] + bits[pos + a..pos + a + b];
    BitsNatAppend(bits[pos..pos + a], bits[pos + a..pos + a + b]);
  }

  /** The `w` bits from `o` on are those of `v`. */
  predicate Spells(bits: seq<bool>, o: nat, v: nat, w: nat)
  {
    o + w <= |bits| && bits[o..o + w] == NatBits(v, w)
  }

  lemma FieldFromBits(data: Bytes, o: nat, v: nat, w: nat)
    requires Spells(Bits(data), o, v, w) && v < Pow2(w)
    ensures o + w <= 8 * |data| && Field(data, o, w) == v
  {
    NatRoundTrip(v, w);
  }

  lemma SpelledBetween(a: seq<bool>, v: nat, w: nat, c: seq<bool>)
    ensures Spells(a + (NatBits(v, w) + c), |a|, v, w)
  {
  }

  lemma ByteBetween(pre: Bytes, b: byte, post: Bytes)
    ensures Spells(Bits(pre + ([b] + post)), 8 * |pre|, b, 8)
  {
    BitsAppend(pre, [b] + post);
    PackedFirst(b, post);
    SpelledBetween(Bits(pre), b, 8, Bits(post));
  }

  /** At a byte boundary, eight bits are the byte. */
  lemma FieldIsByte(data: Bytes, at: nat)
    requires at < |data|
    ensures Field(data, 8 * at, 8) == data[at]
  {
    var pre, b, post := data[..at], data[at], data[at + 1..];
    assert data == pre + ([b] + post);
    ByteBetween(pre, b, post);
    assert Pow2(8) == 256;
    FieldFromBits(data, 8 * at, b, 8);
  }

  /** What `read_bytes(n)` returns at byte `at`: cut short at the end of the data. */
  function Slice(data: Bytes, at: nat, n: nat): Bytes
  {
    if at >= |data| then [] else if at + n <= |data| then data[at..at + n] else data[at..]
  }

  class BitReader {
    const data: Bytes
    var bitpos: nat

    constructor (data: Bytes)
      ensures this.data == data && bitpos == 0
    {
      this.data := data;
      bitpos := 0;
    }

    method Skip(n: nat)
      modifies this
      ensures bitpos == old(bitpos) + n
    {
      bitpos := bitpos + n;
    }

    /** `None` stands for the IndexError raised when the data runs out. */
    method ReadBits(n: nat) returns (r: Option<nat>)
      modifies this
      ensures r.Some? <==> n == 0 || old(bitpos) + n <= 8 * |data|
      ensures r.Some? ==> bitpos == old(bitpos) + n
      ensures r.Some? && n > 0 ==> r.value == Field(data, old(bitpos), n)
    {
      var val := 0;
      ghost var start := bitpos;
      for k := 0 to n
        invariant bitpos == start + k && (k > 0 ==> bitpos <= 8 * |data|)
        invariant val == if k > 0 then Field(data, start, k) else 0
      {
        var byteIdx, off := bitpos / 8, 7 - bitpos % 8;
        if byteIdx >= |data| {
          return None;
        }
        FieldStep(data, start, k);
        var bit := data[byteIdx] as nat / Pow2(off) % 2;
        val := val * 2 + bit;
        bitpos := bitpos + 1;
      }
      return Some(val);
    }

    method ReadBytes(n: nat) returns (r: Bytes)
      modifies this
      ensures bitpos == (old(bitpos) + 7) / 8 * 8 + 8 * n
      ensures r == Slice(data, (old(bitpos) + 7) / 8, n)
    {
      if bitpos % 8 != 0 {
        bitpos := bitpos + (8 - bitpos % 8);
      }
      var byteIdx := bitpos / 8;
      var end := byteIdx + n;
      if end > |data| {
        end := |data|;
      }
      bitpos := bitpos + n * 8;
      return if byteIdx <= end then data[byteIdx..end] else [];
    }
  }

  // ----- lists of fields -----

  datatype BitField = BitField(value: nat, width: nat)

  predicate Fits(fields: seq<BitField>)
  {
    forall k :: 0 <= k < |fields| ==> fields[k].value < Pow2(fields[k].width)
  }

  function EncodeBits(fields: seq<BitField>): seq<bool>
  {
    if fields == [] then [] else NatBits(fields[0].value, fields[0].width) + EncodeBits(fields[1..])
  }

  /** Where field `k` of an encoding starts. */
  function Offset(fields: seq<BitField>, k: nat): nat
    requires k <= |fields|
  {
    if k == 0 then 0 else fields[0].width + Offset(fields[1..], k - 1)
  }

  lemma {:induction false} FieldBits(fields: seq<BitField>, k: nat, extra: seq<bool>)
    requires k < |fields|
    ensures Spells(EncodeBits(fields) + extra, Offset(fields, k), fields[k].value, fields[k].width)
  {
    var head, tail := NatBits(fields[0].value, fields[0].width), EncodeBits(fields[1..]);
    assert EncodeBits(fields) + extra == head + (tail + extra);
    if k > 0 {
      FieldBits(fields[1..], k - 1, extra);
      SpellsLater(head, tail + extra, Offset(fields[1..], k - 1), fields[k].value, fields[k].width);
    }
  }

  lemma SpellsLater(head: seq<bool>, bits: seq<bool>, o: nat, v: nat, w: nat)
    requires Spells(bits, o, v, w)
    ensures Spells(head + bits, |head| + o, v, w)
  {
    assert (head + bits)[|head| + o..|head| + o + w] == bits[o..o + w];
  }

  /** Whatever follows an encoding, each field is read back from its place. */
  lemma FieldReadBack(data: Bytes, fields: seq<BitField>, k: nat, extra: seq<bool>)
    requires Bits(data) == EncodeBits(fields) + extra && k < |fields| && Fits(fields)
    ensures Offset(fields, k) + fields[k].width <= 8 * |data|
    ensures Field(data, Offset(fields, k), fields[k].width) == fields[k].value
  {
    var f := fields[k];
    FieldBits(fields, k, extra);
    FieldFromBits(data, Offset(fields, k), f.value, f.width);
  }

  // ----- messages 1005 and 1006 -----

  const HALF38: int := 0x20_0000_0000  // 2^37
  const FULL38: int := 0x40_0000_0000  // 2^38

  datatype Station = Station(stationId: nat, x: int, y: int, z: int, height: Option<nat>)

  /** Bit 37 set means the number is negative, in two's complement. */
  function Signed38(v: nat): int
  {
    if v / HALF38 % 2 == 1 then v - FULL38 else v
  }

  function Unsigned38(v: int): nat
    requires -HALF38 <= v < HALF38
  {
    if v < 0 then v + FULL38 else v
  }

  function ParseStation(payload: Bytes): Option<Station>
  {
    var n := 8 * |payload|;
    if n < 12 then None
    else
      var mt := Field(payload, 0, 12);
      if mt != 1005 && mt != 1006 then None
      else if n < 152 || (mt == 1006 && n < 168) then None
      else
        Some(Station(Field(payload, 12, 12), Signed38(Field(payload, 34, 38)), Signed38(Field(payload, 74, 38)),
                     Signed38(Field(payload, 114, 38)), if mt == 1006 then Some(Field(payload, 152, 16)) else None))
  }

  /** The local function `s38` of the source. */
  method ReadSigned38(br: BitReader) returns (r: Option<int>)
    modifies br
    ensures r.Some? <==> old(br.bitpos) + 38 <= 8 * |br.data|
    ensures r.Some? ==> br.bitpos == old(br.bitpos) + 38 && r.value == Signed38(Field(br.data, old(br.bitpos), 38))
  {
    var v := br.ReadBits(38);
    if v == None {
      return None;
    }
    return Some(Signed38(v.value));
  }

  /** The six bits of ITRF year and four indicators, read one field at a time and not used. */
  method ReadIndicators(br: BitReader) returns (ok: bool)
    modifies br
    ensures ok <==> old(br.bitpos) + 10 <= 8 * |br.data|
    ensures ok ==> br.bitpos == old(br.bitpos) + 10
  {
    var u := br.ReadBits(6);
    if u == None { return false; }
    u := br.ReadBits(1);
    if u == None { return false; }
    u := br.ReadBits(1);
    if u == None { return false; }
    u := br.ReadBits(1);
    if u == None { return false; }
    u := br.ReadBits(1);
    return u.Some?;
  }

  /** The three coordinates with two unused bits between them. */
  method ReadPosition(br: BitReader) returns (r: Option<(int, int, int)>)
    modifies br
    ensures r.Some? <==> old(br.bitpos) + 118 <= 8 * |br.data|
    ensures r.Some? ==> br.bitpos == old(br.bitpos) + 118
    ensures r.Some? ==> var p := old(br.bitpos);
      r.value == (Signed38(Field(br.data, p, 38)), Signed38(Field(br.data, p + 40, 38)),
                  Signed38(Field(br.data, p + 80, 38)))
  {
    var x := ReadSigned38(br);
    if x == None { return None; }
    var u := br.ReadBits(2);
    if u == None { return None; }
    var y := ReadSigned38(br);
    if y == None { return None; }
    u := br.ReadBits(2);
    if u == None { return None; }
    var z := ReadSigned38(br);
    if z == None { return None; }
    return Some((x.value, y.value, z.value));
  }

  /** `parse_rtcm_1005_1006`; an exception anywhere makes the result `None`. */
  method ParseRtcm1005Or1006(payload: Bytes) returns (r: Option<Station>)
    ensures r == ParseStation(payload)
  {
    var br := new BitReader(payload);
    var mt := br.ReadBits(12);
    if mt == None || (mt.value != 1005 && mt.value != 1006) {
      return None;
    }
    var stid := br.ReadBits(12);
    if stid == None { return None; }
    var ok := ReadIndicators(br);
    if !ok { return None; }
    var p := ReadPosition(br);
    if p == None { return None; }
    var h: Option<nat> := None;
    if mt.value == 1006 {
      h := br.ReadBits(16);
      if h == None { return None; }
    }
    return Some(Station(stid.value, p.value.0, p.value.1, p.value.2, h));
  }

  /** The bits of the message that the parser skips over. */
  datatype Unused = Unused(itrf: nat, indicators: nat, oscillator: nat, quarterCycle: nat)

  predicate StationInRange(s: Station, u: Unused)
  {
    && s.stationId < 4096 && -HALF38 <= s.x < HALF38 && -HALF38 <= s.y < HALF38 && -HALF38 <= s.z < HALF38
    && (s.height.Some? ==> s.height.value < 65536)
    && u.itrf < 64 && u.indicators < 16 && u.oscillator < 4 && u.quarterCycle < 4
  }

  function StationFields(s: Station, u: Unused): seq<BitField>
    requires StationInRange(s, u)
  {
    [BitField(if s.height.Some? then 1006 else 1005, 12), BitField(s.stationId, 12), BitField(u.itrf, 6),
     BitField(u.indicators, 4), BitField(Unsigned38(s.x), 38), BitField(u.oscillator, 2),
     BitField(Unsigned38(s.y), 38), BitField(u.quarterCycle, 2), BitField(Unsigned38(s.z), 38)] +
    (if s.height.Some? then [BitField(s.height.value, 16)] else [])
  }

  lemma Widths()
    ensures Pow2(2) == 4 && Pow2(4) == 16 && Pow2(6) == 64 && Pow2(12) == 4096
    ensures Pow2(16) == 65536 && Pow2(38) == FULL38
  {
    assert Pow2(8) == 256;
    assert Pow2(20) == 0x10_0000;
    assert Pow2(24) == 0x100_0000;
    assert Pow2(28) == 0x1000_0000;
    assert Pow2(32) == 0x1_0000_0000;
    assert Pow2(36) == 0x10_0000_0000;
  }

  lemma SignedRoundTrip(v: int)
    requires -HALF38 <= v < HALF38
    ensures Unsigned38(v) < FULL38 && Signed38(Unsigned38(v)) == v
  {
  }

  lemma StationFieldsFit(s: Station, u: Unused)
    requires StationInRange(s, u)
    ensures Fits(StationFields(s, u))
  {
    Widths();
    SignedRoundTrip(s.x);
    SignedRoundTrip(s.y);
    SignedRoundTrip(s.z);
  }

  lemma OffsetNext(fields: seq<BitField>, k: nat)
    requires k < |fields|
    ensures Offset(fields, k + 1) == Offset(fields, k) + fields[k].width
    decreases k
  {
    if k > 0 {
      OffsetNext(fields[1..], k - 1);
    }
  }

  lemma StationOffsets(s: Station, u: Unused)
    requires StationInRange(s, u)
    ensures var f := StationFields(s, u);
      && Offset(f, 0) == 0 && Offset(f, 1) == 12 && Offset(f, 4) == 34 && Offset(f, 6) == 74 && Offset(f, 8) == 114
      && Offset(f, 9) == 152 && Offset(f, |f|) == (if s.height.Some? then 168 else 152)
  {
    var f := StationFields(s, u);
    OffsetNext(f, 0);
    OffsetNext(f, 1);
    OffsetNext(f, 2);
    OffsetNext(f, 3);
    OffsetNext(f, 4);
    OffsetNext(f, 5);
    OffsetNext(f, 6);
    OffsetNext(f, 7);
    OffsetNext(f, 8);
    if s.height.Some? {
      OffsetNext(f, 9);
    }
  }

  /**
   * Every station id, every signed 38-bit coordinate and every height survive encoding and parsing,
   * whatever the skipped bits are and whatever follows the message.
   */
  lemma StationRoundTrip(data: Bytes, s: Station, u: Unused, extra: seq<bool>)
    requires StationInRange(s, u) && Bits(data) == EncodeBits(StationFields(s, u)) + extra
    ensures ParseStation(data) == Some(s)
  {
    var f := StationFields(s, u);
    StationFieldsFit(s, u);
    StationOffsets(s, u);
    FieldReadBack(data, f, 0, extra);
    FieldReadBack(data, f, 1, extra);
    FieldReadBack(data, f, 4, extra);
    FieldReadBack(data, f, 6, extra);
    FieldReadBack(data, f, 8, extra);
    SignedRoundTrip(s.x);
    SignedRoundTrip(s.y);
    SignedRoundTrip(s.z);
    if s.height.Some? {
      FieldReadBack(data, f, 9, extra);
    }
  }

  lemma FieldSpells(data: Bytes, o: nat, w: nat)
    requires o + w <= 8 * |data|
    ensures Spells(Bits(data), o, Field(data, o, w), w) && Field(data, o, w) < Pow2(w)
  {
    BitsRoundTrip(Bits(data)[o..o + w]);
  }

  /** All fields stand one after the other in the bits. */
  ghost predicate AllSpelled(bits: seq<bool>, fields: seq<BitField>)
  {
    forall k :: 0 <= k < |fields| ==> Spells(bits, Offset(fields, k), fields[k].value, fields[k].width)
  }

  lemma SpellsEarlier(bits: seq<bool>, w0: nat, o: nat, v: nat, w: nat)
    requires Spells(bits, w0 + o, v, w)
    ensures Spells(bits[w0..], o, v, w)
  {
    assert bits[w0..][o..o + w] == bits[w0 + o..w0 + o + w];
  }

  lemma {:induction false} EncodedIfSpelled(bits: seq<bool>, fields: seq<BitField>)
    requires AllSpelled(bits, fields)
    ensures EncodeBits(fields) <= bits
  {
    if fields != [] {
      var w, rest := fields[0].width, fields[1..];
      assert Spells(bits, Offset(fields, 0), fields[0].value, w);
      assert bits[..w] == NatBits(fields[0].value, w);
      forall k | 0 <= k < |rest|
        ensures Spells(bits[w..], Offset(rest, k), rest[k].value, rest[k].width)
      {
        assert Spells(bits, Offset(fields, k + 1), fields[k + 1].value, fields[k + 1].width);
        SpellsEarlier(bits, w, Offset(rest, k), rest[k].value, rest[k].width);
      }
      EncodedIfSpelled(bits[w..], rest);
      assert bits == bits[..w] + bits[w..];
    }
  }

  lemma UnsignedRoundTrip(v: nat)
    requires v < FULL38
    ensures -HALF38 <= Signed38(v) < HALF38 && Unsigned38(Signed38(v)) == v
  {
  }

  /** The bits a parsed message skips. */
  function UnusedIn(data: Bytes): Unused
    requires |data| >= 19
  {
    Unused(Field(data, 24, 6), Field(data, 30, 4), Field(data, 72, 2), Field(data, 112, 2))
  }

  lemma ParsedInRange(data: Bytes, s: Station)
    requires ParseStation(data) == Some(s)
    ensures |data| >= 19 && StationInRange(s, UnusedIn(data))
  {
    Widths();
    FieldSpells(data, 12, 12);
    FieldSpells(data, 24, 6);
    FieldSpells(data, 30, 4);
    FieldSpells(data, 34, 38);
    FieldSpells(data, 72, 2);
    FieldSpells(data, 74, 38);
    FieldSpells(data, 112, 2);
    FieldSpells(data, 114, 38);
    UnsignedRoundTrip(Field(data, 34, 38));
    UnsignedRoundTrip(Field(data, 74, 38));
    UnsignedRoundTrip(Field(data, 114, 38));
    if s.height.Some? {
      FieldSpells(data, 152, 16);
    }
  }

  lemma OtherOffsets(s: Station, u: Unused)
    requires StationInRange(s, u)
    ensures var f := StationFields(s, u);
      Offset(f, 2) == 24 && Offset(f, 3) == 30 && Offset(f, 5) == 72 && Offset(f, 7) == 112
  {
    var f := StationFields(s, u);
    OffsetNext(f, 0);
    OffsetNext(f, 1);
    OffsetNext(f, 2);
    OffsetNext(f, 3);
    OffsetNext(f, 4);
    OffsetNext(f, 5);
    OffsetNext(f, 6);
  }

  /** Each field of the message has the value that stands in its place. */
  lemma ParsedValue(data: Bytes, s: Station, k: nat)
    requires ParseStation(data) == Some(s) && |data| >= 19 && StationInRange(s, UnusedIn(data))
    requires k < |StationFields(s, UnusedIn(data))|
    ensures var f := StationFields(s, UnusedIn(data));
      Offset(f, k) + f[k].width <= 8 * |data| && f[k].value == Field(data, Offset(f, k), f[k].width)
  {
    var f := StationFields(s, UnusedIn(data));
    StationOffsets(s, UnusedIn(data));
    OtherOffsets(s, UnusedIn(data));
    if k == 4 || k == 6 || k == 8 {
      Widths();
      FieldSpells(data, Offset(f, k), 38);
      UnsignedRoundTrip(Field(data, Offset(f, k), 38));
    }
  }

  lemma ParsedIsSpelled(data: Bytes, s: Station, k: nat)
    requires ParseStation(data) == Some(s) && |data| >= 19 && StationInRange(s, UnusedIn(data))
    requires k < |StationFields(s, UnusedIn(data))|
    ensures var f := StationFields(s, UnusedIn(data));
      Spells(Bits(data), Offset(f, k), f[k].value, f[k].width)
  {
    var f := StationFields(s, UnusedIn(data));
    ParsedValue(data, s, k);
    FieldSpells(data, Offset(f, k), f[k].width);
  }

  /** The message is in the bits, whatever the skipped ones are and whatever follows. */
  ghost predicate StationLaidOut(data: Bytes, s: Station, u: Unused)
  {
    StationInRange(s, u) && EncodeBits(StationFields(s, u)) <= Bits(data)
  }

  /** A payload parses to a station exactly when it starts with an encoding of it, and to none otherwise. */
  lemma StationParsesIffLaidOut(data: Bytes, s: Station)
    ensures ParseStation(data) == Some(s) <==> exists u :: StationLaidOut(data, s, u)
  {
    if ParseStation(data) == Some(s) {
      ParsedInRange(data, s);
      var f := StationFields(s, UnusedIn(data));
      forall k | 0 <= k < |f|
        ensures Spells(Bits(data), Offset(f, k), f[k].value, f[k].width)
      {
        ParsedIsSpelled(data, s, k);
      }
      EncodedIfSpelled(Bits(data), f);
      assert StationLaidOut(data, s, UnusedIn(data));
    }
    if exists u :: StationLaidOut(data, s, u) {
      var u :| StationLaidOut(data, s, u);
      var encoded := EncodeBits(StationFields(s, u));
      assert Bits(data) == encoded + Bits(data)[|encoded|..];
      StationRoundTrip(data, s, u, Bits(data)[|encoded|..]);
    }
  }

  lemma {:induction false} EncodedLength(fields: seq<BitField>)
    ensures |EncodeBits(fields)| == Offset(fields, |fields|)
  {
    if fields != [] {
      EncodedLength(fields[1..]);
    }
  }

  /** The message as bytes: 19 of them without a height, 21 with one. */
  function EncodeStation(s: Station, u: Unused): (data: Bytes)
    requires StationInRange(s, u)
    ensures |data| == if s.height.Some? then 21 else 19
    ensures ParseStation(data) == Some(s)
  {
    var f := StationFields(s, u);
    StationOffsets(s, u);
    EncodedLength(f);
    PackRoundTrip(EncodeBits(f));
    assert EncodeBits(f) + [] == EncodeBits(f);
    StationRoundTrip(Pack(EncodeBits(f)), s, u, []);
    Pack(EncodeBits(f))
  }

  // ----- descriptors -----

  /** A counted text read at byte `at`, and the position after it by its count, even beyond the end. */
  function TextAt(data: Bytes, at: nat): Option<(Bytes, nat)>
  {
    if at >= |data| then None else Some((Slice(data, at + 1, data[at]), at + 1 + data[at]))
  }

  /** A counted text on the wire. */
  function Counted(text: Bytes): Bytes
    requires |text| <= 255
  {
    [|text| as byte] + text
  }

  datatype Antenna = Antenna(descriptor: Bytes, serial: Option<Bytes>)

  function ParseAntenna(payload: Bytes): Option<Antenna>
  {
    if |payload| < 2 then None
    else
      var mt := Field(payload, 0, 12);
      if mt != 1007 && mt != 1008 then None
      else if |payload| < 3 then None
      else
        match TextAt(payload, 3)
        case None => None
        case Some((descriptor, p)) =>
          if p >= |payload| then None  // the setup id
          else if mt == 1007 then Some(Antenna(descriptor, None))
          else
            match TextAt(payload, p + 1)
            case None => None
            case Some((serial, _)) => Some(Antenna(descriptor, Some(serial)))
  }

  datatype Receiver = Receiver(antenna: Bytes, antennaSerial: Bytes, receiver: Bytes, version: Bytes, serial: Bytes)

  /** Four counted texts in a row, the last four of message 1033. */
  function FourTexts(payload: Bytes, at: nat): Option<(Bytes, Bytes, Bytes, Bytes)>
  {
    match TextAt(payload, at)
    case None => None
    case Some((a, p)) =>
      match TextAt(payload, p)
      case None => None
      case Some((b, q)) => LastTwoTexts(payload, q, a, b)
  }

  function LastTwoTexts(payload: Bytes, at: nat, a: Bytes, b: Bytes): Option<(Bytes, Bytes, Bytes, Bytes)>
  {
    match TextAt(payload, at)
    case None => None
    case Some((c, p)) =>
      match TextAt(payload, p)
      case None => None
      case Some((d, _)) => Some((a, b, c, d))
  }

  function ParseReceiver(payload: Bytes): Option<Receiver>
  {
    if |payload| < 3 then None
    else
      match TextAt(payload, 3)
      case None => None
      case Some((antenna, p)) => ReceiverAfter(payload, p, antenna)
  }

  /** The setup id and the last four texts of message 1033. */
  function ReceiverAfter(payload: Bytes, at: nat, antenna: Bytes): Option<Receiver>
  {
    if at >= |payload| then None
    else
      match FourTexts(payload, at + 1)
      case None => None
      case Some((a, b, c, d)) => Some(Receiver(antenna, a, b, c, d))
  }

  /** A length and that many bytes; `read_bytes` is reached only at byte boundaries. */
  method ReadText(br: BitReader, ghost at: nat) returns (r: Option<Bytes>)
    requires br.bitpos == 8 * at
    modifies br
    ensures r.Some? <==> TextAt(br.data, at).Some?
    ensures r.Some? ==> r.value == TextAt(br.data, at).value.0 && br.bitpos == 8 * TextAt(br.data, at).value.1
  {
    var n := br.ReadBits(8);
    if n == None {
      return None;
    }
    FieldIsByte(br.data, at);
    assert br.bitpos % 8 == 0;
    var text := br.ReadBytes(n.value);
    return Some(text);
  }

  /** Messages 1007 and 1008 as they stand in the payload. */
  method ReadAntenna(payload: Bytes) returns (r: Option<Antenna>)
    ensures r == ParseAntenna(payload)
  {
    var br := new BitReader(payload);
    var mt := br.ReadBits(12);
    if mt == None || (mt.value != 1007 && mt.value != 1008) {
      return None;
    }
    var station := br.ReadBits(12);
    if station == None {
      return None;
    }
    var descriptor := ReadText(br, 3);
    if descriptor == None {
      return None;
    }
    var setup := br.ReadBits(8);
    if setup == None {
      return None;
    }
    if mt.value == 1007 {
      return Some(Antenna(descriptor.value, None));
    }
    var serial := ReadText(br, br.bitpos / 8);
    if serial == None {
      return None;
    }
    return Some(Antenna(descriptor.value, serial));
  }

  method ReadTwoTexts(br: BitReader, ghost at: nat, a: Bytes, b: Bytes)
    returns (r: Option<(Bytes, Bytes, Bytes, Bytes)>)
    requires br.bitpos == 8 * at
    modifies br
    ensures r == LastTwoTexts(br.data, at, a, b)
  {
    var version := ReadText(br, at);
    if version == None {
      return None;
    }
    var serial := ReadText(br, br.bitpos / 8);
    if serial == None {
      return None;
    }
    return Some((a, b, version.value, serial.value));
  }

  method ReadFourTexts(br: BitReader, ghost at: nat) returns (r: Option<(Bytes, Bytes, Bytes, Bytes)>)
    requires br.bitpos == 8 * at
    modifies br
    ensures r == FourTexts(br.data, at)
  {
    var antennaSerial := ReadText(br, at);
    if antennaSerial == None {
      return None;
    }
    var receiver := ReadText(br, br.bitpos / 8);
    if receiver == None {
      return None;
    }
    r := ReadTwoTexts(br, br.bitpos / 8, antennaSerial.value, receiver.value);
  }

  method ReadAfterAntenna(br: BitReader, ghost at: nat, antenna: Bytes) returns (r: Option<Receiver>)
    requires br.bitpos == 8 * at
    modifies br
    ensures r == ReceiverAfter(br.data, at, antenna)
  {
    var setup := br.ReadBits(8);
    if setup == None {
      return None;
    }
    var texts := ReadFourTexts(br, at + 1);
    if texts == None {
      return None;
    }
    return Some(Receiver(antenna, texts.value.0, texts.value.1, texts.value.2, texts.value.3));
  }

  /** Message 1033 as it stands in the payload. */
  method ReadReceiver(payload: Bytes) returns (r: Option<Receiver>)
    ensures r == ParseReceiver(payload)
  {
    var br := new BitReader(payload);
    br.Skip(12);
    var station := br.ReadBits(12);
    if station == None {
      return None;
    }
    var antenna := ReadText(br, 3);
    if antenna == None {
      return None;
    }
    r := ReadAfterAntenna(br, br.bitpos / 8, antenna.value);
  }

  // ----- texts as they are returned -----

  /** `decode("ascii", errors="ignore")` drops the other bytes. */
  function DecodeAscii(raw: Bytes): string
  {
    if raw == [] then [] else (if raw[0] as nat < 128 then [raw[0] as char] else []) + DecodeAscii(raw[1..])
  }

  /** A descriptor as it is returned. */
  function Text(raw: Bytes): string
  {
    Texts.Strip(DecodeAscii(raw))
  }

  /** The text has these bytes as its characters. */
  predicate Same(text: string, raw: Bytes)
  {
    |text| == |raw| && forall i :: 0 <= i < |raw| ==> text[i] == raw[i] as char
  }

  predicate AllAscii(raw: Bytes)
  {
    forall i :: 0 <= i < |raw| ==> raw[i] as nat < 128
  }

  /** ASCII white space: tab to carriage return, the four separators, and the blank. */
  predicate IsSpace(b: byte)
  {
    var c: nat := b;
    9 <= c <= 13 || 28 <= c <= 32
  }

  lemma {:induction false} AsciiKept(raw: Bytes)
    ensures if AllAscii(raw) then Same(DecodeAscii(raw), raw) else |DecodeAscii(raw)| < |raw|
  {
    if raw != [] {
      AsciiKept(raw[1..]);
      assert AllAscii(raw) <==> raw[0] as nat < 128 && AllAscii(raw[1..]) by {
        assert forall i :: 1 <= i < |raw| ==> raw[i] == raw[1..][i - 1];
      }
    }
  }

  /** ASCII without white space around it. */
  predicate Trimmed(raw: Bytes)
  {
    AllAscii(raw) && (raw == [] || (!IsSpace(raw[0]) && !IsSpace(raw[|raw| - 1])))
  }

  /** A text is returned as it stands exactly when it is ASCII without white space around it. */
  lemma TextKeptIff(raw: Bytes)
    ensures Same(Text(raw), raw) <==> Trimmed(raw)
  {
    AsciiKept(raw);
    Texts.TrimKeptIff(DecodeAscii(raw), true);
  }

  lemma {:induction false} DecodeAppend(a: Bytes, b: Bytes)
    ensures DecodeAscii(a + b) == DecodeAscii(a) + DecodeAscii(b)
  {
    if a == [] {
      assert a + b == b;
    } else {
      assert (a + b)[0] == a[0] && (a + b)[1..] == a[1..] + b;
      DecodeAppend(a[1..], b);
    }
  }

  /** White space and bytes that are not ASCII. */
  predicate Padding(raw: Bytes)
  {
    forall i :: 0 <= i < |raw| ==> raw[i] as nat >= 128 || IsSpace(raw[i])
  }

  lemma {:induction false} DecodedPadding(raw: Bytes)
    requires Padding(raw)
    ensures forall c :: c in DecodeAscii(raw) ==> Texts.IsSpace(c, true)
  {
    if raw != [] {
      assert forall i :: 0 <= i < |raw| - 1 ==> raw[1..][i] == raw[i + 1];
      DecodedPadding(raw[1..]);
    }
  }

  /** Padding around a text is taken away. */
  lemma TextOfPadded(pre: Bytes, text: Bytes, post: Bytes)
    requires Padding(pre) && Trimmed(text) && Padding(post)
    ensures Same(Text(pre + text + post), text)
  {
    DecodeAppend(pre + text, post);
    DecodeAppend(pre, text);
    DecodedPadding(pre);
    DecodedPadding(post);
    AsciiKept(text);
    Texts.TrimPadded(DecodeAscii(pre), DecodeAscii(text), DecodeAscii(post), true);
  }

  datatype AntennaTexts = AntennaTexts(descriptor: string, serial: Option<string>)

  /** An empty serial is left out of the result. */
  function TextsOfAntenna(a: Antenna): AntennaTexts
  {
    var serial := if a.serial.Some? then Text(a.serial.value) else [];
    AntennaTexts(Text(a.descriptor), if serial == [] then None else Some(serial))
  }

  datatype ReceiverTexts =
    ReceiverTexts(antenna: string, antennaSerial: string, receiver: string, version: string, serial: string)

  function TextsOfReceiver(r: Receiver): ReceiverTexts
  {
    ReceiverTexts(Text(r.antenna), Text(r.antennaSerial), Text(r.receiver), Text(r.version), Text(r.serial))
  }

  /** What is returned for a payload. */
  function AntennaResult(payload: Bytes): Option<AntennaTexts>
  {
    match ParseAntenna(payload)
    case None => None
    case Some(a) => Some(TextsOfAntenna(a))
  }

  function ReceiverResult(payload: Bytes): Option<ReceiverTexts>
  {
    match ParseReceiver(payload)
    case None => None
    case Some(r) => Some(TextsOfReceiver(r))
  }

  /** `parse_rtcm_1007_1008` */
  method ParseRtcm1007Or1008(payload: Bytes) returns (r: Option<AntennaTexts>)
    ensures r == AntennaResult(payload)
  {
    var raw := ReadAntenna(payload);
    if raw == None {
      return None;
    }
    var out := AntennaTexts(Text(raw.value.descriptor), None);
    if raw.value.serial.Some? {
      var serial := Text(raw.value.serial.value);
      if serial != [] {
        out := out.(serial := Some(serial));
      }
    }
    return Some(out);
  }

  /** `parse_rtcm_1033` */
  method ParseRtcm1033(payload: Bytes) returns (r: Option<ReceiverTexts>)
    ensures r == ReceiverResult(payload)
  {
    var raw := ReadReceiver(payload);
    if raw == None {
      return None;
    }
    var t := raw.value;
    return Some(ReceiverTexts(Text(t.antenna), Text(t.antennaSerial), Text(t.receiver), Text(t.version),
                              Text(t.serial)));
  }

  // ----- what a parsed descriptor says about the payload -----

  lemma CountedRead(pre: Bytes, text: Bytes, post: Bytes)
    requires |text| <= 255
    ensures TextAt(pre + Counted(text) + post, |pre|) == Some((text, |pre + Counted(text)|))
  {
    var data := pre + Counted(text) + post;
    assert data[|pre|] == |text|;
    assert data[|pre| + 1..|pre| + 1 + |text|] == text;
  }

  /** A text that ends within the data was complete. */
  lemma ReadCounted(data: Bytes, at: nat)
    requires TextAt(data, at).Some? && TextAt(data, at).value.1 <= |data|
    ensures var (text, end) := TextAt(data, at).value;
      |text| <= 255 && data[at..end] == Counted(text)
  {
  }

  /** The last text of a message: `n` announced, cut short only by the end of the payload. */
  predicate LastText(tail: Bytes, text: Bytes)
  {
    tail != [] && |text| <= tail[0] as nat && text <= tail[1..] && (|text| < tail[0] as nat ==> |tail| == 1 + |text|)
  }

  lemma LastTextRead(data: Bytes, at: nat, text: Bytes)
    requires at <= |data|
    ensures (TextAt(data, at).Some? && TextAt(data, at).value.0 == text) <==> LastText(data[at..], text)
  {
    var tail := data[at..];
    if tail != [] {
      assert tail[0] == data[at] && tail[1..] == data[at + 1..];
    }
  }

  /** The fields of message 1033 before the last, as they stand on the wire. */
  function ReceiverPrefix(head: Bytes, setup: byte, r: Receiver): Bytes
    requires |r.antenna| <= 255 && |r.antennaSerial| <= 255 && |r.receiver| <= 255 && |r.version| <= 255
  {
    head + Counted(r.antenna) + [setup] + Counted(r.antennaSerial) + Counted(r.receiver) + Counted(r.version)
  }

  ghost predicate ReceiverLayout(payload: Bytes, r: Receiver, head: Bytes, setup: byte)
  {
    && |head| == 3
    && |r.antenna| <= 255 && |r.antennaSerial| <= 255 && |r.receiver| <= 255 && |r.version| <= 255
    && ReceiverPrefix(head, setup, r) <= payload
    && LastText(payload[|ReceiverPrefix(head, setup, r)|..], r.serial)
  }

  lemma ReceiverFromTexts(payload: Bytes, r: Receiver, p1: nat, p2: nat, p3: nat, p4: nat)
    requires |payload| >= 3 && TextsAt(payload, r, p1, p2, p3, p4)
    ensures ParseReceiver(payload) == Some(r)
  {
    assert FourTexts(payload, p1 + 1) == Some((r.antennaSerial, r.receiver, r.version, r.serial));
  }

  lemma ReceiverFromLayout(payload: Bytes, r: Receiver, head: Bytes, setup: byte)
    requires ReceiverLayout(payload, r, head, setup)
    ensures ParseReceiver(payload) == Some(r)
  {
    var a := head + Counted(r.antenna);
    var b := a + [setup];
    var c := b + Counted(r.antennaSerial);
    var d := c + Counted(r.receiver);
    var e := d + Counted(r.version);
    assert e == ReceiverPrefix(head, setup, r);
    CountedIn(payload, head, r.antenna);
    CountedIn(payload, b, r.antennaSerial);
    CountedIn(payload, c, r.receiver);
    CountedIn(payload, d, r.version);
    LastTextRead(payload, |e|, r.serial);
    ReceiverFromTexts(payload, r, |a|, |c|, |d|, |e|);
  }

  lemma CountedIn(payload: Bytes, pre: Bytes, text: Bytes)
    requires |text| <= 255 && pre + Counted(text) <= payload
    ensures TextAt(payload, |pre|) == Some((text, |pre + Counted(text)|))
  {
    var post := payload[|pre + Counted(text)|..];
    assert payload == pre + Counted(text) + post;
    CountedRead(pre, text, post);
  }

  lemma ExtendByText(data: Bytes, at: nat, prefix: Bytes)
    requires TextAt(data, at).Some? && TextAt(data, at).value.1 <= |data| && prefix == data[..at]
    ensures var (text, end) := TextAt(data, at).value; |text| <= 255 && data[..end] == prefix + Counted(text)
  {
    ReadCounted(data, at);
    var end := TextAt(data, at).value.1;
    assert data[..end] == data[..at] + data[at..end];
  }

  /** Where the last four texts of a parsed message start; each start but the first is the end of the text before. */
  ghost predicate TextsAt(payload: Bytes, r: Receiver, p1: nat, p2: nat, p3: nat, p4: nat)
  {
    && TextAt(payload, 3) == Some((r.antenna, p1)) && p1 < |payload|
    && TextAt(payload, p1 + 1) == Some((r.antennaSerial, p2))
    && TextAt(payload, p2) == Some((r.receiver, p3))
    && TextAt(payload, p3) == Some((r.version, p4))
    && TextAt(payload, p4).Some? && TextAt(payload, p4).value.0 == r.serial
  }

  lemma ParsedTexts(payload: Bytes, r: Receiver)
    requires ParseReceiver(payload) == Some(r)
    ensures exists p1: nat, p2: nat, p3: nat, p4: nat :: TextsAt(payload, r, p1, p2, p3, p4)
  {
    var p1 := TextAt(payload, 3).value.1;
    var p2 := TextAt(payload, p1 + 1).value.1;
    var p3 := TextAt(payload, p2).value.1;
    var p4 := TextAt(payload, p3).value.1;
    assert TextsAt(payload, r, p1, p2, p3, p4);
  }

  lemma LayoutFromTexts(payload: Bytes, r: Receiver, p1: nat, p2: nat, p3: nat, p4: nat)
    requires TextsAt(payload, r, p1, p2, p3, p4)
    ensures ReceiverLayout(payload, r, payload[..3], payload[p1])
  {
    var head, setup := payload[..3], payload[p1];
    ExtendByText(payload, 3, head);
    var a := head + Counted(r.antenna);
    assert payload[..p1 + 1] == a + [setup];
    ExtendByText(payload, p1 + 1, a + [setup]);
    ExtendByText(payload, p2, a + [setup] + Counted(r.antennaSerial));
    ExtendByText(payload, p3, a + [setup] + Counted(r.antennaSerial) + Counted(r.receiver));
    assert payload[..p4] == ReceiverPrefix(head, setup, r);
    LastTextRead(payload, p4, r.serial);
  }

  lemma LayoutFromReceiver(payload: Bytes, r: Receiver)
    requires ParseReceiver(payload) == Some(r)
    ensures exists head: Bytes, setup: byte :: ReceiverLayout(payload, r, head, setup)
  {
    ParsedTexts(payload, r);
    var p1: nat, p2: nat, p3: nat, p4: nat :| TextsAt(payload, r, p1, p2, p3, p4);
    LayoutFromTexts(payload, r, p1, p2, p3, p4);
  }

  /**
   * Message 1033 parses to `r` exactly when it holds, after three bytes of header, all fields of `r` with
   * their announced lengths; only the last may be cut short, and then by the end of the payload.
   */
  lemma ReceiverParsesIffLaidOut(payload: Bytes, r: Receiver)
    ensures ParseReceiver(payload) == Some(r) <==>
      exists head: Bytes, setup: byte :: ReceiverLayout(payload, r, head, setup)
  {
    if ParseReceiver(payload) == Some(r) {
      LayoutFromReceiver(payload, r);
    }
    if exists head: Bytes, setup: byte :: ReceiverLayout(payload, r, head, setup) {
      var head: Bytes, setup: byte :| ReceiverLayout(payload, r, head, setup);
      ReceiverFromLayout(payload, r, head, setup);
    }
  }

  /** The first three bytes of messages 1007, 1008 and 1033: type and station id. */
  function Header(mt: nat, station: nat): (head: Bytes)
    requires mt < 4096 && station < 4096
    ensures |head| == 3
  {
    [mt / 16, mt % 16 * 16 + station / 256, station % 256]
  }

  /** The parsers read the type that the framing reads (src/rtcm.py:21-24). */
  lemma HeaderType(mt: nat, station: nat, rest: Bytes)
    requires mt < 4096 && station < 4096
    ensures Field(Header(mt, station) + rest, 0, 12) == mt
  {
    var data := Header(mt, station) + rest;
    Rtcm.MessageTypeIsFirstTwelveBits(data);
    assert Bits(data)[0..12] == Bits(data)[..12];
  }

  /** Descriptors of all lengths from 0 to 255 survive encoding and parsing as message 1033. */
  lemma ReceiverRoundTrip(station: nat, setup: byte, r: Receiver)
    requires station < 4096 && |r.serial| <= 255
    requires |r.antenna| <= 255 && |r.antennaSerial| <= 255 && |r.receiver| <= 255 && |r.version| <= 255
    ensures ParseReceiver(ReceiverPrefix(Header(1033, station), setup, r) + Counted(r.serial)) == Some(r)
  {
    var prefix := ReceiverPrefix(Header(1033, station), setup, r);
    var payload := prefix + Counted(r.serial);
    assert payload[|prefix|..] == Counted(r.serial) && Counted(r.serial)[1..] == r.serial;
    ReceiverFromLayout(payload, r, Header(1033, station), setup);
  }

  /** Messages 1007 and 1008 on the wire. */
  function EncodeAntenna(station: nat, setup: byte, a: Antenna): Bytes
    requires station < 4096 && |a.descriptor| <= 255 && (a.serial.Some? ==> |a.serial.value| <= 255)
  {
    Header(if a.serial.Some? then 1008 else 1007, station) + Counted(a.descriptor) + [setup] +
    (if a.serial.Some? then Counted(a.serial.value) else [])
  }

  /** Descriptors and serials of all lengths from 0 to 255 survive encoding and parsing. */
  lemma AntennaRoundTrip(station: nat, setup: byte, a: Antenna, extra: Bytes)
    requires station < 4096 && |a.descriptor| <= 255 && (a.serial.Some? ==> |a.serial.value| <= 255)
    ensures ParseAntenna(EncodeAntenna(station, setup, a) + extra) == Some(a)
  {
    var mt := if a.serial.Some? then 1008 else 1007;
    var head := Header(mt, station);
    var data := EncodeAntenna(station, setup, a) + extra;
    assert data == head + data[3..];
    HeaderType(mt, station, data[3..]);
    CountedIn(data, head, a.descriptor);
    if a.serial.Some? {
      CountedIn(data, head + Counted(a.descriptor) + [setup], a.serial.value);
    }
  }

  /** Message 1007 or 1008 in a payload: only the serial may be cut short, and then by the end of the payload. */
  ghost predicate AntennaLayout(payload: Bytes, a: Antenna, head: Bytes, setup: byte)
  {
    && |head| == 3 && BitsNat(Bits(head)[..12]) == (if a.serial.Some? then 1008 else 1007)
    && |a.descriptor| <= 255 && head + Counted(a.descriptor) + [setup] <= payload
    && (a.serial.Some? ==> LastText(payload[5 + |a.descriptor|..], a.serial.value))
  }

  lemma TypeInHead(payload: Bytes)
    requires |payload| >= 3
    ensures Field(payload, 0, 12) == BitsNat(Bits(payload[..3])[..12])
  {
    assert payload == payload[..3] + payload[3..];
    BitsAppend(payload[..3], payload[3..]);
    assert Bits(payload)[0..12] == Bits(payload[..3])[..12];
  }

  lemma AntennaFromLayout(payload: Bytes, a: Antenna, head: Bytes, setup: byte)
    requires AntennaLayout(payload, a, head, setup)
    ensures ParseAntenna(payload) == Some(a)
  {
    var n := 5 + |a.descriptor|;
    assert payload[..3] == head;
    TypeInHead(payload);
    CountedIn(payload, head, a.descriptor);
    if a.serial.Some? {
      LastTextRead(payload, n, a.serial.value);
    }
  }

  lemma LayoutFromAntenna(payload: Bytes, a: Antenna)
    requires ParseAntenna(payload) == Some(a)
    ensures exists head: Bytes, setup: byte :: AntennaLayout(payload, a, head, setup)
  {
    var head, p := payload[..3], TextAt(payload, 3).value.1;
    TypeInHead(payload);
    ExtendByText(payload, 3, head);
    assert payload[..p + 1] == head + Counted(a.descriptor) + [payload[p]];
    if a.serial.Some? {
      LastTextRead(payload, p + 1, a.serial.value);
    }
    assert AntennaLayout(payload, a, head, payload[p]);
  }

  /** Messages 1007 and 1008 parse exactly when they are laid out so; other types and cut payloads give nothing. */
  lemma AntennaParsesIffLaidOut(payload: Bytes, a: Antenna)
    ensures ParseAntenna(payload) == Some(a) <==>
      exists head: Bytes, setup: byte :: AntennaLayout(payload, a, head, setup)
  {
    if ParseAntenna(payload) == Some(a) {
      LayoutFromAntenna(payload, a);
    }
    if exists head: Bytes, setup: byte :: AntennaLayout(payload, a, head, setup) {
      var head: Bytes, setup: byte :| AntennaLayout(payload, a, head, setup);
      AntennaFromLayout(payload, a, head, setup);
    }
  }

  // ----- what is returned -----

  /** Five trimmed texts put into message 1033 come back each in its own field. */
  lemma ReceiverTextsReturned(station: nat, setup: byte, r: Receiver)
    requires station < 4096 && |r.serial| <= 255
    requires |r.antenna| <= 255 && |r.antennaSerial| <= 255 && |r.receiver| <= 255 && |r.version| <= 255
    requires Trimmed(r.antenna) && Trimmed(r.antennaSerial) && Trimmed(r.receiver) && Trimmed(r.version)
    requires Trimmed(r.serial)
    ensures var t := ReceiverResult(ReceiverPrefix(Header(1033, station), setup, r) + Counted(r.serial));
      && t.Some? && Same(t.value.antenna, r.antenna) && Same(t.value.antennaSerial, r.antennaSerial)
      && Same(t.value.receiver, r.receiver) && Same(t.value.version, r.version) && Same(t.value.serial, r.serial)
  {
    ReceiverRoundTrip(station, setup, r);
    TextKeptIff(r.antenna);
    TextKeptIff(r.antennaSerial);
    TextKeptIff(r.receiver);
    TextKeptIff(r.version);
    TextKeptIff(r.serial);
  }

  /** So do descriptor and serial of messages 1007 and 1008; an absent and an empty serial both come back as none. */
  lemma AntennaTextsReturned(station: nat, setup: byte, a: Antenna, extra: Bytes)
    requires station < 4096 && |a.descriptor| <= 255 && Trimmed(a.descriptor)
    requires a.serial.Some? ==> |a.serial.value| <= 255 && Trimmed(a.serial.value)
    ensures var t := AntennaResult(EncodeAntenna(station, setup, a) + extra);
      && t.Some? && Same(t.value.descriptor, a.descriptor)
      && (t.value.serial.None? <==> a.serial.None? || a.serial.value == [])
      && (t.value.serial.Some? ==> Same(t.value.serial.value, a.serial.value))
  {
    AntennaRoundTrip(station, setup, a, extra);
    TextKeptIff(a.descriptor);
    if a.serial.Some? {
      TextKeptIff(a.serial.value);
    }
  }
}
