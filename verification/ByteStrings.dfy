/** Bytes, byte strings and the bits inside them, shared by every module. */
module ByteStrings {
  type byte = b: int | 0 <= b < 256
  type Bytes = seq<byte>

  datatype Option<+T> = None | Some(value: T)

  /** The byte strings of a list, one after the other. */
  function Concat(chunks: seq<Bytes>): Bytes
  {
    if chunks == [] then [] else chunks[0] + Concat(chunks[1..])
  }

  /** Total number of bytes in a list of byte strings. */
  function SumLen(chunks: seq<Bytes>): nat
  {
    if chunks == [] then 0 else |chunks[0]| + SumLen(chunks[1..])
  }

  lemma {:induction false} ConcatAppend(a: seq<Bytes>, b: seq<Bytes>)
    ensures Concat(a + b) == Concat(a) + Concat(b)
  {
    if a == [] {
      assert a + b == b;
    } else {
      assert (a + b)[1..] == a[1..] + b;
      ConcatAppend(a[1..], b);
    }
  }

  lemma {:induction false} SumLenAppend(a: seq<Bytes>, b: seq<Bytes>)
    ensures SumLen(a + b) == SumLen(a) + SumLen(b)
  {
    if a == [] {
      assert a + b == b;
    } else {
      assert (a + b)[1..] == a[1..] + b;
      SumLenAppend(a[1..], b);
    }
  }

  lemma {:induction false} ConcatLength(chunks: seq<Bytes>)
    ensures |Concat(chunks)| == SumLen(chunks)
  {
    if chunks != [] {
      ConcatLength(chunks[1..]);
    }
  }

  // ----- numbers and their bits -----

  function Pow2(n: nat): (p: nat)
    ensures p >= 1
  {
    if n == 0 then 1 else 2 * Pow2(n - 1)
  }

  /** The low `n` bits of a number, most significant first. */
  function NatBits(v: nat, n: nat): (r: seq<bool>)
    ensures |r| == n
  {
    seq(n, i requires 0 <= i < n => v / Pow2(n - 1 - i) % 2 == 1)
  }

  lemma DivUnique(v: nat, d: nat, q: nat, r: nat)
    requires r < d && v == d * q + r
    ensures v / d == q
  {
    var e := v / d - q;
    assert d * e == r - v % d;
    Multiples(d, e);
  }

  lemma Multiples(d: int, e: int)
    requires d > 0
    ensures e >= 1 ==> d * e >= d
    ensures e <= -1 ==> d * e <= -d
  {
  }

  lemma DivTwice(v: nat, p: nat)
    requires p > 0
    ensures v / (2 * p) == v / 2 / p
  {
    var q, r := v / 2 / p, v / 2 % p;
    assert v / 2 == q * p + r;
    assert v == 2 * p * q + (2 * r + v % 2);
    DivUnique(v, 2 * p, q, 2 * r + v % 2);
  }

  /** The bits of a number are those of its half followed by its parity. */
  lemma NatBitsHalve(v: nat, n: nat)
    requires n > 0
    ensures NatBits(v, n) == NatBits(v / 2, n - 1) + [v % 2 == 1]
  {
    var l, r := NatBits(v, n), NatBits(v / 2, n - 1) + [v % 2 == 1];
    forall i | 0 <= i < n
      ensures l[i] == r[i]
    {
      if i < n - 1 {
        assert Pow2(n - 1 - i) == 2 * Pow2(n - 2 - i);
        DivTwice(v, Pow2(n - 2 - i));
      } else {
        assert Pow2(n - 1 - i) == 1;
      }
    }
  }

  /** The number a bit string spells, most significant bit first. */
  function BitsNat(bits: seq<bool>): nat
  {
    if bits == [] then 0 else 2 * BitsNat(bits[..|bits| - 1]) + (if bits[|bits| - 1] then 1 else 0)
  }

  lemma {:induction false} NatRoundTrip(v: nat, n: nat)
    requires v < Pow2(n)
    ensures BitsNat(NatBits(v, n)) == v
  {
    if n > 0 {
      NatBitsHalve(v, n);
      NatRoundTrip(v / 2, n - 1);
    }
  }

  lemma {:induction false} BitsRoundTrip(bits: seq<bool>)
    ensures BitsNat(bits) < Pow2(|bits|)
    ensures NatBits(BitsNat(bits), |bits|) == bits
  {
    if bits != [] {
      NatBitsHalve(BitsNat(bits), |bits|);
      BitsRoundTrip(bits[..|bits| - 1]);
    }
  }

  /** Reading two fields one after the other splits the number their bits spell together. */
  lemma {:induction false} BitsNatAppend(a: seq<bool>, b: seq<bool>)
    ensures BitsNat(a + b) == BitsNat(a) * Pow2(|b|) + BitsNat(b)
  {
    if b == [] {
      assert a + b == a;
    } else {
      var c, bit := b[..|b| - 1], if b[|b| - 1] then 1 else 0;
      assert (a + b)[..|a + b| - 1] == a + c && (a + b)[|a + b| - 1] == b[|b| - 1];
      BitsNatAppend(a, c);
      assert BitsNat(a + b) == 2 * BitsNat(a + c) + bit && BitsNat(b) == 2 * BitsNat(c) + bit;
      DoubleProduct(BitsNat(a), Pow2(|c|));
    }
  }

  lemma DoubleProduct(x: nat, p: nat)
    ensures x * (2 * p) == 2 * (x * p)
  {
  }

  lemma NatBitsTail(v: nat, n: nat)
    ensures NatBits(v, n + 1)[1..] == NatBits(v, n)
  {
  }

  /** The low `k` bits of a number can be taken apart from the rest. */
  lemma {:induction false} NatBitsPeel(v: nat, w: nat, n: nat, k: nat)
    requires w < Pow2(k)
    ensures NatBits(v * Pow2(k) + w, n + k) == NatBits(v, n) + NatBits(w, k)
    decreases k
  {
    if k == 0 {
      assert NatBits(v, n) + NatBits(w, 0) == NatBits(v, n);
    } else {
      var p := Pow2(k - 1);
      DoubleProduct(v, p);
      NatBitsHalve(v * Pow2(k) + w, n + k);
      NatBitsHalve(w, k);
      assert (v * Pow2(k) + w) / 2 == v * p + w / 2;
      NatBitsPeel(v, w / 2, n, k - 1);
    }
  }

  lemma NatBitsByte(v: nat, w: byte, n: nat)
    ensures NatBits(v * 256 + w, n + 8) == NatBits(v, n) + NatBits(w, 8)
  {
    NatBitsPeel(v, w, n, 8);
  }

  /** The bits of a byte string in transmission order. */
  function Bits(data: Bytes): (r: seq<bool>)
    ensures |r| == 8 * |data|
  {
    if data == [] then [] else NatBits(data[0], 8) + Bits(data[1..])
  }

  lemma {:induction false} BitsAt(data: Bytes, i: nat)
    requires i < 8 * |data|
    ensures Bits(data)[i] == NatBits(data[i / 8], 8)[i % 8]
  {
    if i < 8 {
      assert i / 8 == 0 && i % 8 == i;
    } else {
      assert i / 8 == 1 + (i - 8) / 8 && i % 8 == (i - 8) % 8;
      BitsAt(data[1..], i - 8);
    }
  }

  lemma {:induction false} BitsAppend(a: Bytes, b: Bytes)
    ensures Bits(a + b) == Bits(a) + Bits(b)
  {
    if a == [] {
      assert a + b == b;
    } else {
      assert (a + b)[1..] == a[1..] + b;
      BitsAppend(a[1..], b);
    }
  }

  lemma BitsOne(b: byte)
    ensures Bits([b]) == NatBits(b, 8)
  {
    assert [b][1..] == [];
  }

  /** The byte string holding a whole number of bytes' worth of bits. */
  function Pack(bits: seq<bool>): (data: Bytes)
    requires |bits| % 8 == 0
    ensures 8 * |data| == |bits|
  {
    if bits == [] then [] else [PackByte(bits[..8])] + Pack(bits[8..])
  }

  function PackByte(bits: seq<bool>): (b: byte)
    requires |bits| == 8
  {
    BitsRoundTrip(bits);
    assert Pow2(8) == 256;
    BitsNat(bits)
  }

  lemma PackByteBits(bits: seq<bool>)
    requires |bits| == 8
    ensures NatBits(PackByte(bits), 8) == bits
  {
    BitsRoundTrip(bits);
  }

  lemma PackedFirst(b: byte, rest: Bytes)
    ensures Bits([b] + rest) == NatBits(b, 8) + Bits(rest)
  {
    assert ([b] + rest)[1..] == rest;
  }

  lemma {:induction false} PackRoundTrip(bits: seq<bool>)
    requires |bits| % 8 == 0
    ensures Bits(Pack(bits)) == bits
  {
    if bits != [] {
      PackRoundTrip(bits[8..]);
      PackByteBits(bits[..8]);
      PackedFirst(PackByte(bits[..8]), Pack(bits[8..]));
      assert bits == bits[..8] + bits[8..];
    }
  }

  // ----- exclusive or -----

  function Xor(a: seq<bool>, b: seq<bool>): (r: seq<bool>)
    requires |a| == |b|
    ensures |r| == |a|
  {
    seq(|a|, i requires 0 <= i < |a| => a[i] != b[i])
  }

  /** The exclusive or of two numbers, bit by bit. */
  function NatXor(a: nat, b: nat): nat
  {
    if a == 0 && b == 0 then 0 else 2 * NatXor(a / 2, b / 2) + (if a % 2 != b % 2 then 1 else 0)
  }

  lemma {:induction false} NatXorBits(a: nat, b: nat, n: nat)
    ensures NatBits(NatXor(a, b), n) == Xor(NatBits(a, n), NatBits(b, n))
    decreases n
  {
    if n > 0 {
      NatBitsHalve(a, n);
      NatBitsHalve(b, n);
      NatBitsHalve(NatXor(a, b), n);
      NatXorBits(a / 2, b / 2, n - 1);
      assert NatXor(a, b) / 2 == NatXor(a / 2, b / 2);
      assert NatXor(a, b) % 2 == (if a % 2 != b % 2 then 1 else 0);
    }
  }

  lemma {:induction false} NatXorBound(a: nat, b: nat, n: nat)
    requires a < Pow2(n) && b < Pow2(n)
    ensures NatXor(a, b) < Pow2(n)
    decreases n
  {
    if n > 0 && (a > 0 || b > 0) {
      NatXorBound(a / 2, b / 2, n - 1);
    }
  }
}
