/** CRC-16 over a payload: polynomial 0x1021 (ITU-T V.41), initial value 0,
    bits taken most significant first, no reflection and no final XOR
    (the CRC-16/XMODEM parameters). The source keeps its accumulator below
    2^16 by masking with 0xFFFF after every step, so the register is a
    16-bit word here and the mask is the word's own wrap-around. */
module Crc16 {
  import opened Bytes

  /** The low k bits of a as a 16-bit word, built from the lowest bit up. */
  function Bits(a: nat, k: nat): bv16
  {
    if k == 0 then 0 else (Bits(a / 2, k - 1) << 1) | (if a % 2 == 1 then 1 else 0)
  }

  /** `b << 8`: a byte moved into the high half of the register. */
  function HighByte(b: byte): bv16
  {
    Bits(b, 8) << 8
  }

  /** One bit step, as the source writes it: when bit 15 is set, shift left
      and XOR in the polynomial 0x1021, otherwise just shift left; the bit
      shifted out of the top is dropped. The polynomial's constant term
      makes bit 0 of the result record whether bit 15 was set, and without
      the XOR no bit is lost. */
  function ShiftOnce(c: bv16): (r: bv16)
    ensures r & 1 != 0 <==> c & 0x8000 != 0
    ensures c & 0x8000 == 0 ==> r >> 1 == c
  {
    if c & 0x8000 != 0 then (c << 1) ^ 0x1021 else c << 1
  }

  /** k bit steps. */
  function Shift(c: bv16, k: nat): bv16
  {
    if k == 0 then c else ShiftOnce(Shift(c, k - 1))
  }

  /** Feeding one byte: XOR it into the high half, then eight bit steps. */
  function UpdateByte(c: bv16, b: byte): bv16
  {
    Shift(c ^ HighByte(b), 8)
  }

  /** The register after feeding every byte of data, in order, from 0. */
  function Register(data: seq<byte>): bv16
  {
    if data == [] then 0 else UpdateByte(Register(data[..|data| - 1]), data[|data| - 1])
  }

  /** The checksum as the integer the frame carries. */
  function Checksum(data: seq<byte>): (r: int)
    ensures 0 <= r <= 0xFFFF
  {
    Register(data) as int
  }

  /** The source's `crc16`: a byte loop over one accumulator. */
  method ComputeCrc16(data: seq<byte>) returns (crc: int)
    ensures crc == Checksum(data)
  {
    var acc: bv16 := 0;
    for i := 0 to |data|
      invariant acc == Register(data[..i])
    {
      assert data[..i + 1][..i] == data[..i];
      acc := ShiftByte(acc ^ HighByte(data[i]));
    }
    assert data[..|data|] == data;
    crc := acc as int;
  }

  /** The source's inner loop: eight bit steps on the accumulator. */
  method ShiftByte(start: bv16) returns (acc: bv16)
    ensures acc == Shift(start, 8)
  {
    acc := start;
    for j := 0 to 8
      invariant acc == Shift(start, j)
    {
      ghost var before := acc;
      if acc & 0x8000 != 0 {
        acc := (acc << 1) ^ 0x1021;
      } else {
        acc := acc << 1;
      }
      StepIsShiftOnce(before, acc);
    }
  }

  lemma StepIsShiftOnce(c: bv16, d: bv16)
    requires d == if c & 0x8000 != 0 then (c << 1) ^ 0x1021 else c << 1
    ensures d == ShiftOnce(c)
  {
  }

  /** The check value of the protocol: the payload of a one-byte PARK_MODE
      command (0xC8) has checksum 0x5844. */
  lemma ParkModeVector()
    ensures Checksum([0xC8]) == 0x5844
  {
    assert Bits(0, 0) == 0;
    assert Bits(1, 1) == 1;
    assert Bits(3, 2) == 3;
    assert Bits(6, 3) == 6;
    assert Bits(12, 4) == 12;
    assert Bits(25, 5) == 25;
    assert Bits(50, 6) == 50;
    assert Bits(100, 7) == 100;
    assert HighByte(200) == 0xC800;
    assert [0xC8][..0] == [];
    assert Shift(0xC800, 8) == 0x5844;
  }

  /** Masks of the low k bits, for k up to a byte. */
  const LowMasks: seq<bv16> := [0, 1, 3, 7, 0xF, 0x1F, 0x3F, 0x7F, 0xFF]

  lemma LowMaskStep(k: nat)
    requires 1 <= k <= 8
    ensures LowMasks[k] == (LowMasks[k - 1] << 1) | 1 && LowMasks[k - 1] <= 0x7F
  {
  }

  lemma ShiftInBound(x: bv16, m: bv16, p: bv16)
    requires x <= m && m <= 0x7F && p <= 1
    ensures (x << 1) | p <= (m << 1) | 1
  {
  }

  /** Bits(a, k) uses only the low k bits. */
  lemma {:induction false} BitsBound(a: nat, k: nat)
    requires k <= 8
    ensures Bits(a, k) <= LowMasks[k]
  {
    if k > 0 {
      BitsBound(a / 2, k - 1);
      LowMaskStep(k);
      ShiftInBound(Bits(a / 2, k - 1), LowMasks[k - 1], if a % 2 == 1 then 1 else 0);
    }
  }

  lemma LowBitApart(x: bv16, y: bv16)
    ensures (x << 1) | 1 != (y << 1) | 0
  {
  }

  lemma ShiftInApart(x: bv16, y: bv16, p: bv16)
    requires x != y && x <= 0x7F && y <= 0x7F && p <= 1
    ensures (x << 1) | p != (y << 1) | p
  {
  }

  lemma Halves(a: nat, b: nat, k: nat)
    requires a != b && k > 0 && a < Pow2(k) && b < Pow2(k)
    ensures a % 2 == b % 2 ==> a / 2 != b / 2
    ensures a / 2 < Pow2(k - 1) && b / 2 < Pow2(k - 1)
  {
  }

  /** 2 to the power k. */
  function Pow2(k: nat): (r: nat)
    ensures r >= 1
  {
    if k == 0 then 1 else 2 * Pow2(k - 1)
  }

  /** Different numbers below 2^k have different low k bits. */
  lemma {:induction false} BitsInjective(a: nat, b: nat, k: nat)
    requires k <= 8 && a < Pow2(k) && b < Pow2(k) && a != b
    ensures Bits(a, k) != Bits(b, k)
  {
    Halves(a, b, k);
    var x, y := Bits(a / 2, k - 1), Bits(b / 2, k - 1);
    if a % 2 != b % 2 {
      if a % 2 == 1 {
        LowBitApart(x, y);
      } else {
        LowBitApart(y, x);
      }
    } else {
      BitsInjective(a / 2, b / 2, k - 1);
      BitsBound(a / 2, k - 1);
      BitsBound(b / 2, k - 1);
      LowMaskStep(k);
      ShiftInApart(x, y, if a % 2 == 1 then 1 else 0);
    }
  }

  lemma ByteRange(b: byte)
    ensures b < Pow2(8)
  {
  }

  lemma HighHalfApart(x: bv16, y: bv16)
    requires x != y && x <= 0xFF && y <= 0xFF
    ensures x << 8 != y << 8
  {
  }

  lemma HighByteInjective(a: byte, b: byte)
    requires a != b
    ensures HighByte(a) != HighByte(b)
  {
    ByteRange(a);
    ByteRange(b);
    BitsInjective(a, b, 8);
    BitsBound(a, 8);
    BitsBound(b, 8);
    HighHalfApart(Bits(a, 8), Bits(b, 8));
  }

  lemma XorApart(a: bv16, b: bv16, c: bv16)
    requires a != b
    ensures a ^ c != b ^ c
  {
  }

  /** The bit step undone: bit 0 tells whether the polynomial was XORed in,
      and if it was, the bit that fell out of the top was a 1. */
  function Unshift(c: bv16): bv16
  {
    if c & 1 != 0 then ((c ^ 0x1021) >> 1) | 0x8000 else c >> 1
  }

  lemma UnshiftSet(a: bv16)
    requires a & 0x8000 != 0
    ensures Unshift((a << 1) ^ 0x1021) == a
  {
  }

  lemma UnshiftClear(a: bv16)
    requires a & 0x8000 == 0
    ensures Unshift(a << 1) == a
  {
  }

  /** Unshift is a left inverse of the bit step: the polynomial's constant
      term puts the bit that falls out of the top back in as bit 0. */
  lemma ShiftOnceUndone(a: bv16)
    ensures Unshift(ShiftOnce(a)) == a
  {
    if a & 0x8000 != 0 {
      UnshiftSet(a);
    } else {
      UnshiftClear(a);
    }
  }

  /** Distinct registers stay distinct after a bit step. */
  lemma ShiftOnceInjective(a: bv16, b: bv16)
    requires a != b
    ensures ShiftOnce(a) != ShiftOnce(b)
  {
    ShiftOnceUndone(a);
    ShiftOnceUndone(b);
  }

  lemma {:induction false} ShiftInjective(a: bv16, b: bv16, k: nat)
    requires a != b
    ensures Shift(a, k) != Shift(b, k)
  {
    if k > 0 {
      ShiftInjective(a, b, k - 1);
      ShiftOnceInjective(Shift(a, k - 1), Shift(b, k - 1));
    }
  }

  /** Feeding the same byte to two different registers keeps them different. */
  lemma UpdateInjectiveInRegister(c1: bv16, c2: bv16, b: byte)
    requires c1 != c2
    ensures UpdateByte(c1, b) != UpdateByte(c2, b)
  {
    var h := HighByte(b);
    XorApart(c1, c2, h);
    ShiftInjective(c1 ^ h, c2 ^ h, 8);
    assert UpdateByte(c1, b) == Shift(c1 ^ h, 8);
    assert UpdateByte(c2, b) == Shift(c2 ^ h, 8);
  }

  /** Feeding two different bytes to the same register gives different registers. */
  lemma UpdateInjectiveInByte(c: bv16, b1: byte, b2: byte)
    requires b1 != b2
    ensures UpdateByte(c, b1) != UpdateByte(c, b2)
  {
    HighByteInjective(b1, b2);
    XorApart(HighByte(b1), HighByte(b2), c);
    assert c ^ HighByte(b1) != c ^ HighByte(b2);
    ShiftInjective(c ^ HighByte(b1), c ^ HighByte(b2), 8);
  }

  /** Two payloads that agree except at position k have different registers
      on every prefix that reaches past k. */
  lemma {:induction false} PrefixesDiffer(p: seq<byte>, q: seq<byte>, k: nat, n: nat)
    requires |p| == |q| && k < n <= |p|
    requires p[..k] == q[..k] && p[k] != q[k]
    requires forall i :: k < i < |p| ==> p[i] == q[i]
    ensures Register(p[..n]) != Register(q[..n])
  {
    assert p[..n][..n - 1] == p[..n - 1] && q[..n][..n - 1] == q[..n - 1];
    var rp, rq := Register(p[..n - 1]), Register(q[..n - 1]);
    assert Register(p[..n]) == UpdateByte(rp, p[n - 1]);
    assert Register(q[..n]) == UpdateByte(rq, q[n - 1]);
    if n == k + 1 {
      assert p[..n - 1] == q[..n - 1];
      UpdateInjectiveInByte(rp, p[k], q[k]);
    } else {
      PrefixesDiffer(p, q, k, n - 1);
      UpdateInjectiveInRegister(rp, rq, p[n - 1]);
    }
  }

  /** Distinct registers give distinct checksums. */
  lemma RegisterValueApart(x: bv16, y: bv16)
    requires x != y
    ensures x as int != y as int
  {
    assert (x as int) as bv16 == x && (y as int) as bv16 == y;
  }

  /** Replacing any one byte of a payload by a different value always changes
      its checksum; in particular every single-bit error in the payload is
      detected. */
  lemma ByteChangeDetected(p: seq<byte>, k: nat, v: byte)
    requires k < |p| && v != p[k]
    ensures Checksum(p[k := v]) != Checksum(p)
  {
    var q := p[k := v];
    assert p[..k] == q[..k];
    PrefixesDiffer(q, p, k, |p|);
    assert p[..|p|] == p && q[..|q|] == q;
    RegisterValueApart(Register(q), Register(p));
  }
}
