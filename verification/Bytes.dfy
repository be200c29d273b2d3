/** Bounds-checked big-endian access (src/bytes.c) and the bit operations the
    UFI code applies to single bytes. A byte is its numeric value, so a mask
    such as `b & 0x3f` is written `b % 64`. */
module Bytes {
  import opened Wrappers

  type byte = x: int | 0 <= x < 256

  // ----- big-endian integers -----

  predicate Available(length: nat, offset: nat, needed: nat) {
    offset <= length && needed <= length - offset
  }

  /** `high << 8 | low`. */
  function Join(high: nat, low: byte): (r: nat)
    ensures r / 0x100 == high && r % 0x100 == low
  {
    0x100 * high + low
  }

  /** The bytes that m65_write_be16 and m65_write_be32 store; the 24-bit form
      is the one in the format-capacity descriptors. */
  function Be16(value: nat): seq<byte>
    requires value < 0x1_0000
  {
    [value / 0x100, value % 0x100]
  }

  function Be24(value: nat): seq<byte>
    requires value < 0x100_0000
  {
    Be16(value / 0x100) + [value % 0x100]
  }

  function Be32(value: nat): seq<byte>
    requires value < 0x1_0000_0000
  {
    Be24(value / 0x100) + [value % 0x100]
  }

  /** Reads fail exactly when they would leave the buffer; what they return
      is the number whose encoding stands at the offset. */
  function ReadBe16(data: seq<byte>, offset: nat): (r: Option<nat>)
    ensures r.Some? <==> offset + 2 <= |data|
    ensures r.Some? ==> r.value < 0x1_0000 && data[offset..offset + 2] == Be16(r.value)
  {
    if Available(|data|, offset, 2) then Some(Join(data[offset], data[offset + 1])) else None
  }

  function ReadBe24(data: seq<byte>, offset: nat): (r: Option<nat>)
    ensures r.Some? <==> offset + 3 <= |data|
    ensures r.Some? ==> r.value < 0x100_0000 && data[offset..offset + 3] == Be24(r.value)
  {
    if Available(|data|, offset, 3) then
      var high := ReadBe16(data, offset).value;
      assert data[offset..offset + 3] == data[offset..offset + 2] + [data[offset + 2]];
      Some(Join(high, data[offset + 2]))
    else None
  }

  function ReadBe32(data: seq<byte>, offset: nat): (r: Option<nat>)
    ensures r.Some? <==> offset + 4 <= |data|
    ensures r.Some? ==> r.value < 0x1_0000_0000 && data[offset..offset + 4] == Be32(r.value)
  {
    if Available(|data|, offset, 4) then
      var high := ReadBe24(data, offset).value;
      assert data[offset..offset + 4] == data[offset..offset + 3] + [data[offset + 3]];
      Some(Join(high, data[offset + 3]))
    else None
  }

  /** Two numbers with the same encoding are equal; so a read returns the
      number that was written. */
  lemma Be16Injective(a: nat, b: nat)
    requires a < 0x1_0000 && b < 0x1_0000
    requires Be16(a) == Be16(b)
    ensures a == b
  {
    assert Be16(a)[0] == Be16(b)[0] && Be16(a)[1] == Be16(b)[1];
  }

  lemma Be24Injective(a: nat, b: nat)
    requires a < 0x100_0000 && b < 0x100_0000
    requires Be24(a) == Be24(b)
    ensures a == b
  {
    assert Be16(a / 0x100) == Be24(a)[..2] == Be24(b)[..2] == Be16(b / 0x100);
    Be16Injective(a / 0x100, b / 0x100);
    assert Be24(a)[2] == Be24(b)[2];
  }

  lemma Be32Injective(a: nat, b: nat)
    requires a < 0x1_0000_0000 && b < 0x1_0000_0000
    requires Be32(a) == Be32(b)
    ensures a == b
  {
    assert Be24(a / 0x100) == Be32(a)[..3] == Be32(b)[..3] == Be24(b / 0x100);
    Be24Injective(a / 0x100, b / 0x100);
    assert Be32(a)[3] == Be32(b)[3];
  }

  // ----- bits -----

  function Bit(b: nat, k: nat): bool {
    if k == 0 then b % 2 == 1 else Bit(b / 2, k - 1)
  }

  /** Bitwise exclusive or. */
  function Xor(a: nat, b: nat): nat
    decreases a + b
  {
    if a == 0 && b == 0 then 0
    else (if a % 2 != b % 2 then 1 else 0) + 2 * Xor(a / 2, b / 2)
  }

  /** `a & ~m`: the bits of `a` that are clear in `m`. */
  function AndNot(a: nat, m: nat): nat {
    if a == 0 then 0
    else (if a % 2 == 1 && m % 2 == 0 then 1 else 0) + 2 * AndNot(a / 2, m / 2)
  }

  lemma {:induction false} ZeroHasNoBits(k: nat)
    ensures !Bit(0, k)
  {
    if k > 0 { ZeroHasNoBits(k - 1); }
  }

  lemma {:induction false} EqualWhenBitsAgree(a: nat, b: nat)
    requires forall k: nat :: Bit(a, k) == Bit(b, k)
    ensures a == b
    decreases a + b
  {
    if a != 0 || b != 0 {
      assert Bit(a, 0) == Bit(b, 0);
      forall k: nat ensures Bit(a / 2, k) == Bit(b / 2, k) {
        assert Bit(a, k + 1) == Bit(b, k + 1);
      }
      EqualWhenBitsAgree(a / 2, b / 2);
    }
  }

  /** Every bit in which a and b differ is set in the mask. */
  ghost predicate Covers(a: nat, b: nat, m: nat) {
    forall k: nat :: Bit(a, k) != Bit(b, k) ==> Bit(m, k)
  }

  lemma CoversStep(a: nat, b: nat, m: nat)
    ensures Covers(a, b, m) <==> (a % 2 != b % 2 ==> m % 2 == 1) && Covers(a / 2, b / 2, m / 2)
  {
    if Covers(a, b, m) {
      assert Bit(a, 0) != Bit(b, 0) ==> Bit(m, 0);
      forall k: nat ensures Bit(a / 2, k) != Bit(b / 2, k) ==> Bit(m / 2, k) {
        assert Bit(a, k + 1) != Bit(b, k + 1) ==> Bit(m, k + 1);
      }
    }
    if (a % 2 != b % 2 ==> m % 2 == 1) && Covers(a / 2, b / 2, m / 2) {
      forall k: nat ensures Bit(a, k) != Bit(b, k) ==> Bit(m, k) {
        if k > 0 {
          assert Bit(a / 2, k - 1) != Bit(b / 2, k - 1) ==> Bit(m / 2, k - 1);
        }
      }
    }
  }

  /** The change check of the geometry code, bit by bit: `(a ^ b) & ~m` is
      zero exactly when the mask covers the change. */
  lemma {:induction false} MaskCoversChange(a: nat, b: nat, m: nat)
    ensures AndNot(Xor(a, b), m) == 0 <==> Covers(a, b, m)
    decreases a + b
  {
    if a == 0 && b == 0 {
    } else {
      MaskCoversChange(a / 2, b / 2, m / 2);
      CoversStep(a, b, m);
      var x := Xor(a, b);
      assert x / 2 == Xor(a / 2, b / 2) && x % 2 == if a % 2 != b % 2 then 1 else 0;
    }
  }

  /** A change that the mask covers leaves a zero mask byte untouched. */
  lemma ZeroMaskForbidsChange(a: nat, b: nat)
    requires AndNot(Xor(a, b), 0) == 0
    ensures a == b
  {
    MaskCoversChange(a, b, 0);
    forall k: nat ensures Bit(a, k) == Bit(b, k) { ZeroHasNoBits(k); }
    EqualWhenBitsAgree(a, b);
  }
}
