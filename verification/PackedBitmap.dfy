/** Bytes that pack several states of `bits` bits each (include/common_bitmap.h); `bits` is 2 or 4. */
module PackedBitmap {

  predicate StateBits(bits: nat) {
    bits == 2 || bits == 4
  }

  function ItemsPerByte(bits: nat): (r: nat)
    requires StateBits(bits)
    ensures r == if bits == 2 then 4 else 2
  {
    8 / bits
  }

  function Mask(bits: nat): bv8
    requires StateBits(bits)
  {
    if bits == 2 then 0x3 else 0xF
  }

  /** byte_item * state_bits */
  function Shift(item: nat, bits: nat): bv8
    requires StateBits(bits) && item < ItemsPerByte(bits)
  {
    if item == 0 then 0
    else if bits == 4 then 4
    else if item == 1 then 2
    else if item == 2 then 4
    else 6
  }

  /** State of one item of a byte. */
  function StateInByte(value: bv8, item: nat, bits: nat): bv8
    requires StateBits(bits) && item < ItemsPerByte(bits)
  {
    (value >> Shift(item, bits)) & Mask(bits)
  }

  /** SET_STATE_IN_BYTE */
  function SetStateInByte(value: bv8, item: nat, bits: nat, state: bv8): bv8
    requires StateBits(bits) && item < ItemsPerByte(bits)
  {
    var shift := Shift(item, bits);
    (value & !(Mask(bits) << shift)) | ((state & Mask(bits)) << shift)
  }

  function Pow2(n: nat): (r: nat)
    ensures r > 0
  {
    if n == 0 then 1 else 2 * Pow2(n - 1)
  }

  /** In numbers: item `i` of a byte is digit `i` of the byte, counted from the lowest one, to the base 2^bits. */
  lemma StateNumber(value: bv8, item: nat, bits: nat)
    requires StateBits(bits) && item < ItemsPerByte(bits)
    ensures StateInByte(value, item, bits) as nat == value as nat / Pow2(item * bits) % Pow2(bits)
  {
    hide Pow2, StateInByte;
    Powers();
    Digits(value);
    assert item * bits == if item == 0 then 0 else if bits == 4 then 4 else 2 * item;
  }

  lemma Digits(v: bv8)
    ensures StateInByte(v, 0, 4) as nat == v as nat % 16 && StateInByte(v, 1, 4) as nat == v as nat / 16 % 16
    ensures StateInByte(v, 0, 2) as nat == v as nat % 4 && StateInByte(v, 1, 2) as nat == v as nat / 4 % 4
    ensures StateInByte(v, 2, 2) as nat == v as nat / 16 % 4 && StateInByte(v, 3, 2) as nat == v as nat / 64 % 4
  {
    LowBits(v);
    LowBits(v >> 2);
    LowBits(v >> 4);
    LowBits(v >> 6);
    Shifted(v);
    assert v >> 0 == v;
  }

  lemma Shifted(v: bv8)
    ensures (v >> 2) as nat == v as nat / 4
    ensures (v >> 4) as nat == v as nat / 16
    ensures (v >> 6) as nat == v as nat / 64
  {
  }

  lemma LowBits(v: bv8)
    ensures (v & 0x3) as nat == v as nat % 4
    ensures (v & 0xF) as nat == v as nat % 16
  {
  }

  lemma Powers()
    ensures Pow2(0) == 1 && Pow2(2) == 4 && Pow2(4) == 16 && Pow2(6) == 64
  {
    assert Pow2(2) == 4 && Pow2(4) == 4 * Pow2(2) && Pow2(6) == 4 * Pow2(4);
  }

  /** Setting an item changes that item and no other. */
  lemma SetThenGet(value: bv8, item: nat, bits: nat, state: bv8, other: nat)
    requires StateBits(bits) && item < ItemsPerByte(bits) && other < ItemsPerByte(bits)
    ensures StateInByte(SetStateInByte(value, item, bits, state), other, bits)
         == if other == item then state & Mask(bits) else StateInByte(value, other, bits)
  {
    if bits == 4 {
      if item == 0 {} else {}
    } else {
      if item == 0 {} else if item == 1 {} else if item == 2 {} else {}
    }
  }

  /** The state of an item as a number. */
  function Digit(value: bv8, item: nat, bits: nat): nat
    requires StateBits(bits) && item < ItemsPerByte(bits)
  {
    StateInByte(value, item, bits) as nat
  }

  function Number(value: bv8): nat {
    value as nat
  }

  /** A byte is the sum of its items, each with its weight. */
  lemma SumOfItems(v: bv8)
    ensures Number(v) == Digit(v, 0, 4) + 16 * Digit(v, 1, 4)
    ensures Number(v) == Digit(v, 0, 2) + 4 * Digit(v, 1, 2) + 16 * Digit(v, 2, 2) + 64 * Digit(v, 3, 2)
  {
    hide StateInByte;
    Digits(v);
    SumOfDigits(v as nat);
  }

  lemma SumOfDigits(x: nat)
    requires x < 256
    ensures x == x % 16 + 16 * (x / 16 % 16)
    ensures x == x % 4 + 4 * (x / 4 % 4) + 16 * (x / 16 % 4) + 64 * (x / 64 % 4)
  {
    assert x / 16 < 16 && x / 64 < 4;
    assert x / 4 / 4 == x / 16 && x / 16 / 4 == x / 64;
  }

  /** The numbers of the items after one has been set. */
  lemma SetThenDigit(value: bv8, item: nat, bits: nat, state: bv8, other: nat)
    requires StateBits(bits) && item < ItemsPerByte(bits) && other < ItemsPerByte(bits)
    ensures Digit(SetStateInByte(value, item, bits, state), other, bits) ==
              if other == item then Number(state) % Pow2(bits) else Digit(value, other, bits)
  {
    hide StateInByte, SetStateInByte, Pow2;
    Powers();
    LowBits(state);
    SetThenGet(value, item, bits, state, other);
  }

  /** In numbers: setting an item replaces its digit by the new state, reduced to a digit. */
  lemma SetNumber(value: bv8, item: nat, bits: nat, state: bv8)
    requires StateBits(bits) && item < ItemsPerByte(bits)
    ensures Number(SetStateInByte(value, item, bits, state)) ==
              Number(value) - Digit(value, item, bits) * Pow2(item * bits)
              + Number(state) % Pow2(bits) * Pow2(item * bits)
  {
    var w := Weight(item, bits);
    hide Pow2, Digit, Number, StateInByte, SetStateInByte, ItemsPerByte;
    if bits == 4 {
      SetHalf(value, item, state, w);
    } else {
      SetQuarter(value, item, state, w);
    }
  }

  lemma SetHalf(value: bv8, item: nat, state: bv8, w: nat)
    requires item < 2 && w == if item == 0 then 1 else 16
    ensures Number(SetStateInByte(value, item, 4, state)) ==
              Number(value) - Digit(value, item, 4) * w + Number(state) % Pow2(4) * w
  {
    hide Pow2, Digit, Number, StateInByte, SetStateInByte, ItemsPerByte;
    SumOfItems(value);
    SumOfItems(SetStateInByte(value, item, 4, state));
    SetThenDigit(value, item, 4, state, 0);
    SetThenDigit(value, item, 4, state, 1);
  }

  lemma SetQuarter(value: bv8, item: nat, state: bv8, w: nat)
    requires item < 4 && w == if item == 0 then 1 else if item == 1 then 4 else if item == 2 then 16 else 64
    ensures Number(SetStateInByte(value, item, 2, state)) ==
              Number(value) - Digit(value, item, 2) * w + Number(state) % Pow2(2) * w
  {
    hide Pow2, Digit, Number, StateInByte, SetStateInByte, ItemsPerByte;
    var d := Number(state) % Pow2(2);
    SumOfItems(value);
    SumOfItems(SetStateInByte(value, item, 2, state));
    SetThenDigit(value, item, 2, state, 0);
    SetThenDigit(value, item, 2, state, 1);
    SetThenDigit(value, item, 2, state, 2);
    SetThenDigit(value, item, 2, state, 3);
    if item == 0 {} else if item == 1 {} else if item == 2 {} else {}
  }

  lemma Weight(item: nat, bits: nat) returns (w: nat)
    requires StateBits(bits) && item < ItemsPerByte(bits)
    ensures w == Pow2(item * bits)
    ensures w == if item == 0 then 1 else if bits == 4 || item == 2 then 16 else if item == 1 then 4 else 64
  {
    hide Pow2;
    Powers();
    assert item * bits == if item == 0 then 0 else if bits == 4 then 4 else 2 * item;
    w := Pow2(item * bits);
  }

  /** FIRST_STATE_IN_BYTE: the first item at or after `start` that has `state`. */
  method FirstStateInByte(value: bv8, state: bv8, start: nat, bits: nat) returns (found: nat)
    requires StateBits(bits) && start <= ItemsPerByte(bits)
    ensures start <= found <= ItemsPerByte(bits)
    ensures found < ItemsPerByte(bits) ==> StateInByte(value, found, bits) == state
    ensures forall i :: start <= i < found ==> StateInByte(value, i, bits) != state
  {
    found := start;
    while found < ItemsPerByte(bits)
      invariant start <= found <= ItemsPerByte(bits)
      invariant forall i :: start <= i < found ==> StateInByte(value, i, bits) != state
    {
      if StateInByte(value, found, bits) == state {
        return;
      }
      found := found + 1;
    }
  }

  /** State of item `i` of a bitmap. */
  function StateAt(bmap: seq<bv8>, bits: nat, i: nat): bv8
    requires StateBits(bits) && i < |bmap| * ItemsPerByte(bits)
  {
    var per := ItemsPerByte(bits);
    assert i / per < |bmap|;
    StateInByte(bmap[i / per], i % per, bits)
  }

  /** In numbers: item `i` of a bitmap is digit `i % n` of byte `i / n`, with `n` items in a byte. */
  lemma StateAtNumber(bmap: seq<bv8>, bits: nat, i: nat)
    requires StateBits(bits) && i < |bmap| * ItemsPerByte(bits)
    ensures var n := if bits == 2 then 4 else 2;
            && i / n < |bmap|
            && StateAt(bmap, bits, i) as nat == bmap[i / n] as nat / Pow2(i % n * bits) % Pow2(bits)
  {
    hide StateInByte;
    var per := ItemsPerByte(bits);
    assert i / per < |bmap|;
    StateNumber(bmap[i / per], i % per, bits);
  }

  /** Setting one item of one byte changes that item of the bitmap and no other. */
  lemma SetInBitmap(bmap: seq<bv8>, bits: nat, byteIndex: nat, item: nat, state: bv8, i: nat)
    requires StateBits(bits) && byteIndex < |bmap| && item < ItemsPerByte(bits) && i < |bmap| * ItemsPerByte(bits)
    ensures StateAt(bmap[byteIndex := SetStateInByte(bmap[byteIndex], item, bits, state)], bits, i)
         == if i == byteIndex * ItemsPerByte(bits) + item then state & Mask(bits) else StateAt(bmap, bits, i)
  {
    var per := ItemsPerByte(bits);
    assert i == i / per * per + i % per;
    if i / per == byteIndex {
      SetThenGet(bmap[byteIndex], item, bits, state, i % per);
    }
  }
}
