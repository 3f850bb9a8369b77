/**
 * lib/common/bit.hpp: bit and flag helpers on 32-bit hardware registers.
 * `Bits` holds the value-level operations; `BitRegister` holds the in-place forms that
 * update a register through a pointer.
 */
module Bits {

  /** A bit position inside a 32-bit register. */
  type Index = i: bv32 | i < 32

  /** Reference reading of one bit: shift it down and look at bit 0. */
  predicate Bit(r: bv32, i: Index)
  {
    (r >> i) & 1 == 1
  }

  /** `get_bit`: tests bit `i` by comparing against the single-bit mask. */
  function GetBit(r: bv32, i: Index): (b: bool)
    ensures b <==> Bit(r, i)
  {
    var flag := 1 << i;
    flag == r & flag
  }

  lemma AgreeOnByte0(a: bv32, b: bv32)
    requires forall i: Index :: Bit(a, i) == Bit(b, i)
    ensures a & 0x0000_00FF == b & 0x0000_00FF
  {
    assert Bit(a, 0) == Bit(b, 0);
    assert Bit(a, 1) == Bit(b, 1);
    assert Bit(a, 2) == Bit(b, 2);
    assert Bit(a, 3) == Bit(b, 3);
    assert Bit(a, 4) == Bit(b, 4);
    assert Bit(a, 5) == Bit(b, 5);
    assert Bit(a, 6) == Bit(b, 6);
    assert Bit(a, 7) == Bit(b, 7);
  }

  lemma AgreeOnByte1(a: bv32, b: bv32)
    requires forall i: Index :: Bit(a, i) == Bit(b, i)
    ensures a & 0x0000_FF00 == b & 0x0000_FF00
  {
    assert Bit(a, 8) == Bit(b, 8);
    assert Bit(a, 9) == Bit(b, 9);
    assert Bit(a, 10) == Bit(b, 10);
    assert Bit(a, 11) == Bit(b, 11);
    assert Bit(a, 12) == Bit(b, 12);
    assert Bit(a, 13) == Bit(b, 13);
    assert Bit(a, 14) == Bit(b, 14);
    assert Bit(a, 15) == Bit(b, 15);
  }

  lemma AgreeOnByte2(a: bv32, b: bv32)
    requires forall i: Index :: Bit(a, i) == Bit(b, i)
    ensures a & 0x00FF_0000 == b & 0x00FF_0000
  {
    assert Bit(a, 16) == Bit(b, 16);
    assert Bit(a, 17) == Bit(b, 17);
    assert Bit(a, 18) == Bit(b, 18);
    assert Bit(a, 19) == Bit(b, 19);
    assert Bit(a, 20) == Bit(b, 20);
    assert Bit(a, 21) == Bit(b, 21);
    assert Bit(a, 22) == Bit(b, 22);
    assert Bit(a, 23) == Bit(b, 23);
  }

  lemma AgreeOnByte3(a: bv32, b: bv32)
    requires forall i: Index :: Bit(a, i) == Bit(b, i)
    ensures a & 0xFF00_0000 == b & 0xFF00_0000
  {
    assert Bit(a, 24) == Bit(b, 24);
    assert Bit(a, 25) == Bit(b, 25);
    assert Bit(a, 26) == Bit(b, 26);
    assert Bit(a, 27) == Bit(b, 27);
    assert Bit(a, 28) == Bit(b, 28);
    assert Bit(a, 29) == Bit(b, 29);
    assert Bit(a, 30) == Bit(b, 30);
    assert Bit(a, 31) == Bit(b, 31);
  }

  /** Two register values that agree on every bit are the same value. */
  lemma BitwiseExtensional(a: bv32, b: bv32)
    requires forall i: Index :: Bit(a, i) == Bit(b, i)
    ensures a == b
  {
    AgreeOnByte0(a, b);
    AgreeOnByte1(a, b);
    AgreeOnByte2(a, b);
    AgreeOnByte3(a, b);
  }

  /** `is_flag`: compares the register, masked by the flag, against the flag. */
  function IsFlag(r: bv32, f: bv32): bool
  {
    f == r & f
  }

  /** `is_flag` holds exactly when every bit of `f` is set in `r`; nothing is said about the other bits. */
  lemma IsFlagBits(r: bv32, f: bv32)
    ensures IsFlag(r, f) <==> forall i: Index :: Bit(f, i) ==> Bit(r, i)
  {
    if forall i: Index :: Bit(f, i) ==> Bit(r, i) {
      forall i: Index ensures Bit(f, i) == Bit(r & f, i) {
        AndBit(r, f, i);
      }
      BitwiseExtensional(f, r & f);
    }
  }

  // One lemma per bitwise operator, stated for a single bit; the lemmas below lift them to
  // every bit with a `forall` statement.

  lemma AndBit(a: bv32, b: bv32, i: Index)
    ensures Bit(a & b, i) <==> Bit(a, i) && Bit(b, i)
  {
  }

  lemma OrBit(a: bv32, b: bv32, i: Index)
    ensures Bit(a | b, i) <==> Bit(a, i) || Bit(b, i)
  {
  }

  lemma AndNotBit(a: bv32, b: bv32, i: Index)
    ensures Bit(a & !b, i) <==> Bit(a, i) && !Bit(b, i)
  {
  }

  lemma MaskedBit(a: bv32, clear: bv32, setMask: bv32, i: Index)
    ensures Bit((a & !clear) | setMask, i) <==> Bit(setMask, i) || (Bit(a, i) && !Bit(clear, i))
  {
  }

  lemma SingleBitOther(i: Index, j: Index)
    requires i != j
    ensures !Bit(1 << i, j)
  {
  }

  lemma SingleBit(i: Index, j: Index)
    ensures Bit(1 << i, j) <==> i == j
  {
  }

  lemma XorSame(a: bv32, i: Index)
    ensures Bit(a ^ (1 << i), i) == !Bit(a, i)
  {
  }

  lemma XorOther(a: bv32, i: Index, j: Index)
    requires i != j
    ensures Bit(a ^ (1 << i), j) == Bit(a, j)
  {
  }

  /** `get_flag`: the register masked by `m`. */
  function GetFlag(r: bv32, m: bv32): bv32
  {
    r & m
  }

  /** `get_flag` keeps exactly the bits of `r` that the mask selects. */
  lemma GetFlagBits(r: bv32, m: bv32)
    ensures forall i: Index :: Bit(GetFlag(r, m), i) <==> Bit(r, i) && Bit(m, i)
  {
    forall i: Index ensures Bit(r & m, i) <==> Bit(r, i) && Bit(m, i) {
      AndBit(r, m, i);
    }
  }

  /** `set_bit`: ORs in the single-bit mask of `i`. */
  function SetBit(r: bv32, i: Index): bv32
  {
    r | (1 << i)
  }

  /** After `set_bit`, bit `i` is 1 and every other bit keeps its value. */
  lemma SetBitBits(r: bv32, i: Index)
    ensures Bit(SetBit(r, i), i)
    ensures forall j: Index :: j != i ==> Bit(SetBit(r, i), j) == Bit(r, j)
  {
    forall j: Index | j != i ensures Bit(r | (1 << i), j) == Bit(r, j) {
      OrBit(r, 1 << i, j);
      SingleBitOther(i, j);
    }
  }

  /** `set_flag(p, f)`: ORs in `f`. */
  function SetFlag(r: bv32, f: bv32): bv32
  {
    r | f
  }

  /** After `set_flag`, the bits of `f` are 1, the others keep their value, and `is_flag` reports `f` as set. */
  lemma SetFlagBits(r: bv32, f: bv32)
    ensures forall i: Index :: Bit(SetFlag(r, f), i) <==> Bit(r, i) || Bit(f, i)
    ensures IsFlag(SetFlag(r, f), f)
  {
    forall i: Index ensures Bit(r | f, i) <==> Bit(r, i) || Bit(f, i) {
      OrBit(r, f, i);
    }
  }

  /** `set_flag(p, clear, set)`: clears the bits of `clear`, then ORs in `setMask`. */
  function SetFlagMasked(r: bv32, clear: bv32, setMask: bv32): bv32
  {
    (r & !clear) | setMask
  }

  /**
   * After the masked `set_flag`, a bit is 1 exactly when `setMask` has it, or `r` had it and
   * `clear` does not.
   */
  lemma SetFlagMaskedBits(r: bv32, clear: bv32, setMask: bv32)
    ensures forall i: Index :: Bit(SetFlagMasked(r, clear, setMask), i) <==> Bit(setMask, i) || (Bit(r, i) && !Bit(clear, i))
  {
    forall i: Index ensures Bit(SetFlagMasked(r, clear, setMask), i) <==> Bit(setMask, i) || (Bit(r, i) && !Bit(clear, i)) {
      MaskedBit(r, clear, setMask, i);
    }
  }

  /** After the masked form of `set_flag`, the flag it sets reads back as set. */
  lemma SetFlagMaskedSetsFlag(r: bv32, clear: bv32, setMask: bv32)
    ensures IsFlag(SetFlagMasked(r, clear, setMask), setMask)
  {
    SetFlagMaskedBits(r, clear, setMask);
    IsFlagBits(SetFlagMasked(r, clear, setMask), setMask);
  }

  /** `clear_bit`: ANDs with the complement of the single-bit mask of `i`. */
  function ClearBit(r: bv32, i: Index): bv32
  {
    r & !(1 << i)
  }

  /** After `clear_bit`, bit `i` is 0 and every other bit keeps its value. */
  lemma ClearBitBits(r: bv32, i: Index)
    ensures !Bit(ClearBit(r, i), i)
    ensures forall j: Index :: j != i ==> Bit(ClearBit(r, i), j) == Bit(r, j)
  {
    ClearBitOthers(r, i);
    ClearBitSame(r, i);
  }

  lemma ClearBitOthers(r: bv32, i: Index)
    ensures forall j: Index :: j != i ==> Bit(ClearBit(r, i), j) == Bit(r, j)
  {
    forall j: Index ensures Bit(ClearBit(r, i), j) <==> Bit(r, j) && j != i {
      ClearBitAt(r, i, j);
    }
  }

  lemma ClearBitAt(r: bv32, i: Index, j: Index)
    ensures Bit(ClearBit(r, i), j) <==> Bit(r, j) && j != i
  {
    if i == j {
      ClearBitSame(r, i);
    } else {
      ClearBitOther(r, i, j);
    }
  }

  lemma ClearBitSame(r: bv32, i: Index)
    ensures !Bit(ClearBit(r, i), i)
  {
  }

  lemma ClearBitOther(r: bv32, i: Index, j: Index)
    requires i != j
    ensures Bit(ClearBit(r, i), j) == Bit(r, j)
  {
  }

  /** `clear_flag`: ANDs with the complement of `f`. */
  function ClearFlag(r: bv32, f: bv32): bv32
  {
    r & !f
  }

  /** After `clear_flag`, the bits of `f` are 0 and the others keep their value. */
  lemma ClearFlagBits(r: bv32, f: bv32)
    ensures forall i: Index :: Bit(ClearFlag(r, f), i) <==> Bit(r, i) && !Bit(f, i)
    ensures ClearFlag(r, f) & f == 0
  {
    forall i: Index ensures Bit(r & !f, i) <==> Bit(r, i) && !Bit(f, i) {
      AndNotBit(r, f, i);
    }
  }

  /** `toggle_bit`: XORs with the single-bit mask of `i`. */
  function ToggleBit(r: bv32, i: Index): bv32
  {
    r ^ (1 << i)
  }

  /** After `toggle_bit`, bit `i` is inverted and every other bit keeps its value. */
  lemma ToggleBitBits(r: bv32, i: Index)
    ensures Bit(ToggleBit(r, i), i) <==> !Bit(r, i)
    ensures forall j: Index :: j != i ==> Bit(ToggleBit(r, i), j) == Bit(r, j)
  {
    XorSame(r, i);
    ToggleBitOthers(r, i);
  }

  lemma ToggleBitOthers(r: bv32, i: Index)
    ensures forall j: Index :: j != i ==> Bit(ToggleBit(r, i), j) == Bit(r, j)
  {
    forall j: Index | j != i ensures Bit(ToggleBit(r, i), j) == Bit(r, j) {
      XorOther(r, i, j);
    }
  }

  /** Clearing a flag twice has the effect of clearing it once. */
  lemma ClearFlagIdempotent(r: bv32, f: bv32)
    ensures ClearFlag(ClearFlag(r, f), f) == ClearFlag(r, f)
  {
  }

  /** Setting a flag twice has the effect of setting it once. */
  lemma SetFlagIdempotent(r: bv32, f: bv32)
    ensures SetFlag(SetFlag(r, f), f) == SetFlag(r, f)
  {
  }

  /** Toggling the same bit twice restores the register. */
  lemma ToggleBitInvolution(r: bv32, i: Index)
    ensures ToggleBit(ToggleBit(r, i), i) == r
  {
  }

  /** A flag is never reported as set once it has been cleared (for a non-empty flag). */
  lemma ClearedFlagIsNotSet(r: bv32, f: bv32)
    requires f != 0
    ensures !IsFlag(ClearFlag(r, f), f)
  {
  }

  /** The empty flag is always reported as set. */
  lemma EmptyFlagIsSet(r: bv32)
    ensures IsFlag(r, 0)
  {
  }

  /** `get_bit` and `is_flag` agree on single-bit flags. */
  lemma GetBitIsSingleBitFlag(r: bv32, i: Index)
    ensures GetBit(r, i) == IsFlag(r, 1 << i)
  {
  }
}

/** The in-place forms of lib/common/bit.hpp, which update a register through a pointer. */
module BitRegister {
  import Bits

  /** One 32-bit hardware register that the helpers update in place. */
  class Register {
    var value: bv32

    constructor (initial: bv32)
      ensures value == initial
    {
      value := initial;
    }

    method SetBit(i: Bits.Index)
      modifies this
      ensures value == Bits.SetBit(old(value), i)
    {
      value := value | (1 << i);
    }

    method SetFlag(f: bv32)
      modifies this
      ensures value == Bits.SetFlag(old(value), f)
    {
      value := value | f;
    }

    method SetFlagMasked(clear: bv32, setMask: bv32)
      modifies this
      ensures value == Bits.SetFlagMasked(old(value), clear, setMask)
    {
      value := (value & !clear) | setMask;
    }

    method ClearBit(i: Bits.Index)
      modifies this
      ensures value == Bits.ClearBit(old(value), i)
    {
      value := value & !(1 << i);
    }

    method ClearFlag(f: bv32)
      modifies this
      ensures value == Bits.ClearFlag(old(value), f)
    {
      value := value & !f;
    }

    method ToggleBit(i: Bits.Index)
      modifies this
      ensures value == Bits.ToggleBit(old(value), i)
    {
      value := value ^ (1 << i);
    }
  }
}
