/**
 * Page-table entries (paging.cpp), the four table indices of a virtual address (PageMapIndexer.cpp) and the
 * walk of the processor (Intel SDM Volume 3A, section 4.5). Words are naturals below 2^64; a mask or shift by a
 * constant is written as the quotient or remainder it computes.
 */
module Paging {
  import BitOps

  const ADDRESSES := 0x100_0000_0000  // 2^40 frame numbers fit an entry
  const ENTRIES := 512
  const HIGH_BITS := 0x10_0000_0000_0000  // 2^52: the field above the address

  datatype Flag =
    Present | ReadWrite | UserSuper | WriteThrough | CacheDisabled | Accessed | LargerPages |
    Custom0 | Custom1 | Custom2 | NX

  function Selector(flag: Flag): nat {
    match flag
    case Present => 1
    case ReadWrite => 2
    case UserSuper => 4
    case WriteThrough => 8
    case CacheDisabled => 0x10
    case Accessed => 0x20
    case LargerPages => 0x80
    case Custom0 => 0x200
    case Custom1 => 0x400
    case Custom2 => 0x800
    case NX => 0x8000_0000_0000_0000
  }

  predicate FlagBit(value: nat, flag: Flag) {
    (value / Selector(flag)) % 2 == 1
  }

  function WithFlag(value: nat, flag: Flag, enabled: bool): nat {
    var cleared := if FlagBit(value, flag) then value - Selector(flag) else value;
    if enabled then cleared + Selector(flag) else cleared
  }

  /** (Value & 0x000ffffffffff000) >> 12 */
  function AddressOf(value: nat): (frame: nat)
    ensures frame < ADDRESSES
  {
    (value / 4096) % ADDRESSES
  }

  /** Value & 0xfff0000000000fff | (Address & 0xffffffffff) << 12 */
  function WithAddress(value: nat, address: nat): nat {
    value / HIGH_BITS * HIGH_BITS + address % ADDRESSES * 4096 + value % 4096
  }

  /** What MapMemory makes of an entry: the address, then Present, then ReadWrite. */
  function Linked(value: nat, frame: nat): nat {
    WithFlag(WithFlag(WithAddress(value, frame), Present, true), ReadWrite, true)
  }

  /** A stored address reads back exactly when it has at most 40 bits, and its low 40 bits always. */
  lemma AddressRoundTrip(value: nat, address: nat)
    ensures AddressOf(WithAddress(value, address)) == address % ADDRESSES
    ensures AddressOf(WithAddress(value, address)) == address <==> address < ADDRESSES
    ensures WithAddress(value, address) % 4096 == value % 4096
    ensures WithAddress(value, address) / HIGH_BITS == value / HIGH_BITS
  {
    var high, low := value / HIGH_BITS, value % 4096;
    var w := WithAddress(value, address);
    assert w == (high * ADDRESSES + address % ADDRESSES) * 4096 + low;
    assert w / 4096 == high * ADDRESSES + address % ADDRESSES;
  }

  lemma SetLowFlags(w: nat)
    ensures WithFlag(WithFlag(w, Present, true), ReadWrite, true) == w / 4 * 4 + 3
  {
    var p := WithFlag(w, Present, true);
    assert p == w / 2 * 2 + 1;
    assert p / 2 == w / 2;
    assert WithFlag(p, ReadWrite, true) == p + (1 - p / 2 % 2) * 2;
  }

  lemma LowFlagsOnly(w: nat)
    ensures (w / 4 * 4 + 3) / 4096 == w / 4096 && (w / 4 * 4 + 3) % 4096 / 4 == w % 4096 / 4
    ensures (w / 4 * 4 + 3) / HIGH_BITS == w / HIGH_BITS
  {
  }

  lemma LowFlagsSet(w: nat)
    ensures FlagBit(w / 4 * 4 + 3, Present) && FlagBit(w / 4 * 4 + 3, ReadWrite)
  {
  }

  /** Linking changes the address and the two low flags of an entry, and nothing else. */
  lemma LinkedEntry(value: nat, frame: nat)
    ensures AddressOf(Linked(value, frame)) == frame % ADDRESSES
    ensures FlagBit(Linked(value, frame), Present) && FlagBit(Linked(value, frame), ReadWrite)
    ensures Linked(value, frame) % 4096 / 4 == value % 4096 / 4
    ensures Linked(value, frame) / HIGH_BITS == value / HIGH_BITS
  {
    AddressRoundTrip(value, frame);
    SetLowFlags(WithAddress(value, frame));
    LowFlagsOnly(WithAddress(value, frame));
    LowFlagsSet(WithAddress(value, frame));
    assert Linked(value, frame) == WithAddress(value, frame) / 4 * 4 + 3;
    hide WithAddress;
    hide Linked;
    hide FlagBit;
  }

  /** A fresh (zero) entry, or one made by an earlier call, becomes the frame number over flags 3. */
  lemma LinkedClean(value: nat, frame: nat)
    requires value < HIGH_BITS && (value % 4096 == 0 || value % 4096 == 3)
    ensures Linked(value, frame) == frame % ADDRESSES * 4096 + 3
  {
    SetLowFlags(WithAddress(value, frame));
  }

  // ---- Flags are bits

  function Position(flag: Flag): nat {
    match flag
    case Present => 0
    case ReadWrite => 1
    case UserSuper => 2
    case WriteThrough => 3
    case CacheDisabled => 4
    case Accessed => 5
    case LargerPages => 7
    case Custom0 => 9
    case Custom1 => 10
    case Custom2 => 11
    case NX => 63
  }

  lemma SelectorIsPower(flag: Flag)
    ensures Selector(flag) == BitOps.Pow2(Position(flag))
  {
    LowPowers();
    HighPowers();
    hide BitOps.Pow2;
  }

  lemma LowPowers()
    ensures BitOps.Pow2(0) == 1 && BitOps.Pow2(1) == 2 && BitOps.Pow2(2) == 4 && BitOps.Pow2(3) == 8
    ensures BitOps.Pow2(4) == 0x10 && BitOps.Pow2(5) == 0x20 && BitOps.Pow2(7) == 0x80
    ensures BitOps.Pow2(9) == 0x200 && BitOps.Pow2(10) == 0x400 && BitOps.Pow2(11) == 0x800 && BitOps.Pow2(12) == 0x1000
  {
    assert BitOps.Pow2(4) == 0x10 && BitOps.Pow2(8) == 0x100;
  }

  lemma HighPowers()
    ensures BitOps.Pow2(63) == 0x8000_0000_0000_0000 && BitOps.Pow2(64) == 0x1_0000_0000_0000_0000
  {
    LowPowers();
    assert BitOps.Pow2(16) == 0x10000;
    assert BitOps.Pow2(20) == 0x100000;
    assert BitOps.Pow2(24) == 0x1000000;
    assert BitOps.Pow2(28) == 0x10000000;
    assert BitOps.Pow2(32) == 0x100000000;
    assert BitOps.Pow2(36) == 0x1000000000;
    assert BitOps.Pow2(40) == 0x10000000000;
    assert BitOps.Pow2(44) == 0x100000000000;
    assert BitOps.Pow2(48) == 0x1000000000000;
    assert BitOps.Pow2(52) == 0x10000000000000;
    assert BitOps.Pow2(56) == 0x100000000000000;
    assert BitOps.Pow2(60) == 0x1000000000000000;
  }

  /** The positions of the flags in an entry (Intel SDM Volume 3A, section 4.5, and the bits left to software). */
  lemma FlagPositions()
    ensures Selector(Present) == BitOps.Pow2(0) && Selector(ReadWrite) == BitOps.Pow2(1)
    ensures Selector(UserSuper) == BitOps.Pow2(2) && Selector(WriteThrough) == BitOps.Pow2(3)
    ensures Selector(CacheDisabled) == BitOps.Pow2(4) && Selector(Accessed) == BitOps.Pow2(5)
    ensures Selector(LargerPages) == BitOps.Pow2(7) && Selector(Custom0) == BitOps.Pow2(9)
    ensures Selector(Custom1) == BitOps.Pow2(10) && Selector(Custom2) == BitOps.Pow2(11)
    ensures Selector(NX) == BitOps.Pow2(63)
  {
    LowPowers();
    HighPowers();
    hide BitOps.Pow2;
  }

  lemma FlagIsBit(value: nat, flag: Flag)
    ensures FlagBit(value, flag) <==> BitOps.BitOf(value, Position(flag)) == 1
  {
    SelectorIsPower(flag);
    BitOps.ShrIsDivision(value, Position(flag));
    BitOps.BitOfShr(value, Position(flag), 0);
    hide Selector, Position, BitOps.Pow2, BitOps.Shr;
  }

  lemma PositionsDiffer(a: Flag, b: Flag)
    ensures Position(a) == Position(b) <==> a == b
  {
  }

  lemma {:induction false} AddBit(v: nat, n: nat, j: nat)
    requires BitOps.BitOf(v, n) == 0
    ensures BitOps.BitOf(v + BitOps.Pow2(n), j) == if j == n then 1 else BitOps.BitOf(v, j)
  {
    if n > 0 && j > 0 {
      AddBit(v / 2, n - 1, j - 1);
      assert (v + BitOps.Pow2(n)) / 2 == v / 2 + BitOps.Pow2(n - 1);
    }
  }

  lemma {:induction false} SubtractBit(v: nat, n: nat, j: nat)
    requires BitOps.BitOf(v, n) == 1
    ensures v >= BitOps.Pow2(n) && BitOps.BitOf(v - BitOps.Pow2(n), j) == if j == n then 0 else BitOps.BitOf(v, j)
  {
    if n > 0 {
      SubtractBit(v / 2, n - 1, if j > 0 then j - 1 else 0);
      assert (v - BitOps.Pow2(n)) / 2 == v / 2 - BitOps.Pow2(n - 1);
    }
  }

  /** `SetFlag` gives one flag its value and leaves every other flag as it was. */
  lemma SetFlagSetsOne(value: nat, flag: Flag, enabled: bool, other: Flag)
    ensures FlagBit(WithFlag(value, flag, enabled), other) == if other == flag then enabled else FlagBit(value, other)
  {
    hide *;
    SelectorIsPower(flag);
    PositionsDiffer(flag, other);
    FlagIsBit(value, flag);
    FlagIsBit(value, other);
    FlagIsBit(WithFlag(value, flag, enabled), other);
    WithFlagIs(value, flag, enabled);
    PutBit(value, Position(flag), Position(other), enabled);
  }

  /** A number with bit `n` set or cleared. */
  function WithBit(value: nat, n: nat, enabled: bool): int {
    var cleared := if BitOps.BitOf(value, n) == 1 then value - BitOps.Pow2(n) else value;
    if enabled then cleared + BitOps.Pow2(n) else cleared
  }

  lemma WithFlagIs(value: nat, flag: Flag, enabled: bool)
    ensures WithFlag(value, flag, enabled) == WithBit(value, Position(flag), enabled)
  {
    FlagIsBit(value, flag);
    SelectorIsPower(flag);
    hide FlagBit, Selector, Position, BitOps.Pow2, BitOps.BitOf;
  }

  lemma PutBit(value: nat, n: nat, j: nat, enabled: bool)
    ensures WithBit(value, n, enabled) >= 0
    ensures BitOps.BitOf(WithBit(value, n, enabled), j)
         == if j == n then (if enabled then 1 else 0) else BitOps.BitOf(value, j)
  {
    if BitOps.BitOf(value, n) == 1 {
      SubtractBit(value, n, j);
      SubtractBit(value, n, n);
      AddBit(value - BitOps.Pow2(n), n, j);
    } else {
      AddBit(value, n, j);
    }
    hide BitOps.Pow2, BitOps.BitOf;
  }

  // ---- The masks of the source

  /** The three fields of an entry. */
  lemma FieldsOf(value: nat)
    ensures value == value % 0x1000 + 0x1000 * (AddressOf(value) + ADDRESSES * (value / HIGH_BITS))
    ensures BitOps.Mask(value, 12) == value % 0x1000 && BitOps.Shr(value, 12) == value / 0x1000
    ensures BitOps.Mask(value / 0x1000, 40) == AddressOf(value) && BitOps.Shr(value / 0x1000, 40) == value / HIGH_BITS
  {
    LowPowers();
    MiddlePower();
    LowAndHigh(value, 12);
    LowAndHigh(value / 0x1000, 40);
    assert value / 0x1000 / ADDRESSES == value / HIGH_BITS;
  }

  lemma LowAndHigh(x: nat, n: nat)
    ensures BitOps.Mask(x, n) == x % BitOps.Pow2(n) && BitOps.Shr(x, n) == x / BitOps.Pow2(n)
  {
    BitOps.SplitAtBit(x, n);
    BitOps.ShrIsDivision(x, n);
    BitOps.ShlIsProduct(BitOps.Shr(x, n), n);
    hide BitOps.Mask, BitOps.Shr, BitOps.Shl, BitOps.Pow2;
  }

  lemma MiddlePower()
    ensures BitOps.Pow2(40) == ADDRESSES
  {
    LowPowers();
    assert BitOps.Pow2(16) == 0x1_0000 && BitOps.Pow2(20) == 0x10_0000;
    assert BitOps.Pow2(24) == 0x100_0000 && BitOps.Pow2(28) == 0x1000_0000;
    assert BitOps.Pow2(32) == 0x1_0000_0000 && BitOps.Pow2(36) == 0x10_0000_0000;
  }

  /** A word of 64 bits as its three fields. */
  function Fields(low: nat, middle: nat, high: nat): nat {
    low + BitOps.Shl(middle + BitOps.Shl(high, 40), 12)
  }

  lemma FieldsAre(low: nat, middle: nat, high: nat)
    requires low < 0x1000 && middle < ADDRESSES
    ensures Fields(low, middle, high) == low + 0x1000 * (middle + ADDRESSES * high)
    ensures BitOps.Mask(Fields(low, middle, high), 12) == low
    ensures BitOps.Shr(Fields(low, middle, high), 12) == middle + BitOps.Shl(high, 40)
  {
    LowPowers();
    MiddlePower();
    BitOps.ShlIsProduct(high, 40);
    BitOps.ShlIsProduct(middle + BitOps.Shl(high, 40), 12);
    BitOps.PartsOf(low, middle + BitOps.Shl(high, 40), 12);
    hide BitOps.Shl, BitOps.Shr, BitOps.Mask, BitOps.Pow2;
  }

  /** `&` and `|` work field by field. */
  lemma AndFields(a: nat, b: nat, c: nat, x: nat, y: nat, z: nat)
    requires a < 0x1000 && x < 0x1000 && b < ADDRESSES && y < ADDRESSES
    ensures BitOps.And(Fields(a, b, c), Fields(x, y, z))
         == Fields(BitOps.And(a, x), BitOps.And(b, y), BitOps.And(c, z))
  {
    hide *;
    MiddlePower();
    FieldsAre(a, b, c);
    FieldsAre(x, y, z);
    BitOps.AndSplit(Fields(a, b, c), Fields(x, y, z), 12);
    BitOps.PartsOf(b, c, 40);
    BitOps.PartsOf(y, z, 40);
    BitOps.AndSplit(b + BitOps.Shl(c, 40), y + BitOps.Shl(z, 40), 40);
    FieldsUnfold(BitOps.And(a, x), BitOps.And(b, y), BitOps.And(c, z));
  }

  lemma OrFields(a: nat, b: nat, c: nat, x: nat, y: nat, z: nat)
    requires a < 0x1000 && x < 0x1000 && b < ADDRESSES && y < ADDRESSES
    ensures BitOps.Or(Fields(a, b, c), Fields(x, y, z))
         == Fields(BitOps.Or(a, x), BitOps.Or(b, y), BitOps.Or(c, z))
  {
    hide *;
    MiddlePower();
    FieldsAre(a, b, c);
    FieldsAre(x, y, z);
    BitOps.OrSplit(Fields(a, b, c), Fields(x, y, z), 12);
    BitOps.PartsOf(b, c, 40);
    BitOps.PartsOf(y, z, 40);
    BitOps.OrSplit(b + BitOps.Shl(c, 40), y + BitOps.Shl(z, 40), 40);
    FieldsUnfold(BitOps.Or(a, x), BitOps.Or(b, y), BitOps.Or(c, z));
  }

  lemma FieldsUnfold(low: nat, middle: nat, high: nat)
    ensures Fields(low, middle, high) == low + BitOps.Shl(middle + BitOps.Shl(high, 40), 12)
  {
  }

  lemma AndOnes(x: nat, n: nat, ones: nat)
    requires ones == BitOps.Pow2(n) - 1 && x <= ones
    ensures BitOps.And(x, ones) == x && BitOps.And(x, 0) == 0 && BitOps.Or(x, 0) == x && BitOps.Or(0, x) == x
  {
    BitOps.AndMask(x, n);
    BitOps.MaskBound(x, n);
  }

  lemma EntryFields(value: nat)
    requires value < 0x1_0000_0000_0000_0000
    ensures value == Fields(value % 0x1000, AddressOf(value), value / HIGH_BITS) && value / HIGH_BITS < 0x1000
  {
    FieldsOf(value);
    FieldsAre(value % 0x1000, AddressOf(value), value / HIGH_BITS);
    hide Fields, BitOps.Mask, BitOps.Shr, BitOps.Shl;
  }

  /** `GetAddress` and `SetAddress` with the masks, shifts and ORs of paging.cpp. */
  lemma AddressMasks(value: nat, address: nat)
    requires value < 0x1_0000_0000_0000_0000 && address < 0x1_0000_0000_0000_0000
    ensures BitOps.Shr(BitOps.And(value, 0x000f_ffff_ffff_f000), 12) == AddressOf(value)
    ensures BitOps.Or(BitOps.And(value, 0xfff0_0000_0000_0fff),
                      BitOps.Shl(BitOps.And(address, 0x0000_00ff_ffff_ffff), 12)) == WithAddress(value, address)
  {
    var low, middle, high := value % 0x1000, AddressOf(value), value / HIGH_BITS;
    var a := address % ADDRESSES;
    assert WithAddress(value, address) == low + 0x1000 * (a + ADDRESSES * high);
    hide *;
    EntryFields(value);
    MaskConstants();
    LowPowers();
    MiddlePower();
    AndOnes(low, 12, 0xfff);
    AndOnes(high, 12, 0xfff);
    AndOnes(middle, 40, ADDRESSES - 1);
    AndOnes(a, 40, ADDRESSES - 1);
    AndFields(low, middle, high, 0, ADDRESSES - 1, 0);
    AndFields(low, middle, high, 0xfff, 0, 0xfff);
    FieldsAre(0, middle, 0);
    ShlNothing();
    AddressMask(address);
    FieldsAre(0, a, 0);
    OrFields(low, 0, high, 0, a, 0);
    FieldsAre(low, a, high);
  }

  lemma ShlNothing()
    ensures BitOps.Shl(0, 40) == 0 && BitOps.Shl(0, 12) == 0 && BitOps.And(0, 0) == 0
  {
    BitOps.ShlIsProduct(0, 40);
    BitOps.ShlIsProduct(0, 12);
  }

  lemma AddressMask(address: nat)
    ensures BitOps.And(address, 0x0000_00ff_ffff_ffff) == address % ADDRESSES
    ensures BitOps.Shl(address % ADDRESSES, 12) == Fields(0, address % ADDRESSES, 0)
  {
    MiddlePower();
    BitOps.AndMask(address, 40);
    LowAndHigh(address, 40);
    ShlNothing();
    hide BitOps.And, BitOps.Mask, BitOps.Shl, BitOps.Pow2;
  }

  lemma MaskConstants()
    ensures Fields(0, ADDRESSES - 1, 0) == 0x000f_ffff_ffff_f000 && Fields(0xfff, 0, 0xfff) == 0xfff0_0000_0000_0fff
    ensures ADDRESSES - 1 == 0x0000_00ff_ffff_ffff && ADDRESSES == 0x100_0000_0000
  {
    Constants();
    hide *;
    FieldsAre(0, ADDRESSES - 1, 0);
    FieldsAre(0xfff, 0, 0xfff);
  }

  lemma Constants()
    ensures ADDRESSES == 0x100_0000_0000
  {
  }

  /** `SetFlag` with the masks of paging.cpp: clear the bit, then set it if asked to. */
  lemma FlagMasks(value: nat, flag: Flag)
    requires value < 0x1_0000_0000_0000_0000
    ensures BitOps.And(value, 0xffff_ffff_ffff_ffff - Selector(flag)) == WithFlag(value, flag, false)
    ensures BitOps.Or(WithFlag(value, flag, false), Selector(flag)) == WithFlag(value, flag, true)
  {
    var n := Position(flag);
    HighPowers();
    SelectorIsPower(flag);
    FlagIsBit(value, flag);
    SetFlagSetsOne(value, flag, false, flag);
    FlagIsBit(WithFlag(value, flag, false), flag);
    BitOps.AndNotBit(value, n, 64);
    BitOps.OrBit(WithFlag(value, flag, false), n);
    hide Selector, FlagBit, BitOps.Pow2, BitOps.And, BitOps.Or, BitOps.BitOf;
  }

  /** `GetFlag` reads bit 0, so it answers rightly on all entries for the one flag that is bit 0. */
  lemma GetFlagExactly(flag: Flag)
    ensures (forall v: nat :: FlagBit(v, Present) == FlagBit(v, flag)) <==> flag == Present
  {
    assert FlagBit(1, Present);
    if flag != Present {
      assert !FlagBit(1, flag);
    }
  }

  lemma HighFieldStays(value: nat, address: nat)
    ensures WithAddress(value, address) / HIGH_BITS == value / HIGH_BITS
  {
  }

  lemma FlagParts(value: nat, flag: Flag, enabled: bool)
    ensures Selector(flag) > 0
    ensures (value / Selector(flag)) % 2 == 1 ==> value >= Selector(flag)
    ensures WithFlag(value, flag, enabled)
         == (if (value / Selector(flag)) % 2 == 1 then value - Selector(flag) else value)
            + if enabled then Selector(flag) else 0
  {
  }

  class PageDirectoryEntry {
    var Value: nat

    constructor (value: nat)
      ensures Value == value
    {
      Value := value;
    }

    method SetFlag(flag: Flag, enabled: bool)
      modifies this
      ensures forall other :: FlagBit(Value, other) == if other == flag then enabled else FlagBit(old(Value), other)
      ensures Value == WithFlag(old(Value), flag, enabled)
    {
      hide *;
      forall other
        ensures FlagBit(WithFlag(Value, flag, enabled), other)
             == if other == flag then enabled else FlagBit(Value, other)
      {
        SetFlagSetsOne(Value, flag, enabled, other);
      }
      FlagParts(Value, flag, enabled);
      if (Value / Selector(flag)) % 2 == 1 {
        Value := Value - Selector(flag);
      }
      if enabled {
        Value := Value + Selector(flag);
      }
    }

    /** `Value & BitSelector > 0` groups as `Value & (BitSelector > 0)`: it reads bit 0 for every flag. */
    method GetFlag(flag: Flag) returns (enabled: bool)
      ensures enabled == FlagBit(Value, Present)
    {
      var selectorIsPositive := if Selector(flag) > 0 then 1 else 0;
      return selectorIsPositive == 1 && Value % 2 == 1;
    }

    method GetAddress() returns (address: nat)
      ensures address == AddressOf(Value)
    {
      return (Value / 0x1000) % 0x100_0000_0000;
    }

    method SetAddress(address: nat)
      modifies this
      ensures AddressOf(Value) == address % ADDRESSES && (AddressOf(Value) == address <==> address < ADDRESSES)
      ensures Value % 0x1000 == old(Value) % 0x1000 && Value / HIGH_BITS == old(Value) / HIGH_BITS
      ensures Value == WithAddress(old(Value), address)
    {
      AddressRoundTrip(Value, address);
      HighFieldStays(Value, address);
      var masked := address % 0x100_0000_0000;
      Value := Value / HIGH_BITS * HIGH_BITS + Value % 0x1000;
      Value := Value + masked * 0x1000;
    }
  }

  // ---- Indices

  /** The indices into the four tables, outermost first. */
  function Path(virtualAddress: nat): (path: seq<nat>)
    ensures |path| == 4 && forall i :: 0 <= i < 4 ==> path[i] < ENTRIES
  {
    [virtualAddress / 0x80_0000_0000 % 512, virtualAddress / 0x4000_0000 % 512,
     virtualAddress / 0x20_0000 % 512, virtualAddress / 0x1000 % 512]
  }

  /** Bits 12 to 47 of an address. */
  function PageOf(virtualAddress: nat): nat {
    virtualAddress / 0x1000 % 0x10_0000_0000
  }

  lemma ShiftPast12(v: nat)
    ensures v / 0x1000 / 512 == v / 0x20_0000
  {
  }

  lemma ShiftPast21(v: nat)
    ensures v / 0x20_0000 / 512 == v / 0x4000_0000
  {
  }

  lemma ShiftPast30(v: nat)
    ensures v / 0x4000_0000 / 512 == v / 0x80_0000_0000
  {
  }

  class PageMapIndexer {
    var PDP_i: nat
    var PD_i: nat
    var PT_i: nat
    var P_i: nat

    constructor (virtualAddress: nat)
      ensures [PDP_i, PD_i, PT_i, P_i] == Path(virtualAddress)
    {
      var address := virtualAddress;
      address := address / 0x1000;
      P_i := address % 0x200;
      address := address / 0x200;
      ShiftPast12(virtualAddress);
      PT_i := address % 0x200;
      address := address / 0x200;
      ShiftPast21(virtualAddress);
      PD_i := address % 0x200;
      address := address / 0x200;
      ShiftPast30(virtualAddress);
      PDP_i := address % 0x200;
    }
  }

  lemma FourDigits(n: nat)
    ensures n % 0x10_0000_0000 == n / 512 % 0x800_0000 * 512 + n % 512
  {
  }

  lemma ThreeDigits(n: nat)
    ensures n % 0x800_0000 == n / 512 % 0x4_0000 * 512 + n % 512
  {
  }

  lemma TwoDigits(n: nat)
    ensures n % 0x4_0000 == n / 512 % 512 * 512 + n % 512
  {
  }

  /** The four indices are the base-512 digits of the page number. */
  lemma PathDigits(v: nat)
    ensures PageOf(v) == ((Path(v)[0] * 512 + Path(v)[1]) * 512 + Path(v)[2]) * 512 + Path(v)[3]
  {
    ShiftPast12(v);
    ShiftPast21(v);
    ShiftPast30(v);
    FourDigits(v / 0x1000);
    ThreeDigits(v / 0x20_0000);
    TwoDigits(v / 0x4000_0000);
  }

  lemma DigitsUnique(a0: nat, a1: nat, a2: nat, a3: nat, b0: nat, b1: nat, b2: nat, b3: nat)
    requires a0 < 512 && a1 < 512 && a2 < 512 && a3 < 512 && b0 < 512 && b1 < 512 && b2 < 512 && b3 < 512
    requires ((a0 * 512 + a1) * 512 + a2) * 512 + a3 == ((b0 * 512 + b1) * 512 + b2) * 512 + b3
    ensures a0 == b0 && a1 == b1 && a2 == b2 && a3 == b3
  {
  }

  /** Two addresses share all four indices exactly when they agree in bits 12 to 47. */
  lemma PathIsPage(v: nat, w: nat)
    ensures Path(v) == Path(w) <==> PageOf(v) == PageOf(w)
  {
    PathDigits(v);
    PathDigits(w);
    if PageOf(v) == PageOf(w) {
      var a, b := Path(v), Path(w);
      DigitsUnique(a[0], a[1], a[2], a[3], b[0], b[1], b[2], b[3]);
    }
  }

  /** Every four indices into tables are those of a page: the tables below a root cover 2^48 bytes, once. */
  lemma EveryPathIsAPage(a: nat, b: nat, c: nat, d: nat)
    requires a < ENTRIES && b < ENTRIES && c < ENTRIES && d < ENTRIES
    ensures Path((((a * 512 + b) * 512 + c) * 512 + d) * 4096) == [a, b, c, d]
  {
    hide Path, PageOf;
    var page := ((a * 512 + b) * 512 + c) * 512 + d;
    var p := Path(page * 4096);
    PathDigits(page * 4096);
    PageOfPage(page);
    DigitsUnique(p[0], p[1], p[2], p[3], a, b, c, d);
  }

  lemma PageOfPage(page: nat)
    requires page < 0x10_0000_0000
    ensures PageOf(page * 4096) == page
  {
  }

  // ---- The processor's walk

  type Table = t: seq<nat> | |t| == ENTRIES witness seq(ENTRIES, _ => 0)

  /** A table after memset(table, 0, 0x1000). */
  function ZeroTable(): (t: Table)
    ensures forall i :: 0 <= i < ENTRIES ==> t[i] == 0
  {
    seq(ENTRIES, _ => 0)
  }

  datatype Mapping = Fault | Mapped(frame: nat, writable: bool)

  /** `indices` as digits in base 512. */
  function Digits(indices: seq<nat>): nat {
    if indices == [] then 0 else Digits(indices[..|indices| - 1]) * 512 + indices[|indices| - 1]
  }

  function Span(levels: nat): (pages: nat)
    ensures pages > 0
  {
    if levels == 0 then 1 else 512 * Span(levels - 1)
  }

  ghost predicate IsPath(path: seq<nat>) {
    |path| <= 4 && forall i :: 0 <= i < |path| ==> path[i] < ENTRIES
  }

  /**
   * Follow `path` from the table in frame `frame`. With the page-size bit set, an entry of the second or third
   * level maps a large page; in the outermost table that bit is reserved.
   */
  function Walk(memory: seq<Table>, frame: nat, path: seq<nat>): Mapping
    requires 0 < |path| && forall i :: 0 <= i < |path| ==> path[i] < ENTRIES
    decreases |path|
  {
    if frame >= |memory| then Fault
    else
      var e := memory[frame][path[0]];
      if !FlagBit(e, Present) then Fault
      else if |path| == 1 then Mapped(AddressOf(e), FlagBit(e, ReadWrite))
      else if FlagBit(e, LargerPages) then
        if |path| >= 4 then Fault
        else
          var span := Span(|path| - 1);
          Mapped(AddressOf(e) / span * span + Digits(path[1..]), FlagBit(e, ReadWrite))
      else
        match Walk(memory, AddressOf(e), path[1..])
        case Fault => Fault
        case Mapped(f, w) => Mapped(f, w && FlagBit(e, ReadWrite))
  }

  /** A large page of 2 MiB or 1 GiB is mapped as a whole: the indices that are left count its frames. */
  lemma LargePages(memory: seq<Table>, frame: nat, i: nat, j: nat, k: nat)
    requires frame < |memory| && i < ENTRIES && j < ENTRIES && k < ENTRIES
    requires FlagBit(memory[frame][i], Present) && FlagBit(memory[frame][i], LargerPages)
    ensures var e := memory[frame][i];
      && Walk(memory, frame, [i, j]) == Mapped(AddressOf(e) / 512 * 512 + j, FlagBit(e, ReadWrite))
      && Walk(memory, frame, [i, j, k])
         == Mapped(AddressOf(e) / 0x4_0000 * 0x4_0000 + j * 512 + k, FlagBit(e, ReadWrite))
  {
    assert [i, j][1..] == [j] && [i, j, k][1..] == [j, k];
    assert [j][..0] == [] && [j, k][..1] == [j];
    assert Digits([j]) == j && Digits([j, k]) == j * 512 + k;
    assert Span(1) == 512 && Span(2) == 0x4_0000;
    hide FlagBit, AddressOf;
  }

  function Translate(memory: seq<Table>, root: nat, virtualAddress: nat): Mapping {
    Walk(memory, root, Path(virtualAddress))
  }
}
