/** `MemFlags`: the allocation flags passed to the allocator, packed into one
    32-bit word of bit-fields. The fields, from the least significant bit:
    arena (4 bits), alignment (3), category (7), OOM-safe (1) and padding
    (17). The word is modelled explicitly as an integer below 2^32 so that
    the packing, not just the field values, is what the lemmas speak of. */
module MemFlagsModel {
  import opened Common

  datatype EMemArena = MemArenaDefault | MemArenaGlobal | MemArenaTransient | MemArenaTemp | MemArenaNext | MemArenaMax
  datatype EMemAlignment = MemAlignDefault | MemAlign4 | MemAlign16 | MemAlign128 | MemAlign1024 | MemAlign4096
  datatype EMemCategory = MemCatUncategorized | MemCatFileIo | MemCatString | MemCatTest | MemCatXml

  /** The value of each enumerator, as the enumerations declare them. */
  function ArenaValue(a: EMemArena): nat
  {
    match a
    case MemArenaDefault => 0
    case MemArenaGlobal => 1
    case MemArenaTransient => 2
    case MemArenaTemp => 3
    case MemArenaNext => 4
    case MemArenaMax => 15
  }

  function AlignmentValue(a: EMemAlignment): nat
  {
    match a
    case MemAlignDefault => 0
    case MemAlign4 => 1
    case MemAlign16 => 2
    case MemAlign128 => 3
    case MemAlign1024 => 4
    case MemAlign4096 => 5
  }

  function CategoryValue(c: EMemCategory): nat
  {
    match c
    case MemCatUncategorized => 0
    case MemCatFileIo => 1
    case MemCatString => 2
    case MemCatTest => 3
    case MemCatXml => 4
  }

  /** The bit-field layout: each field's lowest bit as a power of two
      (its unit) and the number of values it holds (two to its width). */
  const ArenaUnit := 1
  const ArenaSize := 16
  const AlignUnit := 16
  const AlignSize := 8
  const CategoryUnit := 128
  const CategorySize := 128
  const OomSafeUnit := 0x4000
  const OomSafeSize := 2
  const PaddingUnit := 0x8000
  const PaddingSize := 0x2_0000

  function Pow2(n: nat): (r: nat)
    ensures r >= 1
  {
    if n == 0 then 1 else 2 * Pow2(n - 1)
  }

  /** The widths are 4, 3, 7, 1 and 17 bits, each field starts where the
      previous one ends, and together they fill 32 bits. */
  lemma Layout()
    ensures ArenaSize == Pow2(4) && AlignSize == Pow2(3) && CategorySize == Pow2(7)
    ensures OomSafeSize == Pow2(1) && PaddingSize == Pow2(17)
    ensures AlignUnit == ArenaUnit * ArenaSize && CategoryUnit == AlignUnit * AlignSize
    ensures OomSafeUnit == CategoryUnit * CategorySize && PaddingUnit == OomSafeUnit * OomSafeSize
    ensures PaddingUnit * PaddingSize == Pow2(4 + 3 + 7 + 1 + 17)
  {
    assert Pow2(7) == 128 by {
      assert Pow2(4) == 16;
    }
    assert Pow2(32) == 0x1_0000_0000 by {
      assert Pow2(24) == 0x100_0000 by {
        assert Pow2(17) == 0x2_0000 by {
          assert Pow2(10) == 0x400;
        }
      }
    }
  }

  /** Dividing `high * d + low` by `d` separates the two parts. */
  lemma SplitAt(high: nat, low: nat, d: nat)
    requires low < d
    ensures (high * d + low) / d == high && (high * d + low) % d == low
  {
    var n := high * d + low;
    var q, r := n / d, n % d;
    assert (q - high) * d == low - r;
    if q > high {
      MulAtLeast(q - high, d);
    } else if q < high {
      MulAtLeast(high - q, d);
    }
  }

  lemma MulAtLeast(k: nat, d: nat)
    requires k >= 1
    ensures k * d >= d
  {
  }

  newtype Word32 = x: int | 0 <= x < 0x1_0000_0000

  /** The field of `w` whose lowest bit is worth `unit` and which holds
      `size` values. */
  function Field(w: Word32, unit: nat, size: nat): (r: nat)
    requires unit > 0 && size > 0
    ensures r < size
  {
    (w as int / unit) % size
  }

  /** The word with the five fields set to the given values, each of which
      must fit its field; every field reads back its value. */
  function Pack(arena: nat, align: nat, category: nat, oomSafe: nat, padding: nat): (w: Word32)
    requires arena < ArenaSize && align < AlignSize && category < CategorySize
    requires oomSafe < OomSafeSize && padding < PaddingSize
    ensures Field(w, ArenaUnit, ArenaSize) == arena
    ensures Field(w, AlignUnit, AlignSize) == align
    ensures Field(w, CategoryUnit, CategorySize) == category
    ensures Field(w, OomSafeUnit, OomSafeSize) == oomSafe
    ensures Field(w, PaddingUnit, PaddingSize) == padding
  {
    var w := arena * ArenaUnit + align * AlignUnit + category * CategoryUnit + oomSafe * OomSafeUnit + padding * PaddingUnit;
    SplitAt(align + category * 8 + oomSafe * 0x400 + padding * 0x800, arena, ArenaSize);
    SplitAt(category + oomSafe * 128 + padding * 0x100, align, AlignSize);
    SplitAt(category + oomSafe * 128 + padding * 0x100, arena + align * 16, CategoryUnit);
    SplitAt(oomSafe + padding * 2, category, CategorySize);
    SplitAt(oomSafe + padding * 2, arena + align * 16 + category * 128, OomSafeUnit);
    SplitAt(padding, oomSafe, OomSafeSize);
    SplitAt(padding, arena + align * 16 + category * 128 + oomSafe * 0x4000, PaddingUnit);
    SplitAt(0, padding, PaddingSize);
    (arena * ArenaUnit + align * AlignUnit + category * CategoryUnit + oomSafe * OomSafeUnit + padding * PaddingUnit) as Word32
  }

  /** `MemFlags(arena, cat)`: the default alignment, not OOM-safe, zero
      padding. */
  function MakeFlags(arena: EMemArena, cat: EMemCategory): (f: Word32)
    ensures f == MakeAlignedFlags(arena, cat, MemAlignDefault)
  {
    Pack(ArenaValue(arena), AlignmentValue(MemAlignDefault), CategoryValue(cat), 0, 0)
  }

  /** `MemFlags(arena, cat, align)`: also stores the alignment. */
  function MakeAlignedFlags(arena: EMemArena, cat: EMemCategory, align: EMemAlignment): (f: Word32)
  {
    Pack(ArenaValue(arena), AlignmentValue(align), CategoryValue(cat), 0, 0)
  }

  function GetArena(f: Word32): (r: nat)
    ensures r < 16
  {
    Field(f, ArenaUnit, ArenaSize)
  }

  function GetAlignment(f: Word32): (r: nat)
    ensures r < 8
  {
    Field(f, AlignUnit, AlignSize)
  }

  function GetCategory(f: Word32): (r: nat)
    ensures r < 128
  {
    Field(f, CategoryUnit, CategorySize)
  }

  /** The OOM-safe bit, which only the allocator reads. */
  function IsOomSafe(f: Word32): bool
  {
    Field(f, OomSafeUnit, OomSafeSize) == 1
  }

  /** Every enumerator fits the field that stores it. */
  lemma EnumeratorsFit(a: EMemArena, al: EMemAlignment, c: EMemCategory)
    ensures ArenaValue(a) < ArenaSize && AlignmentValue(al) < AlignSize && CategoryValue(c) < CategorySize
  {
  }

  /** The getters give back exactly what the three-argument constructor was
      given, for every enumerator, and the flags are not OOM-safe. */
  lemma AlignedFlagsRoundTrip(arena: EMemArena, cat: EMemCategory, align: EMemAlignment)
    ensures GetArena(MakeAlignedFlags(arena, cat, align)) == ArenaValue(arena)
    ensures GetAlignment(MakeAlignedFlags(arena, cat, align)) == AlignmentValue(align)
    ensures GetCategory(MakeAlignedFlags(arena, cat, align)) == CategoryValue(cat)
    ensures !IsOomSafe(MakeAlignedFlags(arena, cat, align))
  {
  }

  /** The two-argument constructor: the getters give back arena and
      category, the alignment reads as the default and OOM-safe is clear. */
  lemma FlagsRoundTrip(arena: EMemArena, cat: EMemCategory)
    ensures GetArena(MakeFlags(arena, cat)) == ArenaValue(arena)
    ensures GetAlignment(MakeFlags(arena, cat)) == AlignmentValue(MemAlignDefault)
    ensures GetCategory(MakeFlags(arena, cat)) == CategoryValue(cat)
    ensures !IsOomSafe(MakeFlags(arena, cat))
  {
    AlignedFlagsRoundTrip(arena, cat, MemAlignDefault);
  }

  /** Distinct arguments give distinct flags: the packing loses nothing. */
  lemma AlignedFlagsInjective(a1: EMemArena, c1: EMemCategory, l1: EMemAlignment, a2: EMemArena, c2: EMemCategory, l2: EMemAlignment)
    ensures MakeAlignedFlags(a1, c1, l1) == MakeAlignedFlags(a2, c2, l2) <==> a1 == a2 && c1 == c2 && l1 == l2
  {
    if MakeAlignedFlags(a1, c1, l1) == MakeAlignedFlags(a2, c2, l2) {
      AlignedFlagsRoundTrip(a1, c1, l1);
      AlignedFlagsRoundTrip(a2, c2, l2);
    }
  }
}
