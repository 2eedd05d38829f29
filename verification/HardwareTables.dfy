/** What the MIN, BASE and SYMB memories promise a decoder that reads them bit by bit. */
module HardwareTables {
  import opened Words
  import opened CanonicalCodes
  import opened HuffmanTables
  import opened TableGenerator
  import opened TableLoading

  // ---- the MIN memory as it is written out

  /** The field of a length: as many bits as the length, but no more than 8. */
  function Packed(smallest: nat, i: nat): nat {
    smallest % Pow2(if i < 8 then i else 8)
  }

  /** The number a field stands for: the bits above the low 8 are ones. */
  function Unpacked(field: nat, i: nat): int {
    if i <= 8 then field else (Pow2(i - 8) - 1) * 256 + field
  }

  /** The first i bits of a window are at least the smallest code of length i, as far as its
      field tells. */
  predicate Reaches(min: seq<nat>, lengths: nat, w: nat, i: nat)
    requires 1 <= i <= 16 && lengths + 16 <= |min|
  {
    w / Pow2(16 - i) >= Unpacked(Packed(min[lengths + i - 1], i), i)
  }

  lemma LowByte(n: nat, high: nat)
    requires n < high * 256
    ensures (high - 1) * 256 + n % 256 >= n
    ensures (high - 1) * 256 + n % 256 == n <==> high * 256 - n <= 256
  {
  }

  /** A field gives a number in range back exactly if at most 256 numbers of its length are not
      below it; otherwise what it gives is larger. */
  lemma FieldKeeps(smallest: nat, i: nat)
    requires 1 <= i <= 16 && smallest < Pow2(i)
    ensures Unpacked(Packed(smallest, i), i) >= smallest
    ensures Unpacked(Packed(smallest, i), i) == smallest <==> i <= 8 || Pow2(i) - smallest <= 256
  {
    hide Pow2;
    Pow2Values();
    if i <= 8 {
      SmallMod(smallest, Pow2(i));
    } else {
      Pow2Add(i - 8, 8);
      LowByte(smallest, Pow2(i - 8));
    }
  }

  lemma ByteOver(high: nat)
    ensures high * 256 % 256 == 0 && (high - 1) * 256 < high * 256
  {
  }

  /** The field of a number just out of range: zero. */
  lemma FieldOverflows(i: nat)
    requires 1 <= i <= 15
    ensures Packed(Pow2(i), i) == 0 && Unpacked(0, i) < Pow2(i)
  {
    if i < 8 {
      hide Pow2;
    } else {
      Pow2Add(i - 8, 8);
      assert Pow2(8) == 256 by { Pow2Values(); }
      hide Pow2;
      ByteOver(Pow2(i - 8));
    }
  }

  // ---- finding the length and the symbol

  /** No word of ones is left over beyond the table's longest codes. */
  ghost predicate NotFull(sizes: seq<nat>)
    requires ValidSizes(sizes)
  {
    Kraft(sizes, |sizes|) < FULL || (sizes != [] && sizes[|sizes| - 1] == 16)
  }

  lemma AddressIn9Bits(base: int, code: int, address: int)
    requires base + code == address && 0 <= address < 512
    ensures (base % 512 + code) % 512 == address
  {
  }

  lemma LittleAbove(sizes: seq<nat>, k: nat, i: nat)
    requires ValidSizes(sizes) && k < |sizes| && NarrowSafe(sizes) && 8 < i <= sizes[k]
    ensures FULL - Kraft(sizes, ValPtr(sizes, i)) <= 256 * Pow2(16 - i)
  {
    hide Kraft, Pow2, ValPtr;
    var first := ValPtr(sizes, i);
    assert first <= k && sizes[first] >= i;
    Pow2Monotonic(16 - sizes[first], 16 - i);
  }

  lemma FirstBelowFull(sizes: seq<nat>, i: nat)
    requires ValidSizes(sizes) && 1 <= i <= 16 && Kraft(sizes, |sizes|) <= FULL && NotFull(sizes)
    ensures Kraft(sizes, ValPtr(sizes, i)) < FULL
  {
    var first := ValPtr(sizes, i);
    hide ValPtr, Pow2;
    if first < |sizes| {
      assert Kraft(sizes, first + 1) == Kraft(sizes, first) + Pow2(16 - sizes[first]);
      hide Kraft;
      KraftMonotonic(sizes, first + 1, |sizes|);
    }
  }

  /** The smallest code of a length is in range, and for the lengths up to a code's own there are
      at most 256 above it. */
  lemma SmallestInRange(sizes: seq<nat>, k: nat, i: nat, smallest: nat)
    requires ValidSizes(sizes) && k < |sizes| && 1 <= i <= 16 && IsSmallest(smallest, sizes, i)
    requires NarrowSafe(sizes) && Kraft(sizes, |sizes|) <= FULL && NotFull(sizes)
    ensures smallest < Pow2(i)
    ensures 8 < i <= sizes[k] ==> Pow2(i) - smallest <= 256
  {
    var first := ValPtr(sizes, i);
    assert smallest * Pow2(16 - i) == Kraft(sizes, first) by {
      hide HuffCode, Kraft, Pow2, ValPtr;
    }
    assert Kraft(sizes, first) < FULL by { FirstBelowFull(sizes, i); }
    hide HuffCode, Kraft, Pow2, ValPtr, IsSmallest, NotFull, NarrowSafe;
    FullCodeSpace(i);
    WindowFits(Pow2(i), smallest, Pow2(16 - i));
    if 8 < i <= sizes[k] {
      LittleAbove(sizes, k, i);
      WithinLast(Pow2(i), smallest, Pow2(16 - i));
    }
  }

  lemma AtLeastSmallest(sizes: seq<nat>, k: nat, w: nat, i: nat, smallest: nat)
    requires ValidSizes(sizes) && k < |sizes| && 1 <= i <= 16 && InWindow(w, HuffCode(sizes, k), sizes[k])
    requires IsSmallest(smallest, sizes, i)
    ensures w / Pow2(16 - i) >= smallest <==> i <= sizes[k]
  {
    var first := ValPtr(sizes, i);
    assert smallest * Pow2(16 - i) == Kraft(sizes, first) by {
      hide HuffCode, Kraft, Pow2, ValPtr, InWindow;
    }
    hide *;
    InWindowIff(sizes, k, w);
    QuotientBound(w, Pow2(16 - i), smallest);
    if i <= sizes[k] {
      KraftMonotonic(sizes, first, k);
    } else {
      KraftMonotonic(sizes, k + 1, first);
    }
  }

  lemma ReachesLength(m: Memories, sizes: seq<nat>, ac: bool, ht: nat, k: nat, w: nat, i: nat)
    requires m.Valid() && ht <= 1 && ValidSizes(sizes) && MinHolds(m, sizes, ac, ht)
    requires k < |sizes| && 1 <= i <= 16 && w < FULL && InWindow(w, HuffCode(sizes, k), sizes[k])
    requires NarrowSafe(sizes) && Kraft(sizes, |sizes|) <= FULL && NotFull(sizes)
    ensures Reaches(m.min, LengthBase(ac, ht), w, i) <==> i <= sizes[k]
  {
    hide HuffCode, Kraft, Pow2, ValPtr, InWindow, IsSmallest, NarrowSafe, NotFull;
    var smallest := m.min[LengthBase(ac, ht) + i - 1];
    assert IsSmallest(smallest, sizes, i);
    hide MinHolds;
    AtLeastSmallest(sizes, k, w, i, smallest);
    SmallestInRange(sizes, k, i, smallest);
    FieldKeeps(smallest, i);
  }

  /** The memories decode: of a window that starts with the k-th code, the first i bits reach
      the field of length i exactly while i is at most the code's length, and the BASE entry of
      that length plus the code, in 9 bits, addresses the symbol. */
  lemma HardwareFindsSymbol(m: Memories, d: Dht, ac: bool, ht: nat, k: nat, w: nat)
    requires m.Valid() && ht <= 1 && Usable(d, ac) && Holds(m, d, ac, ht) && NotFull(d.Sizes())
    requires k < |d.vals| && w < FULL && InWindow(w, d.Codes()[k], d.Sizes()[k])
    ensures forall i :: 1 <= i <= 16 ==> (Reaches(m.min, LengthBase(ac, ht), w, i) <==> i <= d.Sizes()[k])
    ensures var address := (m.hea[LengthBase(ac, ht) + d.Sizes()[k] - 1] % 512 + d.Codes()[k]) % 512;
      && address == SymbolBase(ac, ht) + k < 336
      && d.vals[k] == if ac then m.heb[address] else Nibble(m.heb[address], ht)
  {
    hide HuffCode, HuffSize, Kraft, Pow2, NarrowSafe, ValPtr, MinHolds, InWindow, Reaches, Narrow, Slot, NotFull;
    AddressIn9Bits(m.hea[LengthBase(ac, ht) + d.Sizes()[k] - 1], d.Codes()[k], SymbolBase(ac, ht) + k);
    forall i | 1 <= i <= 16
      ensures Reaches(m.min, LengthBase(ac, ht), w, i) <==> i <= d.Sizes()[k]
    {
      ReachesLength(m, d.Sizes(), ac, ht, k, w, i);
    }
  }

  lemma EmptyKraft(sizes: seq<nat>)
    requires ValidSizes(sizes)
    ensures sizes == [] ==> Kraft(sizes, |sizes|) == 0
  {
  }

  lemma LastWindow(sizes: seq<nat>)
    requires ValidSizes(sizes) && sizes != [] && Kraft(sizes, |sizes|) == FULL
    ensures InWindow(0xffff, HuffCode(sizes, |sizes| - 1), sizes[|sizes| - 1])
  {
    var k := |sizes| - 1;
    assert Kraft(sizes, k + 1) == Kraft(sizes, k) + Pow2(16 - sizes[k]);
    hide Kraft, Pow2;
    InWindowIff(sizes, k, 0xffff);
  }

  lemma NoneLeft(sizes: seq<nat>, i: nat)
    requires ValidSizes(sizes) && forall k :: 0 <= k < |sizes| ==> sizes[k] < i
    ensures ValPtr(sizes, i) == |sizes|
  {
  }

  lemma FullSmallest(smallest: nat, sizes: seq<nat>, i: nat)
    requires ValidSizes(sizes) && 1 <= i <= 16 && IsSmallest(smallest, sizes, i)
      && Kraft(sizes, ValPtr(sizes, i)) == FULL
    ensures smallest == Pow2(i)
  {
    hide Kraft, Pow2, ValPtr;
    FullCodeSpace(i);
    WindowFits(smallest, Pow2(i), Pow2(16 - i));
    WindowFits(Pow2(i), smallest, Pow2(16 - i));
  }

  lemma WindowOfOnes(i: nat)
    requires 1 <= i <= 16
    ensures 0xffff / Pow2(16 - i) == Pow2(i) - 1
  {
    hide Pow2;
    FullCodeSpace(i);
    var w := Pow2(16 - i);
    assert (Pow2(i) - 1) * w == FULL - w by { Distribute(Pow2(i) - 1, w); }
    DivUnique(0xffff, w, Pow2(i) - 1, w - 1);
  }

  lemma LastFieldOverflows()
    ensures Unpacked(Packed(Pow2(16), 16), 16) < Pow2(16)
  {
    Pow2Values();
    hide Pow2;
  }

  lemma ReachesBeyond(m: Memories, sizes: seq<nat>, ac: bool, ht: nat)
    requires m.Valid() && ht <= 1 && ValidSizes(sizes) && MinHolds(m, sizes, ac, ht)
    requires sizes != [] && Kraft(sizes, |sizes|) == FULL && sizes[|sizes| - 1] < 16
    ensures Reaches(m.min, LengthBase(ac, ht), 0xffff, sizes[|sizes| - 1] + 1)
  {
    hide Kraft, Pow2, ValPtr, IsSmallest;
    var i := sizes[|sizes| - 1] + 1;
    var smallest := m.min[LengthBase(ac, ht) + i - 1];
    assert IsSmallest(smallest, sizes, i);
    hide MinHolds;
    NoneLeft(sizes, i);
    FullSmallest(smallest, sizes, i);
    WindowOfOnes(i);
    if i < 16 {
      FieldOverflows(i);
    } else {
      LastFieldOverflows();
    }
  }

  /** For the other tables, those that are full with codes of less than 16 bits, this fails: the
      window of ones starts with the last code and yet reaches the next length. */
  lemma FullTableMisleads(m: Memories, d: Dht, ac: bool, ht: nat)
    requires m.Valid() && ht <= 1 && Usable(d, ac) && Holds(m, d, ac, ht) && !NotFull(d.Sizes())
    ensures d.vals != []
    ensures var k := |d.vals| - 1; var size := d.Sizes()[k];
      size < 16 && InWindow(0xffff, d.Codes()[k], size) && Reaches(m.min, LengthBase(ac, ht), 0xffff, size + 1)
  {
    hide HuffCode, HuffSize, Pow2, NarrowSafe, ValPtr, InWindow, Reaches, Narrow, Slot, MinHolds;
    var sizes := d.Sizes();
    assert sizes != [] by { EmptyKraft(sizes); }
    LastWindow(sizes);
    ReachesBeyond(m, sizes, ac, ht);
  }
}
