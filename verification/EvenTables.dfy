/** The simplest complete definitions: every symbol of a class has a code of the same length.
    They show that what the codec asks of its tables can be met. */
module EvenTables {
  import opened Words
  import opened CanonicalCodes
  import opened HuffmanTables
  import opened TableLoading
  import opened RoundTrip
  import opened CompleteTables

  /** The AC symbols by their place in the encoder memory. */
  function AcSymbol(k: nat): (v: byte)
    requires k < 162
    ensures Legal(v, true) && Slot(v, true) == k
  {
    if k == 160 then 0 else if k == 161 then 0xf0 else k / 10 * 16 + k % 10 + 1
  }

  /** All n codes of one length. */
  function EvenBits(length: nat, n: nat): (bits: seq<nat>)
    requires 1 <= length <= 16
    ensures |bits| == 16
  {
    seq(16, i => if i + 1 == length then n else 0)
  }

  function EvenDht(ac: bool): Dht {
    if ac then Dht(EvenBits(8, 162), seq(162, k requires 0 <= k < 162 => AcSymbol(k)))
    else Dht(EvenBits(4, 12), seq(12, k requires 0 <= k < 12 => k))
  }

  lemma {:induction false} EvenSizes(length: nat, n: nat, i: nat)
    requires 1 <= length <= 16 && i <= 16
    ensures HuffSize(EvenBits(length, n), i) == if i < length then Repeat(length, n) else []
    decreases 16 - i
  {
    if i == 16 {
    } else {
      EvenSizes(length, n, i + 1);
    }
  }

  lemma {:induction false} EvenKraft(length: nat, n: nat, k: nat)
    requires 1 <= length <= 16 && k <= n
    ensures ValidSizes(Repeat(length, n)) && Kraft(Repeat(length, n), k) == k * Pow2(16 - length)
  {
    hide Pow2;
    if k == 0 {
    } else {
      EvenKraft(length, n, k - 1);
      Distribute(k - 1, Pow2(16 - length));
    }
  }

  lemma SmallPowersOfTwo()
    ensures Pow2(8) == 256 && Pow2(12) == 4096
  {
    Pow2Values();
    Pow2Add(8, 4);
  }

  lemma SlotOfLegal(v: byte)
    requires Legal(v, true)
    ensures 0 <= Slot(v, true) < 162
  {
  }

  lemma EvenSymbols(ac: bool)
    ensures var vals := EvenDht(ac).vals;
      && (forall k :: 0 <= k < |vals| ==> Legal(vals[k], ac))
      && (forall j, k :: 0 <= j < k < |vals| ==> vals[j] != vals[k])
    ensures ListsAll(EvenDht(ac), ac)
  {
    hide Slot;
    var vals := EvenDht(ac).vals;
    forall v: byte | Legal(v, ac)
      ensures v in vals
    {
      if ac {
        SlotOfLegal(v);
        SlotInjective(v, AcSymbol(Slot(v, true)), true);
        assert vals[Slot(v, true)] == v;
      } else {
        assert vals[v] == v;
      }
    }
  }

  /** Complete definitions that meet every condition of the codec. */
  lemma EvenTablesAreUsable(ac: bool)
    ensures Usable(EvenDht(ac), ac) && ListsAll(EvenDht(ac), ac)
  {
    hide HuffSize, HuffCode, Kraft, Pow2, EvenBits;
    var length, n := if ac then 8 else 4, if ac then 162 else 12;
    EvenSizes(length, n, 0);
    EvenKraft(length, n, n);
    assert EvenDht(ac).Sizes() == Repeat(length, n);
    assert EvenDht(ac).Decodable() by { SmallPowersOfTwo(); }
    EvenSymbols(ac);
  }

  lemma DefinitionOfTwo(x: TableDef, y: TableDef, ac: bool, ht: nat)
    ensures Definition([x, y], ac, ht) ==
      if Defines(y, ac, ht) then y.d else if Defines(x, ac, ht) then x.d else Undefined()
  {
    hide Undefined;
    assert [x, y][..1] == [x] && [x][..0] == [];
    assert Definition([x], ac, ht) == if Defines(x, ac, ht) then x.d else Definition([], ac, ht);
  }

  /** A file of two such definitions serves scans of up to four components. */
  lemma EvenFileIsComplete(acFirst: bool, n: nat)
    requires n <= 4
    ensures var dc, ac := TableDef(false, 0, EvenDht(false)), TableDef(true, 0, EvenDht(true));
      var defs := if acFirst then [ac, dc] else [dc, ac];
      && ValidDefs(defs) && NothingDropped(defs) && ValidSelectors([0, 0, 0, 0])
      && DefinesAll(defs, [0, 0, 0, 0], [0, 0, 0, 0], n)
  {
    hide Usable, EvenDht, ListsAll, Definition, Listed, MergedSymbol, NoneDropped;
    EvenTablesAreUsable(false);
    EvenTablesAreUsable(true);
    var dc, ac := TableDef(false, 0, EvenDht(false)), TableDef(true, 0, EvenDht(true));
    var defs := if acFirst then [ac, dc] else [dc, ac];
    forall a: bool, ht: nat | ht <= 1
      ensures NoneDropped(defs, a, ht)
    {
      OnceIsComplete(defs, a, ht);
    }
    DefinitionOfTwo(defs[0], defs[1], false, 0);
    DefinitionOfTwo(defs[0], defs[1], true, 0);
    assert defs == [defs[0], defs[1]];
  }
}
