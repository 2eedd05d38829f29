/** tabgen's DHT case: one pass over a table definition assigns the canonical codes and stores
    them in every memory image the codec is loaded from. */
module TableGenerator {
  import opened Words
  import opened CanonicalCodes
  import opened HuffmanTables

  /** Row of the code arrays: DC tables are 0 and 1, AC tables 2 and 3. */
  function TableId(ac: bool, ht: nat): (hid: nat)
    requires ht <= 1
    ensures hid <= 3
  {
    (if ac then 2 else 0) + ht
  }

  /** First entry of a table in the encoder memory. */
  function EncoderBase(ac: bool, ht: nat): nat
    requires ht <= 1
  {
    if ac then 176 * ht else 352 + 16 * ht
  }

  /** First entry of a table in the symbol memory; the two DC tables share one region. */
  function SymbolBase(ac: bool, ht: nat): nat
    requires ht <= 1
  {
    if ac then 174 * ht else 162
  }

  /** First of the 16 per-length entries of a table. */
  function LengthBase(ac: bool, ht: nat): nat
    requires ht <= 1
  {
    ((if ac then 0 else 1) + 2 * ht) * 16
  }

  /** Where the tables lie: in the symbol memory AC 0, then the DC tables in one region, then AC 1;
      by length AC 0, DC 0, AC 1, DC 1; in the encoder memory AC 0, AC 1, DC 0, DC 1, and in the
      code arrays the DC tables first. The regions fill the memories. */
  lemma Regions()
    ensures SymbolBase(true, 0) == 0 && SymbolBase(true, 0) + 162 == SymbolBase(false, 0) == SymbolBase(false, 1)
    ensures SymbolBase(false, 0) + 12 == SymbolBase(true, 1) && SymbolBase(true, 1) + 162 == 336
    ensures LengthBase(true, 0) == 0 && LengthBase(true, 0) + 16 == LengthBase(false, 0)
    ensures LengthBase(false, 0) + 16 == LengthBase(true, 1) && LengthBase(true, 1) + 16 == LengthBase(false, 1)
    ensures LengthBase(false, 1) + 16 == 64
    ensures EncoderBase(true, 0) == 0 && EncoderBase(true, 0) + 176 == EncoderBase(true, 1)
    ensures EncoderBase(true, 1) + 176 == EncoderBase(false, 0) && EncoderBase(false, 0) + 16 == EncoderBase(false, 1)
    ensures EncoderBase(false, 1) + 16 == 384
    ensures TableId(false, 0) == 0 && TableId(false, 1) == 1 && TableId(true, 0) == 2 && TableId(true, 1) == 3
  {
  }

  /** The half of a shared DC symbol entry that belongs to table ht. */
  function Nibble(entry: int, ht: nat): (n: nat)
    ensures n < 16
  {
    if ht == 0 then entry % 16 else entry / 16 % 16
  }

  function OtherNibble(entry: int, ht: nat): int {
    if ht == 0 then entry / 16 else entry % 16
  }

  /** The two halves make up the entry: table 0 has the lower one. */
  lemma Halves(entry: int)
    requires 0 <= entry < 256
    ensures entry == Nibble(entry, 0) + 16 * Nibble(entry, 1)
    ensures OtherNibble(entry, 0) == Nibble(entry, 1) && OtherNibble(entry, 1) == Nibble(entry, 0)
  {
  }

  /** Bitwise or. */
  function Or(a: nat, b: nat): nat {
    if a == 0 then b else if b == 0 then a else 2 * Or(a / 2, b / 2) + if a % 2 == 1 || b % 2 == 1 then 1 else 0
  }

  lemma {:induction false} OrBelow(a: nat, b: nat, bits: nat)
    requires a < Pow2(bits) && b < Pow2(bits)
    ensures Or(a, b) < Pow2(bits)
  {
    if a == 0 || b == 0 {
    } else {
      OrBelow(a / 2, b / 2, bits - 1);
    }
  }

  lemma OrHalves(a: nat, b: nat)
    ensures Or(a, b) / 2 == Or(a / 2, b / 2)
  {
  }

  /** Bit i is set if it is in either number. */
  lemma {:induction false} OrBits(a: nat, b: nat, i: nat)
    ensures Or(a, b) / Pow2(i) % 2 == 1 <==> a / Pow2(i) % 2 == 1 || b / Pow2(i) % 2 == 1
  {
    if i == 0 {
      assert Pow2(0) == 1;
    } else {
      OrHalves(a, b);
      DivDiv(Or(a, b), 2, Pow2(i - 1));
      DivDiv(a, 2, Pow2(i - 1));
      DivDiv(b, 2, Pow2(i - 1));
      OrBits(a / 2, b / 2, i - 1);
    }
  }

  lemma NibbleBelow(a: nat, b: nat)
    requires a < 16 && b < 16
    ensures Or(a, b) < 16
  {
    assert Pow2(4) == 16;
    OrBelow(a, b, 4);
  }

  /** `entry | v << 4*ht`. */
  function MergeNibble(entry: int, v: nat, ht: nat): (r: int)
    requires ht <= 1 && 0 <= entry < 256 && v < 16
    ensures 0 <= r < 256 && Nibble(r, ht) == Or(Nibble(entry, ht), v) && OtherNibble(r, ht) == OtherNibble(entry, ht)
  {
    hide Or;
    NibbleBelow(Nibble(entry, ht), v);
    if ht == 0 then 16 * (entry / 16) + Or(entry % 16, v) else entry % 16 + 16 * Or(entry / 16 % 16, v)
  }

  /** The contents of the memories at some moment. */
  datatype Memories = Memories(hea: seq<int>, heb: seq<int>, min: seq<nat>, huffenc: seq<nat>, hcode: seq<nat>,
                               hlen: seq<nat>) {
    ghost predicate TwelveBits()
      requires Valid()
    {
      forall i :: 0 <= i < 384 ==> huffenc[i] < 4096
    }

    /** The entries that the DC tables share are bytes. */
    ghost predicate SharedBytes()
      requires Valid()
    {
      forall i :: 162 <= i < 174 ==> 0 <= heb[i] < 256
    }

    predicate Valid() {
      |hea| == |min| == 64 && |heb| == 336 && |huffenc| == 384 && |hcode| == |hlen| == 1024
    }
  }

  /** Padded to 16 bits, the code is where the windows of the codes shorter than size end. */
  ghost predicate IsSmallest(code: nat, sizes: seq<nat>, size: nat)
    requires ValidSizes(sizes) && 1 <= size <= 16
  {
    Padded(code, 16 - size) == Kraft(sizes, ValPtr(sizes, size))
  }

  /** A table as its three lists: symbols, codes, sizes. */
  ghost predicate IsTable(vals: seq<byte>, codes: seq<nat>, sizes: seq<nat>, ac: bool) {
    && |vals| == |codes| == |sizes| <= (if ac then 162 else 12)
    && ValidSizes(sizes)
    && (forall k :: 0 <= k < |vals| ==> Legal(vals[k], ac))
    && (forall j, k :: 0 <= j < k < |vals| ==> vals[j] != vals[k])
  }

  ghost predicate AreCodes(codes: seq<nat>, sizes: seq<nat>) {
    ValidSizes(sizes) && |codes| == |sizes| && forall k :: 0 <= k < |codes| ==> codes[k] == HuffCode(sizes, k)
  }

  /** A valid definition is a table once its lengths and codes are worked out. */
  lemma TableOf(d: Dht, ac: bool)
    requires d.Valid(ac) && |d.vals| <= (if ac then 162 else 12)
    ensures IsTable(d.vals, d.Codes(), d.Sizes(), ac) && AreCodes(d.Codes(), d.Sizes())
  {
    hide HuffCode, HuffSize;
  }

  lemma TableShape(vals: seq<byte>, codes: seq<nat>, sizes: seq<nat>, ac: bool)
    requires IsTable(vals, codes, sizes, ac)
    ensures |vals| == |codes| == |sizes| && ValidSizes(sizes)
  {
  }

  lemma LoopEnds(bits: seq<nat>, sizes: seq<nat>)
    requires |bits| == 16 && ValidSizes(sizes)
    ensures HuffSize(bits, 16) == [] && sizes[0..] == sizes
    ensures Padded(0, 15) == Kraft(sizes, 0)
  {
  }

  /** The entries of HUFFSIZE that belong to one length. */
  lemma LengthRun(bits: seq<nat>, i: nat, sizes: seq<nat>, k: nat)
    requires |bits| == 16 && i < 16 && k <= |sizes| && HuffSize(bits, i) == sizes[k..]
    ensures k + bits[i] <= |sizes|
    ensures forall m :: k <= m < k + bits[i] ==> sizes[m] == i + 1
    ensures HuffSize(bits, i + 1) == sizes[k + bits[i]..]
  {
    var rest := HuffSize(bits, i + 1);
    assert sizes[k..] == Repeat(i + 1, bits[i]) + rest;
    assert forall m :: k <= m < k + bits[i] ==> sizes[m] == sizes[k..][m - k];
    assert rest == sizes[k..][bits[i]..];
  }

  /** When the loop reaches length i + 1, exactly the shorter codes have been assigned. */
  lemma ShorterCodes(bits: seq<nat>, i: nat, sizes: seq<nat>, k: nat)
    requires |bits| == 16 && i < 16 && ValidSizes(sizes) && k <= |sizes| && HuffSize(bits, i) == sizes[k..]
    requires forall j :: 0 <= j < k ==> sizes[j] <= i
    ensures ValPtr(sizes, i + 1) == k
  {
    hide ValPtr, HuffSize;
    assert k > 0 ==> sizes[k - 1] <= i;
    assert k < |sizes| ==> sizes[k..][0] == sizes[k];
  }

  lemma Doubling(c: nat, n: nat)
    ensures Padded(2 * c, n) == Padded(c, n + 1)
  {
    var p := Pow2(n);
    assert Pow2(n + 1) == 2 * p;
    hide Pow2;
    assert 2 * c * p == c * (2 * p);
  }

  /** A number with the right Kraft sum is the canonical code. */
  lemma CodeByKraft(sizes: seq<nat>, k: nat, code: nat)
    requires ValidSizes(sizes) && k < |sizes| && Padded(code, 16 - sizes[k]) == Kraft(sizes, k)
    ensures code == HuffCode(sizes, k)
    ensures Padded(code + 1, 16 - sizes[k]) == Kraft(sizes, k + 1)
  {
    CodeIsKraftSum(sizes, k);
    assert Kraft(sizes, k + 1) == Kraft(sizes, k) + Pow2(16 - sizes[k]);
    hide HuffCode, Kraft, Pow2;
    WindowFits(code, HuffCode(sizes, k), Pow2(16 - sizes[k]));
    WindowFits(HuffCode(sizes, k), code, Pow2(16 - sizes[k]));
    Distribute(code, Pow2(16 - sizes[k]));
  }

  class TabGen {
    const hea: array<int>     // BASE memory, before it is cut to 9 bits
    const heb: array<int>     // SYMB memory
    const min: array<nat>     // smallest code of each length
    const huffenc: array<nat> // encoder Huffman memory
    const hcode: array<nat>   // 4 rows of 256
    const hlen: array<nat>

    ghost predicate Valid()
      reads this
    {
      && hea.Length == 64 && heb.Length == 336 && min.Length == 64 && huffenc.Length == 384
      && hcode.Length == hlen.Length == 1024
      && hea != heb && min != huffenc && min != hcode && min != hlen
      && huffenc != hcode && huffenc != hlen && hcode != hlen
    }

    constructor ()
      ensures Valid()
      ensures fresh(hea) && fresh(heb) && fresh(min) && fresh(huffenc) && fresh(hcode) && fresh(hlen)
      ensures forall i :: 0 <= i < 1024 ==> hlen[i] == 0
      ensures forall i :: 0 <= i < 336 ==> heb[i] == 0
      ensures forall i :: 0 <= i < 64 ==> min[i] == 0
      ensures forall i :: 0 <= i < 384 ==> huffenc[i] < 4096
      ensures forall i :: 0 <= i < 384 ==>
        huffenc[i] == if 168 <= i < 176 || 344 <= i < 352 then 0xfd0 + i % 8 else 0xfff
    {
      hea := new int[64](_ => 0);
      heb := new int[336](_ => 0);
      min := new nat[64](_ => 0);
      huffenc := new nat[384](i => if 168 <= i < 176 || 344 <= i < 352 then 0xfd0 + i % 8 else 0xfff);
      hcode := new nat[1024](_ => 0);
      hlen := new nat[1024](_ => 0);
    }

    /** The first n codes of a table are in the code arrays... */
    ghost predicate CodesLoaded(vals: seq<byte>, codes: seq<nat>, sizes: seq<nat>, hid: nat, n: nat)
      requires n <= |vals| && n <= |codes| && n <= |sizes| && hid <= 3 && Valid()
      reads this, hcode, hlen
    {
      forall k :: 0 <= k < n ==> hcode[hid * 256 + vals[k]] == codes[k] && hlen[hid * 256 + vals[k]] == sizes[k]
    }

    /** ... in the 12-bit encoder memory... */
    ghost predicate NarrowLoaded(vals: seq<byte>, codes: seq<nat>, sizes: seq<nat>, ac: bool, ht: nat, n: nat)
      requires n <= |vals| && n <= |codes| && n <= |sizes| && ht <= 1 && Valid()
      requires forall k :: 0 <= k < n ==> Legal(vals[k], ac) && 1 <= sizes[k] <= 16
      reads this, huffenc
    {
      forall k :: 0 <= k < n ==> huffenc[EncoderBase(ac, ht) + Slot(vals[k], ac)] == Narrow(codes[k], sizes[k])
    }

    /** ... where the hardware decoder looks for them: the base of a code's length plus the code
        is the address of its symbol. */
    ghost predicate AddressesLoaded(codes: seq<nat>, sizes: seq<nat>, ac: bool, ht: nat, n: nat)
      requires n <= |codes| && n <= |sizes| && ht <= 1 && Valid()
      requires forall k :: 0 <= k < n ==> 1 <= sizes[k] <= 16
      reads this, hea
    {
      forall k :: 0 <= k < n ==> hea[LengthBase(ac, ht) + sizes[k] - 1] + codes[k] == SymbolBase(ac, ht) + k
    }

    /** ... and, for the first n lengths, the smallest code a symbol of that length could have. */
    ghost predicate MinLoaded(sizes: seq<nat>, ac: bool, ht: nat, n: nat)
      requires ht <= 1 && n <= 16 && ValidSizes(sizes) && Valid()
      reads this, min
    {
      forall a :: LengthBase(ac, ht) <= a < LengthBase(ac, ht) + n ==>
        IsSmallest(min[a], sizes, a - LengthBase(ac, ht) + 1)
    }

    /** The first n symbols of a table are in the symbol memory; those of a DC table are merged
        into what the memories m hold in their place. */
    ghost predicate SymbolsLoaded(vals: seq<byte>, ac: bool, ht: nat, n: nat, m: Memories)
      requires n <= |vals| && n <= (if ac then 162 else 12) && ht <= 1 && Valid() && m.Valid()
      reads this, heb
    {
      forall i :: SymbolBase(ac, ht) <= i < SymbolBase(ac, ht) + n ==>
        var v := vals[i - SymbolBase(ac, ht)];
        if ac then heb[i] == v else Nibble(heb[i], ht) == Or(Nibble(m.heb[i], ht), v)
    }

    ghost function Snapshot(): (m: Memories)
      reads this, hea, heb, min, huffenc, hcode, hlen
      ensures Valid() ==> m.Valid()
    {
      Memories(hea[..], heb[..], min[..], huffenc[..], hcode[..], hlen[..])
    }

    ghost predicate CodesKept(vals: seq<byte>, hid: nat, m: Memories)
      requires hid <= 3 && Valid() && m.Valid()
      reads this, hcode, hlen
    {
      forall i :: 0 <= i < 1024 && !(0 <= i - hid * 256 < 256 && i - hid * 256 in vals)
        ==> hcode[i] == m.hcode[i] && hlen[i] == m.hlen[i]
    }

    ghost predicate NarrowKept(vals: seq<byte>, ac: bool, ht: nat, m: Memories)
      requires ht <= 1 && Valid() && m.Valid()
      reads this, huffenc
    {
      && (forall i :: 0 <= i < 384 && !(EncoderBase(ac, ht) <= i < EncoderBase(ac, ht) + if ac then 162 else 12)
            ==> huffenc[i] == m.huffenc[i])
      && (forall v: byte :: Legal(v, ac) && v !in vals ==>
            huffenc[EncoderBase(ac, ht) + Slot(v, ac)] == m.huffenc[EncoderBase(ac, ht) + Slot(v, ac)])
      && (m.TwelveBits() ==> forall i :: 0 <= i < 384 ==> huffenc[i] < 4096)
    }

    ghost predicate SymbolsKept(ac: bool, ht: nat, n: nat, m: Memories)
      requires ht <= 1 && Valid() && m.Valid()
      reads this, heb
    {
      && (forall i :: 0 <= i < 336 && !(SymbolBase(ac, ht) <= i < SymbolBase(ac, ht) + n) ==> heb[i] == m.heb[i])
      && (!ac ==> forall i :: 162 <= i < 174 ==> OtherNibble(heb[i], ht) == OtherNibble(m.heb[i], ht))
      && (!ac && m.SharedBytes() ==> forall i :: 162 <= i < 174 ==> 0 <= heb[i] < 256)
    }

    /** What does not belong to the first n symbols of the table is as it was in the memories m. */
    ghost predicate Kept(vals: seq<byte>, ac: bool, ht: nat, n: nat, m: Memories)
      requires ht <= 1 && Valid() && m.Valid()
      reads this, hea, heb, min, huffenc, hcode, hlen
    {
      && CodesKept(vals, TableId(ac, ht), m)
      && NarrowKept(vals, ac, ht, m)
      && SymbolsKept(ac, ht, n, m)
      && (forall i :: 0 <= i < 64 && !(LengthBase(ac, ht) <= i < LengthBase(ac, ht) + 16) ==>
            hea[i] == m.hea[i] && min[i] == m.min[i])
    }

    method StoreCode(vals: seq<byte>, ghost codes: seq<nat>, ghost sizes: seq<nat>, hid: nat, k: nat, code: nat,
                     size: nat, ghost m: Memories)
      requires Valid() && k < |vals| == |codes| == |sizes| && hid <= 3
      requires code == codes[k] && size == sizes[k]
      requires forall j :: 0 <= j < k ==> vals[j] != vals[k]
      requires CodesLoaded(vals, codes, sizes, hid, k) && m.Valid() && CodesKept(vals, hid, m)
      modifies hcode, hlen
      ensures CodesLoaded(vals, codes, sizes, hid, k + 1) && CodesKept(vals, hid, m)
    {
      assert vals[k] in vals;
      hcode[hid * 256 + vals[k]] := code;
      hlen[hid * 256 + vals[k]] := size;
    }

    method StoreNarrow(vals: seq<byte>, ghost codes: seq<nat>, ghost sizes: seq<nat>, ac: bool, ht: nat, k: nat,
                       code: nat, size: nat, ghost m: Memories)
      requires Valid() && k < |vals| == |codes| == |sizes| && ht <= 1
      requires forall j :: 0 <= j <= k ==> Legal(vals[j], ac) && 1 <= sizes[j] <= 16
      requires code == codes[k] && size == sizes[k]
      requires forall j :: 0 <= j < k ==> vals[j] != vals[k]
      requires NarrowLoaded(vals, codes, sizes, ac, ht, k) && m.Valid() && NarrowKept(vals, ac, ht, m)
      modifies huffenc
      ensures NarrowLoaded(vals, codes, sizes, ac, ht, k + 1) && NarrowKept(vals, ac, ht, m)
    {
      forall v: byte | Legal(v, ac) && Slot(v, ac) == Slot(vals[k], ac)
        ensures v == vals[k]
      {
        SlotInjective(v, vals[k], ac);
      }
      huffenc[EncoderBase(ac, ht) + Slot(vals[k], ac)] := (size - 1) * 256 + code % 256;
    }

    method StoreSymbol(vals: seq<byte>, ac: bool, ht: nat, k: nat, ghost m: Memories)
      requires Valid() && k < |vals| <= (if ac then 162 else 12) && ht <= 1 && Legal(vals[k], ac)
      requires m.Valid() && m.SharedBytes() && SymbolsLoaded(vals, ac, ht, k, m) && SymbolsKept(ac, ht, k, m)
      modifies heb
      ensures SymbolsLoaded(vals, ac, ht, k + 1, m) && SymbolsKept(ac, ht, k + 1, m)
    {
      hide Nibble, OtherNibble, Or;
      var i := SymbolBase(ac, ht) + k;
      assert heb[i] == m.heb[i];
      heb[i] := if ac then vals[k] else MergeNibble(heb[i], vals[k], ht);
    }

    /** A whole table is in every memory. */
    ghost predicate Loaded(d: Dht, ac: bool, ht: nat, m: Memories)
      requires ht <= 1 && d.Valid(ac) && |d.vals| <= (if ac then 162 else 12) && Valid() && m.Valid()
      reads this, hcode, hlen, huffenc, hea, heb, min
    {
      hide HuffCode, HuffSize, Slot;
      && CodesLoaded(d.vals, d.Codes(), d.Sizes(), TableId(ac, ht), |d.vals|)
      && NarrowLoaded(d.vals, d.Codes(), d.Sizes(), ac, ht, |d.vals|)
      && AddressesLoaded(d.Codes(), d.Sizes(), ac, ht, |d.vals|)
      && SymbolsLoaded(d.vals, ac, ht, |d.vals|, m)
      && MinLoaded(d.Sizes(), ac, ht, 16)
    }

    /** Where the loops stand once the first k symbols are stored. */
    ghost predicate Progress(vals: seq<byte>, codes: seq<nat>, sizes: seq<nat>, ac: bool, ht: nat, k: nat, m: Memories)
      requires ht <= 1 && IsTable(vals, codes, sizes, ac) && k <= |vals| && Valid() && m.Valid()
      reads this, hcode, hlen, huffenc, hea, heb, min
    {
      && CodesLoaded(vals, codes, sizes, TableId(ac, ht), k)
      && NarrowLoaded(vals, codes, sizes, ac, ht, k)
      && AddressesLoaded(codes, sizes, ac, ht, k)
      && SymbolsLoaded(vals, ac, ht, k, m)
      && Kept(vals, ac, ht, k, m)
    }

    lemma NothingStored(vals: seq<byte>, codes: seq<nat>, sizes: seq<nat>, ac: bool, ht: nat, m: Memories)
      requires Valid() && ht <= 1 && IsTable(vals, codes, sizes, ac) && m == Snapshot()
      ensures Progress(vals, codes, sizes, ac, ht, 0, m)
    {
    }

    lemma AllStored(d: Dht, ac: bool, ht: nat, m: Memories)
      requires Valid() && ht <= 1 && d.Valid(ac) && |d.vals| <= (if ac then 162 else 12) && m.Valid()
      requires Progress(d.vals, d.Codes(), d.Sizes(), ac, ht, |d.vals|, m) && MinLoaded(d.Sizes(), ac, ht, 16)
      ensures Loaded(d, ac, ht, m) && Kept(d.vals, ac, ht, |d.vals|, m)
    {
      hide HuffCode, HuffSize, CodesLoaded, NarrowLoaded, AddressesLoaded, SymbolsLoaded, Kept, MinLoaded;
    }

    lemma NoLengths(sizes: seq<nat>, ac: bool, ht: nat)
      requires ht <= 1 && ValidSizes(sizes) && Valid()
      ensures MinLoaded(sizes, ac, ht, 0)
    {
    }

    /** The MIN and BASE entries of length i + 1. */
    method StoreLength(vals: seq<byte>, ghost codes: seq<nat>, ghost sizes: seq<nat>,
                       ac: bool, ht: nat, i: nat, first: nat, k: nat, ghost m: Memories)
      requires ht <= 1 && IsTable(vals, codes, sizes, ac) && Valid() && m.Valid() && i < 16 && k <= |vals|
      requires forall j :: 0 <= j < k ==> sizes[j] <= i
      requires Padded(first, 15 - i) == Kraft(sizes, k)
      requires Progress(vals, codes, sizes, ac, ht, k, m)
      requires ValPtr(sizes, i + 1) == k && MinLoaded(sizes, ac, ht, i)
      modifies hea, min
      ensures hea[LengthBase(ac, ht) + i] + first == SymbolBase(ac, ht) + k
      ensures Progress(vals, codes, sizes, ac, ht, k, m) && MinLoaded(sizes, ac, ht, i + 1)
    {
      hide Kraft, Pow2, Padded, ValPtr, CodesLoaded, NarrowLoaded, SymbolsLoaded, CodesKept,
        NarrowKept, SymbolsKept;
      min[LengthBase(ac, ht) + i] := first;
      hea[LengthBase(ac, ht) + i] := SymbolBase(ac, ht) + k - first;
      assert AddressesLoaded(codes, sizes, ac, ht, k);
      assert Kept(vals, ac, ht, k, m);
    }

    /** The code of symbol number k, in full and in 12 bits. */
    method StoreBits(vals: seq<byte>, ghost codes: seq<nat>, ghost sizes: seq<nat>,
                     ac: bool, ht: nat, k: nat, code: nat, size: nat, ghost m: Memories)
      requires ht <= 1 && IsTable(vals, codes, sizes, ac) && k < |vals| && Valid() && m.Valid()
      requires size == sizes[k] && code == codes[k]
      requires CodesLoaded(vals, codes, sizes, TableId(ac, ht), k) && CodesKept(vals, TableId(ac, ht), m)
      requires NarrowLoaded(vals, codes, sizes, ac, ht, k) && NarrowKept(vals, ac, ht, m)
      modifies huffenc, hcode, hlen
      ensures CodesLoaded(vals, codes, sizes, TableId(ac, ht), k + 1) && CodesKept(vals, TableId(ac, ht), m)
      ensures NarrowLoaded(vals, codes, sizes, ac, ht, k + 1) && NarrowKept(vals, ac, ht, m)
    {
      hide CodesLoaded, NarrowLoaded, CodesKept, NarrowKept, Legal;
      StoreCode(vals, codes, sizes, TableId(ac, ht), k, code, size, m);
      StoreNarrow(vals, codes, sizes, ac, ht, k, code, size, m);
    }

    /** The body of the inner loop: symbol number k gets the code it was given. */
    method StoreEntry(vals: seq<byte>, ghost codes: seq<nat>, ghost sizes: seq<nat>,
                      ac: bool, ht: nat, k: nat, code: nat, size: nat, ghost m: Memories)
      requires ht <= 1 && IsTable(vals, codes, sizes, ac) && k < |vals| && Valid() && m.Valid() && m.SharedBytes()
      requires size == sizes[k] && code == codes[k]
      requires hea[LengthBase(ac, ht) + size - 1] + code == SymbolBase(ac, ht) + k
      requires Progress(vals, codes, sizes, ac, ht, k, m)
      modifies heb, huffenc, hcode, hlen
      ensures Progress(vals, codes, sizes, ac, ht, k + 1, m)
    {
      hide CodesLoaded, NarrowLoaded, SymbolsLoaded, CodesKept, NarrowKept, SymbolsKept;
      assert AddressesLoaded(codes, sizes, ac, ht, k + 1);
      hide AddressesLoaded;
      StoreBits(vals, codes, sizes, ac, ht, k, code, size, m);
      StoreSymbol(vals, ac, ht, k, m);
      assert Kept(vals, ac, ht, k + 1, m);
    }

    /** The inner loop: codes of length i + 1 for the next n symbols. */
    method AssignLength(vals: seq<byte>, ghost codes: seq<nat>, ghost sizes: seq<nat>,
                        ac: bool, ht: nat, i: nat, n: nat, first: nat, k: nat, ghost m: Memories) returns (code: nat)
      requires ht <= 1 && IsTable(vals, codes, sizes, ac) && AreCodes(codes, sizes) && Valid() && m.Valid()
        && m.SharedBytes()
      requires i < 16 && k + n <= |vals|
      requires forall j :: k <= j < k + n ==> sizes[j] == i + 1
      requires Padded(first, 15 - i) == Kraft(sizes, k)
      requires hea[LengthBase(ac, ht) + i] + first == SymbolBase(ac, ht) + k
      requires Progress(vals, codes, sizes, ac, ht, k, m)
      modifies heb, huffenc, hcode, hlen
      ensures Padded(code, 15 - i) == Kraft(sizes, k + n)
      ensures Progress(vals, codes, sizes, ac, ht, k + n, m)
    {
      hide Progress, HuffCode, Kraft, Pow2, Padded;
      code := first;
      var j := 0;
      while j < n
        invariant 0 <= j <= n
        invariant Padded(code, 15 - i) == Kraft(sizes, k + j)
        invariant hea[LengthBase(ac, ht) + i] + code == SymbolBase(ac, ht) + k + j
        invariant Progress(vals, codes, sizes, ac, ht, k + j, m)
      {
        CodeByKraft(sizes, k + j, code);
        StoreEntry(vals, codes, sizes, ac, ht, k + j, code, i + 1, m);
        code, j := code + 1, j + 1;
      }
    }

    /** The body of the outer loop: the n codes of length i + 1, the first being the given one. */
    method LoadLength(vals: seq<byte>, ghost codes: seq<nat>, ghost sizes: seq<nat>,
                      ac: bool, ht: nat, i: nat, n: nat, first: nat, k: nat, ghost m: Memories) returns (code: nat)
      requires ht <= 1 && IsTable(vals, codes, sizes, ac) && AreCodes(codes, sizes) && Valid() && m.Valid()
        && m.SharedBytes()
      requires i < 16 && k + n <= |vals|
      requires forall j :: 0 <= j < k ==> sizes[j] <= i
      requires forall j :: k <= j < k + n ==> sizes[j] == i + 1
      requires Padded(first, 15 - i) == Kraft(sizes, k)
      requires Progress(vals, codes, sizes, ac, ht, k, m)
      requires ValidSizes(sizes) && ValPtr(sizes, i + 1) == k && MinLoaded(sizes, ac, ht, i)
      modifies hea, heb, min, huffenc, hcode, hlen
      ensures Padded(code, 15 - i) == Kraft(sizes, k + n)
      ensures Progress(vals, codes, sizes, ac, ht, k + n, m) && MinLoaded(sizes, ac, ht, i + 1)
    {
      hide HuffCode, Kraft, Pow2, Padded, IsTable, AreCodes, ValPtr, Progress, MinLoaded;
      StoreLength(vals, codes, sizes, ac, ht, i, first, k, m);
      code := AssignLength(vals, codes, sizes, ac, ht, i, n, first, k, m);
    }

    /** The loop over the 16 lengths. */
    method LoadLengths(bits: seq<nat>, vals: seq<byte>, ghost codes: seq<nat>, ghost sizes: seq<nat>,
                       ac: bool, ht: nat, ghost m: Memories)
      requires ht <= 1 && IsTable(vals, codes, sizes, ac) && AreCodes(codes, sizes) && Valid() && m.Valid()
        && m.SharedBytes()
      requires |bits| == 16 && HuffSize(bits, 0) == sizes
      requires Progress(vals, codes, sizes, ac, ht, 0, m)
      modifies hea, heb, min, huffenc, hcode, hlen
      ensures Progress(vals, codes, sizes, ac, ht, |vals|, m) && MinLoaded(sizes, ac, ht, 16)
    {
      hide *;
      NoLengths(sizes, ac, ht);
      var code, k, i := 0, 0, 0;
      TableShape(vals, codes, sizes, ac);
      LoopEnds(bits, sizes);
      while i < 16
        invariant 0 <= i <= 16 && 0 <= k <= |sizes| && code >= 0
        invariant HuffSize(bits, i) == sizes[k..]
        invariant forall j :: 0 <= j < k ==> sizes[j] <= i
        invariant i < 16 ==> Padded(code, 15 - i) == Kraft(sizes, k)
        invariant Progress(vals, codes, sizes, ac, ht, k, m) && MinLoaded(sizes, ac, ht, i)
      {
        LengthRun(bits, i, sizes, k);
        ShorterCodes(bits, i, sizes, k);
        code := LoadLength(vals, codes, sizes, ac, ht, i, bits[i], code, k, m);
        k := k + bits[i];
        assert i < 15 ==> Padded(2 * code, 14 - i) == Padded(code, 15 - i) by {
          if i < 15 {
            Doubling(code, 14 - i);
          }
        }
        code := 2 * code;
        i := i + 1;
      }
    }

    /** The places of the entries of symbol k, in numbers. */
    ghost predicate EntryInPlace(v: byte, code: nat, size: nat, ac: bool, ht: nat, k: nat)
      requires ht <= 1 && Legal(v, ac) && 1 <= size <= 16 && k < (if ac then 162 else 12) && Valid()
      reads this, hcode, hlen, huffenc, hea, heb
    {
      && hcode[(if ac then 512 else 0) + 256 * ht + v] == code
      && hlen[(if ac then 512 else 0) + 256 * ht + v] == size
      && huffenc[(if ac then 176 * ht else 352 + 16 * ht) + Slot(v, ac)] == Narrow(code, size)
      && hea[(if ac then 0 else 16) + 32 * ht + size - 1] + code == (if ac then 174 * ht else 162) + k
      && (ac ==> heb[174 * ht + k] == v)
    }

    ghost predicate InPlace(d: Dht, ac: bool, ht: nat)
      requires ht <= 1 && d.Valid(ac) && |d.vals| <= (if ac then 162 else 12) && Valid()
      reads this, hcode, hlen, huffenc, hea, heb
    {
      forall k :: 0 <= k < |d.vals| ==> EntryInPlace(d.vals[k], d.Codes()[k], d.Sizes()[k], ac, ht, k)
    }

    lemma EntryLoaded(v: byte, code: nat, size: nat, ac: bool, ht: nat, k: nat)
      requires ht <= 1 && Legal(v, ac) && 1 <= size <= 16 && k < (if ac then 162 else 12) && Valid()
      requires hcode[TableId(ac, ht) * 256 + v] == code && hlen[TableId(ac, ht) * 256 + v] == size
      requires huffenc[EncoderBase(ac, ht) + Slot(v, ac)] == Narrow(code, size)
      requires hea[LengthBase(ac, ht) + size - 1] + code == SymbolBase(ac, ht) + k
      requires ac ==> heb[SymbolBase(ac, ht) + k] == v
      ensures EntryInPlace(v, code, size, ac, ht, k)
    {
      hide Slot, Narrow;
    }

    lemma LoadedInPlace(d: Dht, ac: bool, ht: nat, m: Memories)
      requires ht <= 1 && d.Valid(ac) && |d.vals| <= (if ac then 162 else 12) && Valid() && m.Valid()
      requires Loaded(d, ac, ht, m)
      ensures InPlace(d, ac, ht)
      ensures !ac ==> forall k :: 0 <= k < |d.vals| ==>
        Nibble(heb[162 + k], ht) == Or(Nibble(m.heb[162 + k], ht), d.vals[k])
    {
      hide HuffCode, HuffSize, Narrow, Slot, Nibble, Or, MinLoaded, EntryInPlace;
      forall k | 0 <= k < |d.vals|
        ensures EntryInPlace(d.vals[k], d.Codes()[k], d.Sizes()[k], ac, ht, k)
        ensures !ac ==> Nibble(heb[162 + k], ht) == Or(Nibble(m.heb[162 + k], ht), d.vals[k])
      {
        var i := SymbolBase(ac, ht) + k;
        assert d.vals[i - SymbolBase(ac, ht)] == d.vals[k];
        EntryLoaded(d.vals[k], d.Codes()[k], d.Sizes()[k], ac, ht, k);
      }
    }

    /** One table definition, be it the first of its table or not. */
    method Install(d: Dht, ac: bool, ht: nat)
      requires Valid() && ht <= 1 && d.Valid(ac) && |d.vals| <= (if ac then 162 else 12) && Snapshot().SharedBytes()
      modifies hea, heb, min, huffenc, hcode, hlen
      ensures Loaded(d, ac, ht, old(Snapshot())) && Kept(d.vals, ac, ht, |d.vals|, old(Snapshot()))
      ensures InPlace(d, ac, ht)
      ensures !ac ==> forall k :: 0 <= k < |d.vals| ==>
        Nibble(heb[162 + k], ht) == Or(old(Nibble(heb[162 + k], ht)), d.vals[k])
    {
      ghost var m := Snapshot();
      TableOf(d, ac);
      hide HuffCode, HuffSize, IsTable, AreCodes, Progress, Loaded, Kept, MinLoaded, InPlace, Nibble, Or;
      hide Memories.SharedBytes;
      NothingStored(d.vals, d.Codes(), d.Sizes(), ac, ht, m);
      LoadLengths(d.bits, d.vals, d.Codes(), d.Sizes(), ac, ht, m);
      AllStored(d, ac, ht, m);
      LoadedInPlace(d, ac, ht, m);
    }
  }
}
