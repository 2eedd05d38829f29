/** Huffman table definitions and the symbols a baseline scan may use, with the layout of the
    encoder's 384-entry Huffman memory. */
module HuffmanTables {
  import opened Words
  import opened CanonicalCodes

  /** AC symbols are EOB, ZRL and run/size pairs with size 1..10; DC symbols are sizes 0..11. */
  predicate Legal(v: byte, ac: bool) {
    if ac then v == 0 || v == 0xf0 || 1 <= v % 16 <= 10 else v <= 11
  }

  /** One table definition of a DHT segment: 16 counts, then the symbols in code order. */
  datatype Dht = Dht(bits: seq<nat>, vals: seq<byte>) {

    function Sizes(): (sizes: seq<nat>)
      requires |bits| == 16
      ensures ValidSizes(sizes)
    {
      HuffSize(bits, 0)
    }

    function Codes(): (codes: seq<nat>)
      requires |bits| == 16
      ensures |codes| == |Sizes()| && forall k :: 0 <= k < |codes| ==> codes[k] == HuffCode(Sizes(), k)
    {
      hide HuffCode, HuffSize;
      seq(|Sizes()|, k requires 0 <= k < |Sizes()| => HuffCode(Sizes(), k))
    }

    /** One code per symbol, distinct symbols, all of them legal in a baseline table. */
    ghost predicate Valid(ac: bool) {
      && |bits| == 16
      && |Sizes()| == |vals|
      && (forall k :: 0 <= k < |vals| ==> Legal(vals[k], ac))
      && (forall j, k :: 0 <= j < k < |vals| ==> vals[j] != vals[k])
    }

    /** The codes fit in their lengths (equivalently, are prefix free). */
    ghost predicate Decodable()
      requires |bits| == 16
    {
      Kraft(Sizes(), |Sizes()|) <= FULL
    }
  }

  /** Offset of a symbol in its region of the encoder memory. */
  function Slot(v: byte, ac: bool): (s: int)
    ensures Legal(v, ac) ==> 0 <= s < if ac then 162 else 12
  {
    if !ac then v
    else if v == 0 then 160
    else if v == 0xf0 then 161
    else v / 16 * 10 + v % 16 - 1
  }

  lemma SlotInjective(v: byte, v': byte, ac: bool)
    requires Legal(v, ac) && Legal(v', ac) && Slot(v, ac) == Slot(v', ac)
    ensures v == v'
  {
  }

  /** The run/size symbols fill the first 160 places in their own order, ZRL and EOB come after
      them, and a DC symbol is at its own number. */
  lemma SlotsInOrder(u: byte, v: byte)
    requires Legal(u, true) && Legal(v, true) && 0 < u < v && u != 240 && v != 240
    ensures Slot(u, true) < Slot(v, true) < 160 == Slot(0, true) && Slot(240, true) == 161
    ensures u < 12 ==> Slot(u, false) == u
  {
    assert u / 16 <= v / 16;
  }

  // ---- the 12-bit form of a code

  /** What the encoder memory keeps of a code: size - 1 and the low 8 code bits. */
  function Narrow(code: nat, size: nat): nat
    requires 1 <= size <= 16
  {
    (size - 1) * 256 + code % 256
  }

  lemma NarrowParts(code: nat, size: nat)
    requires 1 <= size <= 16
    ensures Narrow(code, size) < 4096
    ensures Narrow(code, size) / 256 == size - 1 && Narrow(code, size) % 256 == code % 256
  {
  }

  /** Four bits for the size less one, eight for the end of the code. */
  lemma NarrowBits(code: nat, size: nat)
    requires 1 <= size <= 16
    ensures Narrow(code, size) < 4096 && Bits(Narrow(code, size), 12) == Bits(size - 1, 4) + Bits(code, 8)
  {
    hide *;
    Pow2Values();
    var n := Narrow(code, size);
    NarrowParts(code, size);
    BitsSplit(n, 4, 8);
    BitsMask(code, 8);
    BitsMask(n, 8);
  }

  function WideSize(entry: nat): nat {
    entry / 256 + 1
  }

  /** What the encoder makes of such an entry: all missing code bits are taken to be ones. */
  function WideCode(entry: nat): nat {
    entry % 256 + (if WideSize(entry) > 8 then (Pow2(WideSize(entry) - 8) - 1) * 256 else 0)
  }

  lemma OnesAbove(code: nat, p: nat)
    requires code < p * 256
    ensures code % 256 + (p - 1) * 256 == code <==> p * 256 - code <= 256
  {
  }

  /** The 12-bit form keeps a code exactly when the bits it drops are ones. */
  lemma NarrowIsLossless(code: nat, size: nat)
    requires 1 <= size <= 16 && code < Pow2(size)
    ensures WideSize(Narrow(code, size)) == size
    ensures WideCode(Narrow(code, size)) == code <==> size <= 8 || Pow2(size) - code <= 256
  {
    Pow2Values();
    hide Pow2;
    if size > 8 {
      Pow2Add(size - 8, 8);
      OnesAbove(code, Pow2(size - 8));
    } else {
      Pow2Monotonic(size, 8);
    }
  }

  /** The codes of a table that the 12-bit form keeps, told from the counts alone. */
  ghost predicate NarrowSafe(sizes: seq<nat>)
    requires ValidSizes(sizes)
  {
    forall k :: 0 <= k < |sizes| && sizes[k] > 8
      ==> FULL - Kraft(sizes, k) <= 256 * Pow2(16 - sizes[k])
  }

  lemma MulMinus(a: int, b: int, c: int)
    ensures (a - b) * c == a * c - b * c
  {
  }

  lemma WithinLast(s: int, c: int, w: int)
    requires w > 0
    ensures s - c <= 256 <==> s * w - c * w <= 256 * w
  {
    WindowFits(s - c, 256, w);
    MulMinus(s, c, w);
  }

  lemma SafeCode(sizes: seq<nat>, k: nat)
    requires ValidSizes(sizes) && k < |sizes|
    ensures Pow2(sizes[k]) - HuffCode(sizes, k) <= 256
       <==> FULL - Kraft(sizes, k) <= 256 * Pow2(16 - sizes[k])
  {
    hide HuffCode, Kraft, Pow2;
    CodeIsKraftSum(sizes, k);
    FullCodeSpace(sizes[k]);
    WithinLast(Pow2(sizes[k]), HuffCode(sizes, k), Pow2(16 - sizes[k]));
  }

  /** The encoder's rebuilt codes are all equal to the canonical ones exactly for the tables
      that are NarrowSafe. */
  lemma NarrowLosslessIff(sizes: seq<nat>)
    requires ValidSizes(sizes) && Kraft(sizes, |sizes|) <= FULL
    ensures NarrowSafe(sizes) <==>
      forall k :: 0 <= k < |sizes| ==> WideCode(Narrow(HuffCode(sizes, k), sizes[k])) == HuffCode(sizes, k)
  {
    FitIffKraft(sizes);
    forall k | 0 <= k < |sizes|
      ensures WideCode(Narrow(HuffCode(sizes, k), sizes[k])) == HuffCode(sizes, k)
         <==> sizes[k] <= 8 || FULL - Kraft(sizes, k) <= 256 * Pow2(16 - sizes[k])
    {
      SafeCode(sizes, k);
      NarrowIsLossless(HuffCode(sizes, k), sizes[k]);
    }
  }

  /** The code words of the longest length that no symbol uses, in a table that is not empty. */
  function Unused(sizes: seq<nat>): int
    requires ValidSizes(sizes) && sizes != []
  {
    Pow2(sizes[|sizes| - 1]) - (HuffCode(sizes, |sizes| - 1) + 1)
  }

  /** The unused words are what is left of the code space. */
  lemma LastCodeEnds(sizes: seq<nat>)
    requires ValidSizes(sizes) && sizes != [] && Kraft(sizes, |sizes|) <= FULL
    ensures Unused(sizes) >= 0
    ensures FULL - Kraft(sizes, |sizes|) == Unused(sizes) * Pow2(16 - sizes[|sizes| - 1])
  {
    var last := |sizes| - 1;
    CodeIsKraftSum(sizes, last);
    assert Kraft(sizes, |sizes|) == Kraft(sizes, last) + Pow2(16 - sizes[last]);
    CodeFitsIff(sizes, last);
    FullCodeSpace(sizes[last]);
    hide HuffCode, Kraft, Pow2;
    Distribute(HuffCode(sizes, last), Pow2(16 - sizes[last]));
    MulMinus(Pow2(sizes[last]), HuffCode(sizes, last) + 1, Pow2(16 - sizes[last]));
  }

  lemma Counting(n: int, unused: int, w: int, w': int)
    requires n >= 0 && 0 <= unused && 0 < w <= w' && n + unused <= 256
    ensures n * w' + unused * w <= 256 * w'
  {
    MulMonotonic(unused, w, w');
    MulMonotonic(w', n + unused, 256);
    assert (n + unused) * w' == n * w' + unused * w';
  }

  /** Counting rule: at most 256 symbols and unused longest words together leave every code
      longer than 8 bits with ones above its low 8 bits. */
  lemma SmallTablesAreNarrowSafe(sizes: seq<nat>)
    requires ValidSizes(sizes) && Kraft(sizes, |sizes|) <= FULL
    requires sizes != [] ==> |sizes| + Unused(sizes) <= 256
    ensures NarrowSafe(sizes)
  {
    hide HuffCode, Kraft, Pow2;
    if sizes != [] {
      LastCodeEnds(sizes);
      forall k | 0 <= k < |sizes|
        ensures FULL - Kraft(sizes, k) <= 256 * Pow2(16 - sizes[k])
      {
        TailIsSmall(sizes, k);
        Pow2Monotonic(16 - sizes[|sizes| - 1], 16 - sizes[k]);
        Counting(|sizes| - k, Unused(sizes), Pow2(16 - sizes[|sizes| - 1]), Pow2(16 - sizes[k]));
      }
    }
  }

  /** A table outside the rule: a single 9-bit code, 000000000, comes back as 100000000. */
  lemma NarrowCanBeLossy()
    ensures var sizes := [9];
      && ValidSizes(sizes) && Kraft(sizes, 1) <= FULL && |sizes| + Unused(sizes) == 512
      && HuffCode(sizes, 0) == 0 && WideCode(Narrow(HuffCode(sizes, 0), 9)) == 256
  {
    assert Pow2(7) == 128;
    assert Pow2(9) == 512;
    assert Pow2(1) == 2;
    assert Kraft([9], 1) == Kraft([9], 0) + Pow2(7);
    assert Narrow(0, 9) == 2048;
  }
}
