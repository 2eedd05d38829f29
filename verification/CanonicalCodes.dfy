/** Canonical Huffman codes as ITU-T T.81 defines them: Annex C generates a list of code
    sizes from the 16 counts of a DHT segment (Figure C.1) and from it the list of codes
    (Figure C.2). Nothing here is taken from the programs; they are proved against it. */
module CanonicalCodes {
  import opened Words

  // ---- Annex C

  function Repeat(x: nat, n: nat): (s: seq<nat>)
    ensures |s| == n && forall k :: 0 <= k < n ==> s[k] == x
  {
    seq(n, _ => x)
  }

  ghost predicate ValidSizes(sizes: seq<nat>) {
    && (forall k :: 0 <= k < |sizes| ==> 1 <= sizes[k] <= 16)
    && (forall j, k :: 0 <= j <= k < |sizes| ==> sizes[j] <= sizes[k])
  }

  /** HUFFSIZE of Figure C.1 from length i + 1 on: one entry per code, in order of length. */
  function HuffSize(bits: seq<nat>, i: nat): (sizes: seq<nat>)
    requires |bits| == 16 && i <= 16
    ensures ValidSizes(sizes)
    ensures forall k :: 0 <= k < |sizes| ==> i + 1 <= sizes[k]
    decreases 16 - i
  {
    if i == 16 then [] else Repeat(i + 1, bits[i]) + HuffSize(bits, i + 1)
  }

  /** HUFFCODE(k) of Figure C.2. */
  function HuffCode(sizes: seq<nat>, k: nat): nat
    requires ValidSizes(sizes) && k < |sizes|
  {
    if k == 0 then 0 else (HuffCode(sizes, k - 1) + 1) * Pow2(sizes[k] - sizes[k - 1])
  }

  // ---- the Kraft sum

  /** A code moved up to the top of a window with n bits below it. */
  function Padded(code: nat, n: nat): nat {
    code * Pow2(n)
  }

  /** The Kraft sum of the first k codes, in units of 2^-16. */
  function Kraft(sizes: seq<nat>, k: nat): nat
    requires ValidSizes(sizes) && k <= |sizes|
  {
    if k == 0 then 0 else Kraft(sizes, k - 1) + Pow2(16 - sizes[k - 1])
  }

  const FULL: nat := 65536

  lemma NextCode(c: int, d: int, w: int)
    ensures (c + 1) * d * w == c * (d * w) + d * w
  {
  }

  /** Padded to 16 bits, the k-th code is the Kraft sum of the codes before it: the codes
      tile the range of 16-bit windows without gaps. */
  lemma {:induction false} CodeIsKraftSum(sizes: seq<nat>, k: nat)
    requires ValidSizes(sizes) && k < |sizes|
    ensures HuffCode(sizes, k) * Pow2(16 - sizes[k]) == Kraft(sizes, k)
  {
    if k == 0 {
    } else {
      CodeIsKraftSum(sizes, k - 1);
      Pow2Add(sizes[k] - sizes[k - 1], 16 - sizes[k]);
      NextCode(HuffCode(sizes, k - 1), Pow2(sizes[k] - sizes[k - 1]), Pow2(16 - sizes[k]));
    }
  }

  lemma FullCodeSpace(i: nat)
    requires i <= 16
    ensures Pow2(i) * Pow2(16 - i) == FULL
  {
    Pow2Add(i, 16 - i);
    Pow2Values();
  }

  lemma {:induction false} KraftMonotonic(sizes: seq<nat>, j: nat, k: nat)
    requires ValidSizes(sizes) && j <= k <= |sizes|
    ensures Kraft(sizes, j) <= Kraft(sizes, k)
    decreases k - j
  {
    if j == k {
    } else {
      KraftMonotonic(sizes, j, k - 1);
    }
  }

  ghost predicate CodesFit(sizes: seq<nat>)
    requires ValidSizes(sizes)
  {
    forall k :: 0 <= k < |sizes| ==> HuffCode(sizes, k) < Pow2(sizes[k])
  }

  lemma WindowFits(c: int, s: int, w: int)
    requires w > 0
    ensures c < s <==> c * w + w <= s * w
    ensures c <= s <==> c * w <= s * w
  {
    if c < s {
      MulMonotonic(w, c + 1, s);
    } else {
      MulMonotonic(w, s, c);
      if c > s {
        MulMonotonic(w, s + 1, c);
      }
    }
  }

  /** One code fits in its length exactly when its window ends within the 16-bit range. */
  lemma CodeFitsIff(sizes: seq<nat>, k: nat)
    requires ValidSizes(sizes) && k < |sizes|
    ensures HuffCode(sizes, k) < Pow2(sizes[k]) <==> Kraft(sizes, k + 1) <= FULL
  {
    hide HuffCode, Pow2;
    CodeIsKraftSum(sizes, k);
    FullCodeSpace(sizes[k]);
    WindowFits(HuffCode(sizes, k), Pow2(sizes[k]), Pow2(16 - sizes[k]));
  }

  /** Every code fits in its length exactly when the Kraft sum is at most one. */
  lemma FitIffKraft(sizes: seq<nat>)
    requires ValidSizes(sizes)
    ensures CodesFit(sizes) <==> Kraft(sizes, |sizes|) <= FULL
  {
    hide HuffCode, Pow2;
    forall k | 0 <= k < |sizes| && Kraft(sizes, |sizes|) <= FULL
      ensures HuffCode(sizes, k) < Pow2(sizes[k])
    {
      KraftMonotonic(sizes, k + 1, |sizes|);
      CodeFitsIff(sizes, k);
    }
    if CodesFit(sizes) && sizes != [] {
      CodeFitsIff(sizes, |sizes| - 1);
    }
  }

  // ---- prefix freeness

  /** The k-th code as the bits that appear in a scan. */
  function CodeWord(sizes: seq<nat>, k: nat): (w: seq<bool>)
    requires ValidSizes(sizes) && k < |sizes|
    ensures |w| == sizes[k]
  {
    Bits(HuffCode(sizes, k), sizes[k])
  }

  ghost predicate PrefixFree(sizes: seq<nat>)
    requires ValidSizes(sizes)
  {
    forall j, k :: 0 <= j < |sizes| && 0 <= k < |sizes| && j != k
      ==> !(CodeWord(sizes, j) <= CodeWord(sizes, k))
  }

  lemma WindowOrder(cj: int, ck: int, d: int, w: int)
    requires d > 0 && w > 0 && cj * (d * w) + d * w <= ck * w
    ensures ck / d > cj
  {
    NextCode(cj, d, w);
    WindowFits((cj + 1) * d, ck, w);
    QuotientBound(ck, d, cj + 1);
  }

  /** Cut to the length of an earlier code, a later code is strictly larger. */
  lemma LaterCodeIsLarger(sizes: seq<nat>, j: nat, k: nat)
    requires ValidSizes(sizes) && j < k < |sizes|
    ensures HuffCode(sizes, k) / Pow2(sizes[k] - sizes[j]) > HuffCode(sizes, j)
  {
    hide HuffCode, Pow2;
    CodeIsKraftSum(sizes, j);
    CodeIsKraftSum(sizes, k);
    KraftMonotonic(sizes, j + 1, k);
    Pow2Add(sizes[k] - sizes[j], 16 - sizes[k]);
    WindowOrder(HuffCode(sizes, j), HuffCode(sizes, k), Pow2(sizes[k] - sizes[j]), Pow2(16 - sizes[k]));
  }

  lemma SmallMod(a: int, d: int)
    requires 0 <= a < d
    ensures a % d == a && a / d == 0
  {
    DivUnique(a, d, 0, a);
  }

  lemma WordNotPrefix(a: nat, b: nat, n: nat, d: nat)
    requires a < Pow2(n) && b < Pow2(n + d) && b / Pow2(d) != a
    ensures !(Bits(a, n) <= Bits(b, n + d))
  {
    hide *;
    if Bits(a, n) <= Bits(b, n + d) {
      BitsTake(b, n, d);
      BitsInjective(a, b / Pow2(d), n);
      Pow2Add(n, d);
      QuotientBound(b, Pow2(d), Pow2(n));
      SmallMod(a, Pow2(n));
      SmallMod(b / Pow2(d), Pow2(n));
    }
  }

  lemma EarlierNotPrefix(sizes: seq<nat>, j: nat, k: nat)
    requires ValidSizes(sizes) && j < k < |sizes|
    requires HuffCode(sizes, j) < Pow2(sizes[j]) && HuffCode(sizes, k) < Pow2(sizes[k])
    ensures !(CodeWord(sizes, j) <= CodeWord(sizes, k))
  {
    hide HuffCode, Pow2, Bits;
    LaterCodeIsLarger(sizes, j, k);
    var n, d := sizes[j], sizes[k] - sizes[j];
    assert sizes[k] == n + d;
    WordNotPrefix(HuffCode(sizes, j), HuffCode(sizes, k), n, d);
  }

  lemma NotPrefix(sizes: seq<nat>, j: nat, k: nat)
    requires ValidSizes(sizes) && j < |sizes| && k < |sizes| && j != k
    requires CodesFit(sizes)
    ensures !(CodeWord(sizes, j) <= CodeWord(sizes, k))
  {
    hide HuffCode, Pow2, CodeWord;
    if j < k {
      EarlierNotPrefix(sizes, j, k);
    } else {
      EarlierNotPrefix(sizes, k, j);
    }
  }

  /** The first code past a full code space is the word of all zeros again. */
  lemma {:induction false} OverfullHasZeroWord(sizes: seq<nat>, n: nat) returns (k: nat)
    requires ValidSizes(sizes) && n <= |sizes| && Kraft(sizes, n) > FULL
    ensures 0 < k < n && HuffCode(sizes, k) == Pow2(sizes[k])
  {
    if Kraft(sizes, n - 1) > FULL {
      k := OverfullHasZeroWord(sizes, n - 1);
    } else {
      k := n - 1;
      CodeIsKraftSum(sizes, k);
      FullCodeSpace(sizes[k]);
      WindowFits(HuffCode(sizes, k), Pow2(sizes[k]), Pow2(16 - sizes[k]));
    }
  }

  lemma ZeroBits(n: nat, d: nat)
    ensures Bits(0, n) <= Bits(Pow2(n + d), n + d)
  {
    hide Pow2, Bits;
    BitsMod(0, 1, n + d);
    BitsTake(0, n, d);
    SmallMod(0, Pow2(d));
  }

  lemma ZeroWordPrefix(sizes: seq<nat>, k: nat)
    requires ValidSizes(sizes) && 0 < k < |sizes| && HuffCode(sizes, k) == Pow2(sizes[k])
    ensures CodeWord(sizes, 0) <= CodeWord(sizes, k)
  {
    assert HuffCode(sizes, 0) == 0;
    hide HuffCode, Pow2, Bits;
    assert sizes[k] == sizes[0] + (sizes[k] - sizes[0]);
    ZeroBits(sizes[0], sizes[k] - sizes[0]);
  }

  /** No code word is a prefix of another exactly when the Kraft sum is at most one. */
  lemma PrefixFreeIffKraft(sizes: seq<nat>)
    requires ValidSizes(sizes)
    ensures PrefixFree(sizes) <==> Kraft(sizes, |sizes|) <= FULL
  {
    hide HuffCode, Kraft, Pow2, Bits, CodeWord;
    FitIffKraft(sizes);
    if Kraft(sizes, |sizes|) <= FULL {
      forall j, k | 0 <= j < |sizes| && 0 <= k < |sizes| && j != k
        ensures !(CodeWord(sizes, j) <= CodeWord(sizes, k))
      {
        NotPrefix(sizes, j, k);
      }
    } else {
      var k := OverfullHasZeroWord(sizes, |sizes|);
      ZeroWordPrefix(sizes, k);
    }
  }

  // ---- bit-serial decoding (section F.2.2.3)

  /** The 16-bit windows whose leading bits are the k-th code. */
  predicate InWindow(w: nat, code: nat, size: nat)
    requires 1 <= size <= 16
  {
    w / Pow2(16 - size) == code
  }

  lemma QuotientIff(a: int, d: int, q: int)
    requires d > 0
    ensures a / d == q <==> q * d <= a < q * d + d
  {
    QuotientBound(a, d, q);
    QuotientBound(a, d, q + 1);
  }

  lemma InWindowIff(sizes: seq<nat>, k: nat, w: nat)
    requires ValidSizes(sizes) && k < |sizes|
    ensures InWindow(w, HuffCode(sizes, k), sizes[k]) <==> Kraft(sizes, k) <= w < Kraft(sizes, k + 1)
  {
    CodeIsKraftSum(sizes, k);
    QuotientIff(w, Pow2(16 - sizes[k]), HuffCode(sizes, k));
  }

  /** VALPTR(i): the number of codes shorter than i; also the index of the first of size i. */
  function ValPtr(sizes: seq<nat>, i: nat): (k: nat)
    requires ValidSizes(sizes)
    ensures k <= |sizes|
    ensures forall j :: 0 <= j < k ==> sizes[j] < i
    ensures forall j :: k <= j < |sizes| ==> i <= sizes[j]
    decreases |sizes|
  {
    if sizes == [] || sizes[|sizes| - 1] < i then |sizes| else ValPtr(sizes[..|sizes| - 1], i)
  }

  /** MAXCODE(i), or -1 when no code has size i. */
  function MaxCode(sizes: seq<nat>, i: nat): int
    requires ValidSizes(sizes)
  {
    var k := ValPtr(sizes, i + 1);
    if k > 0 && sizes[k - 1] == i then HuffCode(sizes, k - 1) else -1
  }

  /** Figure F.16: lengthen the code bit by bit until it is at most MAXCODE. The result is an
      index into HUFFVAL, or -1 when all 16 bits of the window are used up. */
  function SerialDecode(sizes: seq<nat>, w: nat, i: nat): int
    requires ValidSizes(sizes) && 1 <= i <= 17
    decreases 17 - i
  {
    if i == 17 then -1
    else
      var code := w / Pow2(16 - i);
      if code > MaxCode(sizes, i) then SerialDecode(sizes, w, i + 1)
      else
        var first := ValPtr(sizes, i);
        if first < |sizes| then first + code - HuffCode(sizes, first) else -1
  }

  /** Codes of one size are consecutive numbers. */
  lemma {:induction false} ConsecutiveCodes(sizes: seq<nat>, j: nat, k: nat)
    requires ValidSizes(sizes) && j <= k < |sizes| && sizes[j] == sizes[k]
    ensures HuffCode(sizes, k) == HuffCode(sizes, j) + (k - j)
    decreases k - j
  {
    if j == k {
    } else {
      ConsecutiveCodes(sizes, j, k - 1);
      assert Pow2(0) == 1;
    }
  }

  lemma Distribute(n: int, w: int)
    ensures (n + 1) * w == n * w + w
  {
  }

  lemma PastWindow(a: int, d: int, q: int)
    requires d > 0 && q * d + d <= a
    ensures a / d > q
  {
    Distribute(q, d);
    QuotientBound(a, d, q + 1);
  }

  lemma PastCode(sizes: seq<nat>, w: nat, j: nat)
    requires ValidSizes(sizes) && j < |sizes| && Kraft(sizes, j + 1) <= w
    ensures w / Pow2(16 - sizes[j]) > HuffCode(sizes, j)
  {
    assert Kraft(sizes, j + 1) == Kraft(sizes, j) + Pow2(16 - sizes[j]);
    hide *;
    CodeIsKraftSum(sizes, j);
    PastWindow(w, Pow2(16 - sizes[j]), HuffCode(sizes, j));
  }

  lemma LongestCode(sizes: seq<nat>, i: nat)
    requires ValidSizes(sizes)
    ensures var m := ValPtr(sizes, i + 1);
      MaxCode(sizes, i) == if m > 0 && sizes[m - 1] == i then HuffCode(sizes, m - 1) else -1
  {
    hide HuffCode, ValPtr;
  }

  /** A window that starts with the k-th code, or with none of the codes, keeps the serial
      decoder going through all lengths shorter than that code. */
  lemma SerialSkips(sizes: seq<nat>, w: nat, k: nat, i: nat)
    requires ValidSizes(sizes) && k <= |sizes| && 1 <= i <= 16
    requires Kraft(sizes, k) <= w
    requires k < |sizes| ==> i < sizes[k]
    ensures w / Pow2(16 - i) > MaxCode(sizes, i)
  {
    hide HuffCode, Pow2, Kraft, ValPtr;
    var m := ValPtr(sizes, i + 1);
    if m > 0 && sizes[m - 1] == i {
      hide MaxCode;
      assert MaxCode(sizes, i) == HuffCode(sizes, m - 1) by { LongestCode(sizes, i); }
      KraftMonotonic(sizes, m, k);
      PastCode(sizes, w, m - 1);
    } else {
      QuotientBound(w, Pow2(16 - i), 0);
    }
  }

  lemma {:induction false} SerialFrom(sizes: seq<nat>, w: nat, k: nat, i: nat)
    requires ValidSizes(sizes) && k < |sizes| && 1 <= i <= sizes[k]
    requires InWindow(w, HuffCode(sizes, k), sizes[k])
    ensures SerialDecode(sizes, w, i) == k
    decreases 17 - i
  {
    if i < sizes[k] {
      InWindowIff(sizes, k, w);
      SerialSkips(sizes, w, k, i);
      SerialFrom(sizes, w, k, i + 1);
    } else {
      var first, last := ValPtr(sizes, i), ValPtr(sizes, i + 1) - 1;
      ConsecutiveCodes(sizes, first, k);
      ConsecutiveCodes(sizes, k, last);
    }
  }

  /** Bit-serial decoding of a window finds the symbol whose code starts it. */
  lemma SerialDecodeFindsCode(sizes: seq<nat>, w: nat, k: nat)
    requires ValidSizes(sizes) && k < |sizes|
    requires InWindow(w, HuffCode(sizes, k), sizes[k])
    ensures SerialDecode(sizes, w, 1) == k
  {
    SerialFrom(sizes, w, k, 1);
  }

  lemma {:induction false} SerialNone(sizes: seq<nat>, w: nat, i: nat)
    requires ValidSizes(sizes) && 1 <= i <= 17 && Kraft(sizes, |sizes|) <= w
    ensures SerialDecode(sizes, w, i) == -1
    decreases 17 - i
  {
    if i == 17 {
    } else {
      SerialSkips(sizes, w, |sizes|, i);
      SerialNone(sizes, w, i + 1);
    }
  }

  /** Every window below the Kraft sum starts with exactly one code. */
  lemma {:induction false} WindowHasCode(sizes: seq<nat>, w: nat, n: nat) returns (k: nat)
    requires ValidSizes(sizes) && n <= |sizes| && w < Kraft(sizes, n)
    ensures k < n && InWindow(w, HuffCode(sizes, k), sizes[k])
  {
    if w < Kraft(sizes, n - 1) {
      k := WindowHasCode(sizes, w, n - 1);
    } else {
      k := n - 1;
      InWindowIff(sizes, k, w);
    }
  }

  /** The counting argument behind the 12-bit encoder memory: `n` codes plus the `unused`
      words of the longest length, if at most 256 together, leave at most 256 words of any
      length from any code on. */
  lemma {:induction false} TailIsSmall(sizes: seq<nat>, k: nat)
    requires ValidSizes(sizes) && k <= |sizes|
    ensures sizes != [] && k < |sizes| ==>
      Kraft(sizes, |sizes|) - Kraft(sizes, k) <= (|sizes| - k) * Pow2(16 - sizes[k])
    decreases |sizes| - k
  {
    hide Pow2;
    if k + 1 >= |sizes| {
    } else {
      TailIsSmall(sizes, k + 1);
      Pow2Monotonic(16 - sizes[k + 1], 16 - sizes[k]);
      MulMonotonic(|sizes| - k - 1, Pow2(16 - sizes[k + 1]), Pow2(16 - sizes[k]));
      Distribute(|sizes| - k - 1, Pow2(16 - sizes[k]));
    }
  }
}
