/** The decoder's walk through the coefficients of a block, for any list of symbols: where it ends,
    and when it stores past the end of the block. */
module AcWalk {
  import opened Coefficients
  import opened CodecTables
  import opened ScanCoding
  import opened EntropyDecoder

  /** The block is complete, more symbols are needed at coefficient i, or a value is stored past
      the end. */
  datatype Outcome = Complete | Needs(i: nat) | Past(at: nat)

  /** The loop over AC symbols from coefficient i on: a symbol skips as many coefficients as its
      upper half says and stores one if its lower half is not zero. Nothing compares the place
      with the end of the block. */
  function Walk(symbols: seq<nat>, i: nat): Outcome {
    if i >= 64 then Complete
    else if symbols == [] then Needs(i)
    else
      var rs := symbols[0];
      if rs == 0 then Complete
      else if rs % 16 != 0 && i + rs / 16 >= 64 then Past(i + rs / 16)
      else Walk(symbols[1..], i + rs / 16 + 1)
  }

  /** The coefficient the walk from i on stands at after n symbols. */
  function After(symbols: seq<nat>, i: nat, n: nat): (at: nat)
    requires n <= |symbols|
    ensures at >= i + n
  {
    if n == 0 then i else After(symbols[1..], i + symbols[0] / 16 + 1, n - 1)
  }

  /** Symbol n is reached and stores past the end. */
  ghost predicate StoresPast(symbols: seq<nat>, i: nat, n: nat) {
    && n < |symbols| && (forall k :: 0 <= k <= n ==> symbols[k] != 0) && symbols[n] % 16 != 0
    && After(symbols, i, n) < 64 <= After(symbols, i, n) + symbols[n] / 16
  }

  lemma OneEarlier(symbols: seq<nat>, i: nat, n: nat)
    requires symbols != [] && symbols[0] != 0
    ensures StoresPast(symbols[1..], i + symbols[0] / 16 + 1, n) <==> StoresPast(symbols, i, n + 1)
    ensures n < |symbols| - 1 ==> After(symbols, i, n + 1) == After(symbols[1..], i + symbols[0] / 16 + 1, n)
  {
    var rest := symbols[1..];
    if StoresPast(rest, i + symbols[0] / 16 + 1, n) {
      forall k | 0 <= k <= n + 1
        ensures symbols[k] != 0
      {
        assert k > 0 ==> symbols[k] == rest[k - 1];
      }
    }
    if StoresPast(symbols, i, n + 1) {
      forall k | 0 <= k <= n
        ensures rest[k] != 0
      {
        assert rest[k] == symbols[k + 1];
      }
    }
  }

  lemma IsReached(symbols: seq<nat>, i: nat, n: nat)
    requires StoresPast(symbols, i, n)
    ensures n < |symbols|
  {
  }

  lemma NotTheFirst(symbols: seq<nat>, i: nat, rest: seq<nat>, next: nat)
    requires symbols != [] && symbols[0] != 0 && i < 64 && (symbols[0] % 16 == 0 || i + symbols[0] / 16 < 64)
    requires rest == symbols[1..] && next == i + symbols[0] / 16 + 1
    ensures (exists n: nat :: StoresPast(symbols, i, n)) <==> exists n: nat :: StoresPast(rest, next, n)
    ensures forall n: nat :: StoresPast(rest, next, n) ==>
      n + 1 < |symbols| && StoresPast(symbols, i, n + 1) && After(symbols, i, n + 1) == After(rest, next, n)
  {
    assert !StoresPast(symbols, i, 0);
    hide StoresPast;
    forall n: nat | StoresPast(rest, next, n)
      ensures n + 1 < |symbols| && StoresPast(symbols, i, n + 1) && After(symbols, i, n + 1) == After(rest, next, n)
    {
      assert n < |rest| by { IsReached(rest, next, n); }
      OneEarlier(symbols, i, n);
    }
    if n: nat :| StoresPast(symbols, i, n) {
      OneEarlier(symbols, i, n - 1);
    }
  }

  /** The walk goes past the end exactly if some symbol, before any EOB, skips over the end from
      inside the block and has a value to store. */
  lemma {:induction false} PastIffSkipsOver(symbols: seq<nat>, i: nat)
    ensures Walk(symbols, i).Past? <==> exists n: nat :: StoresPast(symbols, i, n)
    ensures Walk(symbols, i).Past? ==>
      exists n: nat :: StoresPast(symbols, i, n) && Walk(symbols, i).at == After(symbols, i, n) + symbols[n] / 16
    decreases |symbols|
  {
    if i >= 64 || symbols == [] || symbols[0] == 0 {
    } else {
      var rs, rest := symbols[0], symbols[1..];
      var next := i + rs / 16 + 1;
      PastIffSkipsOver(rest, next);
      if rs % 16 != 0 && i + rs / 16 >= 64 {
        assert StoresPast(symbols, i, 0);
      } else {
        NotTheFirst(symbols, i, rest, next);
      }
    }
  }

  /** How far past the end a symbol of a byte can reach. */
  lemma {:induction false} PastRange(symbols: seq<nat>, i: nat)
    requires forall k :: 0 <= k < |symbols| ==> symbols[k] < 256
    ensures Walk(symbols, i).Past? ==> 64 <= Walk(symbols, i).at <= 78
    decreases |symbols|
  {
    if i >= 64 || symbols == [] || symbols[0] == 0 {
    } else {
      PastRange(symbols[1..], i + symbols[0] / 16 + 1);
    }
  }

  lemma FirstStep(block: Block, i: nat, t: CodeTable)
    requires InRange(block) && 1 <= i < 64
    ensures AcSymbols(block, i) != []
    ensures var v := AcSymbols(block, i)[0];
      v != 0 ==> i + v / 16 < 64 && AcSymbols(block, i)[1..] == AcSymbols(block, i + v / 16 + 1)
  {
    hide AcSymbols, AcBits, CodeBits, MagnitudeBits, Size;
    Decoder.NextSymbol(block, i, t);
  }

  /** What the encoder writes for a block is walked to the end, neither short nor past it. */
  lemma {:induction false} EncodedIsComplete(block: Block, i: nat, t: CodeTable)
    requires InRange(block) && 1 <= i <= 64
    ensures Walk(AcSymbols(block, i), i) == Complete
    decreases 64 - i
  {
    hide AcSymbols;
    if i == 64 {
      assert Walk(AcSymbols(block, 64), 64) == Complete;
    } else {
      FirstStep(block, i, t);
      var v := AcSymbols(block, i)[0];
      if v != 0 {
        EncodedIsComplete(block, i + v / 16 + 1, t);
      }
    }
  }

  /** Four values after runs of 15 zeros are one too many for a block. */
  lemma FourLongRuns()
    ensures Walk([0xf1, 0xf1, 0xf1, 0xf1], 1) == Past(64)
  {
    assert [0xf1, 0xf1, 0xf1, 0xf1][1..] == [0xf1, 0xf1, 0xf1];
    assert [0xf1, 0xf1, 0xf1][1..] == [0xf1, 0xf1];
    assert [0xf1, 0xf1][1..] == [0xf1];
    assert Walk([0xf1], 49) == Past(64);
    assert Walk([0xf1, 0xf1], 33) == Walk([0xf1], 49);
    assert Walk([0xf1, 0xf1, 0xf1], 17) == Walk([0xf1, 0xf1], 33);
  }

  // ---- which tables allow it

  ghost predicate Over(symbols: seq<nat>, table: set<nat>) {
    forall k :: 0 <= k < |symbols| ==> symbols[k] in table
  }

  function Repeated(v: nat, n: nat, last: nat): (s: seq<nat>) {
    if n == 0 then [last] else [v] + Repeated(v, n - 1, last)
  }

  lemma {:induction false} RepeatedWalk(v: nat, n: nat, last: nat, i: nat, table: set<nat>)
    requires 0 < v < 16 && v in table && last in table && last >= 16 && last % 16 != 0 && i + n == 63
    ensures Over(Repeated(v, n, last), table) && Walk(Repeated(v, n, last), i).Past?
  {
    if n == 0 {
    } else {
      RepeatedWalk(v, n - 1, last, i + 1, table);
      assert Repeated(v, n, last)[1..] == Repeated(v, n - 1, last);
      forall k | 0 <= k < |Repeated(v, n, last)|
        ensures Repeated(v, n, last)[k] in table
      {
        assert k > 0 ==> Repeated(v, n, last)[k] == Repeated(v, n - 1, last)[k - 1];
      }
    }
  }

  lemma {:induction false} WithoutRuns(symbols: seq<nat>, i: nat, table: set<nat>)
    requires Over(symbols, table) && forall v :: v in table && v % 16 != 0 ==> v < 16
    ensures !Walk(symbols, i).Past?
    decreases |symbols|
  {
    if i >= 64 || symbols == [] || symbols[0] == 0 {
    } else {
      assert symbols[0] in table;
      WithoutRuns(symbols[1..], i + symbols[0] / 16 + 1, table);
    }
  }

  /** A table that codes some value without a run lets a scan store past the end exactly if it
      also codes a value after a run. */
  lemma TablesThatReachPast(table: set<nat>, v: nat)
    requires v in table && 0 < v < 16
    ensures (exists symbols: seq<nat> :: Over(symbols, table) && Walk(symbols, 1).Past?) <==>
            exists u :: u in table && u >= 16 && u % 16 != 0
  {
    if u :| u in table && u >= 16 && u % 16 != 0 {
      RepeatedWalk(v, 62, u, 1, table);
    } else {
      forall symbols: seq<nat> | Over(symbols, table)
        ensures !Walk(symbols, 1).Past?
      {
        WithoutRuns(symbols, 1, table);
      }
    }
  }
}
