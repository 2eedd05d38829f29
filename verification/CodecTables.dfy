/** The Huffman tables the encoder and the decoder work from, and how they are loaded from
    the generator's output. */
module CodecTables {
  import opened Words
  import opened CanonicalCodes
  import opened HuffmanTables

  /** jcem's hat/hatl or hdt/hdtl: code and length by symbol. */
  datatype CodeTable = CodeTable(code: seq<nat>, len: seq<nat>)

  /** jdem's hat/hatl or hdt/hdtl: symbol by 16-bit window, and length by symbol. */
  datatype WindowTable = WindowTable(symbol: seq<byte>, len: seq<nat>)

  /** Encoder and decoder agree on a symbol: any window that starts with its code, whatever
      bits follow, is looked up as that symbol. */
  ghost predicate Matches(enc: CodeTable, dec: WindowTable, v: byte) {
    && |enc.code| == |enc.len| == |dec.len| && |dec.symbol| == FULL && v < |enc.len|
    && 1 <= enc.len[v] <= 16 && enc.code[v] < Pow2(enc.len[v]) && dec.len[v] == enc.len[v]
    && forall w: nat :: w < FULL && InWindow(w, enc.code[v], enc.len[v]) ==> dec.symbol[w] == v
  }

  // ---- encoder side

  /** The run/size symbol v comes before run i, size j. */
  predicate ReadBefore(v: byte, i: nat, j: nat) {
    1 <= v % 16 <= 10 && (v / 16 < i || (v / 16 == i && v % 16 < j))
  }

  /** The symbols before run i, size j have their entries, the others have no length. */
  ghost predicate AcRead(hat: seq<nat>, hatl: seq<nat>, file: seq<nat>, pos: nat, i: nat, j: nat)
    requires pos + 176 <= |file|
  {
    && |hat| == |hatl| == 256
    && forall v: byte :: if ReadBefore(v, i, j)
         then hat[v] == WideCode(file[pos + Slot(v, true)]) && hatl[v] == WideSize(file[pos + Slot(v, true)])
         else hatl[v] == 0
  }

  lemma AcReadNext(hat: seq<nat>, hatl: seq<nat>, file: seq<nat>, pos: nat, i: nat, j: nat)
    requires pos + 176 <= |file| && i < 16 && 1 <= j <= 10 && AcRead(hat, hatl, file, pos, i, j)
    ensures var f := file[pos + 10 * i + j - 1];
      AcRead(hat[i * 16 + j := WideCode(f)], hatl[i * 16 + j := WideSize(f)], file, pos, i, j + 1)
  {
    hide WideCode, WideSize;
  }

  lemma AcReadRun(hat: seq<nat>, hatl: seq<nat>, file: seq<nat>, pos: nat, i: nat)
    requires pos + 176 <= |file| && AcRead(hat, hatl, file, pos, i, 11)
    ensures AcRead(hat, hatl, file, pos, i + 1, 1)
  {
    hide WideCode, WideSize;
    assert forall v: byte :: ReadBefore(v, i, 11) <==> ReadBefore(v, i + 1, 1);
  }

  /** The ten sizes of run i. */
  method LoadRun(hat: array<nat>, hatl: array<nat>, file: seq<nat>, pos: nat, i: nat)
    requires hat.Length == hatl.Length == 256 && hat != hatl && i < 16
    requires pos + 176 <= |file| && AcRead(hat[..], hatl[..], file, pos, i, 1)
    modifies hat, hatl
    ensures AcRead(hat[..], hatl[..], file, pos, i + 1, 1)
  {
    hide AcRead, WideCode, WideSize;
    var p, j := pos + 10 * i, 1;
    while j <= 10
      invariant 1 <= j <= 11 && p == pos + 10 * i + j - 1
      invariant AcRead(hat[..], hatl[..], file, pos, i, j)
    {
      AcReadNext(hat[..], hatl[..], file, pos, i, j);
      hat[i * 16 + j], hatl[i * 16 + j] := WideCode(file[p]), WideSize(file[p]);
      p, j := p + 1, j + 1;
    }
    AcReadRun(hat[..], hatl[..], file, pos, i);
  }

  lemma NothingRead(hat: seq<nat>, hatl: seq<nat>, file: seq<nat>, pos: nat)
    requires pos + 176 <= |file| && |hat| == |hatl| == 256 && forall v: byte :: hatl[v] == 0
    ensures AcRead(hat, hatl, file, pos, 0, 1)
  {
  }

  lemma AcReadAll(hat: seq<nat>, hatl: seq<nat>, file: seq<nat>, pos: nat)
    requires pos + 176 <= |file| && AcRead(hat, hatl, file, pos, 16, 1)
    ensures forall v: byte :: Legal(v, true) && v != 0 && v != 240 ==>
      hat[v] == WideCode(file[pos + Slot(v, true)]) && hatl[v] == WideSize(file[pos + Slot(v, true)])
    ensures forall v: byte :: !Legal(v, true) ==> hatl[v] == 0
  {
    hide WideCode, WideSize;
  }

  /** The AC part of the encoder memory is read run by run, then EOB, ZRL and 14 fillers. */
  method LoadAcTable(file: seq<nat>, pos: nat) returns (t: CodeTable)
    requires pos + 176 <= |file|
    ensures |t.code| == |t.len| == 256
    ensures forall v: byte :: Legal(v, true) ==>
      t.code[v] == WideCode(file[pos + Slot(v, true)]) && t.len[v] == WideSize(file[pos + Slot(v, true)])
    ensures forall v: byte :: !Legal(v, true) ==> t.len[v] == 0
  {
    hide WideCode, WideSize, AcRead;
    var hat, hatl := new nat[256](_ => 0), new nat[256](_ => 0);
    NothingRead(hat[..], hatl[..], file, pos);
    var i := 0;
    while i < 16
      invariant 0 <= i <= 16 && AcRead(hat[..], hatl[..], file, pos, i, 1)
    {
      LoadRun(hat, hatl, file, pos, i);
      i := i + 1;
    }
    AcReadAll(hat[..], hatl[..], file, pos);
    hat[0], hatl[0] := WideCode(file[pos + 160]), WideSize(file[pos + 160]);
    hat[240], hatl[240] := WideCode(file[pos + 161]), WideSize(file[pos + 161]);
    t := CodeTable(hat[..], hatl[..]);
  }

  method LoadDcTable(file: seq<nat>, pos: nat) returns (t: CodeTable)
    requires pos + 12 <= |file|
    ensures |t.code| == |t.len| == 16
    ensures forall v :: 0 <= v < 16 ==>
      if v <= 11 then t.code[v] == WideCode(file[pos + v]) && t.len[v] == WideSize(file[pos + v]) else t.len[v] == 0
  {
    var hdt, hdtl := new nat[16](_ => 0), new nat[16](_ => 0);
    var j := 0;
    while j <= 11
      invariant 0 <= j <= 12
      invariant forall v :: 0 <= v < 16 ==>
        if v < j then hdt[v] == WideCode(file[pos + v]) && hdtl[v] == WideSize(file[pos + v]) else hdtl[v] == 0
    {
      hdt[j], hdtl[j] := WideCode(file[pos + j]), WideSize(file[pos + j]);
      j := j + 1;
    }
    t := CodeTable(hdt[..], hdtl[..]);
  }

  // ---- decoder side

  /** Windows starts[k] .. starts[k + 1] belong to the k-th symbol. */
  ghost predicate Tiling(starts: seq<nat>) {
    && starts != [] && starts[|starts| - 1] <= FULL
    && forall j, k :: 0 <= j <= k < |starts| ==> starts[j] <= starts[k]
  }

  /** The hmem.sim entries of one table are the symbols with a length, in increasing order. */
  ghost predicate Entries(hcode: seq<nat>, hlen: seq<nat>, vals: seq<byte>, starts: seq<nat>, n: nat) {
    && |hcode| == |hlen| == 256 && n <= 256 && |starts| == |vals| + 1 && Tiling(starts)
    && (forall v :: 0 <= v < 256 && v !in vals ==> hlen[v] == 0)
    && (forall k :: 0 <= k < |vals| ==>
          && vals[k] < n && 1 <= hlen[vals[k]] <= 16
          && starts[k] == Padded(hcode[vals[k]], 16 - hlen[vals[k]])
          && starts[k + 1] == starts[k] + Pow2(16 - hlen[vals[k]]))
    && (forall j, k :: 0 <= j < k < |vals| ==> vals[j] != vals[k])
  }

  ghost predicate Filled(symbol: seq<byte>, len: seq<nat>, hlen: seq<nat>, vals: seq<byte>, starts: seq<nat>,
                         n: nat, v: nat)
    requires |starts| == |vals| + 1 && |symbol| == FULL && |hlen| == 256 && |len| == n <= 256 && Tiling(starts)
  {
    && (forall u :: 0 <= u < n && u < v ==> len[u] == hlen[u])
    && (forall u :: v <= u < n ==> len[u] == 0)
    && (forall k, w :: 0 <= k < |vals| && vals[k] < v && starts[k] <= w < starts[k + 1] ==> symbol[w] == vals[k])
    && (forall w :: starts[|vals|] <= w < FULL ==> symbol[w] == 0)
  }

  function Const(v: byte, n: nat): (s: seq<byte>)
    ensures |s| == n && forall i :: 0 <= i < n ==> s[i] == v
  {
    seq(n, _ => v)
  }

  /** The list with count elements replaced by v. */
  function Run(s: seq<byte>, first: nat, count: nat, v: byte): (r: seq<byte>)
    requires first + count <= |s|
    ensures |r| == |s|
  {
    s[..first] + Const(v, count) + s[first + count..]
  }

  lemma RunGrows(s: seq<byte>, first: nat, j: nat, v: byte)
    requires first + j < |s|
    ensures Run(s, first, j, v)[first + j := v] == Run(s, first, j + 1, v)
  {
  }

  /** All windows from first on that share the leading bits of the code. */
  method FillRange(symbol: array<byte>, first: nat, count: nat, v: byte)
    requires first + count <= symbol.Length
    modifies symbol
    ensures symbol[..] == Run(old(symbol[..]), first, count, v)
  {
    ghost var before := symbol[..];
    var j := 0;
    while j < count
      invariant 0 <= j <= count && symbol[..] == Run(before, first, j, v)
    {
      RunGrows(before, first, j, v);
      symbol[first + j] := v;
      j := j + 1;
    }
  }

  lemma Bounds(hcode: seq<nat>, hlen: seq<nat>, vals: seq<byte>, starts: seq<nat>, n: nat)
    requires Entries(hcode, hlen, vals, starts, n)
    ensures |hcode| == |hlen| == 256 && n <= 256 && |starts| == |vals| + 1 && Tiling(starts)
    ensures forall v :: 0 <= v < 256 && hlen[v] != 0 ==> v < n && hlen[v] <= 16
  {
    forall v | 0 <= v < 256 && hlen[v] != 0
      ensures v < n && hlen[v] <= 16
    {
      assert v in vals;
    }
  }

  /** Every symbol with a length is one of the entries. */
  lemma EntryOf(hcode: seq<nat>, hlen: seq<nat>, vals: seq<byte>, starts: seq<nat>, n: nat, v: nat) returns (k: nat)
    requires Entries(hcode, hlen, vals, starts, n) && v < 256 && hlen[v] != 0
    ensures k < |vals| && vals[k] == v < n && hlen[v] <= 16 && |starts| == |vals| + 1
    ensures starts[k] == Padded(hcode[v], 16 - hlen[v]) && starts[k + 1] == starts[k] + Pow2(16 - hlen[v])
  {
    hide Pow2, Padded, Tiling;
    assert v in vals;
    k :| 0 <= k < |vals| && vals[k] == v;
  }

  lemma EntriesDiffer(hcode: seq<nat>, hlen: seq<nat>, vals: seq<byte>, starts: seq<nat>, n: nat)
    requires Entries(hcode, hlen, vals, starts, n)
    ensures |hlen| == 256 && n <= 256 && |starts| == |vals| + 1 && Tiling(starts)
    ensures forall i, j :: 0 <= i < j < |vals| ==> vals[i] != vals[j]
  {
    hide Pow2, Padded, Tiling;
  }

  lemma FillStepAt(symbol: seq<byte>, len: seq<nat>, hlen: seq<nat>, vals: seq<byte>, starts: seq<nat>, n: nat,
                   k: nat, v: nat)
    requires |starts| == |vals| + 1 && |symbol| == FULL && |hlen| == 256 && |len| == n <= 256 && Tiling(starts)
    requires k < |vals| && vals[k] == v < n && Filled(symbol, len, hlen, vals, starts, n, v)
    requires forall i, j :: 0 <= i < j < |vals| ==> vals[i] != vals[j]
    ensures starts[k] <= starts[k + 1] <= FULL
    ensures Filled(Run(symbol, starts[k], starts[k + 1] - starts[k], v),
                   len[v := hlen[v]], hlen, vals, starts, n, v + 1)
  {
    assert starts[k] <= starts[k + 1] <= starts[|vals|];
    var symbol' := Run(symbol, starts[k], starts[k + 1] - starts[k], v);
    forall j, w | 0 <= j < |vals| && vals[j] < v + 1 && starts[j] <= w < starts[j + 1]
      ensures symbol'[w] == vals[j]
    {
      if j < k {
        assert starts[j + 1] <= starts[k];
      } else if j > k {
        assert starts[k + 1] <= starts[j];
      }
      assert w < starts[j + 1] <= starts[|vals|];
    }
  }

  lemma FillStep(symbol: seq<byte>, len: seq<nat>, hcode: seq<nat>, hlen: seq<nat>, vals: seq<byte>,
                 starts: seq<nat>, n: nat, v: nat)
    requires Entries(hcode, hlen, vals, starts, n) && |symbol| == FULL && |len| == n
    requires v < 256 && hlen[v] != 0 && v < n && hlen[v] <= 16 && Filled(symbol, len, hlen, vals, starts, n, v)
    ensures Padded(hcode[v], 16 - hlen[v]) + Pow2(16 - hlen[v]) <= FULL
    ensures var first, count := Padded(hcode[v], 16 - hlen[v]), Pow2(16 - hlen[v]);
      Filled(Run(symbol, first, count, v), len[v := hlen[v]], hlen, vals, starts, n, v + 1)
  {
    hide Pow2, Padded, Filled, Entries, Tiling, Run;
    var k := EntryOf(hcode, hlen, vals, starts, n, v);
    EntriesDiffer(hcode, hlen, vals, starts, n);
    FillStepAt(symbol, len, hlen, vals, starts, n, k, v);
  }

  lemma SkipStep(symbol: seq<byte>, len: seq<nat>, hcode: seq<nat>, hlen: seq<nat>, vals: seq<byte>,
                 starts: seq<nat>, n: nat, v: nat)
    requires Entries(hcode, hlen, vals, starts, n) && |symbol| == FULL && |len| == n
    requires v < 256 && hlen[v] == 0 && Filled(symbol, len, hlen, vals, starts, n, v)
    ensures Filled(symbol, len, hlen, vals, starts, n, v + 1)
  {
  }

  /** Each entry fills all windows that start with its code. */
  method FillWindows(hcode: seq<nat>, hlen: seq<nat>, n: nat, ghost vals: seq<byte>, ghost starts: seq<nat>)
    returns (t: WindowTable)
    requires Entries(hcode, hlen, vals, starts, n)
    ensures |t.symbol| == FULL && |t.len| == n
    ensures Filled(t.symbol, t.len, hlen, vals, starts, n, 256)
  {
    var symbol, len := new byte[FULL](_ => 0), new nat[n](_ => 0);
    var v := 0;
    assert Filled(symbol[..], len[..], hlen, vals, starts, n, 0);
    Bounds(hcode, hlen, vals, starts, n);
    hide Filled, Pow2, Padded, Tiling, Entries;
    while v < 256
      invariant 0 <= v <= 256
      invariant Filled(symbol[..], len[..], hlen, vals, starts, n, v)
    {
      ghost var symbol0, len0 := symbol[..], len[..];
      if hlen[v] != 0 {
        FillStep(symbol0, len0, hcode, hlen, vals, starts, n, v);
        len[v] := hlen[v];
        FillRange(symbol, Padded(hcode[v], 16 - hlen[v]), Pow2(16 - hlen[v]), v);
        assert len[..] == len0[v := hlen[v]];
      } else {
        SkipStep(symbol0, len0, hcode, hlen, vals, starts, n, v);
      }
      v := v + 1;
    }
    t := WindowTable(symbol[..], len[..]);
  }
}
