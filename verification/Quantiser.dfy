/** Quantisation by multiplying with a reciprocal and shifting, against dividing by the
    quantiser: the table of reciprocals, the encoder's step and the decoder's. */
module Quantiser {
  import opened Words
  import opened Coefficients

  // ---- entries

  function Multiplier(entry: nat): (qv: nat)
    ensures qv < 2048
  {
    if entry == 1 then 2 else entry % 2048
  }

  function Shift(entry: nat): (sf: nat)
    ensures sf >= 1
  {
    if entry == 1 then 1 else entry / 2048 + 11
  }

  /** The quantisers that miss the nearest multiple of -1024, see below. */
  predicate Missed(q: nat) {
    q == 1 || q == 6 || q == 22 || q == 23 || q == 62 || q == 66 || q == 89 || q == 186
  }

  /** Quantisers whose reciprocals are close enough only because they are even. */
  predicate Wide(q: nat) {
    q == 10 || q == 20 || q == 40 || q == 46 || q == 50 || q == 80 || q == 82 || q == 92 || q == 100
    || q == 102 || q == 118 || q == 158 || q == 160 || q == 164 || q == 166 || q == 174 || q == 178
    || q == 184 || q == 194 || q == 200 || q == 204 || q == 214 || q == 222 || q == 238 || q == 242
    || q == 250
  }

  /** Quantisers whose reciprocals need the finest argument. */
  predicate Special(q: nat) {
    q == 6 || q == 12 || q == 22 || q == 23 || q == 24 || q == 44 || q == 48 || q == 62 || q == 66
    || q == 83 || q == 88 || q == 89 || q == 96 || q == 124 || q == 132 || q == 142 || q == 176
    || q == 186 || q == 188 || q == 192 || q == 196 || q == 197 || q == 199 || q == 203 || q == 236
    || q == 248
  }

  /** All others. */
  predicate Usual(q: nat) {
    q > 0 && !Wide(q) && !Special(q)
  }

  predicate PowerOfTwo(q: nat) {
    q == 1 || q == 2 || q == 4 || q == 8 || q == 16 || q == 32 || q == 64 || q == 128
  }

  /** The even quantisers whose reciprocals are a little too large. */
  predicate TooLarge(q: nat) {
    q == 10 || q == 20 || q == 34 || q == 40 || q == 50 || q == 54 || q == 58 || q == 68 || q == 74
    || q == 80 || q == 82 || q == 98 || q == 100 || q == 108 || q == 110 || q == 114 || q == 116
    || q == 136 || q == 138 || q == 142 || q == 146 || q == 148 || q == 150 || q == 158 || q == 160
    || q == 164 || q == 166 || q == 174 || q == 188 || q == 190 || q == 194 || q == 198 || q == 200
    || q == 202 || q == 216 || q == 220 || q == 226 || q == 228 || q == 230 || q == 232 || q == 236
    || q == 238 || q == 242 || q == 246
  }

  lemma Powers()
    ensures Pow2(1) == 2 && Pow2(11) == 2048 && Pow2(12) == 4096 && Pow2(13) == 8192 && Pow2(14) == 16384
    ensures Pow2(15) == 32768 && Pow2(16) == 65536 && Pow2(17) == 131072 && Pow2(18) == 262144
  {
    Pow2Values();
    Pow2Add(8, 3);
  }

  // ---- the table of reciprocals

  // Entry q is the reciprocal of quantiser q: an 11-bit multiplier, and above it how far the
  // shift exceeds 11. Entry 1 stands for "do not change the coefficient". Sixteen entries to a
  // function.

  function Row0(q: nat): (entry: nat)
    requires 0 <= q < 16
  {
    match q
    case 0 => 0x0000
    case 1 => 0x0001
    case 2 => 0x0400
    case 3 => 0x02ab
    case 4 => 0x0200
    case 5 => 0x0b33
    case 6 => 0x0155
    case 7 => 0x0a49
    case 8 => 0x0100
    case 9 => 0x09c7
    case 10 => 0x00cd
    case 11 => 0x12e9
    case 12 => 0x0955
    case 13 => 0x093b
    case 14 => 0x1249
    case _ => 0x0911
  }

  function Row1(q: nat): (entry: nat)
    requires 16 <= q < 32
  {
    match q
    case 16 => 0x0080
    case 17 => 0x08f1
    case 18 => 0x11c7
    case 19 => 0x11af
    case 20 => 0x08cd
    case 21 => 0x08c3
    case 22 => 0x08ba
    case 23 => 0x08b2
    case 24 => 0x1155
    case 25 => 0x251f
    case 26 => 0x113b
    case 27 => 0x1a5f
    case 28 => 0x1a49
    case 29 => 0x1a35
    case 30 => 0x1111
    case _ => 0x2421
  }

  function Row2(q: nat): (entry: nat)
    requires 32 <= q < 48
  {
    match q
    case 32 => 0x0880
    case 33 => 0x23e1
    case 34 => 0x10f1
    case 35 => 0x10ea
    case 36 => 0x19c7
    case 37 => 0x19bb
    case 38 => 0x19af
    case 39 => 0x10d2
    case 40 => 0x10cd
    case 41 => 0x231f
    case 42 => 0x10c3
    case 43 => 0x197d
    case 44 => 0x10ba
    case 45 => 0x10b6
    case 46 => 0x10b2
    case _ => 0x22b9
  }

  function Row3(q: nat): (entry: nat)
    requires 48 <= q < 64
  {
    match q
    case 48 => 0x1955
    case 49 => 0x229d
    case 50 => 0x10a4
    case 51 => 0x2d05
    case 52 => 0x193b
    case 53 => 0x1935
    case 54 => 0x225f
    case 55 => 0x1095
    case 56 => 0x2249
    case 57 => 0x223f
    case 58 => 0x2235
    case 59 => 0x2c57
    case 60 => 0x1911
    case 61 => 0x2219
    case 62 => 0x1084
    case _ => 0x1082
  }

  function Row4(q: nat): (entry: nat)
    requires 64 <= q < 80
  {
    match q
    case 64 => 0x1080
    case 65 => 0x18fc
    case 66 => 0x18f8
    case 67 => 0x21e9
    case 68 => 0x18f1
    case 69 => 0x21db
    case 70 => 0x18ea
    case 71 => 0x2b9b
    case 72 => 0x21c7
    case 73 => 0x21c1
    case 74 => 0x21bb
    case 75 => 0x21b5
    case 76 => 0x21af
    case 77 => 0x2b53
    case 78 => 0x18d2
    case _ => 0x367b
  }

  function Row5(q: nat): (entry: nat)
    requires 80 <= q < 96
  {
    match q
    case 80 => 0x18cd
    case 81 => 0x2b29
    case 82 => 0x18c8
    case 83 => 0x218b
    case 84 => 0x18c3
    case 85 => 0x2b03
    case 86 => 0x217d
    case 87 => 0x2af1
    case 88 => 0x18ba
    case 89 => 0x18b8
    case 90 => 0x18b6
    case 91 => 0x18b4
    case 92 => 0x18b2
    case 93 => 0x2ac1
    case 94 => 0x2ab9
    case _ => 0x2159
  }

  function Row6(q: nat): (entry: nat)
    requires 96 <= q < 112
  {
    match q
    case 96 => 0x2155
    case 97 => 0x3547
    case 98 => 0x2a9d
    case 99 => 0x214b
    case 100 => 0x18a4
    case 101 => 0x2a89
    case 102 => 0x2141
    case 103 => 0x189f
    case 104 => 0x213b
    case 105 => 0x189c
    case 106 => 0x2135
    case 107 => 0x34c9
    case 108 => 0x2a5f
    case 109 => 0x2a59
    case 110 => 0x1895
    case _ => 0x349d
  }

  function Row7(q: nat): (entry: nat)
    requires 112 <= q < 128
  {
    match q
    case 112 => 0x2a49
    case 113 => 0x1891
    case 114 => 0x2a3f
    case 115 => 0x211d
    case 116 => 0x2a35
    case 117 => 0x188c
    case 118 => 0x2a2b
    case 119 => 0x344d
    case 120 => 0x2111
    case 121 => 0x343b
    case 122 => 0x2a19
    case 123 => 0x2a15
    case 124 => 0x1884
    case 125 => 0x3419
    case 126 => 0x1882
    case _ => 0x1881
  }

  function Row8(q: nat): (entry: nat)
    requires 128 <= q < 144
  {
    match q
    case 128 => 0x1880
    case 129 => 0x20fe
    case 130 => 0x20fc
    case 131 => 0x33e9
    case 132 => 0x20f8
    case 133 => 0x3fb3
    case 134 => 0x29e9
    case 135 => 0x33cb
    case 136 => 0x20f1
    case 137 => 0x33bd
    case 138 => 0x29db
    case 139 => 0x33af
    case 140 => 0x20ea
    case 141 => 0x29d1
    case 142 => 0x20e7
    case _ => 0x3395
  }

  function Row9(q: nat): (entry: nat)
    requires 144 <= q < 160
  {
    match q
    case 144 => 0x29c7
    case 145 => 0x20e2
    case 146 => 0x29c1
    case 147 => 0x20df
    case 148 => 0x29bb
    case 149 => 0x20dc
    case 150 => 0x29b5
    case 151 => 0x20d9
    case 152 => 0x29af
    case 153 => 0x3359
    case 154 => 0x3353
    case 155 => 0x29a7
    case 156 => 0x20d2
    case 157 => 0x3343
    case 158 => 0x299f
    case _ => 0x20ce
  }

  function Row10(q: nat): (entry: nat)
    requires 160 <= q < 176
  {
    match q
    case 160 => 0x20cd
    case 161 => 0x2997
    case 162 => 0x3329
    case 163 => 0x20c9
    case 164 => 0x20c8
    case 165 => 0x298d
    case 166 => 0x298b
    case 167 => 0x3311
    case 168 => 0x20c3
    case 169 => 0x3e0f
    case 170 => 0x3303
    case 171 => 0x3dfd
    case 172 => 0x297d
    case 173 => 0x297b
    case 174 => 0x2979
    case _ => 0x32ed
  }

  function Row11(q: nat): (entry: nat)
    requires 176 <= q < 192
  {
    match q
    case 176 => 0x20ba
    case 177 => 0x3dc9
    case 178 => 0x20b8
    case 179 => 0x20b7
    case 180 => 0x20b6
    case 181 => 0x20b5
    case 182 => 0x20b4
    case 183 => 0x20b3
    case 184 => 0x20b2
    case 185 => 0x3d89
    case 186 => 0x20b0
    case 187 => 0x32bd
    case 188 => 0x295d
    case 189 => 0x3d6b
    case 190 => 0x2959
    case _ => 0x2957
  }

  function Row12(q: nat): (entry: nat)
    requires 192 <= q < 208
  {
    match q
    case 192 => 0x2955
    case 193 => 0x32a7
    case 194 => 0x20a9
    case 195 => 0x20a8
    case 196 => 0x20a7
    case 197 => 0x3299
    case 198 => 0x294b
    case 199 => 0x3293
    case 200 => 0x20a4
    case 201 => 0x20a3
    case 202 => 0x3289
    case 203 => 0x2943
    case 204 => 0x2941
    case 205 => 0x3cff
    case 206 => 0x209f
    case _ => 0x3279
  }

  function Row13(q: nat): (entry: nat)
    requires 208 <= q < 224
  {
    match q
    case 208 => 0x293b
    case 209 => 0x3273
    case 210 => 0x209c
    case 211 => 0x326d
    case 212 => 0x2935
    case 213 => 0x3ccf
    case 214 => 0x2099
    case 215 => 0x3cc3
    case 216 => 0x325f
    case 217 => 0x2097
    case 218 => 0x3259
    case 219 => 0x3cad
    case 220 => 0x2095
    case 221 => 0x3251
    case 222 => 0x2927
    case _ => 0x2093
  }

  function Row14(q: nat): (entry: nat)
    requires 224 <= q < 240
  {
    match q
    case 224 => 0x3249
    case 225 => 0x3c8d
    case 226 => 0x2091
    case 227 => 0x3c83
    case 228 => 0x323f
    case 229 => 0x3c79
    case 230 => 0x291d
    case 231 => 0x3c6f
    case 232 => 0x3235
    case 233 => 0x3c65
    case 234 => 0x208c
    case 235 => 0x2917
    case 236 => 0x208b
    case 237 => 0x3229
    case 238 => 0x3227
    case _ => 0x3c49
  }

  function Row15(q: nat): (entry: nat)
    requires 240 <= q < 256
  {
    match q
    case 240 => 0x2911
    case 241 => 0x2088
    case 242 => 0x290f
    case 243 => 0x3c37
    case 244 => 0x3219
    case 245 => 0x3217
    case 246 => 0x3215
    case 247 => 0x3c25
    case 248 => 0x2084
    case 249 => 0x3c1d
    case 250 => 0x2083
    case 251 => 0x2905
    case 252 => 0x2082
    case 253 => 0x2903
    case 254 => 0x2081
    case _ => 0x2901
  }

  function QLook(q: nat): (entry: nat)
    requires q < 256
  {
    match q / 16
    case 0 => Row0(q)
    case 1 => Row1(q)
    case 2 => Row2(q)
    case 3 => Row3(q)
    case 4 => Row4(q)
    case 5 => Row5(q)
    case 6 => Row6(q)
    case 7 => Row7(q)
    case 8 => Row8(q)
    case 9 => Row9(q)
    case 10 => Row10(q)
    case 11 => Row11(q)
    case 12 => Row12(q)
    case 13 => Row13(q)
    case 14 => Row14(q)
    case _ => Row15(q)
  }

  // How close the entries are to one over their quantiser, by evaluation.

  lemma EntriesOfRow0(q: nat)
    requires 1 <= q < 16
    ensures 2 * (q * Multiplier(Row0(q))) <= 2 * Pow2(Shift(Row0(q))) + q
    ensures 2 * Pow2(Shift(Row0(q))) <= 2 * (q * Multiplier(Row0(q))) + q
    ensures q % 2 == 0 ==> (q * Multiplier(Row0(q)) > Pow2(Shift(Row0(q))) <==> TooLarge(q))
    ensures q % 2 == 0 ==> (q * Multiplier(Row0(q)) == Pow2(Shift(Row0(q))) <==> PowerOfTwo(q))
    ensures Usual(q) ==> 2046 * (q * Multiplier(Row0(q))) < 2047 * Pow2(Shift(Row0(q)))
    ensures Usual(q) ==> 2047 * Pow2(Shift(Row0(q))) < 2048 * (q * Multiplier(Row0(q)))
  {
    hide Pow2;
    Powers();
  }

  lemma EntriesOfRow1(q: nat)
    requires 16 <= q < 32
    ensures 2 * (q * Multiplier(Row1(q))) <= 2 * Pow2(Shift(Row1(q))) + q
    ensures 2 * Pow2(Shift(Row1(q))) <= 2 * (q * Multiplier(Row1(q))) + q
    ensures q % 2 == 0 ==> (q * Multiplier(Row1(q)) > Pow2(Shift(Row1(q))) <==> TooLarge(q))
    ensures q % 2 == 0 ==> (q * Multiplier(Row1(q)) == Pow2(Shift(Row1(q))) <==> PowerOfTwo(q))
    ensures Usual(q) ==> 2046 * (q * Multiplier(Row1(q))) < 2047 * Pow2(Shift(Row1(q)))
    ensures Usual(q) ==> 2047 * Pow2(Shift(Row1(q))) < 2048 * (q * Multiplier(Row1(q)))
  {
    hide Pow2;
    Powers();
  }

  lemma EntriesOfRow2(q: nat)
    requires 32 <= q < 48
    ensures 2 * (q * Multiplier(Row2(q))) <= 2 * Pow2(Shift(Row2(q))) + q
    ensures 2 * Pow2(Shift(Row2(q))) <= 2 * (q * Multiplier(Row2(q))) + q
    ensures q % 2 == 0 ==> (q * Multiplier(Row2(q)) > Pow2(Shift(Row2(q))) <==> TooLarge(q))
    ensures q % 2 == 0 ==> (q * Multiplier(Row2(q)) == Pow2(Shift(Row2(q))) <==> PowerOfTwo(q))
    ensures Usual(q) ==> 2046 * (q * Multiplier(Row2(q))) < 2047 * Pow2(Shift(Row2(q)))
    ensures Usual(q) ==> 2047 * Pow2(Shift(Row2(q))) < 2048 * (q * Multiplier(Row2(q)))
  {
    hide Pow2;
    Powers();
  }

  lemma EntriesOfRow3(q: nat)
    requires 48 <= q < 64
    ensures 2 * (q * Multiplier(Row3(q))) <= 2 * Pow2(Shift(Row3(q))) + q
    ensures 2 * Pow2(Shift(Row3(q))) <= 2 * (q * Multiplier(Row3(q))) + q
    ensures q % 2 == 0 ==> (q * Multiplier(Row3(q)) > Pow2(Shift(Row3(q))) <==> TooLarge(q))
    ensures q % 2 == 0 ==> (q * Multiplier(Row3(q)) == Pow2(Shift(Row3(q))) <==> PowerOfTwo(q))
    ensures Usual(q) ==> 2046 * (q * Multiplier(Row3(q))) < 2047 * Pow2(Shift(Row3(q)))
    ensures Usual(q) ==> 2047 * Pow2(Shift(Row3(q))) < 2048 * (q * Multiplier(Row3(q)))
  {
    hide Pow2;
    Powers();
  }

  lemma EntriesOfRow4(q: nat)
    requires 64 <= q < 80
    ensures 2 * (q * Multiplier(Row4(q))) <= 2 * Pow2(Shift(Row4(q))) + q
    ensures 2 * Pow2(Shift(Row4(q))) <= 2 * (q * Multiplier(Row4(q))) + q
    ensures q % 2 == 0 ==> (q * Multiplier(Row4(q)) > Pow2(Shift(Row4(q))) <==> TooLarge(q))
    ensures q % 2 == 0 ==> (q * Multiplier(Row4(q)) == Pow2(Shift(Row4(q))) <==> PowerOfTwo(q))
    ensures Usual(q) ==> 2046 * (q * Multiplier(Row4(q))) < 2047 * Pow2(Shift(Row4(q)))
    ensures Usual(q) ==> 2047 * Pow2(Shift(Row4(q))) < 2048 * (q * Multiplier(Row4(q)))
  {
    hide Pow2;
    Powers();
  }

  lemma EntriesOfRow5(q: nat)
    requires 80 <= q < 96
    ensures 2 * (q * Multiplier(Row5(q))) <= 2 * Pow2(Shift(Row5(q))) + q
    ensures 2 * Pow2(Shift(Row5(q))) <= 2 * (q * Multiplier(Row5(q))) + q
    ensures q % 2 == 0 ==> (q * Multiplier(Row5(q)) > Pow2(Shift(Row5(q))) <==> TooLarge(q))
    ensures q % 2 == 0 ==> (q * Multiplier(Row5(q)) == Pow2(Shift(Row5(q))) <==> PowerOfTwo(q))
    ensures Usual(q) ==> 2046 * (q * Multiplier(Row5(q))) < 2047 * Pow2(Shift(Row5(q)))
    ensures Usual(q) ==> 2047 * Pow2(Shift(Row5(q))) < 2048 * (q * Multiplier(Row5(q)))
  {
    hide Pow2;
    Powers();
  }

  lemma EntriesOfRow6(q: nat)
    requires 96 <= q < 112
    ensures 2 * (q * Multiplier(Row6(q))) <= 2 * Pow2(Shift(Row6(q))) + q
    ensures 2 * Pow2(Shift(Row6(q))) <= 2 * (q * Multiplier(Row6(q))) + q
    ensures q % 2 == 0 ==> (q * Multiplier(Row6(q)) > Pow2(Shift(Row6(q))) <==> TooLarge(q))
    ensures q % 2 == 0 ==> (q * Multiplier(Row6(q)) == Pow2(Shift(Row6(q))) <==> PowerOfTwo(q))
    ensures Usual(q) ==> 2046 * (q * Multiplier(Row6(q))) < 2047 * Pow2(Shift(Row6(q)))
    ensures Usual(q) ==> 2047 * Pow2(Shift(Row6(q))) < 2048 * (q * Multiplier(Row6(q)))
  {
    hide Pow2;
    Powers();
  }

  lemma EntriesOfRow7(q: nat)
    requires 112 <= q < 128
    ensures 2 * (q * Multiplier(Row7(q))) <= 2 * Pow2(Shift(Row7(q))) + q
    ensures 2 * Pow2(Shift(Row7(q))) <= 2 * (q * Multiplier(Row7(q))) + q
    ensures q % 2 == 0 ==> (q * Multiplier(Row7(q)) > Pow2(Shift(Row7(q))) <==> TooLarge(q))
    ensures q % 2 == 0 ==> (q * Multiplier(Row7(q)) == Pow2(Shift(Row7(q))) <==> PowerOfTwo(q))
    ensures Usual(q) ==> 2046 * (q * Multiplier(Row7(q))) < 2047 * Pow2(Shift(Row7(q)))
    ensures Usual(q) ==> 2047 * Pow2(Shift(Row7(q))) < 2048 * (q * Multiplier(Row7(q)))
  {
    hide Pow2;
    Powers();
  }

  lemma EntriesOfRow8(q: nat)
    requires 128 <= q < 144
    ensures 2 * (q * Multiplier(Row8(q))) <= 2 * Pow2(Shift(Row8(q))) + q
    ensures 2 * Pow2(Shift(Row8(q))) <= 2 * (q * Multiplier(Row8(q))) + q
    ensures q % 2 == 0 ==> (q * Multiplier(Row8(q)) > Pow2(Shift(Row8(q))) <==> TooLarge(q))
    ensures q % 2 == 0 ==> (q * Multiplier(Row8(q)) == Pow2(Shift(Row8(q))) <==> PowerOfTwo(q))
    ensures Usual(q) ==> 2046 * (q * Multiplier(Row8(q))) < 2047 * Pow2(Shift(Row8(q)))
    ensures Usual(q) ==> 2047 * Pow2(Shift(Row8(q))) < 2048 * (q * Multiplier(Row8(q)))
  {
    hide Pow2;
    Powers();
  }

  lemma EntriesOfRow9(q: nat)
    requires 144 <= q < 160
    ensures 2 * (q * Multiplier(Row9(q))) <= 2 * Pow2(Shift(Row9(q))) + q
    ensures 2 * Pow2(Shift(Row9(q))) <= 2 * (q * Multiplier(Row9(q))) + q
    ensures q % 2 == 0 ==> (q * Multiplier(Row9(q)) > Pow2(Shift(Row9(q))) <==> TooLarge(q))
    ensures q % 2 == 0 ==> (q * Multiplier(Row9(q)) == Pow2(Shift(Row9(q))) <==> PowerOfTwo(q))
    ensures Usual(q) ==> 2046 * (q * Multiplier(Row9(q))) < 2047 * Pow2(Shift(Row9(q)))
    ensures Usual(q) ==> 2047 * Pow2(Shift(Row9(q))) < 2048 * (q * Multiplier(Row9(q)))
  {
    hide Pow2;
    Powers();
  }

  lemma EntriesOfRow10(q: nat)
    requires 160 <= q < 176
    ensures 2 * (q * Multiplier(Row10(q))) <= 2 * Pow2(Shift(Row10(q))) + q
    ensures 2 * Pow2(Shift(Row10(q))) <= 2 * (q * Multiplier(Row10(q))) + q
    ensures q % 2 == 0 ==> (q * Multiplier(Row10(q)) > Pow2(Shift(Row10(q))) <==> TooLarge(q))
    ensures q % 2 == 0 ==> (q * Multiplier(Row10(q)) == Pow2(Shift(Row10(q))) <==> PowerOfTwo(q))
    ensures Usual(q) ==> 2046 * (q * Multiplier(Row10(q))) < 2047 * Pow2(Shift(Row10(q)))
    ensures Usual(q) ==> 2047 * Pow2(Shift(Row10(q))) < 2048 * (q * Multiplier(Row10(q)))
  {
    hide Pow2;
    Powers();
  }

  lemma EntriesOfRow11(q: nat)
    requires 176 <= q < 192
    ensures 2 * (q * Multiplier(Row11(q))) <= 2 * Pow2(Shift(Row11(q))) + q
    ensures 2 * Pow2(Shift(Row11(q))) <= 2 * (q * Multiplier(Row11(q))) + q
    ensures q % 2 == 0 ==> (q * Multiplier(Row11(q)) > Pow2(Shift(Row11(q))) <==> TooLarge(q))
    ensures q % 2 == 0 ==> (q * Multiplier(Row11(q)) == Pow2(Shift(Row11(q))) <==> PowerOfTwo(q))
    ensures Usual(q) ==> 2046 * (q * Multiplier(Row11(q))) < 2047 * Pow2(Shift(Row11(q)))
    ensures Usual(q) ==> 2047 * Pow2(Shift(Row11(q))) < 2048 * (q * Multiplier(Row11(q)))
  {
    hide Pow2;
    Powers();
  }

  lemma EntriesOfRow12(q: nat)
    requires 192 <= q < 208
    ensures 2 * (q * Multiplier(Row12(q))) <= 2 * Pow2(Shift(Row12(q))) + q
    ensures 2 * Pow2(Shift(Row12(q))) <= 2 * (q * Multiplier(Row12(q))) + q
    ensures q % 2 == 0 ==> (q * Multiplier(Row12(q)) > Pow2(Shift(Row12(q))) <==> TooLarge(q))
    ensures q % 2 == 0 ==> (q * Multiplier(Row12(q)) == Pow2(Shift(Row12(q))) <==> PowerOfTwo(q))
    ensures Usual(q) ==> 2046 * (q * Multiplier(Row12(q))) < 2047 * Pow2(Shift(Row12(q)))
    ensures Usual(q) ==> 2047 * Pow2(Shift(Row12(q))) < 2048 * (q * Multiplier(Row12(q)))
  {
    hide Pow2;
    Powers();
  }

  lemma EntriesOfRow13(q: nat)
    requires 208 <= q < 224
    ensures 2 * (q * Multiplier(Row13(q))) <= 2 * Pow2(Shift(Row13(q))) + q
    ensures 2 * Pow2(Shift(Row13(q))) <= 2 * (q * Multiplier(Row13(q))) + q
    ensures q % 2 == 0 ==> (q * Multiplier(Row13(q)) > Pow2(Shift(Row13(q))) <==> TooLarge(q))
    ensures q % 2 == 0 ==> (q * Multiplier(Row13(q)) == Pow2(Shift(Row13(q))) <==> PowerOfTwo(q))
    ensures Usual(q) ==> 2046 * (q * Multiplier(Row13(q))) < 2047 * Pow2(Shift(Row13(q)))
    ensures Usual(q) ==> 2047 * Pow2(Shift(Row13(q))) < 2048 * (q * Multiplier(Row13(q)))
  {
    hide Pow2;
    Powers();
  }

  lemma EntriesOfRow14(q: nat)
    requires 224 <= q < 240
    ensures 2 * (q * Multiplier(Row14(q))) <= 2 * Pow2(Shift(Row14(q))) + q
    ensures 2 * Pow2(Shift(Row14(q))) <= 2 * (q * Multiplier(Row14(q))) + q
    ensures q % 2 == 0 ==> (q * Multiplier(Row14(q)) > Pow2(Shift(Row14(q))) <==> TooLarge(q))
    ensures q % 2 == 0 ==> (q * Multiplier(Row14(q)) == Pow2(Shift(Row14(q))) <==> PowerOfTwo(q))
    ensures Usual(q) ==> 2046 * (q * Multiplier(Row14(q))) < 2047 * Pow2(Shift(Row14(q)))
    ensures Usual(q) ==> 2047 * Pow2(Shift(Row14(q))) < 2048 * (q * Multiplier(Row14(q)))
  {
    hide Pow2;
    Powers();
  }

  lemma EntriesOfRow15(q: nat)
    requires 240 <= q < 256
    ensures 2 * (q * Multiplier(Row15(q))) <= 2 * Pow2(Shift(Row15(q))) + q
    ensures 2 * Pow2(Shift(Row15(q))) <= 2 * (q * Multiplier(Row15(q))) + q
    ensures q % 2 == 0 ==> (q * Multiplier(Row15(q)) > Pow2(Shift(Row15(q))) <==> TooLarge(q))
    ensures q % 2 == 0 ==> (q * Multiplier(Row15(q)) == Pow2(Shift(Row15(q))) <==> PowerOfTwo(q))
    ensures Usual(q) ==> 2046 * (q * Multiplier(Row15(q))) < 2047 * Pow2(Shift(Row15(q)))
    ensures Usual(q) ==> 2047 * Pow2(Shift(Row15(q))) < 2048 * (q * Multiplier(Row15(q)))
  {
    hide Pow2;
    Powers();
  }

  /** Every multiplier is the nearest one for its shift. Of the even quantisers, the powers of two
      have exact reciprocals, those listed slightly large ones, and the others slightly small ones. */
  lemma Entries(q: nat)
    requires 1 <= q <= 255
    ensures 2 * (q * Multiplier(QLook(q))) <= 2 * Pow2(Shift(QLook(q))) + q
    ensures 2 * Pow2(Shift(QLook(q))) <= 2 * (q * Multiplier(QLook(q))) + q
    ensures q % 2 == 0 ==> (q * Multiplier(QLook(q)) > Pow2(Shift(QLook(q))) <==> TooLarge(q))
    ensures q % 2 == 0 ==> (q * Multiplier(QLook(q)) == Pow2(Shift(QLook(q))) <==> PowerOfTwo(q))
    ensures Usual(q) ==> 2046 * (q * Multiplier(QLook(q))) < 2047 * Pow2(Shift(QLook(q)))
    ensures Usual(q) ==> 2047 * Pow2(Shift(QLook(q))) < 2048 * (q * Multiplier(QLook(q)))
  {
    hide Pow2, Multiplier, Shift, Usual, TooLarge, PowerOfTwo;
    hide Row0, Row1, Row2, Row3, Row4, Row5, Row6, Row7, Row8, Row9, Row10, Row11, Row12, Row13, Row14, Row15;
    match q / 16
    case 0 => EntriesOfRow0(q);
    case 1 => EntriesOfRow1(q);
    case 2 => EntriesOfRow2(q);
    case 3 => EntriesOfRow3(q);
    case 4 => EntriesOfRow4(q);
    case 5 => EntriesOfRow5(q);
    case 6 => EntriesOfRow6(q);
    case 7 => EntriesOfRow7(q);
    case 8 => EntriesOfRow8(q);
    case 9 => EntriesOfRow9(q);
    case 10 => EntriesOfRow10(q);
    case 11 => EntriesOfRow11(q);
    case 12 => EntriesOfRow12(q);
    case 13 => EntriesOfRow13(q);
    case 14 => EntriesOfRow14(q);
    case _ => EntriesOfRow15(q);
  }

  /** Number n of a file; reading on past the end leaves the last one. */
  function NumberAt(file: seq<nat>, n: nat): nat
    requires file != []
  {
    file[if n < |file| then n else |file| - 1]
  }

  /** The encoder's reading of its quantisation file, table after table until it ends. A table
      that the file breaks off in is filled with the last number read. */
  method LoadQuantisers(file: seq<nat>, qv: array2<nat>, sf: array2<nat>) returns (tables: nat)
    requires qv != sf && qv.Length0 == sf.Length0 == 4 && qv.Length1 == sf.Length1 == 64
    modifies qv, sf
    ensures tables == if |file| >= 256 then 4 else (|file| + 63) / 64
    ensures forall i, j :: 0 <= i < tables && 0 <= j < 64 ==>
      qv[i, j] == Multiplier(NumberAt(file, 64 * i + j)) && sf[i, j] == Shift(NumberAt(file, 64 * i + j))
    ensures forall i, j :: tables <= i < 4 && 0 <= j < 64 ==> qv[i, j] == old(qv[i, j]) && sf[i, j] == old(sf[i, j])
  {
    tables := 0;
    var k := 0;
    while tables < 4 && 64 * tables < |file|
      invariant 0 <= tables <= 4 && 64 * tables < |file| + 64
      invariant forall i, j :: 0 <= i < tables && 0 <= j < 64 ==>
        qv[i, j] == Multiplier(NumberAt(file, 64 * i + j)) && sf[i, j] == Shift(NumberAt(file, 64 * i + j))
      invariant forall i, j :: tables <= i < 4 && 0 <= j < 64 ==> qv[i, j] == old(qv[i, j]) && sf[i, j] == old(sf[i, j])
    {
      for j := 0 to 64
        invariant j > 0 ==> k == NumberAt(file, 64 * tables + j - 1)
        invariant forall i, l :: 0 <= i < tables && 0 <= l < 64 ==>
          qv[i, l] == Multiplier(NumberAt(file, 64 * i + l)) && sf[i, l] == Shift(NumberAt(file, 64 * i + l))
        invariant forall l :: 0 <= l < j ==>
          qv[tables, l] == Multiplier(NumberAt(file, 64 * tables + l))
            && sf[tables, l] == Shift(NumberAt(file, 64 * tables + l))
        invariant forall i, l :: tables < i < 4 && 0 <= l < 64 ==>
          qv[i, l] == old(qv[i, l]) && sf[i, l] == old(sf[i, l])
      {
        if 64 * tables + j < |file| {
          k := file[64 * tables + j];
        }
        if k == 1 {
          qv[tables, j] := 2;
          sf[tables, j] := 1;
        } else {
          qv[tables, j] := k % 2048;
          sf[tables, j] := k / 2048 + 11;
        }
      }
      tables := tables + 1;
    }
  }

  /** The decoder's reading of its quantisation file; what the file does not reach is kept. */
  method LoadDequantisers(file: seq<nat>, qt: array2<nat>)
    requires qt.Length0 == 4 && qt.Length1 == 64
    modifies qt
    ensures forall i, j :: 0 <= i < 4 && 0 <= j < 64 ==>
      qt[i, j] == if 64 * i + j < |file| then file[64 * i + j] else old(qt[i, j])
  {
    var i := 0;
    while i < 4 && 64 * i < |file|
      invariant 0 <= i <= 4
      invariant forall a, j :: 0 <= a < i && 0 <= j < 64 ==>
        qt[a, j] == if 64 * a + j < |file| then file[64 * a + j] else old(qt[a, j])
      invariant forall a, j :: i <= a < 4 && 0 <= j < 64 ==> qt[a, j] == old(qt[a, j])
    {
      for j := 0 to 64
        invariant forall a, l :: 0 <= a < i && 0 <= l < 64 ==>
          qt[a, l] == if 64 * a + l < |file| then file[64 * a + l] else old(qt[a, l])
        invariant forall l :: 0 <= l < j ==>
          qt[i, l] == if 64 * i + l < |file| then file[64 * i + l] else old(qt[i, l])
        invariant forall l :: j <= l < 64 ==> qt[i, l] == old(qt[i, l])
        invariant forall a, l :: i < a < 4 && 0 <= l < 64 ==> qt[a, l] == old(qt[a, l])
      {
        if 64 * i + j < |file| {
          qt[i, j] := file[64 * i + j];
        }
      }
      i := i + 1;
    }
  }

  // ---- one coefficient

  /** z times qv / 2^sf, rounded with ties upward. */
  function Rounded(z: int, qv: nat, sf: nat): int
    requires sf >= 1
  {
    (z * qv / Pow2(sf - 1) + 1) / 2
  }

  function Quantised(z: int, qv: nat, sf: nat): int
    requires sf >= 1
  {
    var v := Rounded(z, qv, sf);
    if v == -1024 then -1023 else v
  }

  function Clamp(v: int): int {
    if v < -1023 then -1023 else if v > 1023 then 1023 else v
  }

  /** What the decoder makes of a coefficient that was quantised by q with the given entry. */
  function Reconstructed(z: int, q: nat, entry: nat): int {
    Clamp(Quantised(z, Multiplier(entry), Shift(entry)) * q)
  }

  /** How far q times the reciprocal is from one, in units of 2^-sf. */
  function ReciprocalError(q: nat, entry: nat): int {
    q * Multiplier(entry) - Pow2(Shift(entry))
  }

  lemma ShrShrinks(a: int, d: int)
    requires d >= 1
    ensures a >= 0 ==> 0 <= a / d <= a
    ensures a < 0 ==> a <= a / d < 0
  {
    if a < 0 {
      QuotientBound(a, d, 0);
      QuotientBound(a, d, a);
      MulMonotonic(-a, 1, d);
    }
  }

  /** The encoder's quantisation step. */
  method Quant(zz: array<int>, qv: array2<nat>, sf: array2<nat>, qq: nat)
    requires zz.Length == 64 && qq < 4
    requires qv.Length0 == sf.Length0 == 4 && qv.Length1 == sf.Length1 == 64
    requires forall i :: 0 <= i < 64 ==> sf[qq, i] >= 1
    requires forall i :: 0 <= i < 64 ==> -0x8000_0000 <= zz[i] * qv[qq, i] < 0x7fff_ffff
    modifies zz
    ensures forall i :: 0 <= i < 64 ==> zz[i] == Quantised(old(zz[i]), qv[qq, i], sf[qq, i])
  {
    hide Pow2;
    var i := 0;
    while i < 64
      invariant 0 <= i <= 64
      invariant forall k :: 0 <= k < i ==> zz[k] == Quantised(old(zz[k]), qv[qq, k], sf[qq, k])
      invariant forall k :: i <= k < 64 ==> zz[k] == old(zz[k])
    {
      ShrShrinks(zz[i] * qv[qq, i], Pow2(sf[qq, i] - 1));
      var product: int32 := zz[i] * qv[qq, i];
      var v: int32 := Shr(product, sf[qq, i] - 1);
      v := v + 1;
      v := v / 2;
      if v == -1024 {
        v := -1023;
      }
      zz[i] := v;
      i := i + 1;
    }
  }

  /** The decoder's dequantisation step. */
  method Dequant(zz: array<int>, qt: array2<nat>, c: nat)
    requires zz.Length == 64 && c < qt.Length0 && qt.Length1 == 64
    requires forall i :: 0 <= i < 64 ==> -0x8000_0000 <= zz[i] * qt[c, i] < 0x8000_0000
    modifies zz
    ensures forall i :: 0 <= i < 64 ==> zz[i] == Clamp(old(zz[i]) * qt[c, i])
  {
    var i := 0;
    while i < 64
      invariant 0 <= i <= 64
      invariant forall k :: 0 <= k < i ==> zz[k] == Clamp(old(zz[k]) * qt[c, k])
      invariant forall k :: i <= k < 64 ==> zz[k] == old(zz[k])
    {
      var v: int32 := zz[i] * qt[c, i];
      if v < -1023 {
        v := -1023;
      } else if v > 1023 {
        v := 1023;
      }
      zz[i] := v;
      i := i + 1;
    }
  }

  // ---- rounding

  lemma TwiceProduct(a: int, h: int)
    ensures a * (2 * h) == 2 * (a * h)
  {
  }

  lemma HalvingRounds(p: int, h: nat)
    requires h > 0
    ensures var n := (p / h + 1) / 2;
      (2 * n - 1) * (2 * h) <= 2 * p < (2 * n + 1) * (2 * h)
  {
    var n := (p / h + 1) / 2;
    QuotientBound(p, h, 2 * n - 1);
    QuotientBound(p, h, 2 * n + 1);
    MulAssociative(2 * n - 1, 2, h);
    MulAssociative(2 * n + 1, 2, h);
    TwiceProduct(2 * n - 1, h);
    TwiceProduct(2 * n + 1, h);
  }

  /** The shift, increment and halving round to the nearest integer: n = floor(z qv / 2^sf + 1/2). */
  lemma RoundsToNearest(z: int, qv: nat, sf: nat)
    requires sf >= 1
    ensures var n := Rounded(z, qv, sf);
      (2 * n - 1) * Pow2(sf) <= 2 * (z * qv) < (2 * n + 1) * Pow2(sf)
  {
    assert Pow2(sf) == 2 * Pow2(sf - 1);
    hide Pow2;
    HalvingRounds(z * qv, Pow2(sf - 1));
  }

  lemma NotLarger(z: int, qv: nat, s: nat, n: int)
    requires -1024 <= z <= 1023 && qv <= 2047 && s >= 2048
    requires (2 * n - 1) * s <= 2 * (z * qv) < (2 * n + 1) * s
    ensures -1023 <= n <= 1023
  {
    MulMonotonic(qv, z, 1023);
    MulMonotonic(qv, -1024, z);
    if n > 1023 {
      MulMonotonic(s, 2047, 2 * n - 1);
    }
    if n < -1023 {
      MulMonotonic(s, 2 * n + 1, -2047);
    }
  }

  /** A multiplier below 2^sf never makes a coefficient larger. */
  lemma QuantisedRange(z: int, entry: nat)
    requires -1024 <= z <= 1023
    ensures -1023 <= Quantised(z, Multiplier(entry), Shift(entry)) <= 1023
    ensures entry != 1 || z != -1024 ==>
      Quantised(z, Multiplier(entry), Shift(entry)) == Rounded(z, Multiplier(entry), Shift(entry))
  {
    var qv, sf := Multiplier(entry), Shift(entry);
    var n := Rounded(z, qv, sf);
    RoundsToNearest(z, qv, sf);
    if entry == 1 {
      assert Pow2(1) == 2;
    } else {
      assert Pow2(11) == 2048;
      hide Pow2;
      Pow2Monotonic(11, sf);
      NotLarger(z, qv, Pow2(sf), n);
    }
  }

  // ---- the error of any reciprocal

  /** The rounding error and the reciprocal's error, put together without division. */
  lemma ErrorTerms(z: int, q: nat, qv: nat, s: nat, n: int)
    requires (2 * n - 1) * s <= 2 * (z * qv) <= (2 * n + 1) * s
    ensures 2 * (s * (n * q - z)) <= q * s + 2 * (z * (q * qv - s))
    ensures 2 * (s * (n * q - z)) >= -(q * s) + 2 * (z * (q * qv - s))
  {
    MulMonotonic(q, (2 * n - 1) * s, 2 * (z * qv));
    MulMonotonic(q, 2 * (z * qv), (2 * n + 1) * s);
    assert q * ((2 * n - 1) * s) == 2 * (s * (n * q)) - q * s;
    assert q * ((2 * n + 1) * s) == 2 * (s * (n * q)) + q * s;
    assert q * (2 * (z * qv)) == 2 * (z * (q * qv));
    assert z * (q * qv - s) == z * (q * qv) - s * z;
    assert s * (n * q - z) == s * (n * q) - s * z;
  }

  lemma ProductBound(a: int, b: int)
    ensures -(Abs(a) * Abs(b)) <= a * b <= Abs(a) * Abs(b)
  {
  }

  lemma ClampGetsCloser(z: int, n: int, q: nat, v: int)
    requires -1024 <= z <= 1023 && v == if n == -1024 then -1023 else n
    requires n == -1024 ==> z == -1024
    ensures Abs(Clamp(v * q) - z) - (if z == -1024 then 1 else 0) <= Abs(n * q - z)
  {
    if n == -1024 && q > 0 {
      MulMonotonic(q - 1, -1024, -1023);
      assert v * q == v + v * (q - 1);
      MulMonotonic(q - 1, v, 0);
    }
  }

  /** For every quantiser and every table entry, however inexact its reciprocal: the
      reconstruction misses the coefficient by at most q/2 + |z| |q qv - 2^sf| / 2^sf, and by
      one more for the coefficient -1024, which no reconstruction reaches. */
  lemma ErrorBound(z: int, q: nat, entry: nat)
    requires -1024 <= z <= 1023
    ensures 2 * (Pow2(Shift(entry)) * (Abs(Reconstructed(z, q, entry) - z) - if z == -1024 then 1 else 0))
      <= q * Pow2(Shift(entry)) + 2 * (Abs(z) * Abs(ReciprocalError(q, entry)))
  {
    hide Pow2, Multiplier, Shift;
    var qv, s := Multiplier(entry), Pow2(Shift(entry));
    var n, e := Rounded(z, qv, Shift(entry)), ReciprocalError(q, entry);
    QuantisedRange(z, entry);
    RoundsToNearest(z, qv, Shift(entry));
    hide Rounded;
    ErrorTerms(z, q, qv, s, n);
    ProductBound(z, e);
    var far := Abs(n * q - z);
    assert 2 * (s * far) <= q * s + 2 * (Abs(z) * Abs(e)) by {
      assert s * (-(n * q - z)) == -(s * (n * q - z));
    }
    ClampGetsCloser(z, n, q, Quantised(z, qv, Shift(entry)));
    MulMonotonic(s, Abs(Reconstructed(z, q, entry) - z) - (if z == -1024 then 1 else 0), far);
  }

  // ---- the error of the table's reciprocals

  /** The reciprocal's error is too small to move a coefficient past the midpoint between two
      multiples. An error above zero counts only for coefficients up to 1023. */
  predicate CloseAtOnce(q: nat, entry: nat) {
    var e, s := ReciprocalError(q, entry), Pow2(Shift(entry));
    if q % 2 == 0 then 1023 * e < s && 0 - s < 1024 * e else 2046 * e < s && 0 - s < 2048 * e
  }

  /** It could be moved past, but only at odd multiples of q/2; m is the largest odd number for
      which one is within the range of a coefficient, and it is not large enough. */
  predicate CloseByParity(q: nat, entry: nat, m: nat) {
    var e, s, past := ReciprocalError(q, entry), Pow2(Shift(entry)), 2 - q % 2;
    && m % 2 == 1
    && if e > 0 then 682 * e < s && (m + 2) * q > 2046 + past && m * e < past * Multiplier(entry)
       else
         && 2048 * -e < 3 * s && m * -e < past * Multiplier(entry)
         && (m + 2) * q > (if Missed(q) then 2046 else 2048) - past
  }

  ghost predicate Close(q: nat, entry: nat) {
    CloseAtOnce(q, entry) || exists m: nat :: CloseByParity(q, entry, m)
  }

  // The wide and the special entries, by evaluation.

  lemma WideEntriesBelow100()
    ensures QLook(10) == 0x00cd && QLook(20) == 0x08cd && QLook(40) == 0x10cd && QLook(46) == 0x10b2
    ensures QLook(50) == 0x10a4 && QLook(80) == 0x18cd && QLook(82) == 0x18c8 && QLook(92) == 0x18b2
  {
    hide Usual, Pow2, Multiplier, Shift;
  }

  lemma WideEntriesBelow180()
    ensures QLook(100) == 0x18a4 && QLook(102) == 0x2141 && QLook(118) == 0x2a2b && QLook(158) == 0x299f
    ensures QLook(160) == 0x20cd && QLook(164) == 0x20c8 && QLook(166) == 0x298b && QLook(174) == 0x2979
    ensures QLook(178) == 0x20b8
  {
    hide Usual, Pow2, Multiplier, Shift;
  }

  lemma WideEntriesAbove180()
    ensures QLook(184) == 0x20b2 && QLook(194) == 0x20a9 && QLook(200) == 0x20a4 && QLook(204) == 0x2941
    ensures QLook(214) == 0x2099 && QLook(222) == 0x2927 && QLook(238) == 0x3227 && QLook(242) == 0x290f
    ensures QLook(250) == 0x2083
  {
    hide Usual, Pow2, Multiplier, Shift;
  }

  lemma WideAreClose()
    ensures CloseAtOnce(10, 0x00cd) && CloseAtOnce(20, 0x08cd) && CloseAtOnce(40, 0x10cd) && CloseAtOnce(46, 0x10b2)
    ensures CloseAtOnce(50, 0x10a4) && CloseAtOnce(80, 0x18cd) && CloseAtOnce(82, 0x18c8) && CloseAtOnce(92, 0x18b2)
    ensures CloseAtOnce(100, 0x18a4) && CloseAtOnce(102, 0x2141) && CloseAtOnce(118, 0x2a2b) && CloseAtOnce(158, 0x299f)
    ensures CloseAtOnce(160, 0x20cd) && CloseAtOnce(164, 0x20c8) && CloseAtOnce(166, 0x298b) && CloseAtOnce(174, 0x2979)
    ensures CloseAtOnce(178, 0x20b8) && CloseAtOnce(184, 0x20b2) && CloseAtOnce(194, 0x20a9) && CloseAtOnce(200, 0x20a4)
    ensures CloseAtOnce(204, 0x2941) && CloseAtOnce(214, 0x2099) && CloseAtOnce(222, 0x2927) && CloseAtOnce(238, 0x3227)
    ensures CloseAtOnce(242, 0x290f) && CloseAtOnce(250, 0x2083)
  {
    hide Pow2;
    Powers();
  }

  lemma SpecialEntriesBelow80()
    ensures QLook(6) == 0x0155 && QLook(12) == 0x0955 && QLook(22) == 0x08ba && QLook(23) == 0x08b2
    ensures QLook(24) == 0x1155 && QLook(44) == 0x10ba && QLook(48) == 0x1955 && QLook(62) == 0x1084
    ensures QLook(66) == 0x18f8
  {
    hide Usual, Pow2, Multiplier, Shift;
  }

  lemma SpecialEntriesBelow150()
    ensures QLook(83) == 0x218b && QLook(88) == 0x18ba && QLook(89) == 0x18b8 && QLook(96) == 0x2155
    ensures QLook(124) == 0x1884 && QLook(132) == 0x20f8 && QLook(142) == 0x20e7
  {
    hide Usual, Pow2, Multiplier, Shift;
  }

  lemma SpecialEntriesAbove150()
    ensures QLook(176) == 0x20ba && QLook(186) == 0x20b0 && QLook(188) == 0x295d && QLook(192) == 0x2955
    ensures QLook(196) == 0x20a7 && QLook(197) == 0x3299 && QLook(199) == 0x3293 && QLook(203) == 0x2943
    ensures QLook(236) == 0x208b && QLook(248) == 0x2084
  {
    hide Usual, Pow2, Multiplier, Shift;
  }

  lemma SpecialsBelow80AreClose()
    ensures CloseByParity(6, 0x0155, 339) && CloseByParity(12, 0x0955, 169) && CloseByParity(22, 0x08ba, 91)
    ensures CloseByParity(23, 0x08b2, 87) && CloseByParity(24, 0x1155, 85) && CloseByParity(44, 0x10ba, 45)
    ensures CloseByParity(48, 0x1955, 41) && CloseByParity(62, 0x1084, 31) && CloseByParity(66, 0x18f8, 29)
  {
    hide Pow2;
    Powers();
  }

  lemma SpecialsBelow190AreClose()
    ensures CloseByParity(83, 0x218b, 23) && CloseByParity(88, 0x18ba, 23) && CloseByParity(89, 0x18b8, 21)
    ensures CloseByParity(96, 0x2155, 21) && CloseByParity(124, 0x1884, 15) && CloseByParity(132, 0x20f8, 15)
    ensures CloseByParity(142, 0x20e7, 13) && CloseByParity(176, 0x20ba, 11) && CloseByParity(186, 0x20b0, 9)
  {
    hide Pow2;
    Powers();
  }

  lemma SpecialsAbove190AreClose()
    ensures CloseByParity(188, 0x295d, 9) && CloseByParity(192, 0x2955, 9) && CloseByParity(196, 0x20a7, 9)
    ensures CloseByParity(197, 0x3299, 9) && CloseByParity(199, 0x3293, 9) && CloseByParity(203, 0x2943, 9)
    ensures CloseByParity(236, 0x208b, 7) && CloseByParity(248, 0x2084, 7)
  {
    hide Pow2;
    Powers();
  }

  lemma UsualIsClose(q: nat)
    requires q < 256 && Usual(q)
    ensures CloseAtOnce(q, QLook(q))
  {
    hide QLook, Pow2, Multiplier, Shift;
    Entries(q);
  }

  /** Every entry of the table is close enough. */
  lemma TableIsClose(q: nat)
    requires 1 <= q <= 255
    ensures Close(q, QLook(q))
  {
    hide QLook, CloseAtOnce, CloseByParity;
    if Wide(q) {
      WideEntriesBelow100();
      WideEntriesBelow180();
      WideEntriesAbove180();
      WideAreClose();
    } else if Special(q) {
      SpecialEntriesBelow80();
      SpecialEntriesBelow150();
      SpecialEntriesAbove150();
      SpecialsBelow80AreClose();
      SpecialsBelow190AreClose();
      SpecialsAbove190AreClose();
    } else {
      UsualIsClose(q);
    }
  }

  // ---- the nearest multiple

  /** The coefficients that a close reciprocal serves. */
  predicate Served(z: int, q: nat) {
    -1023 <= z <= 1023 || (z == -1024 && !Missed(q))
  }

  lemma FewHalves(z: int, e: int, s: int, t: int, limit: int)
    requires -1024 <= z <= 1023 && s > 0 && t * s <= 2 * (z * e)
    requires 2046 * e < limit * s && 0 - limit * s < 2048 * e
    ensures t < limit
  {
    if e >= 0 {
      MulMonotonic(e, z, 1023);
    } else {
      MulMonotonic(-e, -1024, z);
      assert z * e == -(z * -e);
    }
    MulMonotonic(s, limit, if t >= limit then t else limit);
  }

  lemma OvershootAtOnce(z: int, q: nat, entry: nat, t: int)
    requires -1024 <= z <= 1023 && CloseAtOnce(q, entry) && t % 2 == q % 2
    requires t * Pow2(Shift(entry)) <= 2 * (z * ReciprocalError(q, entry))
    ensures t <= 0
  {
    hide Pow2, Multiplier, Shift, ReciprocalError;
    FewHalves(z, ReciprocalError(q, entry), Pow2(Shift(entry)), t, 2 - q % 2);
  }

  lemma ProductPositive(a: int, b: int)
    requires a > 0 && b > 0
    ensures a * b > 0
  {
  }

  lemma SameSign(a: int, b: int)
    requires a * b > 0 && b >= 0
    ensures a > 0 && b > 0
  {
  }

  lemma BelowNextOdd(b: int, q: nat, m: int)
    requires q > 0 && m % 2 == 1 && (2 * b + 1) * q < (m + 2) * q
    ensures 2 * b + 1 <= m
  {
    MulMonotonic(q, m + 2, if 2 * b + 1 >= m + 2 then 2 * b + 1 else m + 2);
  }

  lemma OddMultiple(z: int, q: nat, b: int, t: int, e: int, qv: int, reach: int, m: int)
    requires -reach <= 2 * z <= 2046 <= reach && q > 0 && t > 0 && qv > 0 && m % 2 == 1
    requires (m + 2) * q > (if e > 0 then 2046 + t else reach - t)
    requires (2 * b + 1) * q == 2 * z + t
    requires t * qv <= (2 * b + 1) * e
    ensures t * qv <= m * if e > 0 then e else -e
  {
    var a := 2 * b + 1;
    ProductPositive(t, qv);
    if e > 0 {
      SameSign(a, e);
      BelowNextOdd(b, q, m);
      MulMonotonic(e, a, m);
    } else {
      assert (-a) * (-e) == a * e;
      SameSign(-a, -e);
      assert -a == 2 * (-b - 1) + 1;
      assert (-a) * q == -(a * q);
      BelowNextOdd(-b - 1, q, m);
      MulMonotonic(-e, -a, m);
    }
  }

  lemma OvershootByParity(z: int, q: nat, entry: nat, b: int, t: int, m: nat)
    requires Served(z, q) && q > 0 && CloseByParity(q, entry, m) && Multiplier(entry) > 0 && t % 2 == q % 2
    requires (2 * b + 1) * q == 2 * z + t
    requires t * Multiplier(entry) <= (2 * b + 1) * ReciprocalError(q, entry)
    requires t * Pow2(Shift(entry)) <= 2 * (z * ReciprocalError(q, entry))
    ensures t <= 0
  {
    hide Pow2, Multiplier, Shift, ReciprocalError;
    var e := ReciprocalError(q, entry);
    if t > 0 {
      FewHalves(z, e, Pow2(Shift(entry)), t, 3);
      assert t == 2 - q % 2;
      OddMultiple(z, q, b, t, e, Multiplier(entry), if Missed(q) then 2046 else 2048, m);
      assert false;
    }
  }

  lemma PositiveMultiplier(q: nat, entry: nat)
    requires q > 0 && Close(q, entry)
    ensures Multiplier(entry) > 0
  {
    hide Pow2, Shift;
  }

  lemma SameParity(b: int, q: int, z: int, t: int)
    requires (2 * b + 1) * q == 2 * z + t
    ensures t % 2 == q % 2
  {
    assert (2 * b + 1) * q == 2 * (b * q) + q;
  }

  /** Were the chosen multiple of q past the nearest one by t > 0 halves, the reciprocal would
      not be close. */
  lemma NoOvershoot(z: int, q: nat, entry: nat, b: int, t: int)
    requires Served(z, q) && q > 0 && Close(q, entry)
    requires (2 * b + 1) * q == 2 * z + t
    requires t * Multiplier(entry) <= (2 * b + 1) * ReciprocalError(q, entry)
    requires t * Pow2(Shift(entry)) <= 2 * (z * ReciprocalError(q, entry))
    ensures t <= 0
  {
    hide Pow2, Multiplier, Shift, ReciprocalError, CloseAtOnce, CloseByParity;
    PositiveMultiplier(q, entry);
    SameParity(b, q, z, t);
    if CloseAtOnce(q, entry) {
      OvershootAtOnce(z, q, entry, t);
    } else {
      var m: nat :| CloseByParity(q, entry, m);
      OvershootByParity(z, q, entry, b, t, m);
    }
  }

  lemma MissedEntries()
    ensures QLook(1) == 0x0001 && QLook(6) == 0x0155 && QLook(22) == 0x08ba && QLook(23) == 0x08b2
    ensures QLook(62) == 0x1084 && QLook(66) == 0x18f8 && QLook(89) == 0x18b8 && QLook(186) == 0x20b0
  {
    hide Usual, Pow2, Multiplier, Shift;
  }

  lemma TenthPowers()
    ensures Pow2(0) == 1 && Pow2(10) == 1024
  {
    Pow2Values();
    Pow2Add(8, 2);
  }

  lemma MissedValues()
    ensures Reconstructed(-1024, 1, 0x0001) == -1023 && Reconstructed(-1024, 6, 0x0155) == -1020
    ensures Reconstructed(-1024, 22, 0x08ba) == -1012 && Reconstructed(-1024, 23, 0x08b2) == -1012
    ensures Reconstructed(-1024, 62, 0x1084) == -992 && Reconstructed(-1024, 66, 0x18f8) == -990
    ensures Reconstructed(-1024, 89, 0x18b8) == -979 && Reconstructed(-1024, 186, 0x20b0) == -930
  {
    hide Pow2;
    Powers();
    TenthPowers();
  }

  lemma MissedMinimum(q: nat)
    requires Missed(q)
    ensures q < 256 && 2 * Abs(Reconstructed(-1024, q, QLook(q)) + 1024) > q
  {
    hide QLook, Reconstructed;
    MissedEntries();
    MissedValues();
  }

  /** Only quantiser 1 has the entry that leaves a coefficient as it is. */
  lemma UnitEntry(q: nat, entry: nat)
    requires q > 0 && Close(q, entry)
    ensures entry == 1 ==> q == 1
  {
    assert Pow2(1) == 2;
  }

  lemma AboveTerms(z: int, q: nat, qv: nat, s: nat, n: int, t: int)
    requires t == 2 * (n * q - z) - q
    requires (2 * n - 1) * s <= 2 * (z * qv)
    requires 2 * (s * (n * q - z)) <= q * s + 2 * (z * (q * qv - s))
    ensures (2 * n - 1) * q == 2 * z + t
    ensures t * qv <= (2 * n - 1) * (q * qv - s)
    ensures t * s <= 2 * (z * (q * qv - s))
  {
    assert (2 * n - 1) * q == 2 * (n * q) - q;
    assert t * s == 2 * (s * (n * q - z)) - q * s;
    assert (2 * n - 1) * (q * qv - s) == (2 * n - 1) * q * qv - (2 * n - 1) * s;
    assert (2 * z + t) * qv == 2 * (z * qv) + t * qv;
  }

  lemma NotAbove(z: int, q: nat, entry: nat, n: int)
    requires Served(z, q) && q > 0 && Close(q, entry)
    requires (2 * n - 1) * Pow2(Shift(entry)) <= 2 * (z * Multiplier(entry)) < (2 * n + 1) * Pow2(Shift(entry))
    ensures 2 * (n * q - z) <= q
  {
    hide Pow2, Multiplier, Shift, Close;
    var qv, s, t := Multiplier(entry), Pow2(Shift(entry)), 2 * (n * q - z) - q;
    ErrorTerms(z, q, qv, s, n);
    AboveTerms(z, q, qv, s, n, t);
    NoOvershoot(z, q, entry, n - 1, t);
  }

  lemma Negated(a: int, b: int)
    ensures (-a) * b == -(a * b) && b * (-a) == -(b * a) && b * a == a * b
  {
  }

  lemma NotBelow(z: int, q: nat, entry: nat, n: int)
    requires -1023 <= z <= 1023 && q > 0 && Close(q, entry)
    requires (2 * n - 1) * Pow2(Shift(entry)) <= 2 * (z * Multiplier(entry)) < (2 * n + 1) * Pow2(Shift(entry))
    ensures 2 * (z - n * q) <= q
  {
    hide Pow2, Multiplier, Shift, Close;
    var qv, s, t := Multiplier(entry), Pow2(Shift(entry)), 2 * (z - n * q) - q;
    ErrorTerms(z, q, qv, s, n);
    assert -z * qv == -(z * qv) && (2 * -n - 1) * s == -((2 * n + 1) * s) by { Negated(z, qv); Negated(2 * n + 1, s); }
    assert s * (-n * q - -z) == -(s * (n * q - z)) by { Negated(n, q); Negated(n * q - z, s); }
    assert -z * (q * qv - s) == -(z * (q * qv - s)) by { Negated(z, q * qv - s); }
    Negated(n, q);
    AboveTerms(-z, q, qv, s, -n, t);
    NoOvershoot(-z, q, entry, -n - 1, t);
  }

  lemma ServedIsNearest(z: int, q: nat)
    requires Served(z, q) && 1 <= q <= 255
    ensures 2 * Abs(Reconstructed(z, q, QLook(q)) - z) <= q
  {
    hide QLook, Pow2, Multiplier, Shift, Close;
    var entry := QLook(q);
    var qv, s := Multiplier(entry), Pow2(Shift(entry));
    var n := Rounded(z, qv, Shift(entry));
    TableIsClose(q);
    QuantisedRange(z, entry);
    UnitEntry(q, entry);
    RoundsToNearest(z, qv, Shift(entry));
    hide Rounded;
    NotAbove(z, q, entry, n);
    if z != -1024 {
      NotBelow(z, q, entry, n);
    }
  }

  /** With the table's reciprocals the codec quantises as well as division would: for every
      quantiser and coefficient, no multiple of q is closer to z than the reconstruction,
      except that reconstructions stop at -1023 and 1023, and that eight quantisers miss the
      coefficient -1024. */
  lemma NearestMultiple(z: int, q: nat)
    requires -1024 <= z <= 1023 && 1 <= q <= 255
    ensures 2 * Abs(Reconstructed(z, q, QLook(q)) - z) <= q <==> z != -1024 || !Missed(q)
  {
    hide QLook, Pow2, Multiplier, Shift, Close, Missed;
    if Served(z, q) {
      ServedIsNearest(z, q);
    } else {
      MissedMinimum(q);
    }
  }

  // ---- the exact result

  /** z divided by q and rounded to the nearest integer. Ties go upward for a power of two, away from
      zero where the reciprocal is too large, and toward zero where it is too small. */
  function Quotient(z: int, q: nat): int
    requires q > 0
  {
    var up, down := (2 * z + q) / (2 * q), (2 * z + q - 1) / (2 * q);
    if PowerOfTwo(q) then up
    else if TooLarge(q) then if z >= 0 then up else down
    else if z <= 0 then up else down
  }

  lemma TieUpward(z: int, q: nat, n: int)
    requires q > 0 && 2 * (n * q - z) <= q && 2 * (z - n * q) < q
    ensures (2 * z + q) / (2 * q) == n
  {
    assert 2 * q * n == 2 * (n * q);
    DivUnique(2 * z + q, 2 * q, n, 2 * z + q - 2 * (n * q));
  }

  lemma TieDownward(z: int, q: nat, n: int)
    requires q > 0 && 2 * (n * q - z) < q && 2 * (z - n * q) <= q
    ensures (2 * z + q - 1) / (2 * q) == n
  {
    assert 2 * q * n == 2 * (n * q);
    DivUnique(2 * z + q - 1, 2 * q, n, 2 * z + q - 1 - 2 * (n * q));
  }

  lemma OddProduct(a: int, b: int)
    ensures (2 * a + 1) * (2 * b + 1) % 2 == 1
  {
    assert (2 * a + 1) * (2 * b + 1) == 2 * (2 * a * b + a + b) + 1;
  }

  /** A coefficient in the middle between two multiples, and which one the reciprocal picks. */
  lemma TieSign(z: int, q: nat, qv: nat, s: nat, a: int)
    requires a * q == 2 * z && q > 0
    ensures 2 * (z * qv) - a * s == a * (q * qv - s)
    ensures q % 2 == 1 ==> a % 2 == 0
    ensures z > 0 ==> a > 0
    ensures z < 0 ==> a < 0
  {
    assert 2 * (z * qv) == a * q * qv == a * (q * qv);
    assert a * (q * qv - s) == a * (q * qv) - a * s;
    if q % 2 == 1 && a % 2 == 1 {
      OddProduct(a / 2, q / 2);
    }
    if z > 0 && a <= 0 {
      MulMonotonic(q, a, 0);
    }
    if z < 0 && a >= 0 {
      MulMonotonic(q, 0, a);
    }
  }

  lemma ProductSign(a: int, e: int)
    ensures (a > 0 && e > 0) || (a < 0 && e < 0) ==> a * e > 0
    ensures (a > 0 && e < 0) || (a < 0 && e > 0) ==> a * e < 0
    ensures e == 0 ==> a * e == 0
  {
  }

  lemma PicksUp(z: int, q: nat, qv: nat, s: nat, n: int)
    requires q > 0 && 2 * (n * q - z) <= q && 2 * (z - n * q) <= q && 2 * (z * qv) < (2 * n + 1) * s
    requires q % 2 == 0 ==> (z >= 0 && q * qv >= s) || (z <= 0 && q * qv <= s) || q * qv == s
    ensures (2 * z + q) / (2 * q) == n
  {
    if 2 * (z - n * q) == q {
      var a := 2 * n + 1;
      assert a * q == 2 * (n * q) + q;
      TieSign(z, q, qv, s, a);
      ProductSign(a, q * qv - s);
    }
    TieUpward(z, q, n);
  }

  lemma PicksDown(z: int, q: nat, qv: nat, s: nat, n: int)
    requires q > 0 && 2 * (n * q - z) <= q && 2 * (z - n * q) <= q && (2 * n - 1) * s <= 2 * (z * qv)
    requires q % 2 == 0 ==> (z < 0 && q * qv > s) || (z > 0 && q * qv < s)
    ensures (2 * z + q - 1) / (2 * q) == n
  {
    if 2 * (n * q - z) == q {
      var a := 2 * n - 1;
      assert a * q == 2 * (n * q) - q;
      TieSign(z, q, qv, s, a);
      ProductSign(a, q * qv - s);
    }
    TieDownward(z, q, n);
  }

  /** What the table makes of every coefficient is division, rounded to the nearest integer, with
      the ties decided by which side the reciprocal is on. */
  lemma ExactQuotient(z: int, q: nat)
    requires -1023 <= z <= 1023 && 1 <= q <= 255
    ensures Quantised(z, Multiplier(QLook(q)), Shift(QLook(q))) == Quotient(z, q)
  {
    hide QLook, Pow2, Multiplier, Shift, Close, TooLarge, PowerOfTwo, Missed, Quantised;
    var entry := QLook(q);
    var qv, s := Multiplier(entry), Pow2(Shift(entry));
    var n := Rounded(z, qv, Shift(entry));
    Entries(q);
    TableIsClose(q);
    QuantisedRange(z, entry);
    UnitEntry(q, entry);
    RoundsToNearest(z, qv, Shift(entry));
    hide Rounded;
    NotAbove(z, q, entry, n);
    NotBelow(z, q, entry, n);
    if PowerOfTwo(q) || (TooLarge(q) && z >= 0) || (!TooLarge(q) && z <= 0) {
      PicksUp(z, q, qv, s, n);
    } else {
      PicksDown(z, q, qv, s, n);
    }
  }

  /** The decoder's limit is the nearest value in range. */
  lemma ClampIsNearest(v: int, w: int)
    requires -1023 <= w <= 1023
    ensures -1023 <= Clamp(v) <= 1023 && Abs(Clamp(v) - v) <= Abs(w - v)
  {
  }
}
