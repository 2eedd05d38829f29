# Verification of the baseline JPEG codec and the line formats

The repository holds C models of a baseline JPEG codec (ITU-T T.81) made of three programs, and
several programs that store images line by line. `tabgen` reads a JPEG file, assigns the
canonical Huffman codes and writes the tables of the encoder, the decoder and a hardware decoder;
it also copies the coded scan out of the file. `jcem` encodes blocks of samples and `jdem` decodes
them. This project models what these programs compute and proves that they fit together.

The models keep the form of the programs: `Encoder`, `Decoder` and `TabGen` are classes whose
methods change the same variables as the C code (the bit buffer and its count, the restart flags
and counters, the predictors, the coefficient block, the memories), and the transforms, the
quantisation steps, the line formats and the tile builder are loops over arrays. Every such method
is proved against a function or a definition that owes nothing to the programs: Annex C and the
decoding procedure of T.81, bit strings, stuffed segments, multiples of a quantiser, pixels of
an image. `int` values of the bit buffer wrap around at 32 bits; where the C code must not
overflow, the methods use a 32-bit type.

The main results:

* **The codec loses nothing after quantisation.** `CodecRoundTrip` chains all programs: tables
  are generated, narrowed to 12 bits, loaded by both sides, a scan is encoded, copied and decoded.
  The same blocks come out for every component layout, every number of MCUs and every restart
  interval that the decoder's registers hold (up to 2^26 and below 65536; `RegistersAgree` has the
  exact condition), no error exit is taken, and every restart marker carries the expected number.
  The definitions may come in any order and more than once; what a second definition of a table
  does is proved for all files. What a scan is does not rest on the programs' counters:
  `SegmentsAreIntervals` and `FrameAt` give the number of segments, the MCUs of each and the place
  of every marker in closed form.
* **From bytes to bytes.** `CompressAndRestore` runs every picture of 8-bit samples, with any
  quantisers, tables that the file leaves at zero included, and any code tables that are complete
  for the components in use, through the loops of both programs: the error exits are unreachable
  because of the range of the transform, every coefficient comes back as near as its quantiser
  allows, and no sample is off by more than 16 + 8 d where no quantiser moves a coefficient by more
  than d. The bound needs that the factors of the two transforms are inverse to each other up to
  a small rest, and counts every rounding.
* **Stray symbols.** `AcWalk` describes the decoder's walk through a block for any symbols:
  exactly when it stores past the end of the block, and that the encoder's never do.
* **Restart resynchronisation.** The look-ahead may swallow a marker several MCUs early; from
  then on `bin` returns an uninitialised variable, which the model makes arbitrary. `PassMarker`
  and the invariant behind it show that no decoded value depends on it.
* **Canonical codes.** Codes fit, and no code word is a prefix of another, exactly when the
  Kraft sum is at most one. The 12-bit form is lossless exactly under a condition that a
  counting rule implies; a table that breaks the rule is given.
* **Table refinement.** The decoder's 65536-entry table is bit-serial decoding; the hardware
  decoder's packed MIN, BASE and SYMB memories find the length and symbol of every window that
  starts with a code, as long as the code leaves a word free; why not otherwise is proved too.
* **The transforms are the cosine transform.** Both integer transforms are proved against the
  formulas of section A.3.3 of T.81 over the real numbers: every coefficient of every block of
  samples is within 3.5 of the exact one, every sample of every block of coefficients within 13.
  The cosines are given only by halving angles, and all 64 factors of both programs are theirs.
* **Quantisation.** The table of reciprocals makes quantising an exact division with rounding, the
  ties of every quantiser included. Coefficients stay in -1024..1023, nothing overflows, outputs
  are the nearest bytes, and every coefficient of every block comes back as a nearest multiple,
  except that eight quantisers must not be the first of their table. Flat blocks come through
  exactly for exactly seven first quantisers.
* **Line formats.** Line pairs do not let errors drift; running differences lose nothing for
  any number of lines. From picture to picture only the colour conversions remain, which are
  within 2 of every colour and exact for greys.
* **Tiles.** The padded pointer walk puts every pixel where it belongs, once.

One module to a file: `Words` (bits and 32-bit words), `CanonicalCodes`, `HuffmanTables`,
`TableGenerator`, `CodecTables`, `TableLoading`, `HardwareTables`, `Coefficients`, `Framing`,
`ScanCoding` (what a scan is), `ScanLayout` (the same in numbers), `EntropyEncoder`,
`EntropyDecoder`, `AcWalk`, `ScanCopy`, `RoundTrip`, `Quantiser`, `Transform`, `TransformError`,
`Cosines`, `ZigZag`, `FlatBlocks`, `BlockCoding`, `CompleteTables`, `PictureCodec`, `EvenTables`,
`ColourConversion`, `LineChunks`, `LinePairs`, `RunningDifferences`, `TilePlacement`.
`dafny verify dfyconfig.toml` checks them all.

## Where the code differs from what one expects

* `jcem.c:285` tests the length at index `sz`, not at `rs`, before it writes an AC symbol, and in the
  12-bit memory an entry nobody wrote reads back as a 16-bit code of ones, not as missing. A
  symbol that the definition does not list is therefore accepted and coded as 16 ones;
  `UnlistedSymbol` says what the decoder's table makes of that. The round trip is stated for scans
  whose symbols are listed.
* `jdem.c` looks a window that no code starts up as symbol 0, and drops as many bits as the code of
  symbol 0 has, none if symbol 0 has no code.
* Reconstructions stop at -1023. The coefficient -1024, which only the first of a block can be and a
  black flat block has, still comes back within half its quantiser, except for the quantisers 1, 6,
  22, 23, 62, 66, 89 and 186.
* Nothing in `jdem.c:330-353` compares the place of a coefficient with the end of the block; `AcWalk`
  states when a symbol reaches past it.
* A second definition of a table replaces codes and lengths only of the symbols it lists, and the `|=`
  of `tabgen.c:247` merges the symbols of a DC table with those before; `Generate` describes the
  result, `DroppedSymbolsStay` and `MergedSymbolsMislead` when it does no harm.
* `jdem.c:406` and `jdem.c:412` cut two registers that `jcem.c` takes whole. With more than 2^26 MCUs, or an
  interval of 65536 or more in a scan that is long enough, the programs disagree (`RegistersAgree`).
* The MIN memory that `tabgen.c:476-512` prints holds a smallest code of length i in i bits or fewer. When
  the shorter codes use up all words, that is not enough, and the field becomes zero.
* `extract1x64diff.c:156` allocates one byte for every difference although it stores ints; the
  model's band has room for the ints, as the round trip needs.
* `build.c:456-459` writes the last band in full, so the file of `BuildBands` has the padding
  lines at its end, with whatever the band held.

## Model

| member | source | states |
|---|---|---|
| `CanonicalCodes.CodeIsKraftSum` | JPEG RTL IP C模型及行编码测试汇总/normal/_c_source_code/tabgen.c:225-263 | for every list of length counts, the running code, padded to 16 bits, is the sum of the windows of all earlier codes: the codes tile the window range without gaps |
| `CanonicalCodes.FitIffKraft` | JPEG RTL IP C模型及行编码测试汇总/normal/_c_source_code/tabgen.c:225-263 | every assigned code fits in its length if and only if the Kraft sum is at most one |
| `CanonicalCodes.PrefixFreeIffKraft` | JPEG RTL IP C模型及行编码测试汇总/normal/_c_source_code/tabgen.c:225-263 | no assigned code word is a prefix of another if and only if the Kraft sum is at most one |
| `CanonicalCodes.SerialDecodeFindsCode` | JPEG RTL IP C模型及行编码测试汇总/normal/_c_source_code/jdem.c:302-306 | bit-serial decoding (Figure F.16 of T.81) of any window that starts with a code finds that code's symbol, whatever the trailing bits |
| `CanonicalCodes.WindowHasCode` | JPEG RTL IP C模型及行编码测试汇总/normal/_c_source_code/jdem.c:491-510 | every window below the Kraft sum starts with the code of some symbol |
| `HuffmanTables.SlotInjective` | JPEG RTL IP C模型及行编码测试汇总/normal/_c_source_code/tabgen.c:248-260 | the run*10+size-1 layout with its two extra slots never puts two legal symbols in one entry |
| `HuffmanTables.SlotsInOrder` | JPEG RTL IP C模型及行编码测试汇总/normal/_c_source_code/tabgen.c:248-260 | the run/size symbols take the places 0 to 159 in their own order, EOB 160 and ZRL 161, a DC symbol the place of its number |
| `HuffmanTables.NarrowIsLossless` | JPEG RTL IP C模型及行编码测试汇总/normal/_c_source_code/tabgen.c:242-258 | 8 code bits and a length give a code back exactly when its bits above the low 8 are ones |
| `HuffmanTables.NarrowLosslessIff` | JPEG RTL IP C模型及行编码测试汇总/normal/_c_source_code/jcem.c:464-572 | all codes of a table survive the 12-bit form if and only if each code longer than 8 bits is within 256 of the end of its length |
| `HuffmanTables.SmallTablesAreNarrowSafe` | JPEG RTL IP C模型及行编码测试汇总/normal/_c_source_code/jcem.c:464-572 | counting rule: symbols plus unused longest words at most 256 make every table lossless in 12 bits |
| `HuffmanTables.NarrowCanBeLossy` | JPEG RTL IP C模型及行编码测试汇总/normal/_c_source_code/jcem.c:470-478 | without that bound a code can be lost: the single 9-bit code 000000000 comes back as 100000000 |
| `HuffmanTables.NarrowBits` | JPEG RTL IP C模型及行编码测试汇总/normal/_c_source_code/tabgen.c:242-258 | the 12 bits of an entry are four for the size less one and the last eight of the code |
| `TableGenerator.Regions` | JPEG RTL IP C模型及行编码测试汇总/normal/_c_source_code/tabgen.c:175-209 | where every table lies, in numbers: the symbol memory is AC 0, DC, AC 1 from 0, 162, 174 to 336, the length memories AC 0, DC 0, AC 1, DC 1 from 0 to 64, the encoder memory AC 0, AC 1, DC 0, DC 1 from 0, 176, 352, 368 to 384; no gaps, no overlaps |
| `TableGenerator.TabGen.constructor` | JPEG RTL IP C模型及行编码测试汇总/normal/_c_source_code/tabgen.c:67-84 | the initial memories: 12-bit fillers, clear symbol memory, no lengths |
| `TableGenerator.TabGen.Install` | JPEG RTL IP C模型及行编码测试汇总/normal/_c_source_code/tabgen.c:156-263 | one definition, the first of its table or not, ends up in the code arrays, the 12-bit memory and the BASE, SYMB and MIN memories, and no entry of another table changes; InPlace gives the index of every entry in numbers, AC symbol k of table ht at 174 ht + k; DC symbol k is merged bit by bit into its half of entry 162 + k |
| `TableGenerator.TabGen.LoadLengths` | JPEG RTL IP C模型及行编码测试汇总/normal/_c_source_code/tabgen.c:225-263 | the loop over the 16 lengths keeps the running code equal to the Kraft sum of the symbols stored so far, padded |
| `TableGenerator.TabGen.StoreLength` | JPEG RTL IP C模型及行编码测试汇总/normal/_c_source_code/tabgen.c:226-229 | the MIN and BASE entries of a length: the smallest code, and base plus code equals the address of the first symbol |
| `TableGenerator.TabGen.AssignLength` | JPEG RTL IP C模型及行编码测试汇总/normal/_c_source_code/tabgen.c:230-261 | consecutive codes for the symbols of one length, each at base plus code |
| `TableGenerator.TabGen.StoreEntry` | JPEG RTL IP C模型及行编码测试汇总/normal/_c_source_code/tabgen.c:233-260 | one symbol is stored in all memories without disturbing the ones before |
| `TableGenerator.TabGen.StoreSymbol` | JPEG RTL IP C模型及行编码测试汇总/normal/_c_source_code/tabgen.c:240-259 | AC symbols fill their own region; a DC symbol is merged into its nibble of a shared entry, the other nibble stays |
| `TableGenerator.TabGen.LoadedInPlace` | JPEG RTL IP C模型及行编码测试汇总/normal/_c_source_code/tabgen.c:175-261 | the places of all entries of an installed table follow from its description |
| `TableGenerator.Halves` | JPEG RTL IP C模型及行编码测试汇总/normal/_c_source_code/tabgen.c:243-247 | a shared entry is the lower half of table 0 and the upper half of table 1 |
| `TableGenerator.OrBits` | JPEG RTL IP C模型及行编码测试汇总/normal/_c_source_code/tabgen.c:247 | merging sets exactly the bits that one of the two has |
| `TableGenerator.CodeByKraft` | JPEG RTL IP C模型及行编码测试汇总/normal/_c_source_code/tabgen.c:228-262 | a number with the right Kraft sum is the canonical code of Annex C |
| `TableGenerator.ShorterCodes` | JPEG RTL IP C模型及行编码测试汇总/normal/_c_source_code/tabgen.c:226-231 | when the loop reaches a length, exactly the shorter codes have been assigned |
| `HardwareTables.FieldKeeps` | JPEG RTL IP C模型及行编码测试汇总/normal/_c_source_code/tabgen.c:476-512 | read with ones above its low 8 bits, a packed MIN field gives a number of its length back if and only if that has at most 8 bits or is within 256 of the end of the length |
| `HardwareTables.HardwareFindsSymbol` | JPEG RTL IP C模型及行编码测试汇总/normal/_c_source_code/tabgen.c:476-512 | for packed MIN memories of a code that leaves a word free, and any window that starts with a code: its first i bits reach MIN of length i exactly for the lengths up to the code's, and BASE (cut to 9 bits) plus code addresses its symbol in SYMB |
| `HardwareTables.FullTableMisleads` | JPEG RTL IP C模型及行编码测试汇总/normal/_c_source_code/tabgen.c:476-512 | for all other tables this fails: the window of ones starts with the last code and yet reaches the field of the next length, which is packed to zero |
| `TableLoading.StillHolds` | JPEG RTL IP C模型及行编码测试汇总/normal/_c_source_code/tabgen.c:156-263 | installing a table leaves every other table readable: AC regions are disjoint, DC nibbles separate |
| `TableLoading.SymbolStays` | JPEG RTL IP C模型及行编码测试汇总/normal/_c_source_code/tabgen.c:240-259 | installing any other table leaves what is read from a table's entries of the symbol memory, so the definitions may come in any order |
| `TableLoading.InstallNext` | JPEG RTL IP C模型及行编码测试汇总/normal/_c_source_code/tabgen.c:156-263 | one more definition of the file: every table is in the state that the definitions so far describe |
| `TableLoading.Generate` | JPEG RTL IP C模型及行编码测试汇总/normal/_c_source_code/tabgen.c:156-263 | for every file of definitions, in any order, several of a table or none: codes, MIN and BASE are those of each table's last definition, exactly the symbols that any definition of a table listed have a length, the other encoder entries are the filler, and the symbols of the DC tables are merged |
| `TableLoading.DroppedSymbolsStay` | JPEG RTL IP C模型及行编码测试汇总/normal/_c_source_code/tabgen.c:156-263 | a table's readers find just the symbols of its last definition if and only if that lists all symbols that earlier ones did |
| `TableLoading.MergedSymbolsMislead` | JPEG RTL IP C模型及行编码测试汇总/normal/_c_source_code/tabgen.c:240-259 | the hardware decoder finds the symbols of a DC table if and only if merging with those of earlier definitions changes none |
| `TableLoading.OnceIsComplete` | JPEG RTL IP C模型及行编码测试汇总/normal/_c_source_code/tabgen.c:156-263 | a table that is defined once drops and merges nothing |
| `CodecTables.LoadAcTable` | JPEG RTL IP C模型及行编码测试汇总/normal/_c_source_code/jcem.c:465-512 | the encoder's AC table holds the widened entry of every legal symbol, and length 0 for all others |
| `CodecTables.LoadDcTable` | JPEG RTL IP C模型及行编码测试汇总/normal/_c_source_code/jcem.c:544-572 | the same for the 12 DC symbols |
| `CodecTables.FillRange` | JPEG RTL IP C模型及行编码测试汇总/normal/_c_source_code/jdem.c:498-501 | all windows that share a code's leading bits get its symbol, no other entry changes |
| `CodecTables.FillWindows` | JPEG RTL IP C模型及行编码测试汇总/normal/_c_source_code/jdem.c:486-510 | filling entry by entry gives disjoint runs: each window holds the symbol whose run covers it |
| `TableLoading.LoadEncoderTable` | JPEG RTL IP C模型及行编码测试汇总/normal/_c_source_code/jcem.c:464-572 | what the encoder rebuilds from 12 bits is the canonical code and size of every symbol the definition lists, 16 ones for any other legal symbol, and length 0 for illegal ones |
| `TableLoading.LoadDecoderTable` | JPEG RTL IP C模型及行编码测试汇总/normal/_c_source_code/jdem.c:491-510 | looking a window up equals decoding it bit by bit, for all 65536 windows; symbols not listed have length 0 |
| `TableLoading.WindowsAreSerialDecoding` | JPEG RTL IP C模型及行编码测试汇总/normal/_c_source_code/jdem.c:486-510 | the window table refines Figure F.16 of T.81, including the windows no code starts |
| `TableLoading.TablesMatch` | JPEG RTL IP C模型及行编码测试汇总/normal/_c_source_code/jdem.c:302-306 | encoder code and decoder lookup agree on a legal symbol if and only if the definition lists it |
| `TableLoading.UnlistedSymbol` | JPEG RTL IP C模型及行编码测试汇总/normal/_c_source_code/jdem.c:332-337 | a symbol the definition does not list is coded as 16 ones; that window is looked up as the symbol exactly if it is symbol 0 and no code consists of ones, and no bits are dropped for it |
| `Coefficients.PrioIsSize` | JPEG RTL IP C模型及行编码测试汇总/normal/_c_source_code/jcem.c:197-214 | the four mask comparisons give the number of magnitude bits of every value of up to 16 bits |
| `Coefficients.TopBitDecides` | JPEG RTL IP C模型及行编码测试汇总/normal/_c_source_code/jcem.c:203-210 | of two complementary masks the one holding the top bit selects the larger part |
| `Coefficients.NumInvertsMagnitude` | JPEG RTL IP C模型及行编码测试汇总/normal/_c_source_code/jdem.c:266-275 | EXTEND (Figure F.12 of T.81) undoes the magnitude bits of every nonzero value |
| `Coefficients.MagnitudeValue` | JPEG RTL IP C模型及行编码测试汇总/normal/_c_source_code/jcem.c:253-297 | the magnitude bits are those of section F.1.2.1 of T.81: the value itself in binary, or for a negative one that plus 2^size - 1; the first bit is the sign |
| `Framing.StuffAppend` | JPEG RTL IP C模型及行编码测试汇总/normal/_c_source_code/jcem.c:217-223 | stuffing works byte by byte |
| `Framing.PackUnique` | JPEG RTL IP C模型及行编码测试汇总/normal/_c_source_code/jcem.c:305-315 | a bit string of whole bytes determines its bytes |
| `ScanCoding.FrameStep` | JPEG RTL IP C模型及行编码测试汇总/normal/_c_source_code/jcem.c:620-645 | a scan is a stuffed, padded segment, a marker, and the rest of the scan |
| `ScanLayout.SegmentsAreIntervals` | JPEG RTL IP C模型及行编码测试汇总/normal/_c_source_code/jcem.c:600-641 | with restarts a scan of n MCUs has (n + nrst) / (nrst + 1) segments, without one; segment k is the bits of the MCUs from k (nrst + 1) on, predicted from zero |
| `ScanLayout.FrameAt` | JPEG RTL IP C模型及行编码测试汇总/normal/_c_source_code/jcem.c:620-645 | segment k, padded and stuffed, stands behind those before it, and RSTk modulo 8 or EOI behind it |
| `ScanLayout.ScanBytesAreScan` | JPEG RTL IP C模型及行编码测试汇总/normal/_c_source_code/jcem.c:600-645 | the bytes of a scan are these segments and markers and nothing else |
| `ScanLayout.LastMcu` | JPEG RTL IP C模型及行编码测试汇总/normal/_c_source_code/jcem.c:600-641 | the bits of an MCU follow those of the MCUs before it, predicted from their last blocks |
| `ScanLayout.LastBlock` | JPEG RTL IP C模型及行编码测试汇总/normal/_c_source_code/jcem.c:253-264 | a block of a component is coded against the first coefficient of the block before it |
| `EntropyEncoder.Encoder.Bout` | JPEG RTL IP C模型及行编码测试汇总/normal/_c_source_code/jcem.c:217-223 | a byte goes out with a zero after FF |
| `EntropyEncoder.Encoder.Code` | JPEG RTL IP C模型及行编码测试汇总/normal/_c_source_code/jcem.c:225-242 | for sizes 0 to 16 the field is appended to the bits written so far; at most 7 bits stay buffered and the 32-bit word loses none of them |
| `EntropyEncoder.Encoder.Flush` | JPEG RTL IP C模型及行编码测试汇总/normal/_c_source_code/jcem.c:305-315 | the segment is completed with fewer than eight ones |
| `EntropyEncoder.Encoder.EncZeros` | JPEG RTL IP C模型及行编码测试汇总/normal/_c_source_code/jcem.c:271-276 | ZRLs for runs of 16 and more leave a run below 16 |
| `EntropyEncoder.Encoder.EncNonzero` | JPEG RTL IP C模型及行编码测试汇总/normal/_c_source_code/jcem.c:269-297 | run/size symbol and magnitude of one coefficient; the error exit is taken exactly when the table has no code for its size index |
| `EntropyEncoder.Encoder.EncAc` | JPEG RTL IP C模型及行编码测试汇总/normal/_c_source_code/jcem.c:265-301 | the AC part of a block is its bit string by definition, EOB exactly when the last coefficient is zero |
| `EntropyEncoder.Encoder.Enc` | JPEG RTL IP C模型及行编码测试汇总/normal/_c_source_code/jcem.c:245-302 | a block is coded against its predictor or rejected, and exactly when it is rejected |
| `EntropyEncoder.Encoder.InRangeIsEncodable` | JPEG RTL IP C模型及行编码测试汇总/normal/_c_source_code/jcem.c:257-289 | with the tables as loaded no block of 8-bit samples is rejected |
| `EntropyEncoder.Encoder.EncodeMcu` | JPEG RTL IP C模型及行编码测试汇总/normal/_c_source_code/jcem.c:600-618 | the blocks of all components of an MCU, with predictors carried on |
| `EntropyEncoder.Encoder.EndSegment` | JPEG RTL IP C模型及行编码测试汇总/normal/_c_source_code/jcem.c:630-645 | flush and marker between segments |
| `EntropyEncoder.Encoder.Restart` | JPEG RTL IP C模型及行编码测试汇总/normal/_c_source_code/jcem.c:620-640 | at the end of an interval: flush, marker, cleared predictors, and what the remaining intervals make is all that is missing from the scan |
| `EntropyEncoder.Encoder.EncodeScan` | JPEG RTL IP C模型及行编码测试汇总/normal/_c_source_code/jcem.c:590-645 | the output is the framed scan, and IsScan of ScanLayout says in numbers what that is: how many intervals, which MCUs each has, where its marker is and which; no error exit |
| `EntropyDecoder.ReadStuffed` | JPEG RTL IP C模型及行编码测试汇总/normal/_c_source_code/jdem.c:241-264 | unstuffing undoes stuffing byte by byte and then finds the marker |
| `EntropyDecoder.Decoder.Bin` | JPEG RTL IP C模型及行编码测试汇总/normal/_c_source_code/jdem.c:241-264 | what each call reads and which flag it sets; once a restart marker is seen nothing is read and the result is arbitrary |
| `EntropyDecoder.FillThenCode` | JPEG RTL IP C模型及行编码测试汇总/normal/_c_source_code/jdem.c:241-264 | what is read behind any number of FF bytes, for every input: none, a byte stands for itself; else 00 is a byte FF, D0 to D7 restart markers, D9 the end, and everything else, the end of the file included, is refused; the same for the marker search of lines 582-598 |
| `EntropyDecoder.Decoder.Enough` | JPEG RTL IP C模型及行编码测试汇总/normal/_c_source_code/jdem.c:277-288 | the buffer is refilled with at most 23 bits in it and what lies ahead stays the same |
| `EntropyDecoder.Decoder.DecodeSymbol` | JPEG RTL IP C模型及行编码测试汇总/normal/_c_source_code/jdem.c:302-306 | the 16-bit peek yields the symbol whose code lies ahead and drops just that code |
| `EntropyDecoder.Decoder.Receive` | JPEG RTL IP C模型及行编码测试汇总/normal/_c_source_code/jdem.c:309-312 | receives exactly the next sz bits |
| `EntropyDecoder.Decoder.ReceiveValue` | JPEG RTL IP C模型及行编码测试汇总/normal/_c_source_code/jdem.c:308-313 | receives a value back from its magnitude bits |
| `EntropyDecoder.Decoder.DecDc` | JPEG RTL IP C模型及行编码测试汇总/normal/_c_source_code/jdem.c:299-326 | the first coefficient is the difference received plus the predictor |
| `EntropyDecoder.Decoder.LimitedIsNearest` | JPEG RTL IP C模型及行编码测试汇总/normal/_c_source_code/jdem.c:318-321 | the limits take a value to the nearest of -1024..1023 |
| `EntropyDecoder.Decoder.NextSymbol` | JPEG RTL IP C模型及行编码测试汇总/normal/_c_source_code/jdem.c:330-353 | the symbol that the rest of a block starts with: after v / 16 zeros a coefficient of size v % 16 |
| `EntropyDecoder.Decoder.DecCoefficient` | JPEG RTL IP C模型及行编码测试汇总/normal/_c_source_code/jdem.c:330-353 | one step of the index walk restores one coefficient, a run of 16 or the trailing zeros; indices stay below 64 |
| `EntropyDecoder.Decoder.DecAc` | JPEG RTL IP C模型及行编码测试汇总/normal/_c_source_code/jdem.c:327-353 | the walk restores all 63 AC coefficients and consumes their bits |
| `AcWalk.PastIffSkipsOver` | JPEG RTL IP C模型及行编码测试汇总/normal/_c_source_code/jdem.c:330-353 | for any list of symbols the walk stores past the end of the block if and only if some symbol, before any EOB, skips over the end from inside the block and has a value to store |
| `AcWalk.PastRange` | JPEG RTL IP C模型及行编码测试汇总/normal/_c_source_code/jdem.c:330-353 | and then at place 64 to 78 |
| `AcWalk.EncodedIsComplete` | JPEG RTL IP C模型及行编码测试汇总/normal/_c_source_code/jcem.c:265-301 | the symbols of an encoded block lead exactly to the end |
| `AcWalk.FourLongRuns` | JPEG RTL IP C模型及行编码测试汇总/normal/_c_source_code/jdem.c:330-353 | four symbols F1 store at place 64 |
| `AcWalk.TablesThatReachPast` | JPEG RTL IP C模型及行编码测试汇总/normal/_c_source_code/jdem.c:330-353 | a table that codes some value without a run admits such a list if and only if it also codes a value after a run |
| `EntropyDecoder.Decoder.Dec` | JPEG RTL IP C模型及行编码测试汇总/normal/_c_source_code/jdem.c:291-354 | a block and its predictor are exactly those that were encoded, the clamps change nothing |
| `EntropyDecoder.Decoder.DecodeMcu` | JPEG RTL IP C模型及行编码测试汇总/normal/_c_source_code/jdem.c:541-555 | all blocks of an MCU, in order, with equal predictors on both sides |
| `EntropyDecoder.Decoder.ReadMarker` | JPEG RTL IP C模型及行编码测试汇总/normal/_c_source_code/jdem.c:582-613 | the path that reads an unread restart marker, with both error exits |
| `EntropyDecoder.Decoder.PassMarker` | JPEG RTL IP C模型及行编码测试汇总/normal/_c_source_code/jdem.c:557-614 | at an interval boundary, whether the look-ahead has swallowed the marker or not, the decoder ends just behind it with an empty buffer, cleared predictors and the number confirmed |
| `EntropyDecoder.Decoder.DecodeScan` | JPEG RTL IP C模型及行编码测试汇总/normal/_c_source_code/jdem.c:525-615 | decoding the bytes of any scan gives its blocks, with no warning and no error exit |
| `ScanCopy.CopyScan` | JPEG RTL IP C模型及行编码测试汇总/normal/_c_source_code/tabgen.c:328-346 | the copy loop equals a recursive description on every input |
| `ScanCopy.CopyScannable` | JPEG RTL IP C模型及行编码测试汇总/normal/_c_source_code/tabgen.c:328-346 | on any input the copy takes over the bytes, stuffed FFs and restart markers up to the first FF that something else follows, and then stops as the code there says |
| `ScanCopy.ContinuesOver` | JPEG RTL IP C模型及行编码测试汇总/normal/_c_source_code/tabgen.c:335 | the codes that do not stop it are 00 and D0 to D7 |
| `ScanCopy.CopyStops` | JPEG RTL IP C模型及行编码测试汇总/normal/_c_source_code/tabgen.c:328-346 | every input has such a place or is copied to its end |
| `ScanCopy.FrameScannable` | JPEG RTL IP C模型及行编码测试汇总/normal/_c_source_code/jcem.c:217-223 | every FF in an encoded scan is followed by 00 or a restart marker, up to the final EOI |
| `ScanCopy.CopyIsIdentity` | JPEG RTL IP C模型及行编码测试汇总/normal/_c_source_code/tabgen.c:297-346 | the scan loop and the EOI case reproduce an encoded scan byte for byte and stop exactly at its end, wherever it lies in the file |
| `RoundTrip.LoadTables` | JPEG RTL IP C模型及行编码测试汇总/normal/_c_source_code/tabgen.c:156-263 | tables loaded by both programs from the generator's files agree on every symbol |
| `RoundTrip.RegistersAgree` | JPEG RTL IP C模型及行编码测试汇总/normal/_c_source_code/jdem.c:403-413 | both programs cut a scan into the same number of MCUs and the same intervals if and only if its length fits 26 bits and its restart interval 16, or the scan is too short for the difference to show |
| `RoundTrip.CodecRoundTrip` | JPEG RTL IP C模型及行编码测试汇总/normal/_c_source_code/jdem.c:525-615 | tables generated and loaded, any scan the tables provide for encoded, copied and decoded: the same blocks, no error, no warning |
| `Quantiser.LoadQuantisers` | JPEG RTL IP C模型及行编码测试汇总/normal/_c_source_code/jcem.c:426-453 | each number is split into multiplier and shift, table after table, for files of every length, one that ends inside a table included |
| `Quantiser.LoadDequantisers` | JPEG RTL IP C模型及行编码测试汇总/normal/_c_source_code/jdem.c:471-476 | the decoder's four tables are the numbers of its file in order |
| `Quantiser.Quant` | JPEG RTL IP C模型及行编码测试汇总/normal/_c_source_code/jcem.c:181-195 | all 64 coefficients are quantised without 32-bit overflow |
| `Quantiser.Dequant` | JPEG RTL IP C模型及行编码测试汇总/normal/_c_source_code/jdem.c:221-238 | all 64 coefficients are multiplied and clamped |
| `Quantiser.RoundsToNearest` | JPEG RTL IP C模型及行编码测试汇总/normal/_c_source_code/jcem.c:188-190 | the shift, increment and halving compute floor(z qv / 2^sf + 1/2) |
| `Quantiser.QuantisedRange` | JPEG RTL IP C模型及行编码测试汇总/normal/_c_source_code/jcem.c:188-193 | results stay within -1023..1023 for every entry, and only -1024 with quantiser 1 is changed by the clamp |
| `Quantiser.ErrorBound` | JPEG RTL IP C模型及行编码测试汇总/normal/_c_source_code/jcem.c:181-195 | for every quantiser and entry the reconstruction is within q/2 + abs(z) abs(q qv - 2^sf) / 2^sf of z |
| `Quantiser.TableIsClose` | JPEG RTL IP C模型及行编码测试汇总/normal/_c_source_code/qlook.h:27-284 | each of the 255 reciprocals is close enough to one over its quantiser |
| `Quantiser.Entries` | JPEG RTL IP C模型及行编码测试汇总/normal/_c_source_code/qlook.h:27-284 | every multiplier qv of the table is the one nearest to 2^sf / q for its shift sf, and for every even quantiser whether it is too large or too small |
| `Quantiser.ExactQuotient` | JPEG RTL IP C模型及行编码测试汇总/normal/_c_source_code/qlook.h:27-284 | with the table, quantising any of -1023..1023 is division by q rounded to the nearest integer, and on which side a tie goes for every q |
| `Quantiser.NearestMultiple` | JPEG RTL IP C模型及行编码测试汇总/normal/_c_source_code/qlook.h:27-284 | for every quantiser and every coefficient -1024..1023 the reconstruction is within q/2, so that no multiple of q is nearer, if and only if the coefficient is not -1024 or the quantiser none of 1, 6, 22, 23, 62, 66, 89, 186 |
| `Quantiser.ClampIsNearest` | JPEG RTL IP C模型及行编码测试汇总/normal/_c_source_code/jdem.c:230-233 | the clamp takes a value to the nearest of -1023..1023 |
| `Transform.Accumulate` | JPEG RTL IP C模型及行编码测试汇总/normal/_c_source_code/jcem.c:130-139 | one line of a pass; every product and sum fits 32 bits |
| `Transform.Dct` | JPEG RTL IP C模型及行编码测试汇总/normal/_c_source_code/jcem.c:117-168 | the in-place transform equals its two passes, and samples -128..127 give coefficients -1024..1023 |
| `Transform.ForwardRange` | JPEG RTL IP C模型及行编码测试汇总/normal/_c_source_code/jcem.c:117-168 | range of the coefficients and of everything in between |
| `Transform.AcRange` | JPEG RTL IP C模型及行编码测试汇总/normal/_c_source_code/jcem.c:117-168 | all coefficients but the first stay within -1022..1022 |
| `Transform.Idct` | JPEG RTL IP C模型及行编码测试汇总/normal/_c_source_code/jdem.c:144-206 | for coefficients -1023..1023 nothing overflows 32 bits, and every output sample is the byte nearest to its register plus 128 |
| `Transform.SumRange` | JPEG RTL IP C模型及行编码测试汇总/normal/_c_source_code/jcem.c:130-139 | a register lies between the sums of its extreme terms |
| `Transform.LevelIsNearest` | JPEG RTL IP C模型及行编码测试汇总/normal/_c_source_code/jdem.c:196-201 | the clamp to -128..127 and the shift by 128 give the byte nearest to the register plus 128 |
| `Transform.ProductRounds` | JPEG RTL IP C模型及行编码测试汇总/normal/_c_source_code/jcem.c:130-139 | a product is divided by twice half and rounded to the nearest integer, ties upward |
| `Transform.ScaledRounds` | JPEG RTL IP C模型及行编码测试汇总/normal/_c_source_code/jcem.c:160-165 | and so is a register at the end of the second pass |
| `Cosines.CosinesKnown` | JPEG RTL IP C模型及行编码测试汇总/normal/_c_source_code/jcem.c:55-64 | the cosines of the multiples of pi / 16, which halving angles determines, to six places |
| `Cosines.FactorsAreCosines` | JPEG RTL IP C模型及行编码测试汇总/normal/_c_source_code/jdem.c:60-69 | every factor of both programs, with its sign, is 32768 times the cosine that the formulas of section A.3.3 of T.81 have there, taken to the nearest multiple of 16 |
| `Cosines.RegisterNear` | JPEG RTL IP C模型及行编码测试汇总/normal/_c_source_code/jcem.c:130-139 | how far a register is from the exact sum when the values of the line are off themselves |
| `Cosines.ForwardIsCosineTransform` | JPEG RTL IP C模型及行编码测试汇总/normal/_c_source_code/jcem.c:117-168 | for every block of samples each coefficient is within 3.5 of the exact forward transform of section A.3.3 |
| `Cosines.InverseIsCosineTransform` | JPEG RTL IP C模型及行编码测试汇总/normal/_c_source_code/jdem.c:144-206 | for every block of coefficients -1024..1023 each sample, before the clamp, is within 13 of the exact inverse transform |
| `TransformError.Products` | JPEG RTL IP C模型及行编码测试汇总/normal/_c_source_code/jdem.c:144-206 | multiplied with each other, the factors of the two transforms give 2^32 or nothing, up to 923136 |
| `TransformError.InverseOfRegisters` | JPEG RTL IP C模型及行编码测试汇总/normal/_c_source_code/jdem.c:144-206 | the inverse sums of unrounded forward registers are the samples weighted with these products |
| `TransformError.LineBack` | JPEG RTL IP C模型及行编码测试汇总/normal/_c_source_code/jdem.c:144-206 | how far a sample is off after a rounded forward and a rounded inverse pass |
| `TransformError.InverseNear` | JPEG RTL IP C模型及行编码测试汇总/normal/_c_source_code/jdem.c:144-206 | for every block: if each coefficient is within d of the forward transform's, each sample comes back within 16 + 8 d |
| `ZigZag.NextRank` | JPEG RTL IP C模型及行编码测试汇总/normal/_c_source_code/jcem.c:45-53 | the path of Figure A.6 of T.81 visits the cells in the order of their numbers |
| `ZigZag.TableIsZigZag` | JPEG RTL IP C模型及行编码测试汇总/normal/_c_source_code/jcem.c:45-53 | the index table of both programs is that path |
| `ZigZag.Scan` | JPEG RTL IP C模型及行编码测试汇总/normal/_c_source_code/jcem.c:171-178 | the encoder's step lists the coefficients along the path |
| `ZigZag.Place` | JPEG RTL IP C模型及行编码测试汇总/normal/_c_source_code/jdem.c:209-218 | the decoder's step puts them back |
| `ZigZag.PlacedScanned` | JPEG RTL IP C模型及行编码测试汇总/normal/_c_source_code/jdem.c:209-218 | the two steps are inverse |
| `FlatBlocks.FlatForward` | JPEG RTL IP C模型及行编码测试汇总/normal/_c_source_code/jcem.c:117-168 | a flat block of value a has first coefficient 8a and no other, exactly |
| `FlatBlocks.DcInverse` | JPEG RTL IP C模型及行编码测试汇总/normal/_c_source_code/jdem.c:144-206 | a block with only its first coefficient is transformed back to a flat block |
| `FlatBlocks.DcLevelExact` | JPEG RTL IP C模型及行编码测试汇总/normal/_c_source_code/jdem.c:144-206 | any first coefficient within 2 of 8a gives back a |
| `BlockCoding.EncodeBlock` | JPEG RTL IP C模型及行编码测试汇总/normal/_c_source_code/jcem.c:609-617 | transform, reordering and quantisation in place compute the block's coefficients, all in range |
| `BlockCoding.DecodeBlock` | JPEG RTL IP C模型及行编码测试汇总/normal/_c_source_code/jdem.c:547-551 | dequantisation, reordering and inverse transform in place; always bytes |
| `BlockCoding.EncodedInRange` | JPEG RTL IP C模型及行编码测试汇总/normal/_c_source_code/jcem.c:252-289 | whatever the samples and the quantisation file, the entropy coder has codes for the result |
| `BlockCoding.EncodedIsDivision` | JPEG RTL IP C模型及行编码测试汇总/normal/_c_source_code/jcem.c:181-195 | with the entries of quantisers 1 to 255 each coefficient that is sent is that of the transform, in zig-zag order, divided by its quantiser and rounded |
| `BlockCoding.CoefficientsWithinHalf` | JPEG RTL IP C模型及行编码测试汇总/normal/_c_source_code/jdem.c:221-238 | a coefficient of any block comes back within half its quantiser if and only if it is not the first, or not -1024, or its quantiser none of the eight |
| `BlockCoding.WithinHalfOfEveryBlock` | JPEG RTL IP C模型及行编码测试汇总/normal/_c_source_code/jdem.c:221-238 | a quantiser keeps its coefficient of every block within half of itself if and only if that is not the first one or the quantiser none of the eight: a condition on the table alone |
| `BlockCoding.SamplesNear` | JPEG RTL IP C模型及行编码测试汇总/normal/_c_source_code/jdem.c:547-551 | whatever the samples: quantisers that move no coefficient by more than d move no sample by more than 16 + 8 d, all rounding included |
| `BlockCoding.FlatBlocksSurvive` | JPEG RTL IP C模型及行编码测试汇总/normal/_c_source_code/jdem.c:547-551 | all flat blocks survive the whole lossy path exactly if and only if the first quantiser is one of 1, 2, 3, 4, 5, 7, 8 |
| `CompleteTables.AcSymbolsLegal` | JPEG RTL IP C模型及行编码测试汇总/normal/_c_source_code/jcem.c:265-301 | blocks in range only need the 162 AC symbols |
| `CompleteTables.ScanUsesLegal` | JPEG RTL IP C模型及行编码测试汇总/normal/_c_source_code/jcem.c:590-645 | complete tables for the components it has provide for every scan in range, whatever the restart interval |
| `PictureCodec.QuantisePicture` | JPEG RTL IP C模型及行编码测试汇总/normal/_c_source_code/jcem.c:600-618 | reading, transforming and quantising block after block with the loaded entries gives the quantised scan of the picture |
| `PictureCodec.PictureInRange` | JPEG RTL IP C模型及行编码测试汇总/normal/_c_source_code/jcem.c:252-289 | the quantised scan of every picture of bytes is one the entropy coder accepts |
| `PictureCodec.RestorePicture` | JPEG RTL IP C模型及行编码测试汇总/normal/_c_source_code/jdem.c:541-555 | dequantising and transforming back block after block gives bytes, with every coefficient as near as the quantisers allow and every sample within 16 + 8 d |
| `PictureCodec.CompressAndRestore` | JPEG RTL IP C模型及行编码测试汇总/normal/_c_source_code/jdem.c:538-615 | from bytes to bytes, for any four tables of quantisers, unused ones zero included: with complete code tables for the components in use every picture comes through all loops of both programs without an error exit or warning, and what comes back is such a reconstruction of it |
| `EvenTables.EvenTablesAreUsable` | JPEG RTL IP C模型及行编码测试汇总/normal/_c_source_code/tabgen.c:225-263 | definitions that give all symbols of a class codes of one length meet every condition of the codec, for AC and DC |
| `EvenTables.EvenFileIsComplete` | JPEG RTL IP C模型及行编码测试汇总/normal/_c_source_code/tabgen.c:225-263 | a file with such definitions, AC or DC first, is complete for every component count |
| `LineChunks.SourceTarget` | JPEG RTL IP C模型及行编码测试汇总/per2diff/_c_source_code/extract.c:455-466 | storage order in 64-pixel chunks is a permutation of each line |
| `LineChunks.KeptStored` | JPEG RTL IP C模型及行编码测试汇总/per2diff/_c_source_code/build.c:438-475 | reading in storage order undoes writing in it |
| `LineChunks.ConcatLine` | JPEG RTL IP C模型及行编码测试汇总/per2diff/_c_source_code/extract.c:159-471 | line y of a file is found at y times the line size |
| `LineChunks.Grab` | JPEG RTL IP C模型及行编码测试汇总/per2diff/_c_source_code/extract.c:229-250 | a chunk of the band split into its components |
| `ColourConversion.SamplesAreRounded` | JPEG RTL IP C模型及行编码测试汇总/normal/_c_source_code/extract.c:151-174 | each sample is its weighted sum rounded to whole units, and at most 255 |
| `ColourConversion.ChannelsAreCut` | JPEG RTL IP C模型及行编码测试汇总/normal/_c_source_code/build.c:365-382 | each channel is its weighted sum cut down to whole units, from 0 to 255 |
| `ColourConversion.SumsAreJfif` | JPEG RTL IP C模型及行编码测试汇总/normal/_c_source_code/extract.c:151-174 | the weighted sums are those of JFIF, every factor the nearest in units of 1/65536 |
| `ColourConversion.ChannelSumsAreJfif` | JPEG RTL IP C模型及行编码测试汇总/normal/_c_source_code/build.c:365-382 | the same for the way back |
| `ColourConversion.ThereAndBack` | JPEG RTL IP C模型及行编码测试汇总/normal/_c_source_code/build.c:365-382 | converting any pixel to luminance and chrominance and back changes no channel by more than 2 downwards or 1 upwards; with each sample possibly one too dark, by more than 5 or 2 |
| `ColourConversion.GreysSurvive` | JPEG RTL IP C模型及行编码测试汇总/normal/_c_source_code/extract.c:151-174 | greys come back exactly |
| `ColourConversion.LineThereAndBack` | JPEG RTL IP C模型及行编码测试汇总/normal/_c_source_code/extract.c:149-188 | the same for a line of pixels |
| `LineChunks.Spread` | JPEG RTL IP C模型及行编码测试汇总/per2diff/_c_source_code/build.c:480-580 | the components of a chunk converted and put back pixel by pixel |
| `LinePairs.CodeLine` | JPEG RTL IP C模型及行编码测试汇总/per2diff/_c_source_code/extract.c:166-222 | a line is converted, odd lines become halved differences, every value a byte, and the line is remembered |
| `LinePairs.Extract` | JPEG RTL IP C模型及行编码测试汇总/per2diff/_c_source_code/extract.c:159-472 | the file holds every coded line in storage order, for any number of lines |
| `LinePairs.StoredAndRestored` | JPEG RTL IP C模型及行编码测试汇总/per2diff/_c_source_code/build.c:438-452 | even lines store the samples, odd ones 128 plus half the difference to the line before, cut down; an odd sample is restored as the byte nearest to the line before plus twice that |
| `LinePairs.GetComponent` | JPEG RTL IP C模型及行编码测试汇总/per2diff/_c_source_code/build.c:438-452 | 64 values of a component are rebuilt from the line before, clamped, and remembered |
| `LinePairs.Build` | JPEG RTL IP C模型及行编码测试汇总/per2diff/_c_source_code/build.c:438-580 | line y of the picture is rebuilt from its stored line and the line before, and converted |
| `LinePairs.ExtractedFile` | JPEG RTL IP C模型及行编码测试汇总/per2diff/_c_source_code/extract.c:159-472 | what the extractor writes is such a file |
| `LinePairs.NoDrift` | JPEG RTL IP C模型及行编码测试汇总/per2diff/_c_source_code/build.c:438-475 | with even lines disturbed by at most a and differences by at most b, even lines are off by at most a, odd ones by at most a+2b, or one more downwards, and no other line has any influence |
| `LinePairs.LosesLowBitOfOddDifferences` | JPEG RTL IP C模型及行编码测试汇总/per2diff/_c_source_code/build.c:438-475 | undisturbed, even lines are exact and an odd line is one less exactly where the difference is odd and the sample not zero |
| `LinePairs.ThereAndBack` | JPEG RTL IP C模型及行编码测试汇总/per2diff/_c_source_code/build.c:438-580 | from picture to picture, for any number of lines: in even lines no sample is off by more than the colour conversion, and greys are exact; in odd lines by no more than 5 and 2 |
| `RunningDifferences.FourBytes` | JPEG RTL IP C模型及行编码测试汇总/linediff_odd/_c_source_code/build1x64diff.c:444-447 | writing the four bytes of any 32-bit value and putting them together gives it back |
| `RunningDifferences.DifferenceRange` | JPEG RTL IP C模型及行编码测试汇总/linediff_odd/_c_source_code/extract1x64diff.c:166-221 | differences are stored with 127 added and lie in -128..382, and both ends occur |
| `RunningDifferences.SerialisedLowestFirst` | JPEG RTL IP C模型及行编码测试汇总/linediff_odd/_c_source_code/extract1x64diff.c:468-475 | byte j of value i is at 4 i + j and worth 256^j, modulo 2^32 |
| `RunningDifferences.CodeLine` | JPEG RTL IP C模型及行编码测试汇总/linediff_odd/_c_source_code/extract1x64diff.c:166-221 | a line is converted and becomes biased differences against the remembered line |
| `RunningDifferences.PutComponent` | JPEG RTL IP C模型及行编码测试汇总/linediff_odd/_c_source_code/extract1x64diff.c:468-475 | 64 values as 256 bytes, lowest first |
| `RunningDifferences.Extract` | JPEG RTL IP C模型及行编码测试汇总/linediff_odd/_c_source_code/extract1x64diff.c:159-495 | the file holds every line of differences in storage order |
| `RunningDifferences.GetComponent` | JPEG RTL IP C模型及行编码测试汇总/linediff_odd/_c_source_code/build1x64diff.c:441-451 | 64 values of a component are the sums of the differences and the remembered plane, without overflow |
| `RunningDifferences.Build` | JPEG RTL IP C模型及行编码测试汇总/linediff_odd/_c_source_code/build1x64diff.c:434-580 | from a file the extractor wrote the builder works out exactly the lines that were coded, and converts them |
| `RunningDifferences.ThereAndBack` | JPEG RTL IP C模型及行编码测试汇总/linediff_odd/_c_source_code/build1x64diff.c:434-580 | from picture to picture, for whole chunks, up to 1920 columns and any number of lines: nothing but the colour conversion touches a sample, and greys are exact |
| `TilePlacement.Padding` | JPEG RTL IP C模型及行编码测试汇总/normal/_c_source_code/build.c:51-67 | the padding leads to whole tiles of side 8 or 16 |
| `TilePlacement.LeastPadding` | JPEG RTL IP C模型及行编码测试汇总/normal/_c_source_code/build.c:123-137 | and no smaller padding does |
| `TilePlacement.RoundsUp` | JPEG RTL IP C模型及行编码测试汇总/normal/_c_source_code/build.c:51-67 | a side with its padding is the least multiple of the tile side that covers it |
| `TilePlacement.InsideTile` | JPEG RTL IP C模型及行编码测试汇总/normal/_c_source_code/build.c:391-432 | the comparisons with the padding pick exactly the columns and lines inside the image |
| `TilePlacement.OneTile` | JPEG RTL IP C模型及行编码测试汇总/normal/_c_source_code/build.c:391-432 | the columns of a band belong to exactly one tile each |
| `TilePlacement.OneBand` | JPEG RTL IP C模型及行编码测试汇总/normal/_c_source_code/build.c:391-432 | and its lines to exactly one band |
| `TilePlacement.PlaceRow` | JPEG RTL IP C模型及行编码测试汇总/normal/_c_source_code/build.c:363-445 | a row of a tile is converted and stored from the write pointer on: its visible columns, each once, or nothing below the image |
| `TilePlacement.PlaceTile` | JPEG RTL IP C模型及行编码测试汇总/normal/_c_source_code/build.c:353-454 | each visible row starts at 3(row*xsize+column) of the band, its pixels are stored once, and the tile changes nothing else |
| `TilePlacement.PlaceBand` | JPEG RTL IP C模型及行编码测试汇总/normal/_c_source_code/build.c:353-455 | every visible pixel of a band is stored exactly once, out of the tile that covers it, and no pixel below the image at all |
| `TilePlacement.BuildImage` | JPEG RTL IP C模型及行编码测试汇总/normal/_c_source_code/build.c:353-460 | for all positive sizes and five formats, with tiles 16 columns wide except formats 2 and 5 with 8, and 16 lines high except formats 2 and 4 with 8: the file has the least multiple of that height of lines that covers the image, and every pixel comes from the tile that covers it |

## Left out

- RoundTrip.CodecRoundTrip: covers scans whose symbols the tables list, and tables whose last definition lists all symbols of earlier ones; what becomes of other scans is not covered.
- EntropyDecoder.Decoder.DecodeScan: covers the encoder's output; of other scans only the walk through a block is described (`AcWalk`).
- TableGenerator.TabGen.Install: a definition is given as its counts and symbols; byte counting within a DHT segment (`tabgen.c:150-169`) is not modelled, and a table has distinct legal symbols, at most 162 or 12 of them, for destination 0 or 1.
- BlockCoding.SamplesNear: the bound adds up the worst cases of every rounding and is far above what blocks usually suffer.
- HardwareTables.HardwareFindsSymbol: the reader of the MIN memory is not part of the repository; it is taken to compare with the field, and with ones above it for lengths over 8.
- RunningDifferences.Build: for files the extractor wrote; for other files the sums could leave 32 bits.
- TilePlacement.BuildImage: takes the samples of each tile after reading and up-sampling (`build.c:147-352`) as given.
- CompleteTables.ScanUsesLegal: whether a smaller set of listed symbols is enough for a scan depends on the scan and is left to `ScanUses`.
- Files are sequences of numbers or bytes with a read position; the text formats between the programs, the register files, debug dumps and usage messages are not modelled.
- `bits |= x` is modelled as an addition to a word whose low bits are clear, which is proved where it is used.
- The other markers of `tabgen.c` (SOF, APPn, DQT, DRI) only skip or print.
- The copies of the codec in other directories, the subsampling formats and the shifted-difference variants repeat the same logic or add a constant shift.
- The open-loop line programs (`build1x64.c`, `build_round.c`) drift by design and have no round trip.
- Cosines.InverseIsCosineTransform: like the forward bound, a sum of worst cases over all coefficients in range, few of which are those of pictures.
- The real cosines enter as any numbers that satisfy the half-angle equations; that such numbers exist is not proved.
