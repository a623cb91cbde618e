# A baseline JPEG encoder back end, in Dafny

This project models the integer, bit-exact back end of a small baseline
JPEG encoder (ITU-T T.81, sequential DCT, Huffman coding) written in C++,
with a Python notebook variant. Everything the back end does is written as
pure functions over immutable datatypes, and the properties it promises
are proved about those functions.

The modules follow the source:

- `Bits`, `Stuffing` (bits.dfy, stuffing.dfy): bit strings, their values
  (most significant bit first), packing into bytes, and the 0xFF/0x00 byte
  stuffing of section F.1.2.3 of ITU-T T.81.
- `BitStream` (bitstr.dfy): the memory sink of `3rdparty/bitstr.cpp`
  (`mbitstr_getc/putc/seek/tell/flush`) and the bit layer on top of it
  (`bitstr_putb`, `bitstr_put_bits`, `bitstr_getb`, `bitstr_get_bits`,
  `bitstr_flush`). The writer state is the record `Stream(bitbuf, bitnum,
  sink)`, and `Ideal(s, bits)` is what a writer that has not failed holds
  after writing `bits`.
- `Category` (category.dfy): `categoryEncode`, with Table F.1 and the
  EXTEND procedure of Figure F.12 of ITU-T T.81 as independent
  definitions.
- `HuffmanTable` (huffman_table.dfy): the four standard tables of section
  K.3 of ITU-T T.81 and `initCodeList`, the canonical code construction of
  Figures C.1 and C.2.
- `Entropy` (entropy.dfy): `huffmanEncode` and `encodeBlock`: DC
  difference coding, the run-length loop over the AC coefficients with its
  4/4/16-bit `RLEITEM` fields, the end-of-block rule, and the bits emitted.
- `Decodable` (decodable.dfy): a block's bits determine the block. This
  is the partner of `Entropy`.
- `Scan` (scan.dfy): `HuffmanCodec::encode`: the MCU grid and block order
  of each subsampling format, the DC predictors, and the length it
  returns.
- `Quant` (quant.dfy): `JpegQuant`: the section K.1 tables, quality
  scaling, `quantEncode8x8`, the constructor and `setQuality`.
- `JpegIO` (jpeg_io.dfy): `writeToFile` as a function that returns the
  bytes of the file. A marker-segment reader is its partner.
- `PythonEncoder` (python_variant.dfy): `get_quant_table` and
  `zigzag_scan` of the Python notebook.
- `Cli` (cli.dfy): `parseArguments` of the command-line tool.
- `Wrappers` (wrappers.dfy): `Option` and `Result`.

Bytes are the subset type `Byte` (0..255). Machine words are written out
explicitly: `bitbuf` is reduced modulo 2^32, `fputc` keeps the low 8 bits,
and C division truncates toward zero (`TruncDiv`). Code lists are maps
from symbol to `CodeEntry(depth, code)`. A symbol missing from the map
stands for an entry the C code never initialises, so lookups of missing
symbols are excluded by preconditions.

## Model

| member | source | states |
|---|---|---|
| BitStream.Getc | 3rdparty/bitstr.cpp:37-42 | Before the end of the buffer, returns the byte at the cursor and advances the cursor by one. At the end, returns EOF and leaves the sink as it was. |
| BitStream.Putc | 3rdparty/bitstr.cpp:43-48 | With room, stores the low 8 bits of `c` at the cursor and advances the cursor by exactly one; every other byte is unchanged. With a full buffer, returns EOF and writes nothing. |
| BitStream.Seek | 3rdparty/bitstr.cpp:50-74 | The `long` target is narrowed to the `int newpos`, keeping its low 32 bits. The seek succeeds exactly when that `newpos` lies in [0, memlen]. Success moves the cursor there and discards the pending bits. Failure returns EOF and changes nothing. The `long` sum must not overflow. |
| BitStream.SeekTarget | 3rdparty/bitstr.cpp:52-66 | `newpos` lies in the `int` range and agrees with the `long` target modulo 2^32. |
| BitStream.SeekInRange | 3rdparty/bitstr.cpp:52-73 | When the target fits in an `int`, it is used as computed, and the seek succeeds exactly when it lies in [0, memlen]. |
| BitStream.SeekWraps | 3rdparty/bitstr.cpp:52-73 | A target outside the `int` range wraps. Seeking to 2^32 from the start lands on byte 0, and moving 2^32 + 1 from the cursor moves one byte forward. |
| BitStream.Tell | 3rdparty/bitstr.cpp:76-81 | Returns EOF or a cursor within [0, memlen]. Any result other than EOF is the cursor itself. |
| BitStream.TellCounts | 3rdparty/bitstr.cpp:37-81 | For a cursor within the buffer, `tell` never reports EOF. It moves by one for each byte `putc` or `getc` transfers, and stays put when they report EOF. |
| BitStream.PutcThenGetc | 3rdparty/bitstr.cpp:43-81 | A byte stored by `putc` is what `getc` returns after seeking back to it, and `tell` is one past it. |
| BitStream.Putb | 3rdparty/bitstr.cpp:249-273 | Returns the bit or EOF. Below the 8th bit it only counts the bit and writes nothing to the sink. |
| BitStream.PutbCompletesByte | 3rdparty/bitstr.cpp:254-270 | The 8th bit stores the byte the 8 bits form (most significant first) in stuffed form, and the register becomes empty. |
| BitStream.PutcStuffed | 3rdparty/bitstr.cpp:258-266 | Storing one data byte appends the byte, followed by 0x00 exactly when the byte is 0xFF. |
| BitStream.PutbFull | 3rdparty/bitstr.cpp:258-261 | When the completed byte cannot be stored, `putb` returns EOF, leaves `bitnum` at 8 and writes nothing. |
| BitStream.StuckWriterEmitsNothing | 3rdparty/bitstr.cpp:254-261 | Once `bitnum` has passed 7 without a reset, no later bit ever reaches the sink, and `bitnum` keeps growing. |
| BitStream.PutBitSeqIdeal | 3rdparty/bitstr.cpp:249-273 | A healthy writer with room that writes more bits is the healthy writer of the longer bit string: its complete bytes are stored, stuffed, and the rest wait in the register. |
| BitStream.PutBitsIdeal | 3rdparty/bitstr.cpp:284-293 | `put_bits(v, n)` appends the low `n` bits of `v`, most significant first; for `n = 0` it appends nothing. |
| BitStream.Flush | 3rdparty/bitstr.cpp:295-308 | Always returns 0, and a byte-aligned stream is left unchanged. |
| BitStream.FlushPads | 3rdparty/bitstr.cpp:295-300 | Flushing writes `8 - bitnum` copies of the flag bit, or nothing when no bit is pending. |
| BitStream.FlushIdeal | 3rdparty/bitstr.cpp:295-300 | After a flush no bit is pending, and every written bit plus the padding is stored. |
| BitStream.Refill | 3rdparty/bitstr.cpp:229-232 | The refill loop returns EOF or a byte other than 0xFF, and it never changes the buffer. |
| BitStream.RefillSkipsRun | 3rdparty/bitstr.cpp:229-232 | The refill loop skips a run of 0xFF bytes, returns the byte that ends the run and reports whether the run was non-empty. |
| BitStream.Getb | 3rdparty/bitstr.cpp:221-247 | The result is EOF, 0 or 1. After EOF, `bitnum` is 8, the register holds all ones and the cursor is at the end of the buffer. |
| BitStream.DrainedGetb | 3rdparty/bitstr.cpp:227-246 | After EOF, each `getb` returns a 1 bit of the all-ones register or EOF again, and the reader stays past the end. |
| BitStream.GetBitsValue | 3rdparty/bitstr.cpp:275-282 | When none of the `n` calls to `getb` reports EOF, `get_bits` returns the accumulator shifted by `n` plus the value of the bits read, most significant first. It leaves the stream where those `n` calls leave it. |
| BitStream.GetBitsEof | 3rdparty/bitstr.cpp:275-282 | Once one of the `getb` calls reports EOF, `get_bits` returns -1, whatever comes after. |
| BitStream.GetBitSeqPrefix | 3rdparty/bitstr.cpp:221-247 | The first `n` results of a longer run of `getb` calls are those of `n` calls. |
| BitStream.PutGetBits | 3rdparty/bitstr.cpp:221-300 | Round trip: writing `v` with `put_bits(v, n)` for `n <= 31` into a fresh memory stream with room, then flushing, lets `get_bits(n)` read `v` back from the start of the buffer. |
| BitStream.GetbAfterRun | 3rdparty/bitstr.cpp:227-246 | A run of 0xFF bytes closed by 0x00 is read as one 0xFF data byte. A run closed by any other byte yields that byte. The first bit returned is the top bit of the data byte. |
| BitStream.ReadStuffed | 3rdparty/bitstr.cpp:221-247 | Reading a stuffed byte string from a byte boundary yields the bits of the unstuffed bytes and consumes exactly the stuffed form. |
| BitStream.WriteFlushReadBack | 3rdparty/bitstr.cpp:221-300 | Round trip: bits written by `putb` into a fresh memory stream with room, then padded by `flush`, are read back by `getb`, with stuffing and de-stuffing included. |
| Bits.BitsOfMinusOne | 3rdparty/bitstr.cpp:300 | `put_bits(-1, n)` pads with `n` one bits, because every bit of the two's complement of -1 is set. |
| Category.CategoryEncode | src/HuffmanCodec.cpp:118-134 | The size is at most 16. It is 0 exactly when the coefficient is 0. A non-negative coefficient keeps its own bits. |
| Category.CategoryIsBitLength | src/HuffmanCodec.cpp:118-130 | The size equals the bit length of the magnitude, an independent definition of Table F.1. |
| Category.CategoryBounds | src/HuffmanCodec.cpp:118-130 | A non-zero magnitude lies in [2^(size-1), 2^size). |
| Category.CategorySign | src/HuffmanCodec.cpp:131-133 | A negative coefficient is sent as `2^size - 1 - abs`, whose leading bit is 0. A positive one has leading bit 1. |
| Category.CategoryRoundTrip | src/HuffmanCodec.cpp:118-134 | The value bits fit in `size` bits, and EXTEND recovers the coefficient from them: the coding is invertible given the size. |
| HuffmanTable.Generate | src/HuffmanCodec.cpp:75-83 | The first loop produces as many codes as the counts add up to. |
| HuffmanTable.GenerateSteps | src/HuffmanCodec.cpp:75-83 | Successive codes are canonical. Within a length they are consecutive. At each new length the counter has been doubled once per length passed. |
| HuffmanTable.CodeLengths | src/HuffmanCodec.cpp:75-84 | The k-th code has length d exactly when k falls in the d-th count bucket. |
| HuffmanTable.PrefixFree | src/HuffmanCodec.cpp:75-84 | In a table that meets Kraft's inequality, every code has length 1..16 and no code is a prefix of another. |
| HuffmanTable.AssignSpec | src/HuffmanCodec.cpp:85-89 | The code list holds exactly the listed symbols. Each symbol gets the entry at its last occurrence. |
| HuffmanTable.CodeListPrefixFree | src/HuffmanCodec.cpp:50-90 | Distinct symbols of a table that meets Kraft's inequality get codes that are not prefixes of one another. |
| HuffmanTable.SymbolHasCode | src/HuffmanCodec.cpp:85-89 | Every symbol listed in a table gets a code. |
| HuffmanTable.LuminDcCovered | src/HuffmanCodec.cpp:20-23 | The luminance DC table is well formed and codes every DC category 0..11. |
| HuffmanTable.ChromDcCovered | src/HuffmanCodec.cpp:38-41 | The chrominance DC table is well formed and codes every DC category 0..11. |
| HuffmanTable.LuminAcCovered | src/HuffmanCodec.cpp:6-19 | The luminance AC table is well formed and codes EOB, ZRL and every run 0..15 with every size 1..10. |
| HuffmanTable.ChromAcCovered | src/HuffmanCodec.cpp:24-37 | The chrominance AC table is well formed and codes EOB, ZRL and every run 0..15 with every size 1..10. |
| Decodable.TablePrefixCode | src/HuffmanCodec.cpp:50-90 | `initCodeList` builds a prefix code from every well-formed table that meets Kraft's inequality. |
| Decodable.StandardPrefixCodes | src/HuffmanCodec.cpp:6-48 | The four code lists the constructor builds from the standard tables are prefix codes. |
| Entropy.LoopEobSignificant | src/HuffmanCodec.cpp:159-176 | The loop's `eob` is the position after the last stored item whose size is non-zero. |
| Entropy.AcItemsShape | src/HuffmanCodec.cpp:159-183 | The items have runs of at most 15 and sizes of at most 15. There are 1 to 63 of them. Only the last can be an end of block, and it is one exactly when the last coefficient is 0. |
| Entropy.AcRoundTrip | src/HuffmanCodec.cpp:159-183 | The run-length items, expanded by the reference decoder, give back exactly the 63 AC coefficients, whether or not an end-of-block item replaced the trailing zeros. |
| Entropy.EncodeBlock | src/HuffmanCodec.cpp:136-191 | The new DC predictor is the block's DC coefficient. |
| Entropy.EncodeBlockIdeal | src/HuffmanCodec.cpp:136-191 | On a healthy writer with room, `encodeBlock` appends the DC code and value bits, then each item's symbol code and `codesize` value bits, in item order. |
| Entropy.BlockFieldsEmittable | src/HuffmanCodec.cpp:153-154 | Every `put_bits` call of `encodeBlock` on a codable block has a length in [0, 32]. |
| Decodable.BlockUnique | src/HuffmanCodec.cpp:136-191 | Given the predictor, the bits of a block determine the block and where its bits end. No two blocks share their bits, and no block's bits are a proper prefix of another's. |
| Scan.DivUpCeiling | src/HuffmanCodec.cpp:193 | `div_up(a, b)` is the least number of `b`-wide pieces that cover `a`. |
| Scan.GridCovers | src/HuffmanCodec.cpp:203-226 | The number of iterations is columns times rows of the MCU grid, and the grid is the smallest that covers the image. |
| Scan.OrderOnce | src/HuffmanCodec.cpp:203-226 | Every block the loop visits is one the iterations own, and it is visited at its own position, so no block is visited twice. |
| Scan.OrderPosition | src/HuffmanCodec.cpp:203-226 | Every block the iterations own is visited. |
| Scan.NewCodec | src/HuffmanCodec.cpp:43-48 | The constructor's four code lists are prefix codes that cover every symbol a baseline block needs. |
| Scan.BlockCodable | src/HuffmanCodec.cpp:136-191 | With those code lists, every block whose DC coefficient differs from the predictor by less than 2048 and whose AC coefficients are below 1024 in magnitude finds a code for each symbol it uses. |
| Scan.FarDcCodable | src/HuffmanCodec.cpp:136-154 | DC values outside the baseline range [-1024, 1023] are coded when the difference stays small: with predictor 1000, a block with DC 1500 and no AC coefficients is codable. |
| Scan.EncodeRefsIdeal | src/HuffmanCodec.cpp:201-226 | On a healthy writer with room, the block loop appends the bits of the blocks in visiting order, each coded against its component's previous DC. |
| Scan.Encode | src/HuffmanCodec.cpp:195-231 | `encode` throws exactly when the format is not 4:4:4, 4:2:0 or 4:2:2. |
| Scan.EncodeIdeal | src/HuffmanCodec.cpp:195-231 | On a fresh memory stream with room, the stream holds the bits of the scan, and the result is its `bitstr_tell`. |
| Scan.EncodeDropsPending | src/HuffmanCodec.cpp:195-231 | As written, the returned length covers only the complete bytes. The last `|bits| mod 8` bits of the scan lie outside it. |
| Scan.EncodeFlushed | src/HuffmanCodec.cpp:92-231 | The corrected `encode` (flush, then tell) throws exactly for unsupported formats. |
| Scan.EncodeFlushedKeepsAll | src/HuffmanCodec.cpp:92-231 | With the flush before `tell`, the reported bytes hold every bit of the scan, then the 1-bit padding. |
| Scan.ScanUnique | src/HuffmanCodec.cpp:195-231 | The scan determines the image. Two sets of planes whose scans coincide agree on every block the scan covers. |
| Quant.ClampQuality | src/JpegQuant.cpp:50-51 | The quality becomes a value in [1, 100]. It is unchanged inside the range, 1 below it and 100 above it. |
| Quant.ScaleFactor | src/JpegQuant.cpp:59-64 | The scale lies in [0, 5000]. It is 100 at quality 50 and 0 at quality 100. |
| Quant.ScaleEntry | src/JpegQuant.cpp:68-74 | Every scaled entry lies in [1, 32767], and in [1, 255] when `force_baseline` is set. |
| Quant.ScaledQuality | src/JpegQuant.cpp:47-78 | The table has 64 entries in [1, 32767], and in [1, 255] with `force_baseline`. |
| Quant.QualityClamped | src/JpegQuant.cpp:50-51 | A quality of 0 or below gives the table of quality 1. A quality above 100 gives the table of quality 100. |
| Quant.QualityFiftyIsBase | src/JpegQuant.cpp:10-78 | At quality 50 the table is the sample table itself. |
| Quant.QualityHundredIsOnes | src/JpegQuant.cpp:53-74 | At quality 100 every entry is 1. |
| Quant.ScaleMonotone | src/JpegQuant.cpp:59-64 | A higher quality never gives a larger scale. |
| Quant.QualityMonotone | src/JpegQuant.cpp:47-78 | A higher quality never gives a larger entry anywhere in the table. |
| Quant.QuantEncode8x8 | src/JpegQuant.cpp:80-85 | Each of the 64 coefficients of the block is divided by the table entry of the same index, with C division. Nothing outside the block changes. |
| Quant.QuantQuotients | src/JpegQuant.cpp:80-85 | Each quantised coefficient is the quotient rounded toward zero: the remainder has the dividend's sign and is smaller than the divisor. |
| Quant.QuantByOnes | src/JpegQuant.cpp:80-85 | Dividing by a table of ones changes nothing. |
| Quant.Quantize | src/JpegQuant.cpp:80-85 | The block is divided, rounding toward zero, by the luminance or the chrominance table. Nothing else changes. |
| Quant.NewQuantizer | src/JpegQuant.cpp:31-35 | The constructor stores the quality and the tables of that quality, and leaves `force_baseline` unset. When the indeterminate member happens to equal the argument flag, the object is consistent: its tables are those its stored settings describe. |
| Quant.SetQuality | src/JpegQuant.cpp:41-45 | As written, `setQuality` never changes the stored quality or flag, and it is a no-op when both arguments equal them. |
| Quant.SetQualityKeepsStaleTables | src/JpegQuant.cpp:31-45 | Quality 50, then 75, then back to 50 leaves the quality-75 tables (entry 0 is 8 instead of 16). |
| Quant.SetQualityStored | src/JpegQuant.cpp:41-45 | The corrected `setQuality` stores its arguments and keeps the tables consistent with them. |
| Quant.SetQualityStoredTables | src/JpegQuant.cpp:41-45 | After the corrected `setQuality`, the tables are those of the requested quality and flag, whatever came before. |
| JpegIO.Be16RoundTrip | src/JpegIO.cpp:29-30 | A length below 65536, written high byte first, reads back as itself. |
| JpegIO.WriteToFile | src/JpegIO.cpp:9-120 | `writeToFile` throws exactly for an unsupported format, after 150 bytes. A complete file starts with SOI and ends with EOI. |
| JpegIO.ParseSerialize | src/JpegIO.cpp:24-107 | Reading segments through their length fields undoes writing them. |
| JpegIO.FileParses | src/JpegIO.cpp:19-114 | After SOI, the file reads back, through its length fields, as DQT 0, DQT 1, SOF0, DHT AC 0/1 (tags 0x10/0x11), DHT DC 0/1 and SOS, in that order, followed by exactly `dataLength` bytes of the buffer and EOI. |
| JpegIO.FileSize | src/JpegIO.cpp:19-114 | The file has 2 + 138 + 19 + the four DHT segments (2 + their length each) + 14 + `dataLength` + 2 bytes. |
| JpegIO.ThrowsAfterHead | src/JpegIO.cpp:19-63 | For an unsupported format, the bytes written before the throw are the first 150 bytes of the file of any supported format: SOI, both DQTs and the first 10 bytes of SOF0. |
| JpegIO.SofDimensions | src/JpegIO.cpp:37-48 | The SOF0 body has precision 8 and 3 components. Its height and width fields hold `h` and `w` modulo 65536. |
| JpegIO.SamplingMatchesUnits | src/JpegIO.cpp:51-60 | The luminance sampling factors in the frame header agree with the MCU that `encode` walks: horizontal factor = MCU width / 8, vertical factor = MCU height / 8, product = luminance blocks per MCU. |
| JpegIO.DqtRoundTrip | src/JpegIO.cpp:25-35 | A table of byte-sized entries, written in zig-zag order through the index permutation, reads back in natural order. |
| JpegIO.DqtTruncatesWideEntries | src/JpegIO.cpp:32-34 | As written, the quality-1 luminance table without `force_baseline` has entry 800, and it reads back from the DQT as 32. |
| JpegIO.DqtWideRoundTrip | src/JpegIO.cpp:25-35 | The corrected DQT body uses 16-bit entries when some entry exceeds 255, and then every table with entries below 65536 reads back exactly. |
| JpegIO.QuantizerTablesFit | src/JpegQuant.cpp:72-75 | Both tables of any quantizer state read back exactly from the corrected DQT bodies. |
| PythonEncoder.PyScale | python/jpeg_encoder.py:251-254 | The scale is `5000 // q` for 1 <= q < 50 and at least 200 for q <= 0, where the `200 - 2q` branch applies. It is never negative. |
| PythonEncoder.PyEntry | python/jpeg_encoder.py:258-261 | Every entry is clamped into [1, 255]. |
| PythonEncoder.GetQuantTable | python/jpeg_encoder.py:249-263 | It fails exactly for q > 100, where `scale` is unbound. Otherwise the table has the input's length and entries in [1, 255]. |
| PythonEncoder.PyQualityFifty | python/jpeg_encoder.py:249-263 | At q = 50 a table with entries in [1, 255] is returned unchanged. |
| PythonEncoder.PyAgreesWithBaseline | python/jpeg_encoder.py:249-263 | For 1 <= q <= 100 the Python scaling of a sample table equals the C++ scaling with `force_baseline`. |
| PythonEncoder.QcIsStandard | python/jpeg_encoder.py:240-247 | The Python chrominance table equals the C++ one. |
| PythonEncoder.QyDiffersFromStandard | python/jpeg_encoder.py:231-238 | The Python luminance table differs from the sample table only at index 13, which holds 48 instead of 58. At quality 50 the tables differ there too. |
| PythonEncoder.QyStandardAgrees | python/jpeg_encoder.py:249-263 | With the sample luminance table, the Python tables equal the C++ baseline tables at every quality in [1, 100]. |
| PythonEncoder.PyQualityZero | python/jpeg_encoder.py:251-254 | At q = 0 Python scales by 200, so chrominance entry 0 becomes 34. At q = 1 it becomes 255, and C++ maps q = 0 to 255 as well. |
| PythonEncoder.ZigzagScan | python/jpeg_encoder.py:298-303 | The scan of an n-by-n block has n*n elements. |
| PythonEncoder.ScanCovers | python/jpeg_encoder.py:298-303 | Every position of the block appears in the order, and the scan holds that position's value at the same index. |
| PythonEncoder.ZigzagGrid | python/jpeg_encoder.py:300-301 | The order lists n*n positions inside the grid and covers every position. It is strictly sorted by the key: anti-diagonal first, then increasing column on even diagonals and decreasing column on odd ones. |
| PythonEncoder.SortedDistinct | python/jpeg_encoder.py:300-301 | A strictly sorted order holds no position twice. |
| PythonEncoder.ZigzagStart | python/jpeg_encoder.py:300-301 | For n = 8 the order begins (0,0), (0,1), (1,0), (2,0), (1,1), (0,2). |
| PythonEncoder.ZigzagIndexPermutation | python/jpeg_encoder.py:298-303 | The 8-by-8 order, as row-major indices, is a permutation of 0..63, which is what the DQT writer needs of its index table. |
| Cli.ParseArguments | src/encoder.cpp:16-84 | A successful parse has a non-empty input name and a format among 444, 420 and 422. |
| Cli.Validate | src/encoder.cpp:49-83 | The checks after the loop succeed only with a non-empty input name and a known format. |
| Cli.CollectRender | src/encoder.cpp:27-47 | The loop reads a command line of options and values, plus plain arguments, item by item. |
| Cli.FoldOptions | src/encoder.cpp:27-47 | With at most one positional argument the loop succeeds, and for each name it keeps the last value. |
| Cli.LastWins | src/encoder.cpp:38 | A later value of an option replaces an earlier one. |
| Cli.ParseItems | src/encoder.cpp:16-84 | Parsing succeeds exactly when `-i` and `-o` are present, `-i` is non-empty, `-q` (if any) converts and `-f` (if any) is a known format. The result takes the last value of each option, with defaults 50 and 444. Unknown options are accepted, and no range check is made on the quality. |
| Cli.MissingValue | src/encoder.cpp:29-36 | An option as the last argument fails with "Option name requires a value.". |
| Cli.TwoPositionals | src/encoder.cpp:42-44 | A second positional argument after a non-empty first one fails with "Multiple input file names specified.". |

## Left out

- The file-backed bit stream (`fbitstr_*`) and the type-tag dispatch of the `bitstr_*` wrappers: the model has only the memory sink. A null stream is never passed by the encoder.
- `fopen`, `fputc`, `fwrite`, `fflush` and `fclose` in `writeToFile`: the model returns the bytes that reach the file. `malloc` and `free` in `HuffmanCodec`: the buffer is a sequence of the same length.
- `JpegZigzag::ZIGZAG_INDEX`: include/JpegZigzag.hpp is not part of this model. The table is a parameter required to be a permutation of 0..63. `PythonEncoder.ZigzagIndex` shows one such permutation.
- `std::stoi` is the parameter `stoi: string -> Option<int>`, where `None` means it throws. `main` (file I/O) is left out.
- The constructor of `JpegQuant` never assigns `force_baseline`. Its indeterminate value is the parameter `unset` of `Quant.NewQuantizer`.
- `JpegColor`, `JpegEncoder` (colour conversion, DCT stub, pipeline, floating-point ratio), the image container, the Python bindings and the notebook's numpy cells, including its floating-point `round()` quantisation: none of these is integer back-end logic.
- `bitstr_put_bits` with `n = 0` shifts a 32-bit value by 32, which is undefined in C. The model treats that call as emitting nothing, which is what `flush` on an aligned stream needs.
- BitStream.Putb: only the bits 0 and 1 are modelled. `bitstr_putb` ORs any `int` into the register, but its only caller, `bitstr_put_bits`, passes `buf >> 31` of an unsigned 32-bit value, which is 0 or 1.
- BitStream.PutBits: requires 0 <= n <= 32, because a shift by `32 - n` outside [0, 32] is undefined.
- BitStream.GetBits: requires 0 <= n <= 31, the bits an `int` accumulator holds without overflow. The shift of a negative accumulator after EOF is taken as multiplication by 2.
- BitStream.Seek: requires the `long` offset and the `long` sum `curpos + offset` or `memlen + offset` not to overflow, which is undefined in C. The narrowing to `int` is modelled as the two's complement wrap, which C++20 defines and earlier standards leave to the implementation. `memlen` and `curpos` are not bounded to the `int` range; `BitStream.PutcThenGetc` requires a buffer of at most 2^31 - 1 bytes, as the `int memlen` holds.
- BitStream.Flush: requires `bitnum <= 8`. A writer stuck after a failed `putc` would make the pad length negative, which the C code does not handle.
- Category.CategoryRoundTrip: proved for magnitudes below 2^16, the bits `categoryEncode` inspects. `abs(INT_MIN)` is not modelled.
- Entropy.AcRoundTrip: proved for coefficients below 2^15 in magnitude. Beyond that the 4-bit `codesize` field truncates the category (modelled by `Entropy.Truncate`), and no round trip holds.
- Scan.BlockCodable: requires AC coefficients below 1024 in magnitude and a DC difference `block[0] - dc` below 2048 in magnitude; `Scan.Encode`, `Scan.EncodeIdeal`, `Scan.EncodeRefsIdeal` and `Scan.ScanUnique` require this of every block along the visiting order (`Scan.RefsReady`). Larger values select symbols the four standard tables do not list (DC categories above 11, AC sizes above 10), whose code-list entries the constructor leaves uninitialised.
- Scan.EncodeIdeal: requires a buffer with room for the stuffed scan. The `w * h * 2` bytes `encode` allocates are not shown to suffice, and the `int` overflow of `w * h` is not modelled.
- JpegIO.WriteToFile: the tables are sequences. The C arrays are assumed to hold 64 quantiser entries and every listed Huffman symbol.
- PythonEncoder.GetQuantTable: numpy's fixed-width integer overflow is not modelled, and the `print` for q > 100 is left out.

## Findings

| source | as written | input that shows it | evidently intended | confidence | as-written member | corrected member |
|---|---|---|---|---|---|---|
| src/HuffmanCodec.cpp:92-230 | `encode` returns `bitstr_tell` before the pad flush, which only the destructor performs, after `writeToFile` has used the length | a single all-zero 8x8 block in 4:4:4: its scan is 14 bits, `encode` reports 1 byte, and the last 6 bits are never written to the file | flush with 1 bits before `bitstr_tell`, so that the reported bytes hold the whole scan | not executed | Scan.EncodeDropsPending | Scan.EncodeFlushedKeepsAll |
| src/JpegQuant.cpp:41-45 | `setQuality` rebuilds the tables but never stores `quality` or `force_baseline`, so the early-return test compares against stale members | construct at 50 (with `force_baseline` holding 0), then call `setQuality(75, false)`, then `setQuality(50, false)`: the quality-75 tables stay | store both arguments, so that the tables always match the stored settings | not executed | Quant.SetQualityKeepsStaleTables | Quant.SetQualityStoredTables |
| python/jpeg_encoder.py:232 | `QY[1][5]` is 48 | `get_quant_table(QY, 50)[1][5]` is 48, where section K.1 of ITU-T T.81 and the C++ table have 58 | 58, the section K.1 value | not executed | PythonEncoder.QyDiffersFromStandard | PythonEncoder.QyStandardAgrees |
| src/JpegIO.cpp:32-34 | DQT entries are written as one byte with precision 0, so entries above 255 lose their high bits | quality 1 without `force_baseline`: luminance entry 0 is 800 and is read back as 32 | precision 1 with 16-bit entries when some entry exceeds 255 (section B.2.4.1 of ITU-T T.81) | not executed | JpegIO.DqtTruncatesWideEntries | JpegIO.DqtWideRoundTrip |
