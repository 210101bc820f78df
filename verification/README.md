# Verified models of the QR encoder, the cipher and the saved login

This project models three parts of a console plugin in Dafny and proves what they are for.

* **The QR encoder** draws the code a user scans to sign in. The model follows a symbol from bytes to modules:
  Reed-Solomon check bytes over GF(256) (`Gf256`, `QrField`, `ReedSolomon`, `RsCode`, `Rsecc`), blocks and their
  interleaving (`Interleave`, `RawCode`), bit streams (`BitString`, `BitStream`), the zig-zag walk over the free
  modules (`Snake`, `FrameFiller`, `Frames`, `Emit`), masks, format information and the choice of a mask (`Mask`,
  `Format`, `MaskScore`, `MaskRuns`, `MaskChoice`), the tables and the frame of every version (`QrTables`, `Painting`,
  `QrSpec`, `QrAlign`, `QrDrawing`, `Counting`, `QrCapacity`), and the encoder itself (`QrCode`, `QrEncode`). For Micro
  QR: `MicroSpec`, `MicroFit`, `MicroMask`, `MicroCode`, `MicroEncode`. `Reader` and `MicroReader` define an ideal
  reader and prove that it gets back what was encoded; `Bch`, `FormatCode`, `VersionCode`, `Recovery` and `Correction`
  say what it can make of damaged symbols.
* **The cipher**: AES-128 on blocks of a buffer, in place (`AesTables`, `AesField`, `Aes`, `AesState`, `AesKeys`),
  cipher block chaining with a vector that points into the buffer being rewritten (`Cbc`), and a CRC-32 with the
  complements folded into its table (`Crc32`, `CrcBurst`).
* **The saved login**: its plain and encrypted file forms, saving and loading (`Vault`, `AuthConfig`).
* **Laws** say what the definitions of these modules mean, in other terms than theirs: what the walk, the masks, the
  demerits, the frames and the finished symbols look like (`WalkOrder`, `MaskLaws`, `Demerits`, `FrameLaws`,
  `SymbolLaws`, `MicroLaws`), where the substitution table of AES comes from, how fast its rounds spread a change, and
  its published example (`AesSbox`, `AesDiffusion`, `AesVector`), the residue and the check value of the CRC
  (`CrcCheck`), and the files byte by byte (`VaultLaws`).

`Bits`, `Arith` and `Wrappers` are shared. Code that works on buffers is modelled with arrays and classes; every
such method is proved against a function of the old contents, and the laws are proved about those functions.

The main results:

1. The linear feedback register computes the remainder by the generator polynomial; codewords have n consecutive
   roots, are the only words that do, and differ in at least n + 1 places. That no coefficient of a generator is
   zero, on which the code relies silently, is proved from the order of alpha.
2. Every module that is not reserved is visited exactly once, for every frame of width 4n + 1 that reserves column
   6 and the corner, and for every Micro QR frame of odd width. The frames of all forty versions and of Micro QR are
   such frames, and have exactly as many free modules as their codes need bits. Its order is the one of the standard.
3. For every version, level, mask and data the ideal reader recovers data and check codes from the finished symbol,
   in full and in Micro QR. A damaged symbol can be taken for at most one content, within three modules of the format
   information and half of the check bytes of each block.
   In every finished symbol the finder patterns can be seen.
4. The run-length scoring of masks is the one defined on modules, it treats rows and columns alike, and the mask
   returned is the first best one. Masks 0 to 4 are the only patterns that obey their laws.
5. The cipher and its inverse undo each other for every array of round keys; chained encryption in place is undone
   by chained decryption, for any number of blocks and despite the aliasing. The substitution table is the affine map
   of the field's inverses, and two rounds spread a change of one byte over the whole block.
6. The CRC is the one of RFC 1952, with its residue, and detects every burst of at most 32 bits.
7. A saved login is loaded back. A string survives if and only if it is terminated inside its buffer, and an
   encrypted file is accepted if and only if it is one that encryption can have written.

## Conventions

* Bytes and words are naturals with a bound, and `^` is the recursive `Bits.Xor`, proved equal to the machine's on
  bytes, and on wider words to be done byte by byte.
* A pointer is an array and an offset. NULL is `None`. Several methods have a ghost result that names the mask chosen.
* The loops of one function of the source are sometimes methods of their own, so that each has its own invariant.
  `Next`, `Resume`, `Advance` and `Move` together are `FrameFiller_next`; `Resume` holds its recursion.
  `CalcRunLength` with step 1 is `Mask_calcRunLengthH` and with step width is `Mask_calcRunLengthV`; `MaskFrame`
  is the macro `MASKMAKER`, with the mask condition as its argument.
* After the filler has returned NULL it is not used again, here as in the program: its position is then outside the
  frame or on column 0.
* `load_auth_config` is declared to return a `bool` but its successful path ends without a `return`, so its value is
  undefined there. The model follows the code and has no result; the flag `HasConfigLoaded` says what happened.
* When a buffer of no blocks is encrypted, the source copies the vector onto itself; the model does the same.
* Four-byte numbers in files have their high byte first, as on the console's processor.
* A loop of `QRspec_createFrame` that goes down three columns at once is three loops in `DrawSeparators`.
* `QRcode_encodeMask` takes the version from the input again after making the byte stream, which may have raised it;
  the argument `settled` is that version. The level is one of the four of its enumeration.
* The key of the saved login is commented in the source as relying on the network address. It does not: the console's
  identifier is written over it (`GatherKeyMaterial`). The sizes of the number, address and identifier are 4, 6 and 16
  bytes, as the console's interface has them.
* `Mask_writeFormatInformation` and the mask functions count the dark modules of the finished symbol without looking at it;
  `BlacksExact` gives the error of that count for any frame.

## Model

| member | source | states |
|---|---|---|
| Bits.XorIsMachineXor | source/libqrencode_rsecc.c:94 | The recursive exclusive or on naturals, with which every `^` of the model is written, is the machine's `^` on bytes. |
| Bits.XorJoin | source/crc32.c:26-27 | On wider words it is done part by part: the parts above and below any place do not influence each other. |
| QrField.AlphaInjective | source/libqrencode_rsecc.c:57-74 | Powers of alpha whose exponents are less than 255 apart differ: no entry of `alpha` is repeated. |
| QrField.LogExists | source/libqrencode_rsecc.c:57-74 | Every nonzero byte is a power of alpha with exponent below 255: `aindex` is total on nonzero bytes. |
| Rsecc.Encoder.InitLookupTable | source/libqrencode_rsecc.c:57-74 | After the loop `alpha[i]` is alpha to the i, `aindex` its inverse, and 255 and 0 stand for each other. |
| Rsecc.Encoder.TimesPower | source/libqrencode_rsecc.c:94-96 | A sum of logarithms modulo 255 looked up in `alpha` is the field product. |
| ReedSolomon.GeneratorIsProduct | source/libqrencode_rsecc.c:83-97 | For every length and every point, the coefficients evaluate to the product of (x + alpha^i), i below the length. |
| ReedSolomon.GeneratorRoots | source/libqrencode_rsecc.c:83-103 | The product that is the generator of length n vanishes at alpha^0 .. alpha^(n-1). |
| ReedSolomon.CoefficientsNonzero | source/libqrencode_rsecc.c:91-96 | No coefficient of any generator of length at most 254 is zero, neither final nor intermediate: the reason the code may skip its zero checks. |
| ReedSolomon.RatioHolds | source/libqrencode_rsecc.c:88-97 | Neighbouring coefficients satisfy the q-binomial recurrence at q = alpha, from which their being nonzero follows. |
| Rsecc.Encoder.MultiplyByFactor | source/libqrencode_rsecc.c:90-96 | The descending in-place update multiplies the polynomial in `g` by (x + alpha^i). |
| Rsecc.Encoder.GeneratorInit | source/libqrencode_rsecc.c:83-103 | Fills one row of the cache with the logarithms of the generator's coefficients and leaves every other cached row valid. |
| Rsecc.Encoder.ShiftIn | source/libqrencode_rsecc.c:130-146 | One turn of the loop, in place: the register becomes its product by x plus the data byte times x^n, reduced by the generator; nothing outside the register changes. |
| Rsecc.Encoder.Encode | source/libqrencode_rsecc.c:105-149 | For data of any length, any state of the caches and any earlier calls the register ends as the remainder `Ecc`; too long a code returns -1 and writes nothing. |
| RsCode.EncodedHasRoots | source/libqrencode_rsecc.c:105-149 | Data followed by its check bytes vanishes at alpha^0 .. alpha^(n-1), for data of any length. |
| RsCode.EccUnique | source/libqrencode_rsecc.c:105-149 | Check bytes make a codeword if and only if they are those the encoder computes. |
| RsCode.WeightBound | source/libqrencode_rsecc.c:43-50 | A nonzero word of at most 255 bytes with n consecutive roots has more than n nonzero bytes, by elimination of one root after the other. |
| RsCode.MinimumDistance | source/libqrencode_rsecc.c:105-149 | Different data of one length give codewords that differ in at least n + 1 bytes, as long as they fit into 255. |
| RsCode.NearestIsSent | source/libqrencode_rsecc.c:105-149 | With at most n / 2 wrong bytes the sent codeword is the one nearest to what was received. |
| RawCode.InitBlock | source/libqrencode_qrencode.c:62-70 | Lays out one block and appends exactly its check bytes to those already written. |
| RawCode.InitBlocks | source/libqrencode_qrencode.c:72-104 | Block i starts where block i - 1 ends, in both codes, and the check code is the concatenation of the blocks' check bytes. |
| RawCode.QRRawCode.constructor | source/libqrencode_qrencode.c:107-149 | The object delivers the interleaved data code and then the interleaved check code of the data it was given. |
| RawCode.QRRawCode.GetCode | source/libqrencode_qrencode.c:157-178 | Delivers the next byte of that sequence, in bounds of every block; 0 without moving when there is none. |
| Interleave.DataTurnOfPos | source/libqrencode_qrencode.c:162-168 | Each call reads a byte inside the data code, and from its place the call can be recovered: no byte is read twice. |
| Interleave.DataPosOfTurn | source/libqrencode_qrencode.c:162-168 | Every byte of every data block is read by exactly the call computed for it: none is left out. |
| Interleave.EccTurnOfPos | source/libqrencode_qrencode.c:169-172 | The same for the check code: in bounds and never twice. |
| Interleave.EccPosOfTurn | source/libqrencode_qrencode.c:169-172 | The same for the check code: none is left out. |
| Interleave.StreamIsColumns | source/libqrencode_qrencode.c:157-168 | The order of the data codes is the one of section 6.6 of ISO/IEC 18004: column by column over all blocks, the last column over the longer blocks only. |
| Interleave.EccStreamIsColumns | source/libqrencode_qrencode.c:169-172 | The check codes come out in the same order. |
| Interleave.UnstreamRestores | source/libqrencode_qrencode.c:157-178 | De-interleaving gives back data code and check code. |
| Snake.WalkIsComplete | source/libqrencode_qrencode.c:298-351 | In a frame that meets the layout conditions the walk visits every unreserved module exactly once and no reserved one. |
| Snake.SkipCorner | source/libqrencode_qrencode.c:316-333 | Where the walk jumps past column 6 it passes over reserved modules only. |
| WalkOrder.WalkInOrder | source/libqrencode_qrencode.c:298-351 | For every frame, full or Micro QR, that meets the layout conditions: the modules come in pairs of columns from the right, upwards and downwards in turn, the right module of a row first, column 6 not counted. |
| WalkOrder.OneFirst | source/libqrencode_qrencode.c:298-351 | Of two modules exactly one comes first in that order: no other order of the same modules obeys it. |
| FrameFiller.FrameFiller.constructor | source/libqrencode_qrencode.c:287-296 | A new filler has the whole walk before it. |
| FrameFiller.FrameFiller.Next | source/libqrencode_qrencode.c:298-351 | Returns the modules of the walk one after the other, in bounds, and NULL when they are used up; its recursion terminates. |
| FrameFiller.FrameFiller.Advance | source/libqrencode_qrencode.c:306-350 | Every step of the walk comes to the module that follows, and what remains of the walk is unchanged when that module is reserved. |
| FrameFiller.FrameFiller.Move | source/libqrencode_qrencode.c:306-341 | The column, row and direction arithmetic goes to the next step of the current pair of columns, or to the first of the next pair, past column 6 and the corner. |
| FrameFiller.WriteKeepsMap | source/libqrencode_qrencode.c:464-484 | Writing a value without the flag 0x80 to an unreserved module does not disturb the walk. |
| Emit.Put | source/libqrencode_qrencode.c:469-471 | One module of the walk takes the value; fails exactly when the walk is used up. |
| Emit.PutCodes | source/libqrencode_qrencode.c:464-485 | The loop over codes writes their bits, most significant first, to the next modules of the walk, with the flag 0x02 for check codes; fails exactly when there are too few modules. |
| BitStream.BitStream.Expand | source/libqrencode_bitstream.c:75-88 | Doubles the buffer and keeps the contents. |
| BitStream.BitStream.MakeRoom | source/libqrencode_bitstream.c:140-143 | The doubling loop terminates with enough room and the same contents. |
| BitStream.BitStream.Append | source/libqrencode_bitstream.c:130-150 | The contents become the concatenation, also when a stream is appended to itself; the argument is unchanged. |
| BitStream.BitStream.AppendNum | source/libqrencode_bitstream.c:152-166 | The contents grow by the number's lowest bits, most significant first. |
| BitStream.BitStream.AppendBytes | source/libqrencode_bitstream.c:168-182 | The contents grow by the bits of the bytes, most significant first. |
| BitStream.BitStream.ToByte | source/libqrencode_bitstream.c:184-223 | Nothing for an empty stream, else the bits packed into bytes and padded with zero bits. |
| BitStream.BytesRoundTrip | source/libqrencode_bitstream.c:168-223 | Bytes appended to an empty stream and packed again are the same bytes. |
| BitString.BitsOfPack | source/libqrencode_bitstream.c:184-223 | Packing whole bytes loses no bit: the bits of the packed bytes are the bits that were packed. |
| BitString.ValueOfNum | source/libqrencode_bitstream.c:90-107 | Reading the written bits as a number gives the number back. |
| Mask.ToggleIsXor | source/libqrencode_mask.c:86-101 | Flipping a module's lowest bit is the `^` of the macro. |
| Mask.MaskFrame | source/libqrencode_mask.c:86-141 | For each of the mask conditions the copy is the masked frame, reserved modules untouched, and the result is its number of dark modules. |
| MaskLaws.MasksObey | source/libqrencode_mask.c:103-126 | Masks 0 to 4 are a chequered board, rows, columns, diagonals, and blocks three wide and two high, each by a law about neighbouring modules. |
| MaskLaws.OnlyMask0 | source/libqrencode_mask.c:103-106 | Only mask 0 is a chequered board that begins with an inverted module. |
| MaskLaws.OnlyMask1 | source/libqrencode_mask.c:108-111 | Only mask 1 inverts every other row. |
| MaskLaws.OnlyMask2 | source/libqrencode_mask.c:113-116 | Only mask 2 inverts one of any three columns next to each other, the first of all among them. |
| MaskLaws.OnlyMask3 | source/libqrencode_mask.c:118-121 | Only mask 3 is constant along diagonals and inverts one of any three modules of a row. |
| MaskLaws.OnlyMask4 | source/libqrencode_mask.c:123-126 | Only mask 4 alternates between such blocks. |
| MaskLaws.Products | source/libqrencode_mask.c:128-136 | Masks 5 and 6 invert where column times row leaves 0, or less than 3, modulo 6. |
| MaskLaws.Mixed | source/libqrencode_mask.c:138-141 | Mask 7 differs from mask 0 exactly where column times row leaves 1 modulo 3. |
| MaskLaws.MasksDiffer | source/libqrencode_mask.c:143-148 | There are eight masks, all invert the module at the origin, and no two are the same. |
| MaskLaws.MicroMasks | source/libqrencode_mmask.c:68-86 | The four masks of Micro QR are masks 1, 4, 6 and 7. |
| Format.WriteFormatInformation | source/libqrencode_mask.c:34-75 | Writes the fifteen bits to both sets of places, touches nothing else, and returns the number of dark modules written. |
| Format.FormatsDistinct | source/libqrencode_qrspec.c:376-388 | The format information of a mask and a level can be decoded to that mask and level. |
| Format.FormatReadBack | source/libqrencode_mask.c:34-75 | What is read from the places beside the upper left finder pattern is the format information that was written. |
| FrameLaws.InnerCopy | source/libqrencode_mask.c:34-75 | One copy of the format information is a path from the upper edge down column 8 and left along row 8, passing over the timing patterns. |
| FrameLaws.OuterCopy | source/libqrencode_mask.c:34-75 | The other goes left from the right edge and then down to the lower edge. |
| MaskRuns.CalcRunLength | source/libqrencode_mask.c:244-298 | For any line of modules (a row, or a column with the width as step) `runLength` is its decomposition into maximal runs, odd indices dark, with a sentinel -1 in front of a dark start. |
| MaskRuns.DecompositionUnique | source/libqrencode_mask.c:244-298 | There is only one such decomposition. |
| MaskScore.CalcN1N3 | source/libqrencode_mask.c:188-219 | The demerit computed from runs is the sum defined on modules: 3 + (L - 5) for each run of L >= 5, and 40 for each dark run that is the middle of a 1:1:3:1:1 pattern beside four units of light or of margin. |
| MaskScore.ScoresPattern | source/libqrencode_mask.c:203-214 | A run that scores is the middle of such a pattern: the sentinel never scores. |
| MaskScore.PatternScores | source/libqrencode_mask.c:203-214 | And the middle of every such pattern is a run that scores. |
| Demerits.LineScore | source/libqrencode_mask.c:188-219 | A line scores one for every five modules alike in a row, two more for every run of at least five, and forty for every finder-like pattern, counted over all places of the line. |
| MaskChoice.CalcN2 | source/libqrencode_mask.c:221-242 | The demerit is 3 for each 2 by 2 block of one colour. |
| Demerits.ThreeForEachBlock | source/libqrencode_mask.c:221-242 | Three times the number of one-coloured blocks, counted by column and row. |
| MaskChoice.EvaluateSymbol | source/libqrencode_mask.c:300-320 | The sum of the block demerit and the line demerits of all rows and columns. |
| Demerits.DemeritTransposed | source/libqrencode_mask.c:300-320 | A symbol and its transpose have the same demerit. |
| Demerits.EveryLineCounts | source/libqrencode_mask.c:300-320 | The demerit is at least that of the blocks, any row and any column together. |
| MaskChoice.DarkPercentRounds | source/libqrencode_mask.c:343-344 | The integer `bratio` is 100 blacks / w2 rounded to the nearest, halves upwards. |
| Demerits.BalanceSteps | source/libqrencode_mask.c:343-345 | The balance costs at least 10k exactly when the share of dark modules is off one half by 5k per cent, without divisions; it is always a multiple of ten. |
| MaskChoice.BlacksExact | source/libqrencode_mask.c:340-344 | The count of dark modules exceeds the true one by the number of format places that were dark before; it is exact if and only if all of them started light. |
| MaskChoice.DemeritBound | source/libqrencode_mask.c:324-352 | For widths up to 177 the demerit is below INT_MAX, so a best mask is always assigned. |
| MaskChoice.MaskMask | source/libqrencode_mask.c:322-357 | Returns the finished symbol of the first mask of least demerit among the eight. |
| QrCode.MakeMask | source/libqrencode_mask.c:164-179 | NULL for a mask that does not exist, else the masked frame with its format information. |
| QrCode.FillSymbol | source/libqrencode_qrencode.c:450-493 | The frame's free modules take data codes, check codes and remainder bits in this order; fails exactly when they are too few. |
| Reader.ReadFinished | source/libqrencode_qrencode.c:450-509 | A reader that only sees which modules are dark, and knows the version's reserved places, recovers mask, level, data code and check code from every finished symbol. |
| QrCode.ReaderFindsData | source/libqrencode_qrencode.c:450-509 | The same for the symbol drawn in any frame that meets the conditions, with the check code of every block. |
| QrTables.TableSpecs | source/libqrencode_qrspec.c:187-256 | For every version and level the tables divide into blocks of the shape the encoder needs, with exactly the data and check bytes of the capacity table, at most 255 in a block. |
| Recovery.LevelsGraded | source/libqrencode_qrspec.c:54-96 | At every version the share of check bytes grows from level to level, about 20, 37, 52 and 63 per cent, and the remainder is less than a byte. |
| Recovery.VersionsGrow | source/libqrencode_qrspec.c:54-96 | Every version holds more data than the smaller ones, at every level. |
| Painting.PutFinderPattern | source/libqrencode_qrspec.c:400-423 | At any place of the frame: exactly the 7 by 7 pattern is drawn, the rest stays as it was. |
| Painting.PutTiming | source/libqrencode_qrspec.c:468-476 | Exactly the alternating modules along row and column are drawn. |
| QrSpec.DrawBase | source/libqrencode_qrspec.c:437-476 | After the timing patterns the frame shows finder patterns, separators, format area and timing patterns, module by module. |
| QrAlign.NearStep | source/libqrencode_qrspec.c:330-345 | One more step of the centre reaches five more places and no place twice. |
| QrAlign.CentresFit | source/libqrencode_qrspec.c:269-279 | In every version the centres end seven modules before the far edge, and their number is the one the code computes. |
| FrameLaws.CentresSpaced | source/libqrencode_qrspec.c:269-279 | The centres are even and evenly spaced, by the least even distance that leaves the first gap no longer than the others; version 32 is the only exception. |
| QrAlign.PutAlignmentPattern | source/libqrencode_qrspec.c:310-346 | Exactly the alignment patterns of the version are drawn, over the timing patterns where they meet. |
| FrameLaws.AlignmentRings | source/libqrencode_qrspec.c:287-346 | Around every crossing of two centres outside the corners the modules are dark but on the first ring. |
| QrDrawing.PutVersion | source/libqrencode_qrspec.c:480-502 | Both copies of the version information are drawn, bit by bit, from version 7 on. |
| SymbolLaws.VersionShown | source/libqrencode_qrspec.c:480-502 | Bit i stands at column i / 3 of one copy and at the transposed place of the other. |
| VersionCode.VersionIsWord | source/libqrencode_qrspec.c:356-369 | The version information of every version is the code word of its number. |
| VersionCode.Recurrence | source/libqrencode_qrspec.c:352-363 | Every bit of a code word is a sum of lower ones, given by the check polynomial of the generator x^12 + x^11 + x^10 + x^9 + x^8 + x^5 + x^2 + 1. |
| VersionCode.VersionsFarApart | source/libqrencode_qrspec.c:356-369 | The informations of any two versions differ in at least eight bits. |
| VersionCode.VersionCorrected | source/libqrencode_qrspec.c:356-369 | With at most three wrong modules every other version is farther away. |
| QrDrawing.CreateFrame | source/libqrencode_qrspec.c:426-507 | For every version the frame is, module by module, the one that version shows. |
| FrameLaws.QrRings | source/libqrencode_qrspec.c:400-453 | In every version each ring around the centre of a finder pattern is dark, but for the second and the fourth, the separator. |
| FrameLaws.FindersFound | source/libqrencode_qrspec.c:400-445 | Rows and columns through the three centres show dark, light, three dark, light, dark, in the frame and in everything that keeps its finder patterns. |
| FrameLaws.FrameSymmetric | source/libqrencode_qrspec.c:426-507 | Every frame is its own transpose, but for the dark module beside the lower left separator. |
| FrameLaws.DarkModule | source/libqrencode_qrspec.c:503-504 | That module is dark. |
| FrameLaws.TimingAlternates | source/libqrencode_qrspec.c:468-476 | Between the separators row 6 alternates, dark first, also where alignment patterns lie on it. |
| QrCapacity.QrLayout | source/libqrencode_qrspec.c:426-507 | The frame of every version meets the conditions under which the walk is complete. |
| QrCapacity.QrFormatPlaces | source/libqrencode_qrspec.c:455-467 | All thirty places of the format information are reserved and light. |
| QrCapacity.CountTaken | source/libqrencode_qrspec.c:426-507 | How many modules a version reserves: nine parts that do not meet, counted one by one. |
| QrCapacity.QrFreeModules | source/libqrencode_qrspec.c:54-96 | For every version the walk is exactly as long as the bits of all codes and the remainder bits of the capacity table. |
| QrEncode.DrawQr | source/libqrencode_qrencode.c:450-493 | From a fresh frame of any version and level to the filled symbol: the filler never returns NULL. |
| QrEncode.EncodeMask | source/libqrencode_qrencode.c:431-517 | Succeeds exactly for a full QR input of a legal version and level with a byte stream and an existing mask; the result is the finished symbol for that mask, for the best one, or the unmasked one. |
| QrEncode.VersionRead | source/libqrencode_qrencode.c:431-517 | For every version, level, mask and data the reader recovers mask, level, data code and check code. |
| SymbolLaws.EncodedRead | source/libqrencode_qrencode.c:431-517 | The same for what the encoder returns: the mask read is the one asked for, or the first of the eight with least demerit. |
| SymbolLaws.FindersSeen | source/libqrencode_qrencode.c:431-517 | In every finished symbol, whatever its data and mask, the three finder patterns show their ratio. |
| SymbolLaws.ReservedKept | source/libqrencode_qrencode.c:450-509 | Function patterns and version information are in the finished symbol as in the frame. |
| SymbolLaws.DrawnAlongWalk | source/libqrencode_qrencode.c:450-493 | The unmasked symbol holds data code, check code and remainder along the walk. |
| SymbolLaws.ValueMarks | source/libqrencode_qrencode.c:464-492 | Bit 1 of these modules tells check code and remainder from data. |
| SymbolLaws.DemeritOfSymbol | source/libqrencode_mask.c:338-346 | In every symbol of the encoder the demerit is that of its blocks and lines, and the balance of its own dark modules. |
| QrEncode.CountIsExact | source/libqrencode_mask.c:340-344 | In every symbol the encoder draws the number of dark modules used in choosing the mask is the true one. |
| FormatCode.FormatsFarApart | source/libqrencode_qrspec.c:376-388 | Any two of the 32 format informations differ in at least seven bits. |
| FormatCode.FormatCorrected | source/libqrencode_qrspec.c:376-388 | With at most three wrong modules the format information that was written is the only one as near. |
| FormatCode.MicroFormatsFarApart | source/libqrencode_mqrspec.c:123-153 | The same distance for the 32 format informations of Micro QR. |
| FormatCode.MicroFormatCorrected | source/libqrencode_mqrspec.c:123-153 | And the same correction. |
| FormatCode.FormatNumber | source/libqrencode_qrspec.c:376-388 | Every entry of the table is the code word of level and mask, level L to H coded 1, 0, 3, 2, added to 0x5412. |
| FormatCode.MicroFormatNumber | source/libqrencode_mqrspec.c:123-153 | The same for Micro QR, with version and level in one number, added to 0x4445. |
| FormatCode.FormatOfZero | source/libqrencode_qrspec.c:376-388 | The words of zero data are these constants. |
| Bch.Recurrence | source/libqrencode_qrspec.c:374-380 | Every bit of a code word is a sum of lower ones, given by the check polynomial of the generator x^10 + x^8 + x^5 + x^4 + x^2 + x + 1. |
| Correction.BlockNearest | source/libqrencode_qrencode.c:72-104 | After de-interleaving, in every block with at most half as many wrong bytes as check bytes the data sent is nearest to what was read. |
| Correction.OnlyOneWithin | source/libqrencode_qrencode.c:72-104 | Only one data code is within correction in all blocks. |
| Correction.SentDecodes | source/libqrencode_qrencode.c:431-517 | The symbol drawn for a version, level, mask and data may be taken for them. |
| Correction.DecodesOnce | source/libqrencode_qrencode.c:431-517 | However damaged, a symbol may be taken for at most one level, mask and data: three modules of format information and half the check bytes of each block are the limits. |
| MicroSpec.DrawFrame | source/libqrencode_mqrspec.c:196-222 | Finder pattern, separator, format area and timing patterns, for every width from 11 on. |
| MicroSpec.CreateFrame | source/libqrencode_mqrspec.c:187-225 | For every width from 11 on the frame is, module by module, finder pattern, separator, format area, timing patterns and zeros. |
| FrameLaws.MicroFinderFound | source/libqrencode_mqrspec.c:187-225 | For every width the row and the column through the centre of the finder pattern show dark, light, three dark, light, dark. |
| FrameLaws.MicroRings | source/libqrencode_mqrspec.c:164-206 | Each ring around its centre is dark, but for the second and the fourth, the separator. |
| MicroLaws.MicroSymmetric | source/libqrencode_mqrspec.c:187-225 | The frame is its own transpose. |
| MicroLaws.MicroTiming | source/libqrencode_mqrspec.c:214-222 | From module 8 on both timing patterns alternate, dark first. |
| MicroLaws.MicroWidths | source/libqrencode_mqrspec.c:51-57 | Each version is two modules wider than the one before. |
| MicroLaws.MicroCapacity | source/libqrencode_mqrspec.c:51-68 | The data bits of every version and level, from 20 to 128. |
| MicroSpec.OnlyFrame | source/libqrencode_mqrspec.c:187-225 | That description determines the frame. |
| MicroFit.MicroLayout | source/libqrencode_mqrspec.c:187-225 | The frame of every odd width meets the conditions under which the walk is complete. |
| MicroFit.FreeModules | source/libqrencode_mqrspec.c:59-68 | It has exactly (width - 1)^2 - 64 free modules, for every odd width from 11 on. |
| MicroFit.DataBitsFit | source/libqrencode_qrencode.c:551-566 | The rule of the odd bits sends exactly the data bits of the capacity, because a data code's last byte is either whole or half. |
| MicroFit.ExactFit | source/libqrencode_mqrspec.c:59-73 | Data bits and check bits together are exactly as many as the free modules. |
| MicroCode.MQRRawCode.constructor | source/libqrencode_qrencode.c:206-240 | One block: the data code and its check bytes. |
| MicroCode.MQRRawCode.GetCode | source/libqrencode_qrencode.c:248-261 | Delivers data codes, then check codes, then 0. |
| MicroCode.PutData | source/libqrencode_qrencode.c:551-566 | The data loop writes the first `bits` bits of the data code to the walk; fails exactly when there are too few modules. |
| MicroCode.PutBoth | source/libqrencode_qrencode.c:551-579 | Both loops run to their ends and no module of the walk is left over. |
| MicroCode.DrawMicro | source/libqrencode_qrencode.c:540-579 | From a fresh frame of any odd width to the filled symbol: the filler never returns NULL. |
| MicroMask.MicroWriteFormat | source/libqrencode_mmask.c:34-52 | Writes the fifteen bits around the finder pattern and touches nothing else. |
| MicroLaws.MicroFormatPath | source/libqrencode_mmask.c:34-52 | The fifteen places are a path of neighbours from the upper right to the lower left of the area. |
| MicroLaws.MicroFormatAll | source/libqrencode_mqrspec.c:207-213 | And they are all the modules that the frame keeps for them. |
| MicroMask.MicroFormatsDistinct | source/libqrencode_mqrspec.c:123-153 | The format information of a mask, version and level can be decoded to these. |
| MicroMask.MicroEvaluate | source/libqrencode_mmask.c:128-146 | Sixteen times the smaller of the two edge sums plus the larger. |
| MicroLaws.SumsCount | source/libqrencode_mmask.c:128-146 | The sums count the dark modules of the lower and the right edge, without the timing patterns. |
| MicroLaws.ScoreOrders | source/libqrencode_mmask.c:128-146 | Up to version 4 one symbol scores less than another exactly when its lighter edge is lighter, or as light and its other edge lighter. |
| MicroLaws.ScoreTransposed | source/libqrencode_mmask.c:128-146 | A symbol and its transpose have the same score. |
| MicroMask.SomeMaskScores | source/libqrencode_mmask.c:54-76 | When the bottom row is free, masks 0 and 1 cannot both score nothing. |
| MicroMask.MicroMaskMask | source/libqrencode_mmask.c:148-178 | The first mask of highest score, through all swaps of the two buffers; NULL only if all four score 0, hence never when the bottom row is free. |
| MicroLaws.ChosenIsDarkest | source/libqrencode_mmask.c:148-178 | Of the mask chosen, in the same terms: no other gives darker edges, and the masks before it give less dark ones. |
| MicroEncode.SymbolKeepsMap | source/libqrencode_qrencode.c:551-579 | Filling the symbol reserves no module and frees none, so the bottom row is still free when the mask is chosen. |
| MicroEncode.MicroMakeMask | source/libqrencode_mmask.c:108-126 | NULL for a mask that does not exist, else the masked frame with its format information. |
| MicroEncode.EncodeMaskMQR | source/libqrencode_qrencode.c:519-605 | For inputs whose version and level have check codes, as every input made for Micro QR does: succeeds exactly for version 1 to 4, a level up to Q, a byte stream and a mask below 4; the result is the finished symbol for the mask given or chosen. |
| MicroLaws.MicroFinderSeen | source/libqrencode_qrencode.c:519-605 | In every finished symbol the finder pattern shows its ratio. |
| MicroReader.MicroCodesBack | source/libqrencode_qrencode.c:540-579 | In a symbol of any odd width the walk, unmasked, carries the data bits and the check code. |
| MicroReader.MicroReadFinished | source/libqrencode_qrencode.c:519-605 | A reader that only sees which modules are dark finds version, level, mask, data bits and check code, for every version, level, mask and data. |
| MicroReader.DataFromBits | source/libqrencode_qrencode.c:556-560 | The data code comes back from its bits if and only if it is whole or the unsent half of its last byte is zero. |
| AesTables.SboxInverse | source/aes.c:79-116 | The two substitution tables undo each other on every byte. |
| AesSbox.SboxIsAffineInverse | source/aes.c:79-97 | Section 5.1.1 of FIPS 197: every entry of `sbox` is the affine map of the inverse of its index in GF(256). |
| AesSbox.InverseIsInverse | source/aes.c:79-97 | These are inverses, for every byte but 0. |
| AesField.XtimeIsProduct | source/aes.c:294-297 | `xtime` is multiplication by x modulo x^8 + x^4 + x^3 + x + 1. |
| AesField.MultiplyIsProduct | source/aes.c:319-336 | The macro multiplies in the field, for every right factor below 32. |
| AesField.MixRow | source/aes.c:300-313 | Two successive column mixings are one mixing by the product of their polynomials modulo x^4 + 1 (section 4.3 of FIPS 197). |
| AesField.MixInverse | source/aes.c:300-362 | The mixing polynomials of the two directions undo each other on every column. |
| Aes.MixedInverse | source/aes.c:300-362 | So do the mixings of all four columns. |
| Aes.ShiftedInverse | source/aes.c:266-406 | The two row shifts undo each other. |
| Aes.SubstitutedInverse | source/aes.c:251-377 | So do the two byte substitutions. |
| AesState.AddRoundKey | source/aes.c:237-247 | In place: the block at the pointer is added to the round's key, the rest of the buffer is unchanged. |
| AesState.SubBytes | source/aes.c:251-261 | In place: every byte of the block is looked up. |
| AesState.InvSubBytes | source/aes.c:367-377 | In place: every byte of the block is looked up in the other table. |
| AesState.ShiftRows | source/aes.c:266-292 | In place: row r moves r columns to the left. |
| AesState.InvShiftRows | source/aes.c:379-406 | In place: row r moves r columns to the right. |
| AesState.SharedSum | source/aes.c:305-311 | The form with the shared sum of all four bytes is the matrix product of section 5.1.3 of FIPS 197. |
| AesState.MixColumns | source/aes.c:300-313 | In place: every column is multiplied by {03}x^3 + {01}x^2 + {01}x + {02}. |
| AesState.InvMixColumns | source/aes.c:344-362 | In place: every column is multiplied by {0b}x^3 + {0d}x^2 + {09}x + {0e} (section 5.3.3). |
| AesState.Cipher | source/aes.c:411-433 | In place: the loop with its break in the middle computes the cipher of figure 5 of FIPS 197 on the block and changes nothing else. |
| AesState.InvCipher | source/aes.c:436-461 | In place: the downward loop computes the inverse cipher of figure 12. |
| Aes.CipherInverse | source/aes.c:411-461 | For every block and every array of round keys each of the two undoes the other. |
| AesDiffusion.TwoRoundsSpread | source/aes.c:411-433 | For any round keys, blocks that differ in one byte only differ in all sixteen after two rounds. |
| AesDiffusion.FirstRound | source/aes.c:411-433 | After one round they differ in all of one column and in nothing else. |
| AesVector.ExampleCipher | source/aes.c:411-433 | Key schedule and cipher give the ciphertext of appendix C.1 of FIPS 197 for its key and plaintext. |
| AesKeys.KeyExpansion | source/aes.c:146-217 | The 44 words of the round keys satisfy the recursion of section 5.2 of FIPS 197. |
| AesKeys.RconPowers | source/aes.c:120-121 | The round constants used are the successive powers of x. |
| AesKeys.RoundKeysDiffer | source/aes.c:146-217 | In every single round, two keys have the same round key if and only if they are the same key. |
| Cbc.XorWithIv | source/aes.c:492-499 | In place, also when the vector is an earlier block of the same buffer. |
| Cbc.AesContext.constructor | source/aes.c:224-228 | The context holds the whole key schedule and the vector. |
| Cbc.AesContext.EncryptBuffer | source/aes.c:501-514 | Although the vector's pointer moves through the buffer being rewritten, the region becomes the chained encryption of what it held; the context ends with the last ciphertext block, or as it was for no blocks. |
| Cbc.AesContext.DecryptBuffer | source/aes.c:516-529 | The region becomes the chained decryption of what it held; the context ends with the last ciphertext block. |
| Cbc.DecryptedEncrypted | source/aes.c:501-529 | Decrypting undoes encrypting, for any number of blocks. |
| Cbc.EncryptedDecrypted | source/aes.c:501-529 | Encrypting undoes decrypting. |
| Cbc.EncryptedConcat | source/aes.c:501-514 | Encrypting one buffer and then another on one context is encrypting their concatenation, and leaves the same vector. |
| Cbc.BufferRestored | source/aes.c:501-529 | With the same key and vector decryption in place restores the whole buffer, and both contexts end with the same vector. |
| Crc32.OddsOfZero | source/crc32.c:11-17 | What eight of the program's steps make of zero, where the plain register would make zero. |
| Crc32.EntryIsSteps | source/crc32.c:11-17 | A table entry is the plain table's entry with both complements of the register folded in. |
| Crc32.TableStepIsPlain | source/crc32.c:26-27 | One turn of the program's loop is one step of the register of section 8 of RFC 1952 between two complements. |
| Crc32.Crc32ForByte | source/crc32.c:11-17 | The loop computes the table entry. |
| Crc32.Table.Crc32 | source/crc32.c:19-28 | For every start and every string the result is the checksum of RFC 1952 continued from that start, whether or not the table had been filled. |
| Crc32.ChecksumConcat | source/crc32.c:19-28 | The checksum of a concatenation can be taken in two calls. |
| CrcCheck.Residue | source/crc32.c:11-28 | Every string followed by its own checksum, low byte first, has the checksum 0x2144DF1C. |
| CrcCheck.BytesAtOnce | source/crc32.c:19-28 | A string of any length can be added to the register at once and moved through afterwards. |
| CrcCheck.CheckValue | source/crc32.c:11-28 | The checksum of 123456789 is 0xCBF43926. |
| CrcBurst.StepsInjective | source/crc32.c:19-28 | Any number of steps is injective on 32-bit registers. |
| CrcBurst.BurstDetected | source/crc32.c:19-28 | Strings of one length that differ only within 32 consecutive bits, in the order in which bits enter the register, have different checksums from every start. |
| CrcBurst.FourBytesDetected | source/crc32.c:19-28 | In particular strings that differ only within four consecutive bytes. |
| AuthConfig.GatherKeyMaterial | source/condenstation_config.c:59-69 | What is hashed is the user's number, the console's identifier and filling: the identifier covers the network address completely, so nothing depends on the address. |
| VaultLaws.MaterialLayout | source/condenstation_config.c:59-69 | That material byte by byte. |
| AuthConfig.AuthState.GenerateKey | source/condenstation_config.c:74-83 | The key is the last sixteen bytes of the digest, and the console's hash its CRC-32. |
| AuthConfig.AuthState.GenerateKeyOf | source/condenstation_config.c:57-84 | Both are those of the digest of that material, for any hash function of the right size. |
| AuthConfig.AuthState.EncryptConfigV1 | source/condenstation_config.c:86-115 | The output is header, console hash, checksum, vector and the encrypted record, the last made in place. |
| AuthConfig.AuthState.DecryptConfigV1 | source/condenstation_config.c:117-150 | Accepts exactly the files whose console hash, decrypted header and checksum are right, and delivers the decrypted record. |
| Vault.UnsealedSealed | source/condenstation_config.c:86-150 | On one console, for every vector and every alignment bytes, what was encrypted is accepted and is the same record. |
| Vault.OnlySealedIsUnsealed | source/condenstation_config.c:117-150 | A file with the encrypted header is accepted if and only if it is what encryption writes for some record and vector. |
| AuthConfig.AuthState.MakeRecord | source/condenstation_config.c:234-240 | The record holds both header words and the three strings, each padded with NULs. |
| AuthConfig.AuthState.SaveAuthConfig | source/condenstation_config.c:226-264 | The file written is the record, encrypted when encryption is available; nothing is written when the file cannot be created, and the strings are unchanged. |
| VaultLaws.PlainLayout | source/condenstation_config.c:226-264 | The plain file, byte by byte: CDST, version 1, padding, and at 16, 144 and 1168 the strings with NULs after them. |
| VaultLaws.SealedLayout | source/condenstation_config.c:86-115 | The encrypted file: CSTE, version 1, the checksums of the digest and of the plain file, the vector, and the plain file encrypted with the last sixteen bytes of the digest. |
| AuthConfig.AuthState.FindRecord | source/condenstation_config.c:194-212 | Which of the two forms a file has, and its record if there is one. |
| AuthConfig.AuthState.Deliver | source/condenstation_config.c:214-222 | The strings of the record, their last bytes cleared, become the globals. |
| AuthConfig.AuthState.LoadAuthConfig | source/condenstation_config.c:172-224 | `HasConfigLoaded` is set exactly when a file exists and holds a usable record; then the globals are its strings, else they are empty. |
| Vault.StrNCpy | source/condenstation_config.c:218-220 | What strncpy does between buffers of one size: the string, and NULs after it. |
| Vault.StringRestored | source/condenstation_config.c:214-220 | A string comes back through saving and loading if and only if it is terminated inside its buffer; otherwise it loses its last byte. |
| Vault.SaveThenLoad | source/condenstation_config.c:172-264 | Saving and loading on one console, in either form: nothing is loaded exactly when the file was encrypted and encryption is no longer available. |
| Vault.LoginRestored | source/condenstation_config.c:172-264 | Otherwise the login is loaded and each string is restored if and only if it was terminated. |

## Left out

- MicroEncode.EncodeMaskMQR: pairs of version and level without check codes, such as version 1 with level M, pass the checks of the encoder; they are excluded because QRinput_newMQR refuses to make such an input, and with no check bytes the encoder would index its cache below its start.
- QRspec_getMinimumVersion and the length indicators: used only in making the byte stream.
- QRinput and the splitting of text into segments: the byte stream of the input is an argument, of the length the version and level call for.
- Structured append, string entry points and the list of symbols: thin wrappers around the encoder.
- BitStream.BitStream.AppendNum: more than 32 bits are excluded, because the source would then shift by more than the width of its mask.
- Rsecc.Encoder.Encode: fewer than two check bytes are excluded, because the source would then index its cache below its start.
- Cbc.AesContext.EncryptBuffer: the length is a multiple of 16, as the header of the cipher demands of its callers.
- Cbc.AesContext.DecryptBuffer: the length is a multiple of 16, as the header of the cipher demands of its callers.
- QrTables.TableSpecs: how many blocks a version and level have is data; only that they divide the codes and stay within 255 bytes is proved.
- AuthConfig.AuthState.GenerateKey: takes the digest; GenerateKeyOf makes it, with SHA-1 as an argument because its code is the console's.
- AuthConfig.AuthState.EncryptConfigV1: the random vector is an argument.
- AuthConfig.AuthState.LoadAuthConfig: opening and reading the file are an argument, its contents if it exists.
- Failing allocations, locks and errno.
- The overwriting of keys and contexts after use: it has no effect on any result.
- ECB and CTR mode, and longer keys: the first adds nothing to the block cipher, the others are not compiled in.
- The plugin's hooks, network code, login flow and generated message tables.
