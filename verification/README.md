# Verified models of a small operating system

The repository is an operating system for the Raspberry Pi with a JPEG viewer.
This project models its most intricate code in Dafny and proves properties of
it, for all inputs and all runs:

- the JPEG decoder of `binuser/stb_image.h`: Huffman tables, the 32-bit bit
  buffer, symbol and block decoding, baseline scans with restart intervals,
  progressive scans, the integer IDCT, plane geometry, row resampling, the
  marker segments, and whole sequential and progressive files;
- the input path: the host's event server, the serial protocol and the kernel's
  interrupt handler, and the PS/2 keyboard receiver with its scan-code machine;
- the boot-time page tables and the two walks of `/soc/ranges` that must agree
  on device addresses;
- the frame buffer painter's pixels, lines and clipping.

`dafny verify dfyconfig.toml` verifies everything. Code that updates state in
place is modelled by classes, arrays and loops; each method is proved against a
specification function, and the theorems are lemmas about that function.

## How the parts fit together

| files | content |
|---|---|
| `Wrappers`, `Bits`, `Machine`, `Zigzag` | bit strings, C integers and guards, the zigzag order |
| `Canonical` | canonical codes and the bit-at-a-time DECODE procedure of ITU-T T.81 (Annex C, section F.2.2.3), independent of the decoder |
| `Huffman`, `FastAc`, `BitReader` | the decoder's tables and its bit buffer, proved against `Canonical` and the de-stuffed stream |
| `Block`, `Coding` | block decoding, and an encoder that it inverts |
| `Progressive`, `Approximation`, `Refinement`, `Scans`, `DcScans`, `ScanSequence`, `BandScan`, `BandIntervals`, `DcIntervals` | the progressive routines, successive approximation over any sequence of scans, and AC and DC scans as bytes with restart intervals |
| `Stuffing`, `BaselineScan`, `Prediction`, `ScanCoding` | byte stuffing, restart intervals, DC prediction, and whole scans as bytes |
| `Markers`, `HeaderCoding` | marker segments, the loops over them, and writing them back |
| `Frames`, `Geometry`, `Resample`, `Idct` | the frame header, planes and block order, the upsampling walk, the transform |
| `Picture`, `ProgressivePicture`, `JpegFile` | what a scan does to the planes, and what decoding a whole file means |
| `PictureDecoder`, `ProgressiveDecoder`, `FileDecoder`, `PictureBounds` | the decoder's run over scans and files, and the bounds of what it stores |
| `PictureCoding`, `FileCoding`, `ProgressiveCoding`, `ProgressiveFile` | writing sequential and progressive files, and getting them back |
| `UartProtocol`, `InputServer`, `Ps2Receiver`, `Ps2Keys` | input events |
| `PageTable`, `PageUnmap`, `SocRanges`, `Graphics` | memory mapping and drawing |

A function that a method and an encoder share could be wrong in both. Such functions are
pinned by laws that do not mention them: the zigzag order by its diagonals, the transform by
the two-dimensional cosine sum, sizes and factors as least and largest numbers, the order of
blocks by the nested loops, headers by the exact fields that are accepted, flags by the last
press, far rows by which side of a centre they lie on.

The bit reader carries ghost state: `src`, the bits of the current segment with
stuffing removed, and `at`, how many of them have been handed out. Its
invariant says that the buffer holds exactly the next bits of `src`, with zeros
below them. Every reading method moves `at` by exactly what it returns, so any
interleaving of them hands out the stream in order, without loss or repetition.

## What turned out different from what one would expect

- A Huffman table with 256 symbols whose last code has at most nine bits is
  accepted, but symbol 255 collides with the "not accelerated" mark of the fast
  table and is never decoded (`Blind` in `Huffman`). `BitReader.Reader.HuffDecode`
  states agreement exactly off that case. `HuffCode.Safe` (every table of at most
  255 symbols is safe) is the hypothesis of the later theorems. Such a table fits the bytes of
  a file (`Huffman.HiddenSymbolExists`).
- `stbi__mul2shorts_valid` is exact for every first factor if and only if the
  second factor is not negative (`Machine.Mul2ShortsScope`).
- A refinement can flip the sign of the coefficient -32768, and of no other
  (`Approximation.FixKeeps`).
- A first DC scan clears whole blocks, so AC coefficients that came before it are lost
  (`ScanSequence.LateDcErases`); after a first DC scan any legal order of scans is exact.
- A marker segment that is refused between scans ends the image as if it were complete; a
  progressive image is then returned without any block having been transformed
  (`JpegFile.ScansFrom`, `JpegFile.AtRefusal`).
- A scan header may name a component twice. The component then still has one predictor, and
  the tables that were named last (`Picture.Effective`, `Picture.Kinds`).
- Progressive coefficients live in memory that is not cleared: `ProgressiveFile.FileRoundTrip`
  holds whatever it contained, because a first DC scan clears each block. What a scan out of
  order leaves unknown is tracked by `ProgressiveCoding.Track`.
- The IDCT stays inside 32 bits for coefficients up to 2328 in magnitude, and not
  for 2329 (`Idct.LimitIsTight`).
- `map_range` computes the page before and the page after a range modulo 2^64. When
  the range starts at address 0 of a process or ends at the top of the kernel
  window, and its other end cuts a block, the pages in that block keep their old
  mapping (`PageTable.MapsExactlyIff`, with a concrete table in
  `PageTable.FirstPageOfABlockIsKept`).
- `unmap_range` takes the end of an entry from the start of its table. Away from the first
  entry of a table it therefore drops whole blocks and tables that merely begin inside the
  range: unmapping the first page of a process heap takes everything else in that 512 GiB
  entry along (`PageUnmap.FirstPageTakesTheTable`). `PageUnmap.UnmapsExactlyIff` says exactly when
  a call unmaps its range and nothing else.
- A device range that reaches 2^64 is invisible to `convert_soc_address`
  (`SocRanges.FoundIffHolds`). A two-cell size of 2^48 or more can pass the boot code, and then
  the range is mapped not at all: `SocRanges.CheckedExactly` and `SocRanges.EmptyExactly` say
  which sizes do, `SocRanges.MappedIffSane` that exactly the others are mapped, and
  `SocRanges.HugeSizeMapsNothing` gives one.
- A PS/2 timeout clears the frame but not the parity counter: the next clean frame
  is lost exactly when the abandoned bits held an odd number of ones
  (`Ps2Receiver.AfterTimeout`). The test of the parity bit itself has no effect
  because of operator precedence; the counter alone decides.
- Pause is reported as a release, once (`Ps2Keys.KeyStream`).
- Key events alternate for every key of the host, but for every key code only if no two
  keys share a code (`InputServer.AlternationPerCode`). In the server's table some do.
- The painter's documentation says that a fully transparent colour is not written. The code
  writes it with a cleared top byte, which changes nothing exactly when that byte was
  clear already (`Graphics.TransparentKeepsIff`).

## Model

| member | source | states |
|---|---|---|
| Canonical.KraftIsLimit | binuser/stb_image.h:2176-2194 | the 16-bit aligned code counter after length j is the Kraft sum of the lengths up to j |
| Canonical.PrefixFree | binuser/stb_image.h:2165-2194 | codes of an accepted table are prefix-free: no window starts with two of them |
| Canonical.CodesTile | binuser/stb_image.h:2165-2194 | the codes tile [0, maxcode[16]): a 16-bit window starts with a code if and only if it is below that limit, and then with one only |
| Canonical.LevelSearch | binuser/stb_image.h:2281-2305 | the level found by comparing with the aligned limits yields an index in range, whose code has that length and begins the window (the assertion of the code) |
| Canonical.DecodeIsCanonical | binuser/stb_image.h:2261-2310 | the bit-at-a-time procedure of section F.2.2.3 of T.81 finds a symbol exactly when its canonical code is next, and reports no code or too few bits exactly when none matches |
| Canonical.CodesFollow | binuser/stb_image.h:2176-2194 | codes are those of Annex C of T.81: zero first, then each the next value shifted to its length |
| Canonical.AcceptableExactly | binuser/stb_image.h:2165-2194 | the two conditions on a table, written out over its sixteen counts |
| Canonical.PaddedWithZeros | binuser/stb_image.h:2238-2254 | past the end of a segment the stream reads as zeros |
| Huffman.Table.BuildSizes | binuser/stb_image.h:2165-2175 | fills the size list in order of length; fails exactly above 256 symbols |
| Huffman.Table.BuildCodes | binuser/stb_image.h:2176-2194 | codes, deltas and preshifted limits are the canonical ones; fails exactly when the Kraft sum exceeds 1 |
| Huffman.Table.BuildFast | binuser/stb_image.h:2196-2209 | every fast cell holds the symbol whose code begins the nine-bit index, or the mark |
| Huffman.Table.Build | binuser/stb_image.h:2165-2211 | accepts exactly the counts with at most 256 symbols and a Kraft sum of at most 2^16, and builds the canonical table |
| Huffman.FastRangeIsPrefix | binuser/stb_image.h:2196-2209 | the range of cells filled for a symbol is the set of windows that begin with its code |
| Huffman.FastMiss | binuser/stb_image.h:2270-2290 | a marked cell means that no code of at most nine bits matches, unless symbol 255 is hidden by the mark |
| Huffman.HiddenSymbolExists | binuser/stb_image.h:2196-2204 | counts that fit a file, are accepted, and hide symbol 255 behind the mark |
| BitReader.Reader.constructor | binuser/stb_image.h:861-867 | a reader at the start of a buffer stands for its whole de-stuffed stream |
| BitReader.Reader.Reset | binuser/stb_image.h:3168-3173 | the bit-buffer part of a reset: an empty buffer at the read position stands for the stream from there |
| BitReader.Reader.Get8 | binuser/stb_image.h:1650-1659 | the next byte, or zero without moving at the end |
| BitReader.Reader.Grow | binuser/stb_image.h:2238-2254 | entered with at most 24 bits, leaves more than 24, or all bits of the segment and zeros; the buffer still holds exactly the next bits of the stream, and the position never moves back |
| BitReader.Reader.FindMarker | binuser/stb_image.h:3203-3207 | at the end of a segment the marker that stops it has been found, and the position is behind it |
| BitReader.Reader.HuffDecode | binuser/stb_image.h:2261-2310 | returns the symbol of the canonical code that comes next and consumes its length, or fails exactly when no code matches sixteen bits; off agreement exactly for the hidden symbol |
| BitReader.Reader.ExtendReceive | binuser/stb_image.h:2318-2332 | the EXTEND value of the next n bits, consuming n; past the end zero or the zero-padded value |
| BitReader.Reader.GetBits | binuser/stb_image.h:2335-2346 | the number written by the next n bits, consuming n |
| BitReader.Reader.GetBit | binuser/stb_image.h:2348-2358 | the next bit of the stream, consuming it |
| BitReader.Reader.SearchLevels | binuser/stb_image.h:2281-2290 | stops at the first length above nine whose limit exceeds the window |
| FastAc.BuildFastAc | binuser/stb_image.h:2213-2236 | for every table: each entry packs run, value and length of the code and magnitude bits that its index begins with, and is zero exactly when no such entry of a symbol below 255 fits sixteen bits |
| FastAc.FastAcRefines | binuser/stb_image.h:2405-2418 | a non-zero entry gives the same run, value and number of bits as Huffman decoding followed by EXTEND, on every stream and for every accepted table |
| Machine.AddIntsExact | binuser/stb_image.h:1086-1093 | the guard accepts exactly the sums that fit an int |
| Machine.Mul2ShortsExact | binuser/stb_image.h:1095-1103 | with a non-negative second factor the guard accepts exactly the products that fit a short |
| Machine.Mul2ShortsScope | binuser/stb_image.h:1095-1103 | the guard is exact for all first factors if and only if the second is not negative |
| Machine.ToShortWraps | binuser/stb_image.h:3315-3319 | a conversion to short keeps the low sixteen bits, and is the only short that does |
| Machine.MadSizesExact | binuser/stb_image.h:1021-1053 | the allocation guards accept exactly non-negative sizes whose total fits an int |
| Zigzag.ZigPermutes | binuser/stb_image.h:2362-2368 | the zigzag order permutes the 64 cells |
| Zigzag.ZigzagOrder | binuser/stb_image.h:2362-2368 | the table is the order of section A.3.6 of T.81: diagonal by diagonal, odd ones downwards and even ones upwards; all places past the block are its last cell |
| Block.ReadAc | binuser/stb_image.h:2405-2432 | one AC step through the fast table or the slow path returns what the reference step reads, and moves exactly as far |
| Block.ReadDcDiff | binuser/stb_image.h:2380-2388 | category and difference of the reference, or failure exactly for a bad code |
| Block.StoreDc | binuser/stb_image.h:2378-2396 | accepts exactly representable sums and products, and stores predictor plus difference, dequantised, in a cleared block |
| Block.DecodeAc | binuser/stb_image.h:2398-2435 | the block is filled as the reference run-length decoder fills it; every index stays below 79 and the position grows |
| Block.DecodeBlock | binuser/stb_image.h:2370-2436 | on every stream: cells, predictor and read position of the reference block decoder, and failure exactly when it finds corruption |
| Block.DecodedIsShort | binuser/stb_image.h:2384-2396 | a block whose predictor leaves an int or whose DC value leaves a short is refused; every other decoded block holds shorts only |
| Coding.MagExtend | binuser/stb_image.h:2312-2332 | EXTEND undoes the magnitude coding of T.81 for every non-zero value |
| Coding.AcRoundTrip | binuser/stb_image.h:2398-2435 | decoding an encoded run of coefficients fills in exactly them, and stops behind the last or at the EOB code |
| Coding.DcCategoryExactly | binuser/stb_image.h:2380-2384 | a DC symbol is refused exactly if its category is above 15 |
| Coding.EndSymbols | binuser/stb_image.h:2419-2426 | every AC symbol without magnitude ends the block, but for 0xf0, which passes over sixteen coefficients |
| Coding.BlockRoundTrip | binuser/stb_image.h:2370-2436 | decoding an encoded block gives all 64 coefficients, dequantised and in row-major order, and uses exactly its bits |
| Progressive.DecodeDc | binuser/stb_image.h:2438-2468 | refuses a band with AC coefficients; first scan: predictor and shifted value of the reference; refinement: one bit added at position Al |
| Progressive.DcFirstIsShort | binuser/stb_image.h:2450-2462 | a first DC scan refuses predictors beyond an int and values beyond a short, and leaves shorts otherwise |
| Progressive.DecodeAcFirst | binuser/stb_image.h:2479-2523 | cells, EOB run and position of the reference first-scan decoder |
| Progressive.ReadEobRun | binuser/stb_image.h:2505-2511 | the announced run: 2^r - 1 plus the next r bits |
| Progressive.AdvanceOver | binuser/stb_image.h:2572-2592 | corrections, zero-run and placement as the reference walk makes them |
| Progressive.CorrectBand | binuser/stb_image.h:2529-2543 | inside an EOB run every non-zero coefficient of the band takes one correction bit |
| Progressive.DecodeAcRefine | binuser/stb_image.h:2524-2594 | cells, EOB run and position of the reference refinement decoder |
| Approximation.FixRefines | binuser/stb_image.h:2531-2541 | correcting the approximation at Al+1 with the right bit gives the approximation at Al |
| Approximation.FixKeeps | binuser/stb_image.h:2531-2541 | for any bit, a correction leaves a non-zero multiple of 2^Al, and it keeps the sign unless the coefficient is -32768 and the bit is set, and only then |
| Refinement.FirstRoundTrip | binuser/stb_image.h:2479-2523 | decoding an encoded first scan of a block brings the band to precision Al, touches nothing else and keeps the announced EOB run |
| Refinement.RefineRoundTrip | binuser/stb_image.h:2524-2594 | decoding an encoded refinement brings the band from precision Al+1 to Al and uses exactly its bits |
| Refinement.RefinementSymbols | binuser/stb_image.h:2546-2570 | a refinement symbol is refused exactly if its magnitude category is above 1 |
| Refinement.RefineKeeps | binuser/stb_image.h:2546-2594 | on any stream a refinement leaves multiples of 2^Al, flips no sign but possibly that of -32768, and changes nothing outside the band |
| Refinement.EobKeeps | binuser/stb_image.h:2529-2543 | the same for blocks inside an EOB run |
| Scans.TailsRoundTrip | binuser/stb_image.h:2480-2484 | an EOB run covers exactly the announced number of blocks |
| Scans.BandRoundTrip | binuser/stb_image.h:3250-3279 | decoding an encoded AC scan brings every block to the scan's precision, whatever grouping into EOB runs the encoder chose |
| Scans.SuccessiveApproximation | binuser/stb_image.h:2472-2596 | a first scan at Al and refinements down to 0 leave exactly the encoded value in every coefficient of the band and touch nothing else |
| DcScans.DcBandRoundTrip | binuser/stb_image.h:2438-2468 | a DC scan brings every DC value to precision Al; a first scan clears the other coefficients, a refinement keeps them |
| DcScans.DcSuccessiveApproximation | binuser/stb_image.h:2438-2468 | a first DC scan at Al and refinements down to 0 leave exactly the encoded DC values, and the refinements touch nothing else |
| ScanSequence.ScanKeepsLevels | binuser/stb_image.h:2438-2596 | a legal scan, DC or AC, brings the coefficients of its band to its position and touches no other |
| ScanSequence.SequenceKeepsLevels | binuser/stb_image.h:2438-2596 | after any legal sequence of DC and AC scans every coefficient is known exactly from the position that the sequence has reached |
| ScanSequence.AllScansExact | binuser/stb_image.h:2438-2596 | any legal interleaving of DC and AC scans that takes all coefficients to position 0 leaves all 64 coefficients of every block exact, whatever the blocks held before |
| ScanSequence.LateDcErases | binuser/stb_image.h:2446-2456 | a first DC scan leaves every AC coefficient of its blocks zero |
| BandScan.DecodeBandBlock | binuser/stb_image.h:2472-2596 | one block of an AC scan, first or refining, by its reference |
| BandScan.ParseBand | binuser/stb_image.h:3250-3279 | the loop over the blocks of an AC scan decodes what the reference scan decodes, EOB runs carried along, and fails on a corrupt block |
| BandIntervals.ParseBlock | binuser/stb_image.h:3259-3278 | one block of an AC scan and the restart that may follow it, which also clears the EOB run |
| BandIntervals.ParseBandScan | binuser/stb_image.h:3250-3279 | an AC scan over the bytes of the file, with restart intervals, by the reference; failure exactly on corruption |
| BandIntervals.BandScanRoundTrip | binuser/stb_image.h:3250-3279 | decoding the bytes of an encoded AC scan, restart intervals included, brings every block to the scan's precision and touches nothing else; the marker written last stands behind it |
| DcIntervals.ParseDcBlock | binuser/stb_image.h:3289-3307 | one block of a DC scan, the end of its MCU, and the restart that may follow, which clears every predictor |
| DcIntervals.ParseDcScan | binuser/stb_image.h:3280-3313 | a DC scan over the MCUs of several components, with restart intervals, by the reference; failure exactly on corruption |
| DcIntervals.IntervalRoundTrip | binuser/stb_image.h:3280-3313 | the blocks of one written segment are delivered, each component predicted from its own last block, and decoding goes on behind the marker |
| DcIntervals.DcScanRoundTrip | binuser/stb_image.h:3280-3313 | decoding the bytes of an encoded DC scan brings the DC value of every block of every component to the scan's precision; in a refinement, every block that was at the precision before |
| Stuffing.StuffingRoundTrip | binuser/stb_image.h:2238-2254 | reading stuffed bytes up to a marker gives exactly their bits, the marker and the position behind it |
| Stuffing.SegmentRoundTrip | binuser/stb_image.h:2238-2254 | the same for bits padded with ones to whole bytes |
| Stuffing.FilledRoundTrip | binuser/stb_image.h:2238-2254 | stuffed bytes with any number of fill bytes are read as their bits, and reading goes on behind them |
| Stuffing.FilledEnds | binuser/stb_image.h:2238-2254 | what may stand behind them: a marker with fill bytes, the end of the data, or a last 0xff, which counts as data |
| BaselineScan.PredictionIsSum | binuser/stb_image.h:2389-2396 | on any stream, over any run of blocks: the predictor of each component is what it was plus the exact sum of its differences, and each stored DC the exact product with the quantiser |
| Prediction.ScanPredictionIsSum | binuser/stb_image.h:3180-3248 | the same along a whole scan with its restarts, from any state |
| Prediction.PredictionOfScan | binuser/stb_image.h:3168-3248 | on any bytes, when a scan finishes, the DC cell of every block is exactly the quantiser times the sum of its component's differences since the last restart marker |
| BaselineScan.DecodeUnit | binuser/stb_image.h:3195-3198 | one block of a component by the block reference |
| BaselineScan.DecodeMcu | binuser/stb_image.h:3219-3234 | the blocks of an MCU and the new predictors, by the reference |
| BaselineScan.StartSegment | binuser/stb_image.h:3168-3173 | the bit-buffer part of a reset: the reader stands at the start of a segment |
| BaselineScan.NextInterval | binuser/stb_image.h:3201-3209 | after a segment goes on exactly at a restart marker |
| BaselineScan.ParseMcu | binuser/stb_image.h:3217-3244 | one MCU and the restart that may follow it are one step of the reference scan |
| BaselineScan.ParseScan | binuser/stb_image.h:3180-3248 | the blocks of a whole scan over the bytes of the file, with restart intervals, by the reference; failure exactly on corruption; the reader ends in the last segment and never moves back |
| BaselineScan.UnitsRoundTrip | binuser/stb_image.h:3219-3234 | decoding encoded blocks of several components gives back all of them and the predictors |
| ScanCoding.IntervalRoundTrip | binuser/stb_image.h:3201-3209 | decoding one restart interval gives its MCUs and goes on behind its marker |
| ScanCoding.ScanRoundTrip | binuser/stb_image.h:3180-3248 | for any components, MCUs and restart interval, decoding the bytes of the encoded scan gives back exactly the dequantised blocks, in order |
| ScanCoding.ScanEnds | binuser/stb_image.h:3180-3248 | behind a written scan the decoder finds the marker that was written last |
| Frames.ProcessFrameHeader | binuser/stb_image.h:3518-3580 | accepts exactly the readable frame headers of at most 2000 by 2000 pixels with whole sampling ratios, and returns their fields |
| Frames.MaximaExactly | binuser/stb_image.h:3569-3574 | the largest factors are the maxima over the components: attained by one and exceeded by none |
| Frames.AcceptedAxes | binuser/stb_image.h:3566-3612 | both axes of every accepted component meet the hypotheses of the plane geometry, and no plane is more than 31 samples larger than the image |
| Frames.GuardsNeverRefuse | binuser/stb_image.h:3566-3626 | no allocation guard ever refuses an accepted header: not the one for the image, nor those for sample and coefficient planes, nor that for the output |
| Geometry.OwnBlocksFit | binuser/stb_image.h:3584-3605 | ceil(ceil(X*h/H)/8) <= h*ceil(X/(8H)): the blocks of a non-interleaved scan lie inside the plane |
| Geometry.SizesAreLeast | binuser/stb_image.h:3593-3612 | MCUs, samples and own blocks are the least numbers that cover the image at the component's share; the plane holds whole MCUs |
| Geometry.LineBufferFits | binuser/stb_image.h:4220-4236 | the upsampled line never exceeds img_x + 3 bytes, and the low-resolution width is the component's width |
| Geometry.VisitsEveryBlockOnce | binuser/stb_image.h:3216-3236 | the interleaved order is a bijection with the blocks of the plane |
| Geometry.InterleavedOrder | binuser/stb_image.h:3216-3236 | the nested loops visit blocks in the order of that bijection |
| Geometry.PlaneIsTiled | binuser/stb_image.h:3231-3232 | every sample written for a block lies inside the w2*h2 plane, and its offset determines block, row and column |
| Geometry.EveryByteIsASample | binuser/stb_image.h:3231-3232 | every byte of the plane is a sample of a block |
| Resample.Walk.constructor | binuser/stb_image.h:4231-4236 | the walk starts before row 0 |
| Resample.Walk.Next | binuser/stb_image.h:4260-4271 | output row j uses near row floor(j/vs) and as far row its neighbour, clamped into the component |
| Resample.NeighbourIsBeyond | binuser/stb_image.h:4262-4272 | the far row is next to the near one, on the output row's side of its centre; at the centre it is the row above |
| Resample.WalkRows | binuser/stb_image.h:4257-4271 | over an image of any height and sampling: output row j takes row floor(j/vs) as near row and, as far row, the next row on its side of the near row's centre, or the near row at the edge of the plane |
| Idct.EvenPart | binuser/stb_image.h:2614-2629 | the even half in 32-bit arithmetic, as an exact integer matrix |
| Idct.OddPart | binuser/stb_image.h:2630-2649 | the odd half in 32-bit arithmetic, as an exact integer matrix |
| Idct.Column | binuser/stb_image.h:2657-2686 | a column pass, shortcut or not, is the rounded matrix product and stays in range for the second pass |
| Idct.ConstantColumn | binuser/stb_image.h:2659-2668 | the zero-column shortcut is the full column transform |
| Idct.Row | binuser/stb_image.h:2688-2708 | a row pass is the rounded, level-shifted and clamped matrix product |
| Idct.IdctBlock | binuser/stb_image.h:2651-2709 | for coefficients up to 2328 no intermediate leaves 32 bits, and each sample is the two-pass matrix formula |
| Idct.LimitIsTight | binuser/stb_image.h:2651-2709 | with all coefficients 2329 the first row sum of the second pass exceeds 32 bits |
| Idct.DcOnlyIsFlat | binuser/stb_image.h:2651-2709 | a block with only a DC coefficient is flat at clamp(128 + floor((dc+4)/8)) |
| Idct.MatrixIsDct | binuser/stb_image.h:2609-2649 | every coefficient of the integer matrix is within 2/4096 of the cosine of section A.3.3 of T.81 |
| Idct.SampleIsDct | binuser/stb_image.h:2657-2745 | sample (r, c) is the two-dimensional inverse DCT, frequency down by row and across by column, to within two thirds of a unit and 22952/2^27 of each coefficient, level-shifted and clamped |
| Idct.FirstRowOnly | binuser/stb_image.h:2657-2745 | a block with horizontal frequencies only has equal rows, each the transform of its first row |
| Idct.Mirror | binuser/stb_image.h:2677-2685 | the lower half is the upper half with the odd inputs negated |
| Markers.Decoder.Get16 | binuser/stb_image.h:1730-1733 | two bytes, big-endian, zeros past the end |
| Markers.Decoder.Skip | binuser/stb_image.h:1681-1698 | moves by n, to the end for a negative n |
| Markers.Decoder.GetMarker | binuser/stb_image.h:3147-3160 | a pending marker, else the byte behind FF fill bytes, else none; stops at the end |
| Markers.Decoder.ReadQuant | binuser/stb_image.h:3362-3363 | 64 entries of one or two bytes, stored in row-major order |
| Markers.Decoder.DefineQuant | binuser/stb_image.h:3351-3366 | the tables of a DQT segment, by the reference; failure exactly where it fails |
| Markers.Decoder.DefineHuffman | binuser/stb_image.h:3368-3399 | the code tables of a DHT segment, by the reference; unacceptable counts are rejected |
| Markers.Decoder.ProcessApp | binuser/stb_image.h:3402-3443 | JFIF and Adobe information, and the position behind the segment |
| Markers.Decoder.ProcessMarker | binuser/stb_image.h:3339-3446 | one segment by the reference, success and failure |
| Markers.SegmentIsFramed | binuser/stb_image.h:3339-3446 | an accepted segment starts inside the data, moves forward, and takes exactly the bytes it announces |
| Markers.Decoder.SeekMarker | binuser/stb_image.h:3655-3661 | skips padding up to the next marker or the end |
| HeaderCoding.SeekSkips | binuser/stb_image.h:3654-3663 | behind a segment any bytes other than 0xff, and fill bytes, are passed over to the next marker, or to the end |
| HeaderCoding.FilledMarker | binuser/stb_image.h:3147-3160 | a marker is found behind any number of fill bytes |
| Markers.Decoder.DecodeHeader | binuser/stb_image.h:3644-3665 | finds the frame marker, the tables and the number of segments of the reference loop; terminates on every buffer |
| Markers.Decoder.SkipJunk | binuser/stb_image.h:3672-3692 | returns the first marker code of the rest, or none exactly when there is none |
| Markers.Decoder.ScanHeader | binuser/stb_image.h:3449-3494 | accepts exactly the readable scan headers, returns their fields, selectors in the order of the header, and takes exactly their length |
| Markers.ScanIsGood | binuser/stb_image.h:3449-3494 | an accepted scan header starts inside the data and keeps components, tables and spectral bounds in range |
| Markers.Decoder.ReadScan | binuser/stb_image.h:2238-2358 | any sequence of fills, drops and restarts moves the position forward only, and not past the end |
| Markers.Decoder.DecodeScans | binuser/stb_image.h:3705-3730 | terminates for every buffer and whatever the entropy decoder reads: each turn takes at least one byte of the data |
| HeaderCoding.QuantsRoundTrip | binuser/stb_image.h:3351-3366 | reading written quantisation tables defines exactly them |
| HeaderCoding.CodesRoundTrip | binuser/stb_image.h:3368-3399 | reading written code tables defines exactly them |
| HeaderCoding.AppRoundTrip | binuser/stb_image.h:3402-3443 | a written JFIF segment sets its flag, a written Adobe segment the colour transform, and every other body nothing |
| HeaderCoding.OneQuantExactly | binuser/stb_image.h:3352-3366 | a DQT segment with one table is accepted exactly if its precision is 0 or 1 and its number at most 3 |
| HeaderCoding.OneCodeExactly | binuser/stb_image.h:3368-3400 | a DHT segment with one table is accepted exactly if its class is 0 or 1, its number at most 3, and its counts make a code |
| HeaderCoding.RestartExactly | binuser/stb_image.h:3345-3350 | a DRI segment is accepted exactly if it announces four bytes, and sets the interval |
| HeaderCoding.OthersExactly | binuser/stb_image.h:3402-3446 | application data and comments are refused exactly below two announced bytes, and every unknown marker is refused |
| HeaderCoding.FramesExactly | binuser/stb_image.h:3635-3664 | the header ends at the three frame markers, and any other frame marker refuses the image |
| HeaderCoding.NothingDefined | binuser/stb_image.h:3638-3704 | at the start there are no tables, no restart interval and no application data |
| HeaderCoding.SegmentRoundTrip | binuser/stb_image.h:3339-3446 | any written segment is read back with exactly its bytes and its definitions |
| HeaderCoding.HeaderRoundTrip | binuser/stb_image.h:3644-3665 | after any list of written segments the loop stands at the frame marker with every definition made, in order |
| PictureDecoder.JunkEndsSegment | binuser/stb_image.h:3672-3692 | the first marker code of the rest is the marker that ends the segment |
| PictureDecoder.BuildTable | binuser/stb_image.h:3368-3399 | a defined table is built with its symbols, or refused exactly when it hides one |
| PictureDecoder.OneScan | binuser/stb_image.h:3705-3716 | a sequential scan from its header on, repeated components included: its blocks at their places, and the next marker, by the specification |
| Picture.LastTablesWin | binuser/stb_image.h:3458-3470 | a component named more than once has the tables of its last selector at every position |
| Picture.OnePredictorPerPlane | binuser/stb_image.h:2389-2392 | two blocks of an MCU share a predictor exactly if they belong to one plane |
| Picture.SelectedTables | binuser/stb_image.h:3194-3200 | a component is decoded with the DC table of its first selector, the AC table of its second, and the quantisation table of its plane |
| ProgressivePicture.SelectedPass | binuser/stb_image.h:3261-3268 | the band, the position, the kind and the tables of a progressive scan are those that its header names |
| ProgressiveDecoder.ReadPass | binuser/stb_image.h:3248-3313 | the pass over the blocks of a progressive scan, AC or DC, and where it stops, by the specification |
| ProgressiveDecoder.OnePass | binuser/stb_image.h:3705-3716 | a progressive scan from its header on: its blocks with the new coefficients, and the next marker, by the specification |
| ProgressiveDecoder.Dequantise | binuser/stb_image.h:3315-3319 | every coefficient is multiplied by its step, as a short |
| ProgressiveDecoder.Finish | binuser/stb_image.h:3321-3337 | exactly the own blocks of every component are dequantised and handed on |
| FileDecoder.ScanLoop | binuser/stb_image.h:3704-3733 | the loop over scans, tables and line counts, by the specification |
| FileDecoder.DecodePicture | binuser/stb_image.h:3695-3735 | on every byte sequence, sequential or progressive: the blocks of the specification, and failure exactly where it fails |
| PictureBounds.PlaceIsGridPlace | binuser/stb_image.h:3216-3234 | the place of a block in a scan is that of its rank in the grid of its component |
| PictureBounds.ScanOrder | binuser/stb_image.h:3216-3234 | blocks come in the order of the nested loops over MCU rows, MCUs, components, rows and columns, and each goes to the place that its turn names |
| PictureBounds.PlaneSizes | binuser/stb_image.h:3593-3624 | the MCUs and own blocks of a plane are the least that cover the image, by the largest factors of its components |
| PictureBounds.ScanSizes | binuser/stb_image.h:3182-3222 | a scan goes over the own blocks of its one component, or over whole MCUs with the factors of each |
| PictureBounds.ScansAreInside | binuser/stb_image.h:3704-3733 | from planes inside their bounds, any bytes leave planes inside their bounds |
| PictureBounds.FileIsInside | binuser/stb_image.h:3695-3735 | whatever the bytes of a file, every stored block lies inside the plane allocated for its component |
| PictureCoding.FrameRoundTrip | binuser/stb_image.h:3518-3592 | a written frame header, whatever its fields, is read back, and it is accepted if and only if it has one, three or four components, sides from 1 to 2000, tables up to 3, and factors from 1 to 4 that divide the largest |
| PictureCoding.ScanHeaderRoundTrip | binuser/stb_image.h:3449-3494 | a written scan header, whatever its fields, is read back, and it is accepted if and only if it names one to four components, no more than there are, with tables up to 3 and a spectrum that its kind of image allows |
| PictureCoding.AfterScan | binuser/stb_image.h:3180-3247 | a written sequential scan completes the planes that it names with the right blocks, and leaves the others |
| FileCoding.SegmentsPass | binuser/stb_image.h:3726-3729 | segments in front of a scan are read, their definitions made, and decoding stands before the scan |
| FileCoding.ScansRoundTrip | binuser/stb_image.h:3704-3733 | decoding written scans, each with its segments in front and the tables then in force, gives the planes that they leave |
| FileCoding.FileRoundTrip | binuser/stb_image.h:3695-3735 | decoding a written sequential file, with segments before the frame and before every scan: every plane is complete and right for the last scan that names it, and no block is there that no scan brought |
| FileCoding.LineCountPasses | binuser/stb_image.h:3718-3725 | a DNL segment between scans is passed over exactly if it has length four and announces the height of the frame, and refuses the image otherwise |
| FileCoding.UnknownMarkerEnds | binuser/stb_image.h:3726-3729 | any unknown marker between scans ends the image as it is, a progressive one without a block |
| FileCoding.TrailingRestart | binuser/stb_image.h:3714-3716 | one restart marker behind the data of a scan is passed over |
| FileCoding.BadHeaderRefuses | binuser/stb_image.h:3706-3707 | a scan header with a wrong number of components, table or spectrum refuses the image |
| FileCoding.BadFrameRefuses | binuser/stb_image.h:3667-3668 | a frame header that is not accepted refuses the file |
| FileCoding.NoStartRefuses | binuser/stb_image.h:3646-3648 | a file that does not begin with the start marker is refused |
| ProgressiveCoding.StoreFetch | binuser/stb_image.h:3289-3297 | a place holds the last block that a scan stored there, or what it held before |
| ProgressiveCoding.PassIsRead | binuser/stb_image.h:3248-3313 | the bytes of a written progressive scan bring every block that was at its level to the next one, and the marker stands behind them |
| ProgressiveCoding.MixedIsRefused | binuser/stb_image.h:2441-2442 | a progressive scan with both DC and AC coefficients, or with AC coefficients of several components, is refused |
| ProgressiveCoding.PassIsStored | binuser/stb_image.h:3705-3716 | decoding a written progressive scan brings every plane that it names to its next level, and leaves the others |
| ProgressiveFile.ScansRoundTrip | binuser/stb_image.h:3704-3733 | decoding any written sequence of DC and AC scans, with their segments, brings every plane to the levels that the sequence reaches |
| ProgressiveFile.FileRoundTrip | binuser/stb_image.h:3695-3735 | decoding a written progressive file, whatever its scans and whatever the memory held: the planes hold exactly the own blocks of their components, every coefficient as precise as the scans sent it, dequantised |
| ProgressiveFile.ExactPlane | binuser/stb_image.h:3321-3337 | where the scans take all 64 coefficients to position 0, every block is the written one, dequantised |
| ProgressiveFile.SameAsSequential | binuser/stb_image.h:3695-3735 | a picture written sequentially and progressively with the same steps decodes to the same blocks |
| UartProtocol.EventRoundTrip | kernel/hardware/uart_keyboard.cpp:16-69 | the handler undoes the encoding of any event in front of any bytes, and a proper part of an event never completes |
| UartProtocol.StreamRoundTrip | tools/uart-input-server.py:56-122 | handling the concatenated encodings of any events gives exactly them, with nothing left over |
| UartProtocol.Handler.OnIrq | kernel/hardware/uart_keyboard.cpp:16-69 | one interrupt consumes and notifies what the reference reads from the FIFO |
| InputServer.Server.constructor | tools/uart-input-server.py:221-221 | the server's invariant holds at the start |
| InputServer.ClampIsNearest | tools/uart-input-server.py:15-20 | clamping gives the nearest value of the range |
| InputServer.Server.OnMouseMove | tools/uart-input-server.py:39-77 | motion is accumulated or sent clamped; sent and pending motion add up to the last position |
| InputServer.Server.OnMouseClick | tools/uart-input-server.py:85-102 | one event for a known button, none for another |
| InputServer.Server.OnMouseScroll | tools/uart-input-server.py:104-123 | one clamped scroll event |
| InputServer.Server.OnKey | tools/uart-input-server.py:223-265 | an event exactly when the key is known and its state changes; the log stays alternating for every key |
| InputServer.KernelSeesEverything | tools/uart-input-server.py:39-123 | at any time the kernel decodes from the pipe exactly the events sent; while no clamp has bitten, its sum of motions plus the pending one is the last position, and its key events are those of an alternating log |
| InputServer.AlternationPerCode | tools/uart-input-server.py:125-265 | per-code alternation holds for all legal logs if and only if no two keys share a code |
| Ps2Receiver.Receiver.constructor | kernel/hardware/ps2_keyboard.cpp:17-22 | the receiver starts with an empty frame |
| Ps2Receiver.Receiver.ReceiveMessage | kernel/hardware/ps2_keyboard.cpp:17-75 | shift register, counters and result are those of the reference receiver that keeps the bits of the frame |
| Ps2Receiver.AcceptsExactly | kernel/hardware/ps2_keyboard.cpp:50-68 | without stray bits a frame is accepted exactly when start, stop and odd parity are right |
| Ps2Receiver.CleanFrame | kernel/hardware/ps2_keyboard.cpp:50-74 | the frame of a byte is accepted and yields it |
| Ps2Receiver.FramesRoundTrip | kernel/hardware/ps2_keyboard.cpp:17-75 | any bytes sent as clean frames without a timeout are received exactly |
| Ps2Receiver.LateExactly | kernel/hardware/ps2_keyboard.cpp:25-33 | a bit abandons the frame exactly if more than ten milliseconds have passed since the last one |
| Ps2Receiver.AfterTimeout | kernel/hardware/ps2_keyboard.cpp:29-33 | after a timeout the next clean frame is received if and only if the abandoned bits hold an even number of ones |
| Ps2Keys.Driver.ProcessMessage | kernel/hardware/ps2_keyboard.cpp:77-240 | flags, prefix stack and event of one byte by the reference step |
| Ps2Keys.OneAction | kernel/hardware/ps2_keyboard.cpp:77-240 | the bytes of one key action bring a resting driver back to rest with the expected flags and event |
| Ps2Keys.KeyStream | kernel/hardware/ps2_keyboard.cpp:77-240 | any stream of key actions, Print Screen and Pause included, gives one event per key that is no modifier, with the flags folded from the earlier modifiers |
| Ps2Keys.FlagsExactly | kernel/hardware/ps2_keyboard.cpp:110-206 | after any actions Ctrl, Shift and Alt are set exactly if their key was pressed last; sticky ones, and the locks, have changed with every release; no other key changes a flag |
| Ps2Keys.EventsExactly | kernel/hardware/ps2_keyboard.cpp:208-240 | each action on a key that is no modifier is one event, with its code, direction and the flags left by the actions before it |
| Ps2Keys.Driver.SetStickyKeys | kernel/hardware/ps2_keyboard.cpp:267-269 | sets the sticky mode and nothing else |
| PageTable.MapEntry | kernel/memory/mmu_table.cpp:267-331 | one entry: recursion, leaf or split block leave the translation that a mapping call should leave, page by page |
| PageTable.MapTable | kernel/memory/mmu_table.cpp:245-332 | the loop over a table leaves every page of it so |
| PageTable.MapRange | kernel/memory/mmu_table.cpp:335-343 | refuses bad addresses; otherwise every page of the window translates as the call asked, except in a block cut at a wrapping edge |
| PageTable.AddressBits | kernel/memory/mmu_table.cpp:59-96 | an address is accepted exactly if its upper sixteen bits are those of its space and its lower twelve clear; nine bits of it number the entry at each level |
| PageTable.MapsExactlyIff | kernel/memory/mmu_table.cpp:321-330 | a call maps exactly its range if and only if its far end does not cut a block at a wrapping edge, or was mapped so before |
| PageTable.FirstPageOfABlockIsKept | kernel/memory/mmu_table.cpp:321-330 | a concrete table on which remapping page 0 of a process has no effect |
| PageUnmap.UnmapEntry | kernel/memory/mmu_table.cpp:376-443 | one entry loses exactly the pages that the reference of the code says, page by page |
| PageUnmap.UnmapTable | kernel/memory/mmu_table.cpp:356-445 | the loop over a table leaves every page of it so |
| PageUnmap.UnmapRange | kernel/memory/mmu_table.cpp:449-458 | refuses bad addresses; otherwise the whole window loses exactly those pages |
| PageUnmap.PageGone | kernel/memory/mmu_table.cpp:356-445 | page by page: nothing below the range goes, a mapped page behind it goes exactly up to the reach, a mapped page inside stays exactly in a first block cut at a wrapping edge |
| PageUnmap.UnmapsExactlyIff | kernel/memory/mmu_table.cpp:356-445 | a call unmaps its range and nothing else if and only if nothing is mapped behind it up to its reach and no first block is cut at a wrapping edge |
| PageUnmap.FirstPageTakesTheTable | kernel/memory/mmu_table.cpp:431-442 | unmapping the first page of a table that is not the root's first unmaps all of the table |
| SocRanges.GetVariableInt | lib/device-tree/src/node.cpp:54-93 | a big-endian number of one or two cells, or failure exactly past the end |
| SocRanges.NextEntry | kernel/boot/mmu_init.cpp:169-171 | one entry of the property, or failure exactly when it is incomplete |
| SocRanges.BigEndianHead | lib/device-tree/src/node.cpp:54-93 | the first byte of a number counts most |
| SocRanges.RangesRoundTrip | kernel/boot/mmu_init.cpp:158-179 | a property written as child address, parent address and size of each range reads back as exactly its ranges |
| SocRanges.SetupDeviceMapping | kernel/boot/mmu_init.cpp:158-179 | succeeds exactly when the property is whole and every address is accepted; then the ranges, and nothing else, are mapped one after the other in the device window |
| SocRanges.AcceptedIffFits | kernel/boot/mmu_init.cpp:173-177 | boot accepts ranges smaller than the window if and only if they are page-multiples and leave room |
| SocRanges.CheckedExactly | kernel/boot/mmu_init.cpp:173-176 | for all 64-bit offsets and sizes, exactly which ranges boot accepts |
| SocRanges.EmptyExactly | kernel/boot/mmu_init.cpp:173-176 | an accepted range names no page if and only if its size is zero or, inside the window, at least 2^48 |
| SocRanges.MappedIffSane | kernel/boot/mmu_init.cpp:173-177 | behind ordinary ranges, an accepted non-empty range gets its pages mapped if and only if its size is below 2^48; otherwise nothing changes |
| SocRanges.ConvertSocAddress | kernel/hardware/kernel_dt.cpp:182-209 | the virtual address of the first range found, by the same offsets |
| SocRanges.FoundIffHolds | kernel/hardware/kernel_dt.cpp:199-202 | the test for a range is exact if and only if the range does not reach 2^64 |
| SocRanges.DeviceAddressTranslates | kernel/hardware/kernel_dt.cpp:182-209 | the table built at boot translates the converted address to arm_start + (s - soc_start) of the first range holding s |
| SocRanges.ConversionIsInjective | kernel/hardware/kernel_dt.cpp:199-202 | distinct bus addresses get distinct virtual addresses |
| SocRanges.LaterMappingKeeps | kernel/boot/mmu_init.cpp:181-188 | later mappings outside a page leave its translation alone |
| SocRanges.OneCellSizesAreSane | kernel/boot/mmu_init.cpp:171-171 | sizes of one cell always satisfy the size hypothesis |
| SocRanges.HugeSizeMapsNothing | kernel/boot/mmu_init.cpp:173-177 | a size of 2^64 - 4096 is accepted with an empty page range |
| Graphics.BlendBetween | kernel/graphics/graphics.cpp:50-65 | each blended channel lies between source and destination; opaque replaces, transparent keeps the colour |
| Graphics.MixIsMean | kernel/graphics/graphics.cpp:50-65 | a blended channel is the mean weighted by alpha, rounded down |
| Graphics.TransparentKeepsIff | kernel/graphics/graphics.cpp:50-65 | a transparent colour leaves the word alone if and only if its top byte is clear |
| Graphics.LineHitsEndpoints | kernel/graphics/graphics.cpp:71-104 | both endpoints are on the line |
| Graphics.LineIsSymmetric | kernel/graphics/graphics.cpp:71-104 | swapped endpoints give the same pixels |
| Graphics.OnePixelPerStep | kernel/graphics/graphics.cpp:84-103 | exactly one pixel at every major coordinate from end to end, and none outside |
| Graphics.MinorMovesAtMostOne | kernel/graphics/graphics.cpp:84-103 | one major step moves at most one pixel across |
| Graphics.LineStaysClose | kernel/graphics/graphics.cpp:84-103 | the line stays in the box of its endpoints and less than one pixel from the exact line |
| Graphics.RoundsDownFromFirst | kernel/graphics/graphics.cpp:84-103 | counted from the endpoint with the smaller major coordinate, the minor one advances by the exact share, rounded down |
| Graphics.Painter.constructor | kernel/graphics/graphics.cpp:18-30 | the clip is the whole target |
| Graphics.Painter.RevertClipping | kernel/graphics/graphics.cpp:236-241 | the clip is the whole target again |
| Graphics.Painter.SetClipping | kernel/graphics/graphics.cpp:243-248 | the clip is the wanted area cut to the target |
| Graphics.Painter.DrawPixel | kernel/graphics/graphics.cpp:43-65 | exactly the pixel is blended, if the clip holds it |
| Graphics.Painter.DrawLine | kernel/graphics/graphics.cpp:71-104 | exactly the pixels of the line inside the clip are blended, each once; products fit 32 bits |
| Graphics.OnlyReachedPixelsChange | kernel/graphics/graphics.cpp:236-248 | over any run of clipping and drawing calls only pixels on a line inside the clip of that moment change, and none outside the target |
| Graphics.OpaqueLineAgain | kernel/graphics/graphics.cpp:71-104 | drawing an opaque line again from the other end changes nothing |

## Left out

- PNG, GIF, BMP and the other image formats of `binuser/stb_image.h`, and its SIMD paths: not compiled in.
- Colour conversion, the horizontal resampling filters and `stbi__compute_y`: finite formulas on bytes.
- Memory allocation, I/O callbacks and error texts: only the in-memory source is modelled, and allocation succeeds.
- BitReader.Reader.Reset: predictors, the MCU counter and the EOB run are reset by the loops that own them.
- BaselineScan.StartSegment: likewise.
- Block.ReadAc: promises nothing when the segment ends inside the step, because there the fast and the slow path pad differently.
- Block.ReadDcDiff: likewise, when the segment ends inside the difference.
- Block.StoreDc: likewise.
- Block.DecodeAc: likewise, when the segment ends inside the block.
- Block.DecodeBlock: likewise.
- Progressive.DecodeDc: likewise.
- Progressive.DecodeAcFirst: likewise.
- Progressive.AdvanceOver: likewise, when the correction bits run out.
- Progressive.CorrectBand: likewise.
- Progressive.DecodeAcRefine: likewise.
- BandScan.DecodeBandBlock: likewise.
- BaselineScan.DecodeUnit: likewise.
- BaselineScan.DecodeMcu: likewise.
- BaselineScan.NextInterval: exact with fewer than eight spare bits before the marker; with more the buffer may not have reached it.
- BaselineScan.ParseMcu: promises nothing about data that ends inside a block, or where a byte or more of spare bits stands before a marker.
- BaselineScan.ParseScan: likewise.
- BandIntervals.ParseBlock: likewise.
- BandIntervals.ParseBandScan: likewise.
- DcIntervals.ParseDcBlock: likewise.
- DcIntervals.ParseDcScan: likewise.
- PictureDecoder.OneScan: likewise, and for undefined tables and tables that hide a symbol.
- ProgressiveDecoder.ReadPass: likewise.
- ProgressiveDecoder.OnePass: likewise, and for a scan that names a component twice, where the code refines the same block twice; the coefficient planes are values, fetched before and stored after the pass.
- FileDecoder.ScanLoop: as `PictureDecoder.OneScan` and `ProgressiveDecoder.OnePass`.
- FileDecoder.DecodePicture: as `FileDecoder.ScanLoop`; the inverse DCT of the blocks is `Idct`.
- ProgressiveFile.FileRoundTrip: a band is written only when the scans before it have brought it to the level that it goes on from.
- Markers.Decoder.ScanHeader: keeps the selectors of every position; `Picture.Effective` then lets the last one of a component win, as the overwriting in the code does.
- BandScan.ParseBand: without restart intervals, which `BandIntervals` adds; works on a list of block values that are copied into a working block, so the placement in the coefficient plane is left to `ProgressivePicture`; promises nothing about truncated scans.
- Idct.Column: coefficients up to 2328 in magnitude; beyond that a later sum can overflow, which C leaves undefined.
- Idct.IdctBlock: likewise; returns the samples by row and column, whose place in the plane is `Geometry.Offset`.
- Markers.Decoder.DefineHuffman: records counts and values; the table built for acceptance is dropped, and `PictureDecoder.BuildTable` builds it again for the scan. Symbols beyond the defined ones are not kept.
- Markers.Decoder.DecodeScans: what the entropy decoder reads is a parameter, any function of the position, and the frame header has been read; `FileDecoder` runs the real one.
- UartProtocol.Handler.OnIrq: assumes that the rest of an event has arrived; a real read waits for it.
- Ps2Receiver.Receiver.ReceiveMessage: the three readings of the clock in one call are one number, and the bits of `message` above the frame, which stay zero, are not kept.
- InputServer.KernelSeesEverything: each callback is one step. The mouse and keyboard listeners run on threads of their own and a key event is two writes, so the statement holds while no other callback falls between them.
- SocRanges.SetupDeviceMapping: the view of the window is stated for sizes below 2^48 and a window that was vacant; `SocRanges.MappedIffSane` says what a larger size does.
- SocRanges.AcceptedIffFits: for sizes below 2^48; `SocRanges.CheckedExactly` is for all.
- SocRanges.DeviceAddressTranslates: for lists of sizes below 2^48, since behind a larger one offsets run backwards and ranges overlap; the range itself does not reach 2^64.
- PageTable.MapRange: a table is a value, so update in place, sharing of tables, allocation, the order of invalidation and the bit format of entries are not captured; a block translates as its stored address plus an offset, also when that address is not aligned to the block.
- PageUnmap.UnmapRange: on values as `PageTable.MapRange`; that a dropped table is given back to the allocator is not captured.
- Frames.ProcessFrameHeader: counts no RGB identifiers, and allocates nothing.
- `change_attr_range` and `clear_all` of kernel/memory/mmu_table.cpp; the former computes the end of an entry as `unmap_range` does.
- Graphics.Painter.DrawLine: endpoints at most 46340 apart in each direction, so that no product overflows 32 bits.
- `fill_rect`, `blit`, `clear` and text drawing; the mailbox, GPIO, timers and the other device drivers; processes, files and the user interface.
