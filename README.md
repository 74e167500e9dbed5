# Q8.8 bilinear downscaler and TCL client encoder, in Dafny

This project models two parts of an image-downscaling accelerator project
and proves properties of them.

1. **The reference downscaler** (`Modelo_Referencia/ref_bilinear.hpp`).
   It shrinks a grey, row-major 8-bit image by a scale, using Q8.8
   fixed-point bilinear interpolation. Every output pixel `(ox, oy)` is
   mapped to the source position `(ox * inv_scale_q, oy * inv_scale_q)` in
   Q8.8. That position is split into an integer part (`>> 8`) and a fraction
   (`& 0xFF`). Four rounded weights are built from the fraction, four
   edge-clamped neighbours are read, and the weighted sum is rounded and
   clamped to a byte. Two drivers do this:
   - the sequential driver, pixel by pixel;
   - the "SIMD" driver, which walks each output row in chunks of `N`
     pixels and charges one memory read per distinct neighbour of a chunk.

   Both drivers add operation counts to a `Counters` record.
   - `Bilinear.dfy` holds the pure parts: `clamp_int`, `pix_get_clamp`,
     `out_dims`, the fixed-point inverse scale, the weights, one output
     pixel (`Interpolate`), the whole output image as a function
     (`Resample`), and lemmas about them.
   - `Resamplers.dfy` holds the neighbour read sets, the chunk walk and its
     read counts, the `Counters` class, and the two drivers as methods over
     an output `array`. Each driver is proved to fill the array with
     `Resample` and to add exact amounts to the counters.

2. **The command encoder of the TCL client** (`Comunicacion/client.py`).
   The client turns textual commands into 32-character strings of `'0'`
   and `'1'` (bit 31 first). It also sends the image four bytes per word
   and reads the downscaled image back four bytes per reply.
   - `BitStrings.dfy` models Python's `format(v, '0Nb')` and `int(s, 2)`,
     with their round trips.
   - `Commands.dfy` models the register table, `str.split()`, `int()`,
     `process_image_config_command`, the fixed command words and
     `convert_command_to_binary`.
   - `PixelTransfer.dfy` models the packing loop of `write_pixels` and the
     decoding loop of READ_IMAGE. It proves that reading back echoed words
     gives back the image.

The scale is a rational `num/den` (`num, den > 0`) rather than a `double`.
`OutDims` takes the exact floor of `w * num / den`, at least 1.
`InvScaleQ` rounds `256 * den / num` half away from zero, as `std::llround`
does. Python's float parsing of the IMAGE_CONFIG scale is a parameter
`percent: string -> Option<int>`. A Python call either returns a string,
returns None, or raises; `Commands.Outcome` names the three.

## Model

| member | source | states |
|---|---|---|
| Bilinear.Clamp | Modelo_Referencia/ref_bilinear.hpp:34-38 | With lo <= hi the result lies in [lo, hi]; a value already in range comes back unchanged; the result is always v, lo or hi. |
| Bilinear.PixIndex | Modelo_Referencia/ref_bilinear.hpp:41-44 | The index read by `pix_get_clamp` always lies in [0, w*h). |
| Bilinear.PixIndexCoords | Modelo_Referencia/ref_bilinear.hpp:42-44 | The index read is at row y clamped to [0, h-1] and column x clamped to [0, w-1]. |
| Bilinear.PixGetClampEdges | Modelo_Referencia/ref_bilinear.hpp:41-45 | Inside the grid the read index is y*w + x. Any y >= h reads the same sample as y = h-1, any y < 0 the same as y = 0, and likewise for x against w-1 and 0. |
| Bilinear.PixGetClamp | Modelo_Referencia/ref_bilinear.hpp:41-45 | Reads the input sample at row y clamped to [0, h-1] and column x clamped to [0, w-1]. Its partners PixIndexCoords and PixGetClampEdges state where the read lands inside and outside the grid. |
| Bilinear.RowMajor | Modelo_Referencia/ref_bilinear.hpp:44 | Row-major index y*w + x lies in the grid, and dividing it by w gives back y and x. |
| Bilinear.OutDims | Modelo_Referencia/ref_bilinear.hpp:48-52 | Both output sides are at least 1. A scale of at most 1 never enlarges a side. Scale 1 returns the input size. |
| Bilinear.OutDimsFloor | Modelo_Referencia/ref_bilinear.hpp:49-50 | Away from the lower clamp, each side d is the floor of n*num/den: d*den <= n*num < (d+1)*den. |
| Bilinear.ScaledFloor | Modelo_Referencia/ref_bilinear.hpp:49-50 | The floor of n*num/den is bracketed as a floor should be, is at most n when num <= den, and is n when num == den. |
| Bilinear.InvScaleQ | Modelo_Referencia/ref_bilinear.hpp:68-69 | The Q8.8 inverse scale is at least 256 (1.0) for a scale of at most 1, and exactly 256 at scale 1. |
| Bilinear.InvScaleQNearest | Modelo_Referencia/ref_bilinear.hpp:69 | The inverse scale is within one half of 256*den/num, which is what `llround` promises. |
| Bilinear.NearestQuotient | Modelo_Referencia/ref_bilinear.hpp:161 | The rounded quotient used for both drivers' inverse scale is nearest to 256*den/num, and at least 256 when num <= den. |
| Bilinear.Products | Modelo_Referencia/ref_bilinear.hpp:82-85 | For fx, fy in 0..255 each product t00..t11 lies in [0, 65536]. The column sums t00+t10 and t01+t11 are 256*(256-fx) and 256*fx, so all four add up to 65536. |
| Bilinear.RoundedPair | Modelo_Referencia/ref_bilinear.hpp:87-90 | Two products summing to 256*k round, each by (t+128)>>8, to k or k+1 together. |
| Bilinear.RemaindersAgree | Modelo_Referencia/ref_bilinear.hpp:82-88 | t00 rounds up by exactly half (remainder 128 mod 256) exactly when t01 does, so the two column pairs of weights gain a unit together. |
| Bilinear.WeightsOf | Modelo_Referencia/ref_bilinear.hpp:82-90 | Each rounded weight lies in 0..256. The two column pairs round up together or not at all, so the weights sum to 256 or to 258, never 257. A zero fraction gives weights (256, 0, 0, 0). |
| Bilinear.AccumulateBounds | Modelo_Referencia/ref_bilinear.hpp:105-114 | With samples in [lo, hi] and non-negative weights, the accumulator lies between lo and hi times the weight sum. |
| Bilinear.Blend | Modelo_Referencia/ref_bilinear.hpp:81-119 | The sample computed from four neighbours and a fraction is a byte (0..255), as the final clamp guarantees. BlendBounds bounds it by the neighbours. |
| Bilinear.Interpolate | Modelo_Referencia/ref_bilinear.hpp:74-119 | The output sample at a Q8.8 source position: its integer part picks the four clamped neighbours, its fraction the weights. InterpolateBounds and InterpolateAtGrid state its bounds and its value at integral positions. |
| Bilinear.BlendBounds | Modelo_Referencia/ref_bilinear.hpp:82-119 | The output sample is at least the darkest neighbour and at most two above the brightest. With no fraction it equals p00. |
| Bilinear.InterpolateBounds | Modelo_Referencia/ref_bilinear.hpp:74-119 | The same bounds for the pixel at a Q8.8 source position, over its four clamped neighbours; at an integral position it is neighbour (iy, ix). |
| Bilinear.Grid | Modelo_Referencia/ref_bilinear.hpp:65 | The output image of rows of w pixels has w*rows samples. |
| Bilinear.GridAt | Modelo_Referencia/ref_bilinear.hpp:120 | Output pixel (y, x) is stored at index y*w + x, inside the image. |
| Bilinear.Resample | Modelo_Referencia/ref_bilinear.hpp:65-120 | The whole output image has wOut*hOut samples. ResampleAt states that sample oy*wOut + ox is the pixel interpolated at (ox*q, oy*q). |
| Bilinear.ResampleAt | Modelo_Referencia/ref_bilinear.hpp:65-120 | The resampled image has wOut*hOut samples. Sample oy*wOut + ox is the pixel interpolated at (ox*q, oy*q). |
| Bilinear.InterpolateAtGrid | Modelo_Referencia/ref_bilinear.hpp:74-119 | At source position (x*256, y*256) the interpolated pixel is input sample (y, x). |
| Bilinear.ResampleIdentity | Modelo_Referencia/ref_bilinear.hpp:62-124 | At inverse scale 256 (scale 1) with equal sizes the output is the input, byte for byte. |
| Bilinear.IdentityRows | Modelo_Referencia/ref_bilinear.hpp:71-123 | At inverse scale 256 every output row holds the input row of the same number. |
| Bilinear.IntegralStep | Modelo_Referencia/ref_bilinear.hpp:74-120 | At an integral inverse scale k (256*k in Q8.8), output pixel (oy, ox) is input sample (k*oy, k*ox). |
| Bilinear.HalfScale | Modelo_Referencia/ref_bilinear.hpp:48-52 | At scale 1/2 the output sides are half the input sides (at least 1) and the inverse scale is 2.0 = 512, so output pixel (oy, ox) stays inside the input at (2*oy, 2*ox). |
| Resamplers.NeighboursSize | Modelo_Referencia/ref_bilinear.hpp:139-142 | The four neighbours of one source position are four distinct coordinates. |
| Resamplers.Neighbours | Modelo_Referencia/ref_bilinear.hpp:137-142 | The four coordinates (iy, ix), (iy, ix+1), (iy+1, ix), (iy+1, ix+1) of one Q8.8 source position. NeighboursSize proves them distinct. |
| Resamplers.ReadSetMembers | Modelo_Referencia/ref_bilinear.hpp:133-143 | A coordinate is in the collected set exactly when it is a neighbour of one of the source positions. |
| Resamplers.ReadSet | Modelo_Referencia/ref_bilinear.hpp:133-143 | The union of the neighbours of every source position. ReadSetMembers and ReadSetSize characterise its members and its size. |
| Resamplers.ReadSetSize | Modelo_Referencia/ref_bilinear.hpp:133-143 | For non-empty input the set has between 4 and 4 times as many coordinates as positions, and exactly 4 for one position. |
| Resamplers.CollectUniqueReads | Modelo_Referencia/ref_bilinear.hpp:129-144 | The loop leaves the set equal to the union of the four neighbours of every input, with size between 4 and 4 times the input count. |
| Resamplers.ChunksCover | Modelo_Referencia/ref_bilinear.hpp:164-225 | The chunks of a row visit every column from ox to wOut-1 exactly once, in order. |
| Resamplers.Chunks | Modelo_Referencia/ref_bilinear.hpp:164-224 | The chunk walk of one row: (ox, min(N, wOut-ox)), then the walk from the column after. ChunksCover, ChunksSizes and WalkStep state what it covers, its chunk sizes, and that SimdRow follows it. |
| Resamplers.ChunksSizes | Modelo_Referencia/ref_bilinear.hpp:166 | Every chunk has between 1 and N pixels, and all but the last have exactly N. |
| Resamplers.RangeSplit | Modelo_Referencia/ref_bilinear.hpp:224 | The columns from a to b are those from a to m followed by those from m to b. |
| Resamplers.ChunkReadSetIs | Modelo_Referencia/ref_bilinear.hpp:168-178 | The read set of a chunk, as the union over its pixels, is the set the collection loop builds from the chunk's source positions. |
| Resamplers.RowReadsBound | Modelo_Referencia/ref_bilinear.hpp:165-180 | The reads charged for the rest of a row are at most 4 per pixel, and exactly 4 per pixel when N is 1. |
| Resamplers.ImageReadsBound | Modelo_Referencia/ref_bilinear.hpp:163-180 | The reads the chunked driver charges are at most 4*wOut*hOut (the sequential count), and equal it when N is 1. |
| Resamplers.RowReadsStep | Modelo_Referencia/ref_bilinear.hpp:165-180 | The reads of a row from ox on are those of the chunk at ox plus those of the rest. |
| Resamplers.RowReads | Modelo_Referencia/ref_bilinear.hpp:165-180 | The reads charged for row oy from column ox on. RowReadsChunks proves it is the cost of each chunk of Chunks, and RowReadsBound bounds it by 4 per pixel. |
| Resamplers.RowReadsChunks | Modelo_Referencia/ref_bilinear.hpp:164-180 | The reads charged for a row are the sum of the distinct-neighbour costs of exactly the chunks the walk lists, one per chunk. |
| Resamplers.WalkStep | Modelo_Referencia/ref_bilinear.hpp:165-224 | Where the rest of a walk starts at column ox, its next chunk is (ox, min(N, wOut-ox)) and the rest of the walk continues after it. SimdRow uses this to show that the i-th chunk it processes is the i-th chunk of Chunks(0, wOut, N). |
| Resamplers.ImageReadsStep | Modelo_Referencia/ref_bilinear.hpp:163 | The reads of rows + 1 rows are those of the first rows plus those of the next row. |
| Resamplers.ImageReads | Modelo_Referencia/ref_bilinear.hpp:163-180 | The reads charged for the first rows of the output, row by row. ImageReadsBound bounds it by 4*wOut*rows, with equality when N is 1. |
| Resamplers.Counters.constructor | Modelo_Referencia/ref_bilinear.hpp:26-31 | A fresh counter record holds four zeros. |
| Resamplers.Sequential | Modelo_Referencia/ref_bilinear.hpp:58-125 | The output is the resampled image of OutDims size at inverse scale InvScaleQ. muls, adds, memReads and outputs grow by exactly 8n, 3n, 4n and n for n = wOut*hOut, and are never reset. |
| Resamplers.SequentialRows | Modelo_Referencia/ref_bilinear.hpp:71-123 | The nested loops fill the whole output with Grid and add 8, 3, 4 and 1 per output pixel to the counters. |
| Resamplers.SequentialRow | Modelo_Referencia/ref_bilinear.hpp:72-122 | One row of the inner loop writes row oy and keeps earlier rows; the counters grow by 8, 3, 4 and 1 per pixel. |
| Resamplers.OutputPixel | Modelo_Referencia/ref_bilinear.hpp:74-119 | One pixel computation returns the interpolated sample and adds 8 multiplications and 3 additions. |
| Resamplers.Simd | Modelo_Referencia/ref_bilinear.hpp:151-228 | N below 1 counts as 1. The output is byte-identical to the sequential one. muls, adds and outputs grow as in the sequential driver. memReads grows by the distinct-neighbour count of every chunk, never by more than 4*wOut*hOut (the sequential count), and by exactly that when N <= 1. |
| Resamplers.SimdRows | Modelo_Referencia/ref_bilinear.hpp:163-226 | The row loop fills the whole output with Grid and charges the read count of every chunk of every row. |
| Resamplers.SimdRow | Modelo_Referencia/ref_bilinear.hpp:164-225 | The chunk loop over one row writes that row and charges the read counts of the row's chunks. Its i-th iteration processes chunk i of Chunks(0, wOut, N). |
| Resamplers.SimdChunk | Modelo_Referencia/ref_bilinear.hpp:166-224 | One chunk writes its pixels, keeps earlier ones, and charges its distinct neighbours to memReads. |
| Resamplers.ChunkPixels | Modelo_Referencia/ref_bilinear.hpp:183-222 | The per-output loop of a chunk writes each interpolated pixel, charges no memory reads, and adds 8, 3 and 1 per pixel to the other counters. |
| Resamplers.ChunkPixel | Modelo_Referencia/ref_bilinear.hpp:184-221 | One output pixel of a chunk: the output changes only at its index, where it becomes the interpolated pixel. muls, adds and outputs grow by 8, 3 and 1. |
| BitStrings.ParseBin | Comunicacion/client.py:202-205 | `int(s, 2)` succeeds exactly on a non-empty string of binary digits, and the value is below 2 to the length. |
| BitStrings.BitsConcat | Comunicacion/client.py:90 | A concatenation is all binary digits exactly when both parts are. |
| BitStrings.ValueBound | Comunicacion/client.py:202-205 | The value of n binary digits is below 2^n. |
| BitStrings.BinaryValue | Comunicacion/client.py:83-87 | The binary digits of v denote v, and fit in n digits exactly when v < 2^n. |
| BitStrings.ZerosValue | Comunicacion/client.py:83-87 | Leading zeros do not change a binary value. |
| BitStrings.ZeroValueZeros | Comunicacion/client.py:83-87 | A string of binary digits with value 0 is all zeros. |
| BitStrings.FormatFits | Comunicacion/client.py:83-87 | `format(v, '0Nb')` of 0 <= v < 2^N is N binary digits whose value is v. |
| BitStrings.ParseFormat | Comunicacion/client.py:202-205 | Parsing a formatted non-negative value gives it back. |
| BitStrings.FormatValue | Comunicacion/client.py:83-87 | Formatting the value of N binary digits to width N gives back the same digits. |
| BitStrings.Format | Comunicacion/client.py:83-87 | `format(v, '0Nb')`: the binary digits of v left-padded with zeros to N, with a leading minus for negative v. FormatFits, ParseFormat and FormatValue are its round trips. |
| Commands.RegAddresses | Comunicacion/client.py:8-26 | Every address is 8 binary digits, and no register name is also an address. |
| Commands.RegsInjective | Comunicacion/client.py:8-26 | No two registers share an address. |
| Commands.Token | Comunicacion/client.py:80 | A token is the longest whitespace-free prefix. |
| Commands.Split | Comunicacion/client.py:80 | `str.split()` yields only non-empty tokens without whitespace. |
| Commands.SplitJoin | Comunicacion/client.py:80 | Splitting the words of a list joined by single spaces gives back the list, when each word is non-empty and has no whitespace. |
| Commands.SplitConcat | Comunicacion/client.py:80 | Concatenating the tokens of `str.split()` gives the string with its whitespace removed: no character is lost, added or reordered. |
| Commands.ParseInt | Comunicacion/client.py:83-85 | `int()` succeeds exactly on an optional sign followed by at least one decimal digit. |
| Commands.DigitsValue | Comunicacion/client.py:83-85 | The decimal digits of n have value n. |
| Commands.ParseDecimal | Comunicacion/client.py:83-85 | `int()` of `str(v)` is v, for every integer v, and `str(v)` is a non-empty token without whitespace. |
| Commands.DecodeEncode | Comunicacion/client.py:79-90 | For fields that fit, the configuration word is 32 characters, binary after mode and debug, and decodes to the same fields. |
| Commands.Layout | Comunicacion/client.py:90 | Bit 31 is 1, bits 30 and 29 are mode and debug, and the width, height, N and scale fields sit at bits 28-20, 19-11, 10-8 and 7-0. |
| Commands.EncodeDecode | Comunicacion/client.py:79-90 | Every 32-character word that decodes is the encoding of its fields, and those fields fit. |
| Commands.FieldRoundTrip | Comunicacion/client.py:83-87 | The value of a bit field fits the field, and formatting it to the field's width gives the field back. |
| Commands.ImageConfigOutcome | Comunicacion/client.py:80-94 | IMAGE_CONFIG returns None exactly when the command is not 7 tokens. With 7 tokens it raises exactly when a numeric field does not parse. |
| Commands.ImageConfigLayout | Comunicacion/client.py:81-91 | A 7-token command with one-character mode and debug and fields that fit gives the 32-bit word that decodes back to those fields. |
| Commands.ImageConfig | Comunicacion/client.py:78-94 | `process_image_config_command`: None unless the command has 7 tokens, a raise when a numeric field does not parse, otherwise the word "1", mode, debug and the formatted fields. ImageConfigOutcome and ImageConfigLayout state its outcomes and layout. |
| Commands.ImageConfigOfFields | Comunicacion/client.py:78-94 | The command `IMAGE_CONFIG w h s m d n` built from a configuration that fits converts to the encoding of that configuration, and that word decodes back to it. |
| Commands.FixedWords | Comunicacion/client.py:134-151 | START/STEP is "1" and 31 zeros, and the acknowledge word is "0" and 31 ones. The fixed words are 32 binary characters, distinct from each other and from every READ_REG word. START/STEP is the configuration word with all fields zero. |
| Commands.ConvertOutcome | Comunicacion/client.py:140-163 | An empty command raises. START/STEP gives the start word and IMAGE_CONFIG gives the configuration outcome. WRITE_PIXELS and unknown commands give None. READ_IMAGE starts the read-back exchange. |
| Commands.ConvertCommand | Comunicacion/client.py:140-236 | `convert_command_to_binary`: the word or outcome each command gives. ConvertOutcome, FixedWords and ReadRegOutcome state them. |
| Commands.ReadRegOutcome | Comunicacion/client.py:165-186 | READ_REG gives a word exactly for one operand that is a register name or address. The word is 32 binary characters: "01", 22 zeros, then the address. |
| Commands.ReadRegByNameOrAddress | Comunicacion/client.py:171-184 | A register read by name or by its address sends the same word, and different registers send different words. |
| Commands.ReadReg | Comunicacion/client.py:165-186 | READ_REG: None unless there is one operand that is a register name or address; otherwise "01", 22 zeros, and the address. ReadRegOutcome states it. |
| PixelTransfer.GroupAt | Comunicacion/client.py:110-117 | Every group holds exactly 4 bytes. |
| PixelTransfer.WritePixels | Comunicacion/client.py:96-129 | With no image the result is None. Otherwise it is the list of packed words, one per group of four bytes, the last group zero-padded. |
| PixelTransfer.PackedIs | Comunicacion/client.py:110-122 | A list with one packed word per group, in order, is the packed image. |
| PixelTransfer.PackedShape | Comunicacion/client.py:105-122 | There are ceil(len/4) words of exactly 32 binary characters. Every group but the last holds 4 image bytes. The last holds the rest followed by zeros. |
| PixelTransfer.PackLayout | Comunicacion/client.py:120 | A packed group is 8 binary characters per byte, byte k at characters 8k..8k+7. |
| PixelTransfer.PackAt | Comunicacion/client.py:120 | Byte k of a group is characters 8k..8k+7 of its word. |
| PixelTransfer.Pack | Comunicacion/client.py:120 | Eight binary digits per byte, first byte first. PackLayout and UnpackPack state its layout and its inverse. |
| PixelTransfer.Packed | Comunicacion/client.py:110-122 | One packed word per group of four bytes, in order. PackedShape and PackedIs state its shape and WritePixels builds it. |
| PixelTransfer.UnpackPack | Comunicacion/client.py:202-207 | Unpacking the word of four bytes gives back those four bytes. |
| PixelTransfer.UnpackBytes | Comunicacion/client.py:202-207 | k parsed bytes when all parse. |
| PixelTransfer.UnpackWord | Comunicacion/client.py:202-207 | A reply that unpacks gives exactly 4 bytes. |
| PixelTransfer.UnpackWordDefined | Comunicacion/client.py:202-205 | A reply unpacks exactly when it is longer than 24 characters and its first 32 characters are binary digits. |
| PixelTransfer.UnpackBytesDefined | Comunicacion/client.py:202-205 | The first k slices parse exactly when the reply is longer than 8(k-1) and its first 8k characters are binary digits. |
| PixelTransfer.Received | Comunicacion/client.py:200-221 | n replies that unpack give 4n bytes. |
| PixelTransfer.ReceivedStep | Comunicacion/client.py:213-221 | One more reply that unpacks appends its four bytes. |
| PixelTransfer.ReceivedStaysNone | Comunicacion/client.py:213-218 | Once a reply fails to parse, no later count of replies succeeds. |
| PixelTransfer.Exchanges | Comunicacion/client.py:198-221 | READ_IMAGE makes at least one exchange and enough for numPixels bytes, and stops as soon as it has them. |
| PixelTransfer.ExchangesUnique | Comunicacion/client.py:208-211 | The exchange count is the only count with that stopping property. |
| PixelTransfer.ExchangesAtLeast | Comunicacion/client.py:211 | While fewer than numPixels bytes have arrived the loop asks again. |
| PixelTransfer.ReadImage | Comunicacion/client.py:198-224 | The decoding loop returns the bytes of all exchanges cut to numPixels, or None when a reply does not parse. A result has exactly numPixels bytes. |
| PixelTransfer.ReadImageResult | Comunicacion/client.py:198-224 | The image READ_IMAGE builds: a result has exactly numPixels bytes, the received bytes cut to numPixels; None when a reply does not unpack. |
| PixelTransfer.ReplyFails | Comunicacion/client.py:202-218 | A reply the loop reads that does not parse makes READ_IMAGE fail. |
| PixelTransfer.ReadImageDone | Comunicacion/client.py:211-224 | When the loop stops after n exchanges, the result is the first numPixels received bytes. |
| PixelTransfer.EchoPrefix | Comunicacion/client.py:200-221 | Replies that echo the packed groups give back the zero-padded image, group by group. |
| PixelTransfer.GroupInPadded | Comunicacion/client.py:113-117 | Each group is the matching slice of the image padded with zeros to a multiple of 4. |
| PixelTransfer.EchoRoundTrip | Comunicacion/client.py:105-224 | If every READ_IMAGE reply echoes the word `write_pixels` built for that group, the image read back equals the image sent. |

## Left out

- The floating-point scale is not modelled. `out_dims` and `inv_scale_q` take a rational num/den. `OutDims` is the exact floor, so the `1e-9` added at lines 49-50 has no counterpart. `InvScaleQ` is the exact rounding of 256*den/num, not a rounding of a `double`.
- Resamplers.Sequential, Resamplers.Simd: integers are unbounded. The 64-bit wrap-around of the `uint64_t` counters and the 32-bit overflow of `ox * inv_scale_q` on huge images are not modelled.
- Resamplers.CollectUniqueReads: returns the set as a value. The caller-owned `std::set` that the source clears and refills is a fresh local set in each chunk, so clearing it changes nothing visible.
- Resamplers.Simd: the `std::vector` of source coordinates is a sequence built in the chunk loop, not a reserved vector.
- `ref_bilinear.cpp`'s `main` (file reads and writes, calls to Python scripts), `visualize.py` and `generate_raw.py` are file I/O and image-format conversion. They are not part of this model.
- The socket, `send` and `readline` of `client.py` are not modelled. `write_pixels` returns the words it would send. The replies READ_IMAGE reads are a function from the exchange number to the reply string.
- `load_image` (PIL, tkinter), the PNG save in READ_IMAGE, `help`, the interactive command loop and the connection fields of `TCLClient` are I/O. They are left out.
- Commands.ImageConfig: the scale token's `int(float(s) * 100)` is a parameter `percent`, because float parsing is not modelled. READ_IMAGE's `int(self.width * self.scale)` is float arithmetic, so the pixel count is a parameter of PixelTransfer.ReadImage.
- Commands.ParseInt: models `int()` on one token as an optional sign and ASCII decimal digits. Underscores between digits and non-ASCII Unicode digits are treated as failures.
- BitStrings.ParseBin: models `int(s, 2)` on the slices of a reply as binary digits only. A sign, a `0b` prefix, underscores or surrounding whitespace inside a slice are treated as failures. Python would accept some of these.
- PixelTransfer.ReadImage: when a reply does not parse, Python raises and the image built so far is lost. The model returns None.
- The mode and debug tokens of IMAGE_CONFIG are copied into the word as given, as the source does. Commands.ImageConfigLayout states the 32-bit layout only for one-character tokens.
