# fbgrab capture pipeline in Dafny

fbgrab saves the current Linux framebuffer image as an uncompressed BMP file,
optionally shrunk by an integer resolution divisor. Its single routine, `main`
in `src/main.c`, has this pipeline:

1. It rejects pixel formats whose bits per pixel are not a multiple of 8.
2. It reads the raw frame.
3. It forces the alpha byte of every pixel to 0xff whenever the channel lengths do not add up to the bits per pixel (see Findings for the pseudocolour case).
4. It opens the output file for writing, creating it when missing.
5. It patches five little-endian fields of a BMP header template.
6. It writes the header, then the pixel array. For a divisor above 1 the pixel array is the top-left pixel of every r-by-r block. Each write is a loop that retries short writes and stops at the first error.

This project models those stages.

- `Bytes` holds bytes and the little-endian encodings `htole16` and `htole32`.
  - `LittleEndian`/`FromLittleEndian` encode and decode bytes. Truncation to 16 or 32 bits is written out as `%`.
  - `Overwrite` is a write of bytes at an offset. It models both `memcpy` into a buffer and `write(2)` at a file offset.
  - `Memcpy` is an in-place array copy proved against `Overwrite`.
- `Screen` holds the geometry record (`fb_var_screeninfo`), the byte-alignment gate, the frame size, the alpha offset, and the sizes of the decimated image.
- `Alpha` holds the in-place alpha loop `NormalizeAlpha`, proved against the function `Normalized`.
- `Header` holds the header builder `BuildHeader`, proved against `HeaderImage`, and lemmas about the fields it patches.
- `Sampler` holds the decimation loops. The nested loops are two methods, `CopySampledRows` and `CopySampledRow`, over arrays. They are proved against the reference definition `SampledRows`, which is a concatenation of rows of sampled pixels. The lemma `Decimation` states the byte-level meaning of that definition.
- `Output` holds the output file.
  - `OutputFile` is a class with contents, a file offset, an open flag, and the environment's script of `write(2)` results.
  - `WriteAll` is the `do … while (ret < len)` loop, proved against the recursive definition `Drain`.
- `Capture` holds the whole run. `Grab` gates, reads, normalises and opens the file. `WriteBitmap` then builds the header, writes it, decimates, writes the pixels and closes the file. `Expected` and `WrittenLength` say, as functions of the inputs, how a run ends and how much of the image reaches the file.

The header stores the width and height as `x / r` and `y / r`. The two size fields use the cropped quotients `(x - x % r) / r` and `(y - y % r) / r`. These are always equal (`Screen.CroppedIsQuotient`), so the header is internally consistent (`Header.HeaderConsistent`).

The output file is opened with `O_WRONLY | O_CREAT` and without `O_TRUNC`. The model therefore writes the image over whatever the file held before. A successful capture over a longer, older file leaves that file's tail behind the image (`Capture.FileAfterSuccess`).

## Model

| member | source | states |
|---|---|---|
| Screen.AlphaByteInPixel | src/main.c:121-130 | when the colour channels leave bits over in a byte-aligned pixel, the byte index alphaOffset/8 lies inside the pixel |
| Screen.AsWrittenGuardLeavesPixel | src/main.c:124-130 | under the source's guard `alphaOffset != bpp`, every format where the channels use more bits than the pixel has puts the forced byte outside its pixel |
| Screen.PseudocolourWritesPastFrame | src/main.c:124-130 | an 8-bit, one-pixel screen with 8/8/8 channel lengths passes the source's guard, and the byte the loop forces (index 3) lies past the one-byte frame |
| Screen.CroppedIsQuotient | src/main.c:153-159 | cropping the remainder before dividing gives the plain quotient: (n - n % r) / r == n / r |
| Screen.FullResolutionSize | src/main.c:106 | at resolution 1 the pixel-array size declared in the header (line 166) is the frame size (line 106) that the 1:1 branch writes (line 225) |
| Bytes.DecodeEncode | src/main.c:153-167 | a value below 256^n read back from its n-byte little-endian encoding is unchanged |
| Bytes.EncodeDecode | src/main.c:153-167 | encoding the value of a byte string in as many bytes gives the string back |
| Bytes.Le32Value | src/main.c:153-157 | a htole32 field reads back as its value modulo 2^32 |
| Bytes.Le32Signed | src/main.c:159-160 | a value in the signed 32-bit range, such as the negative height, reads back unchanged as an int32 |
| Bytes.Le16Value | src/main.c:163-164 | a htole16 field reads back as its value modulo 2^16 |
| Bytes.Memcpy | src/main.c:144 | the array afterwards holds the source bytes at the offset and its old bytes everywhere else |
| Bytes.OverwriteTwice | src/main.c:170-181 | writing a and then b right after a is one write of a + b |
| Bytes.OverwriteKeepsSlice | src/main.c:153-167 | a range a copy does not touch keeps its bytes |
| Alpha.NormalizeAlpha | src/main.c:121-134 | the frame afterwards is `Normalized` of the frame before: byte alphaOffset/8 of every pixel set to 0xff when the channels leave bits over, and nothing else changed |
| Alpha.NormalizedOpaque | src/main.c:127-131 | when the channels leave bits over (alphaOffset < bpp), after normalising every pixel p has frame[p * (bpp/8) + alphaOffset/8] == 0xff, and that index is inside the frame |
| Alpha.AlphaForcedKeepsColour | src/main.c:127-131 | every byte of a pixel other than the alpha byte is unchanged |
| Alpha.AlphaForcedOpaque | src/main.c:128-130 | the alpha byte of every whole pixel is 0xff |
| Alpha.NormalizedNoAlpha | src/main.c:124 | when red + green + blue lengths equal the bits per pixel the frame is left byte for byte as it was |
| Alpha.NormalizedIdempotent | src/main.c:128-131 | normalising twice is normalising once, since bytes already 0xff are left alone |
| Header.BuildHeader | src/main.c:143-167 | the header built by copying the template and patching five fields is `HeaderImage` |
| Header.HeaderFields | src/main.c:153-167 | bytes 0x02, 0x12, 0x16, 0x22 (4 each) and 0x1C (2) hold the encodings of file size, width x/r, height -(y/r), pixel-array size and bits per pixel |
| Header.HeaderKeepsTemplate | src/main.c:143-167 | every header byte outside the five patched fields is the template's |
| Header.HeaderFieldValues | src/main.c:153-167 | the fields read back as pixel-array size + header length, x/r and the pixel-array size modulo 2^32, -(y/r) as an int32, and bpp modulo 2^16 |
| Header.HeaderConsistent | src/main.c:153-166 | the declared file size is the declared pixel-array size plus the header length, and the pixel-array size is declared width × -(declared height) × (declared bpp / 8) |
| Header.SizesAgree | src/main.c:153-156 | the pixel-array size computed from cropped dimensions equals (x/r) × (y/r) × (bpp/8), and x/r fits 32 bits |
| Sampler.CopySampledRow | src/main.c:194-199 | the inner loop writes, from the buffer offset on, the sampled row: source pixels 0, r, 2r, … of row j |
| Sampler.CopySampledRows | src/main.c:193-201 | the outer loop fills the whole buffer with `SampledRows`, the sampled rows 0, r, 2r, … one after another |
| Sampler.Decimate | src/main.c:186-201 | for r > 1 the new buffer is `PixelArray` of the frame |
| Sampler.Decimation | src/main.c:193-198 | the pixel array is (x/r)(y/r)(bpp/8) bytes long, and byte ((oj·(x/r) + oi)·(bpp/8) + b) is frame byte ((oj·r)·x + oi·r)·(bpp/8) + b for every oj < y/r, oi < x/r, b < bpp/8 |
| Sampler.SampledRowAt | src/main.c:194-198 | byte c·(bpp/8) + b of a sampled row is byte b of source pixel c·r of that row |
| Sampler.SampledRowsAt | src/main.c:193-198 | byte b of output pixel (oj, oi) is byte b of source pixel (oj·r, oi·r) |
| Sampler.SampledRowSnoc | src/main.c:196-198 | a sampled row one pixel longer is the shorter row followed by the next sampled pixel |
| Sampler.PixelArrayLength | src/main.c:220-235 | the pixel array has the size the header declares, and at resolution 1 it is the frame itself |
| Sampler.ConcatAt | src/main.c:193-198 | byte j·len + c of n concatenated len-byte blocks is byte c of block j |
| Output.Accepted | src/main.c:173 | one write(2) returns -1 on error; otherwise it returns the scripted count, which may be 0, capped at the requested length; once the script is exhausted it returns the whole request |
| Output.DrainRetriesAfterZero | src/main.c:171-181 | a write that returns 0 on an unfinished buffer adds nothing to the count, and the loop writes the same bytes again |
| Output.ZeroThenError | src/main.c:171-181 | a 0 followed by an error on a 1-byte buffer is a failed write of nothing, as in the source |
| Output.OutputFile.Open | src/main.c:136-141 | opening succeeds exactly when open(2) is allowed, for a missing or an existing file; a missing file is created empty, an existing one keeps its bytes, the offset starts at 0, and a failure changes nothing |
| Output.OutputFile.Write | src/main.c:173 | the accepted prefix of the data is written at the current offset, which moves past it; an error changes nothing |
| Output.OutputFile.Close | src/main.c:176 | the descriptor is closed; the file's bytes stay |
| Output.Drain | src/main.c:170-181 | the loop never writes more than the buffer, and when it ends without error it has written all of it |
| Output.DrainNoErrors | src/main.c:171-181 | with no failing write the loop writes everything |
| Output.DrainFailsOnError | src/main.c:173-179 | the loop stops at the first negative result: the failing write is the last result it used, every earlier one was non-negative, and the rest of the script is untouched |
| Output.WriteAll | src/main.c:203-215 | the loop's outcome, count and remaining script are `Drain`'s, and the file holds the written prefix of the buffer from the offset it started at |
| Capture.Grab | src/main.c:99-241 | the status is `Expected`: alignment gate, then read failure, then create failure, then write failure; before the file is opened it is untouched; afterwards it holds the written prefix of header + pixels; on success it holds the whole image; the file is always closed |
| Capture.WriteBitmap | src/main.c:143-235 | the image, header then pixel array, is written from offset 0, and the method succeeds exactly when both write loops finish |
| Capture.WrittenIsImage | src/main.c:170-235 | success means the whole image was written, and a write failure leaves a strict prefix of it unless the pixel array is empty |
| Capture.NoErrorsSucceeds | src/main.c:170-235 | with no failing write, a byte-aligned, readable frame into an openable file is captured successfully |
| Capture.WriteAfter | src/main.c:203-215 | the pixels written right after the header make the file a prefix of header + pixels |
| Capture.FileAfterSuccess | src/main.c:136 | the file after success is the image, followed by the tail of an older, longer file |
| Capture.FourByTwoPixels | src/main.c:186-201 | a 4×2 screen of 32-bit pixels with 8/8/8 channels at resolution 2 gives an 8-byte pixel array: source pixels 0 and 2 of the top row with alpha byte 0xff |
| Capture.FourByTwoHeader | src/main.c:153-167 | the same screen's header declares width 2, height -1, 32 bits per pixel, 8 pixel bytes and a file of 8 bytes plus the header |

## Left out

- Command-line parsing with `getopt_long` and `atoi`, and the usage text. The resolution is an input with `resolution >= 1`, which the parser guarantees.
- Opening the device, clearing `O_NONBLOCK` and the `FBIOGET_VSCREENINFO` query are device calls. The geometry is an input, and failures of these calls are not modelled.
- A short `read` of the frame is not detected by the source. The model reads the first frame-size bytes of the device memory, and requires that memory to be at least that long. Only a failing read is modelled (`readFails`).
- The file's `0700` permission mode, `fsync`, closing the device, `malloc`/`free` and the `strerror` diagnostics are not modelled. The exit codes 1 and 0 become `Failure(…)` and `Success`.
- Machine-width arithmetic is unbounded in the model. The source computes the frame size as a 32-bit product and `pixIdx` as a 32-bit `uint`. Only the header fields' truncation to 32 and 16 bits is written out.
- Header.HeaderConsistent: stated only when the pixel-array size plus the header length, the width and the height fit their fields, because the source's 32-bit arithmetic would wrap otherwise.
- The template bytes `bmp_header`/`bmp_header_length` come from a header file that is not part of this model. The template is a parameter at least 0x26 bytes long.
- Output.Accepted: the script of results is finite, and every write after it has run out completes. A run whose writes keep returning 0 forever spins in the source's loop. That livelock is not modelled.
- Alpha.NormalizeAlpha: runs the loop under the corrected guard alphaOffset < bpp. For formats whose channels claim more bits than the pixel has, the source writes outside the pixel (see Findings), and the model leaves the frame unchanged.

## Findings

| source | as written | input that shows it | evidently intended | confidence | as-written member | corrected member |
|---|---|---|---|---|---|---|
| src/main.c:124-130 | the alpha loop runs whenever `alphaOffset != bits_per_pixel` and writes byte `i + alphaOffset / 8` of each pixel | an 8-bit pseudocolour screen, one pixel, red/green/blue lengths 8/8/8: alphaOffset is 24, and the loop writes `framePtr[3]` into a 1-byte buffer | force alpha only when the channels leave bits over, alphaOffset < bits_per_pixel, so the byte stays inside its pixel | not executed | Screen.PseudocolourWritesPastFrame | Alpha.NormalizeAlpha |
