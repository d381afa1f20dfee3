# kitty graphics-protocol writer, modelled in Dafny

`fprint_rgba32` in kitty/print-graphics.h sends a width x height image of
32-bit RGBA pixels to a terminal using the kitty graphics protocol:

- it reads the pixel buffer as `width * height * 4` raw bytes;
- it cuts the bytes into chunks of at most 3072 bytes;
- it base64-encodes each chunk into a 4096-byte scratch buffer;
- it writes each chunk as one escape-sequence frame.

The first frame's header is `ESC _ G a=T,f=32,s=<width>,v=<height>,m=<more>;` and
later headers are `ESC _ G m=<more>;`. `<more>` is `1` while more frames follow
and `0` on the last one. Every frame ends with `ESC \`.

The project has two modules:

- `Base64` (base64.dfy) models the `base64_encode8` primitive that the writer calls.
  kitty/base64.h is not part of this model, so the primitive is taken to be the
  standard padded base64 of RFC 4648 section 4, without line breaks.
  A decoder is included so that the encoding can be proved decodable.
- `KittyGraphics` (print_graphics.dfy) models the writer. `Chunks` slices the
  image and `Frames` says which frames are sent for an image. `FprintRgba32` is
  the loop, with its `offset`, its `first` flag, the `b64_buf` scratch array and
  the in/out `b64_len`. It is proved to emit exactly the writes that `Frames` calls for.

The output stream is modelled as the sequence of writes the function makes,
one `Token` per call: the header (`fprintf`), the payload (`fwrite`) and the
terminator (`fputs`). `TokenText` and `StreamText` give the characters of
those writes, using `HeaderText` (with the `%u` decimal rendering of width and
height) and `FrameText`; `EmitText` proves that the writes put each frame's
text on the stream, one frame after the other.

## Model

| member | source | states |
|---|---|---|
| `KittyGraphics.FprintRgba32` | kitty/print-graphics.h:14-36 | The loop reads exactly the first width*height*4 bytes. Its writes, in order, are header, payload and terminator for each frame of `Frames` over those bytes, so the characters written are the frames' texts in order. The loop invariants tie `offset` to the number of frames written and `first` to none having been written yet. |
| `KittyGraphics.Chunks` | kitty/print-graphics.h:21-26 | The image is cut front to back into chunks of min(remaining, 3072) bytes. There are no chunks exactly when the image is empty, and every chunk holds 1 to 3072 bytes. |
| `KittyGraphics.FrameHeader` | kitty/print-graphics.h:27-32 | Frame i of n gets the full header only when i is 0, and that header carries width and height. Its more flag (m=1) holds exactly when another frame follows. |
| `KittyGraphics.Frames` | kitty/print-graphics.h:20-33 | One frame per chunk, with that chunk's base64 as payload and the header `FrameHeader` gives it. There are ceil(n/3072) frames. |
| `KittyGraphics.Emit` | kitty/print-graphics.h:29-34 | Each frame becomes three writes, header, payload and terminator, in frame order, so there are three writes per frame. |
| `KittyGraphics.Flag` | kitty/print-graphics.h:30-32 | The `%d` of `last ? 0 : 1` is the digit 1 exactly when more frames follow, and 0 otherwise. |
| `KittyGraphics.HeaderText` | kitty/print-graphics.h:30-32 | The two format strings rendered: every header ends with `m=`, the more flag and `;`. |
| `KittyGraphics.FrameText` | kitty/print-graphics.h:29-34 | A frame's text is its header text, then the payload verbatim, then ESC backslash. |
| `KittyGraphics.StreamTextAppend` | kitty/print-graphics.h:29-34 | The characters of two runs of writes are those of the first run followed by those of the second. |
| `KittyGraphics.EmitText` | kitty/print-graphics.h:29-35 | The writes for a sequence of frames put exactly the frames' texts on the stream, in order. |
| `KittyGraphics.FrameTokensText` | kitty/print-graphics.h:30-34 | The header, payload and terminator writes of one frame put exactly that frame's text on the stream. |
| `KittyGraphics.LoopStep` | kitty/print-graphics.h:22-27 | At turn k, `offset` is k*3072 and `chunk` is min(remaining, 3072). The bytes read are chunk k of the image, and their base64 fits the 4096-byte buffer. `last`, computed after `offset` advances, holds exactly for the final frame. |
| `KittyGraphics.TotalBytes` | kitty/print-graphics.h:17 | The byte count width*height*4 is a multiple of 4. It is zero exactly when width or height is zero. |
| `KittyGraphics.ChunkAt` | kitty/print-graphics.h:21-26 | There are ceil(n/3072) chunks, none for an empty image. Chunk k is the slice from k*3072 to the next multiple of 3072 or to the end. |
| `KittyGraphics.ChunkSizes` | kitty/print-graphics.h:22-23 | Every chunk is non-empty and at most 3072 bytes. Every chunk except the last is exactly 3072 bytes. When the image is whole pixels, so is every chunk. |
| `KittyGraphics.ChunksConcat` | kitty/print-graphics.h:25-26 | The chunks, concatenated in order, are exactly the input. No byte is skipped, duplicated or reordered. |
| `KittyGraphics.FramesShape` | kitty/print-graphics.h:20-33 | There are ceil(n/3072) frames. Only frame 0 has the full header, and it carries width and height. Exactly the last frame has more = false (m=0). Each payload is its chunk's base64 and fits 4096 characters. Every payload before the last is exactly 4096 characters with no '=' padding. |
| `KittyGraphics.EncodedLengthFits` | kitty/print-graphics.h:18-25 | The base64 of 1 to 3072 bytes fits the 4096-byte buffer. A full 3072-byte chunk fills it exactly. |
| `KittyGraphics.EmitAt` | kitty/print-graphics.h:29-34 | Writes 3i, 3i+1 and 3i+2 are frame i's header, its payload verbatim and the terminator, in that order. |
| `KittyGraphics.EmittedCount` | kitty/print-graphics.h:21-35 | An image produces 3*ceil(n/3072) writes. An empty image produces no writes at all. |
| `KittyGraphics.EmittedFrame` | kitty/print-graphics.h:26-34 | In the write sequence, only the first header is full and it carries width and height. Only the last header has m=0. Every payload fits the buffer. Each frame is header, payload, terminator. |
| `KittyGraphics.EncodeChunks` | kitty/print-graphics.h:22-26 | The per-chunk base64 texts, concatenated, equal the base64 of the whole image. The reason is that every non-final chunk is a multiple of 3 bytes. |
| `KittyGraphics.PayloadsDecode` | kitty/print-graphics.h:25-33 | Concatenating all frame payloads in order and decoding the result gives back the image bytes exactly. |
| `KittyGraphics.Decimal` | kitty/print-graphics.h:30 | `%u` output is non-empty and all decimal digits. It has a leading '0' only for zero. |
| `KittyGraphics.DecimalRoundTrip` | kitty/print-graphics.h:30 | The digits written for s= and v= read back as the width and height. |
| `KittyGraphics.HeaderTextShape` | kitty/print-graphics.h:30-32 | Both header formats start with ESC _ G and contain no other ESC. |
| `KittyGraphics.FrameTextFraming` | kitty/print-graphics.h:29-34 | Each frame's text starts with ESC _ G and ends with ESC \\. It has no ESC in between, so the terminal sees exactly one escape sequence per frame. |
| `Base64.Base64Encode8` | kitty/print-graphics.h:24-25 | Given the buffer size as in/out length, the call leaves the chunk's base64 in the first `b64_len` cells and returns a length no larger than the room given. |
| `Base64.Encode` | kitty/print-graphics.h:25 | The output length is 4*ceil(n/3). Every character is a base64 symbol or '='. An input whose length is a multiple of 3 gets no padding. |
| `Base64.DecodeEncode` | kitty/print-graphics.h:25 | Decoding the base64 of any byte sequence gives that sequence back. |
| `Base64.EncodeAppend` | kitty/print-graphics.h:22-25 | Encoding splits at any group boundary: Encode(a + b) == Encode(a) + Encode(b) when the length of a is a multiple of 3. |

## Left out

- `FILE *` output: the stream and stdio buffering are not modelled. Each `fprintf`, `fwrite` and `fputs` call is one `Token` in the returned write sequence.
- `print_rgba32` (kitty/print-graphics.h:38-39) is not modelled. It only passes `stdout` to `fprint_rgba32`.
- kitty/base64.h is not part of this model. `base64_encode8` is taken to be standard padded RFC 4648 base64 without line breaks. The meaning of its fifth argument, the `false` on kitty/print-graphics.h:25, is not shown and is not modelled.
- `Base64.Encode`: always pads to 4*ceil(n/3) characters. If the `false` passed on kitty/print-graphics.h:25 turns padding off, the real last payload has no '=' and is ceil(4n/3) characters. Only the last frame can differ, because `FramesShape` proves that every earlier payload is 4096 characters with no '=', which needs no padding either way.
- `Base64.Base64Encode8`: the model requires that the encoding fits the room given. What the real primitive does with a buffer that is too small is not modelled; the writer never passes one.
- The cast of `uint32_t *` to `uint8_t *` and native byte order (kitty/print-graphics.h:16) are not modelled. The input is taken directly as a byte sequence.
- `size_t` overflow of `width * height * 4` is not modelled because integers are unbounded. The caller must pass a buffer of that many bytes (the `requires` on `FprintRgba32`), so an overflowing size could not describe a real buffer.
- kitty/print-graphics.h has only the `a=T,f=32` header and takes the pixels as they are: there is no other header form and no pixel-format conversion, so the model has neither.
- `last` is computed after `offset` advances (kitty/print-graphics.h:26-27). `LoopStep` proves that this equals `offset + chunk >= total` taken before the advance, and that it holds exactly on the final frame.
- Zero width or height is accepted: the loop never runs, and `EmittedCount` with `TotalBytes` shows that nothing is written.
