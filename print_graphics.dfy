/**
 * The kitty graphics-protocol writer of kitty/print-graphics.h: a 32-bit RGBA
 * image of width x height pixels is sent as a series of escape-sequence frames,
 * each carrying the base64 of at most 3072 raw bytes.
 *
 * The bytes written to the stream are modelled as a sequence of tokens, one per
 * write call: the header (`fprintf`), the payload (`fwrite`) and the terminator
 * (`fputs`). `Frames` is the specification of what is sent; `FprintRgba32` is
 * the loop, proved to emit exactly the tokens of `Frames`.
 */
module KittyGraphics {
  import opened Base64

  type uint32 = x: int | 0 <= x < 0x1_0000_0000

  /** Raw bytes per frame: a multiple of 3 (no base64 padding) and of 4 (whole pixels). */
  const ChunkSize: nat := 3072

  /** Size of the scratch buffer that receives one chunk's base64. */
  const B64BufSize: nat := 4096

  /** A full chunk is whole base64 groups and whole pixels, and its base64 fills the buffer. */
  lemma ChunkSizeWhole()
    ensures ChunkSize % 3 == 0 && ChunkSize % 4 == 0
    ensures EncodedLength(ChunkSize) == B64BufSize
  {
  }

  const Esc: char := 27 as char

  /** The bytes of a width x height image at four bytes per pixel. */
  function TotalBytes(width: uint32, height: uint32): (r: nat)
    ensures r == 0 <==> width == 0 || height == 0
    ensures r % 4 == 0
  {
    width * height * 4
  }

  function Min(a: int, b: int): int
  {
    if a <= b then a else b
  }

  /** Flattening of a sequence of sequences, in order. */
  function Concat<T>(xs: seq<seq<T>>): seq<T>
    decreases |xs|
  {
    if xs == [] then [] else xs[0] + Concat(xs[1..])
  }

  // ----- Chunking -----

  /**
   * The raw chunks of s, in order: each takes min(remaining, ChunkSize) bytes, so
   * there is none exactly when s is empty and every chunk holds 1 to 3072 bytes.
   */
  function Chunks(s: seq<byte>): (cs: seq<seq<byte>>)
    ensures cs == [] <==> s == []
    ensures forall i :: 0 <= i < |cs| ==> 0 < |cs[i]| <= ChunkSize
    decreases |s|
  {
    if |s| == 0 then []
    else
      var n := Min(|s|, ChunkSize);
      [s[..n]] + Chunks(s[n..])
  }

  /** ceil(n / ChunkSize). */
  function NumChunks(n: nat): nat
  {
    (n + ChunkSize - 1) / ChunkSize
  }

  lemma NumChunksStep(n: nat)
    requires n > ChunkSize
    ensures NumChunks(n) == NumChunks(n - ChunkSize) + 1
  {
  }

  lemma NumChunksBounds(n: nat)
    ensures NumChunks(n) * ChunkSize >= n
    ensures n > 0 ==> (NumChunks(n) - 1) * ChunkSize < n
    ensures n == 0 <==> NumChunks(n) == 0
  {
  }

  lemma SliceOfDrop<T>(s: seq<T>, d: nat, lo: nat, hi: nat)
    requires d <= |s| && lo <= hi <= |s| - d
    ensures s[d..][lo..hi] == s[d + lo .. d + hi]
  {
  }

  /**
   * There are ceil(|s| / 3072) chunks, none at all for an empty image, and chunk k
   * is the slice of s from k * 3072 up to the next multiple of 3072 or the end.
   */
  lemma {:induction false} ChunkAt(s: seq<byte>, k: nat)
    ensures |Chunks(s)| == NumChunks(|s|)
    ensures k < |Chunks(s)| ==>
      k * ChunkSize < |s| && Chunks(s)[k] == s[k * ChunkSize .. Min(|s|, (k + 1) * ChunkSize)]
    decreases |s|
  {
    if |s| == 0 {
    } else if |s| <= ChunkSize {
      assert Chunks(s) == [s[..|s|]] + Chunks(s[|s|..]);
      assert s[|s|..] == [];
    } else {
      var rest := s[ChunkSize..];
      assert Chunks(s) == [s[..ChunkSize]] + Chunks(rest);
      NumChunksStep(|s|);
      if k == 0 {
        ChunkAt(rest, 0);
      } else {
        ChunkAt(rest, k - 1);
        if k < |Chunks(s)| {
          assert Chunks(s)[k] == Chunks(rest)[k - 1];
          var lo, hi := (k - 1) * ChunkSize, Min(|rest|, k * ChunkSize);
          assert lo + ChunkSize == k * ChunkSize;
          assert hi + ChunkSize == Min(|s|, (k + 1) * ChunkSize);
          SliceOfDrop(s, ChunkSize, lo, hi);
        }
      }
    }
  }

  /**
   * Every chunk is non-empty and at most 3072 bytes; every chunk but the last is
   * exactly 3072; and in an image of whole pixels every chunk is whole pixels.
   */
  lemma ChunkSizes(s: seq<byte>, k: nat)
    requires k < |Chunks(s)|
    ensures 0 < |Chunks(s)[k]| <= ChunkSize
    ensures k + 1 < |Chunks(s)| ==> |Chunks(s)[k]| == ChunkSize
    ensures |s| % 4 == 0 ==> |Chunks(s)[k]| % 4 == 0
  {
    ChunkAt(s, k);
    NumChunksBounds(|s|);
    ChunkSizeWhole();
    if |s| % 4 == 0 {
      PixelAligned(k, |s|);
    }
  }

  lemma PixelAligned(k: nat, n: nat)
    requires n % 4 == 0 && k * ChunkSize < n
    ensures (Min(n, (k + 1) * ChunkSize) - k * ChunkSize) % 4 == 0
  {
  }

  /** The chunks reassemble to the input: no byte is skipped, duplicated or reordered. */
  lemma {:induction false} ChunksConcat(s: seq<byte>)
    ensures Concat(Chunks(s)) == s
    decreases |s|
  {
    if |s| > 0 {
      var n := Min(|s|, ChunkSize);
      var cs := Chunks(s);
      assert cs == [s[..n]] + Chunks(s[n..]);
      assert cs[0] == s[..n] && cs[1..] == Chunks(s[n..]);
      ChunksConcat(s[n..]);
      assert s == s[..n] + s[n..];
    }
  }

  // ----- Frames -----

  /**
   * A frame header: the first frame carries the transmission keys
   * `a=T,f=32,s=<width>,v=<height>,m=<more>`, later frames only `m=<more>`.
   */
  datatype Header =
    | Full(width: uint32, height: uint32, more: bool)
    | Continuation(more: bool)

  /** One frame: its header and its base64 payload; the terminator is implicit. */
  datatype Frame = Frame(header: Header, payload: seq<char>)

  /** One write to the output stream. */
  datatype Token =
    | HeaderToken(header: Header)   // the `fprintf` of the header
    | PayloadToken(text: seq<char>) // the `fwrite` of the base64 buffer
    | Terminator                    // the `fputs` of ESC backslash

  /**
   * The header of frame i out of n: the full one, with the image's width and
   * height, only on frame 0, and m=1 exactly when another frame follows.
   */
  function FrameHeader(i: nat, n: nat, width: uint32, height: uint32): (hd: Header)
    ensures hd.Full? <==> i == 0
    ensures hd.Full? ==> hd.width == width && hd.height == height
    ensures hd.more <==> i + 1 < n
  {
    if i == 0 then Full(width, height, i + 1 < n) else Continuation(i + 1 < n)
  }

  /**
   * What is sent for an image: one frame per chunk, carrying that chunk's base64;
   * there are ceil(|image| / 3072) frames and every payload fits the buffer.
   */
  function Frames(image: seq<byte>, width: uint32, height: uint32): (fs: seq<Frame>)
    ensures |fs| == NumChunks(|image|)
  {
    ChunkAt(image, 0);
    var cs := Chunks(image);
    seq(|cs|, i requires 0 <= i < |cs| => Frame(FrameHeader(i, |cs|, width, height), Encode(cs[i])))
  }

  /** The three writes of one frame. */
  function FrameTokens(f: Frame): seq<Token>
  {
    [HeaderToken(f.header), PayloadToken(f.payload), Terminator]
  }

  /** The writes for a sequence of frames, in order, three per frame. */
  function Emit(fs: seq<Frame>): (ts: seq<Token>)
    ensures |ts| == 3 * |fs|
    decreases |fs|
  {
    if fs == [] then [] else Emit(fs[..|fs| - 1]) + FrameTokens(fs[|fs| - 1])
  }

  /** The writes for the first k + 1 frames extend those for the first k by frame k's. */
  lemma EmitPrefix(fs: seq<Frame>, k: nat)
    requires k < |fs|
    ensures Emit(fs[..k + 1]) == Emit(fs[..k]) + FrameTokens(fs[k])
  {
    assert fs[..k + 1][..k] == fs[..k];
  }

  /** Writes 3i, 3i+1 and 3i+2 are header, payload and terminator of frame i. */
  lemma {:induction false} EmitAt(fs: seq<Frame>, i: nat)
    requires i < |fs|
    ensures Emit(fs)[3 * i] == HeaderToken(fs[i].header)
    ensures Emit(fs)[3 * i + 1] == PayloadToken(fs[i].payload)
    ensures Emit(fs)[3 * i + 2] == Terminator
    decreases |fs|
  {
    var init := fs[..|fs| - 1];
    assert Emit(fs) == Emit(init) + FrameTokens(fs[|fs| - 1]);
    if i < |fs| - 1 {
      EmitAt(init, i);
    }
  }

  /**
   * The frames of an image: ceil(|image| / 3072) of them (none for an empty
   * image); exactly the first has the full header with the image's width and
   * height; exactly the last has m=0; each payload is the base64 of its chunk
   * and fits the 4096-byte buffer; every payload but the last is 4096
   * characters without padding.
   */
  lemma FramesShape(image: seq<byte>, width: uint32, height: uint32, i: nat)
    ensures |Frames(image, width, height)| == NumChunks(|image|)
    ensures i < NumChunks(|image|) ==>
      var f := Frames(image, width, height)[i];
      && (f.header.Full? <==> i == 0)
      && (i == 0 ==> f.header.width == width && f.header.height == height)
      && (f.header.more <==> i + 1 < NumChunks(|image|))
      && f.payload == Encode(Chunks(image)[i])
      && 0 < |f.payload| <= B64BufSize
      && (i + 1 < NumChunks(|image|) ==>
            |f.payload| == B64BufSize && forall j :: 0 <= j < |f.payload| ==> f.payload[j] != '=')
  {
    ChunkAt(image, i);
    if i < NumChunks(|image|) {
      ChunkSizes(image, i);
      EncodedLengthFits(|Chunks(image)[i]|);
    }
  }

  /** The base64 of one chunk fits the scratch buffer; a full chunk fills it. */
  lemma EncodedLengthFits(n: nat)
    requires 0 < n <= ChunkSize
    ensures 0 < EncodedLength(n) <= B64BufSize
    ensures n == ChunkSize ==> EncodedLength(n) == B64BufSize && n % 3 == 0
  {
  }

  /** The base64 of each chunk, chunk by chunk. */
  function EncodeEach(cs: seq<seq<byte>>): (es: seq<seq<char>>)
    ensures |es| == |cs|
    ensures forall i :: 0 <= i < |cs| ==> es[i] == Encode(cs[i])
    decreases |cs|
  {
    if cs == [] then [] else [Encode(cs[0])] + EncodeEach(cs[1..])
  }

  /** The payloads of a sequence of frames, in order. */
  function Payloads(fs: seq<Frame>): (ps: seq<seq<char>>)
    ensures |ps| == |fs|
    ensures forall i :: 0 <= i < |fs| ==> ps[i] == fs[i].payload
    decreases |fs|
  {
    if fs == [] then [] else [fs[0].payload] + Payloads(fs[1..])
  }

  /** Splitting off the first chunk does not change the encoding. */
  lemma EncodeFirstChunk(s: seq<byte>)
    requires |s| > 0
    ensures Encode(s) == Encode(s[..Min(|s|, ChunkSize)]) + Encode(s[Min(|s|, ChunkSize)..])
  {
    var n := Min(|s|, ChunkSize);
    if n == ChunkSize {
      assert |s[..n]| == ChunkSize;
      ChunkSizeWhole();
      EncodeAppend(s[..n], s[n..]);
      assert s[..n] + s[n..] == s;
    } else {
      assert s[..n] == s;
      assert s[n..] == [];
    }
  }

  /** The base64 of the chunks, in order, is the base64 of the whole image. */
  lemma {:induction false} EncodeChunks(s: seq<byte>)
    ensures Concat(EncodeEach(Chunks(s))) == Encode(s)
    decreases |s|
  {
    if |s| > 0 {
      var n := Min(|s|, ChunkSize);
      var rest := s[n..];
      var cs := Chunks(s);
      assert cs == [s[..n]] + Chunks(rest);
      assert cs[0] == s[..n] && cs[1..] == Chunks(rest);
      var es := EncodeEach(cs);
      assert es[0] == Encode(s[..n]) && es[1..] == EncodeEach(Chunks(rest));
      EncodeChunks(rest);
      EncodeFirstChunk(s);
    } else {
      assert Chunks(s) == [];
      assert EncodeEach([]) == [];
    }
  }

  /**
   * Concatenating the payloads of all frames in order and decoding the result
   * gives back the image bytes exactly.
   */
  lemma PayloadsDecode(image: seq<byte>, width: uint32, height: uint32)
    ensures |Concat(Payloads(Frames(image, width, height)))| % 4 == 0
    ensures Decode(Concat(Payloads(Frames(image, width, height)))) == image
  {
    var fs := Frames(image, width, height);
    assert Payloads(fs) == EncodeEach(Chunks(image));
    EncodeChunks(image);
    DecodeEncode(image);
  }

  // ----- The bytes of the escape sequences -----

  function Digit(d: int): (c: char)
    requires 0 <= d < 10
  {
    (d + '0' as int) as char
  }

  /** `%u`: the decimal digits of n, most significant first, no leading zero. */
  function Decimal(n: nat): (s: string)
    ensures |s| > 0
    ensures forall i :: 0 <= i < |s| ==> '0' <= s[i] <= '9'
    ensures s[0] == '0' <==> n == 0
    decreases n
  {
    if n < 10 then [Digit(n)] else Decimal(n / 10) + [Digit(n % 10)]
  }

  /** The number a string of decimal digits stands for. */
  function DecimalValue(s: string): nat
    decreases |s|
  {
    if s == [] then 0
    else
      var c := s[|s| - 1];
      DecimalValue(s[..|s| - 1]) * 10 + (if '0' <= c <= '9' then c as int - '0' as int else 0)
  }

  /** The digits written for n read back as n. */
  lemma {:induction false} DecimalRoundTrip(n: nat)
    ensures DecimalValue(Decimal(n)) == n
    decreases n
  {
    if n >= 10 {
      DecimalRoundTrip(n / 10);
      var s := Decimal(n);
      assert s[..|s| - 1] == Decimal(n / 10);
    }
  }

  /** `%d` of `last ? 0 : 1`: the digit 1 while more frames follow, 0 on the last. */
  function Flag(more: bool): (c: char)
    ensures c == '0' || c == '1'
    ensures c == '1' <==> more
  {
    if more then '1' else '0'
  }

  /**
   * The text of a header as the format strings of the source lay it out: it
   * always ends with the key `m=`, the more flag and the `;` before the payload.
   */
  function HeaderText(h: Header): (r: string)
    ensures |r| >= 7
    ensures r[|r| - 4..] == ['m', '=', Flag(h.more), ';']
  {
    match h
    case Full(w, v, m) => [Esc] + "_Ga=T,f=32,s=" + Decimal(w) + ",v=" + Decimal(v) + ",m=" + [Flag(m)] + ";"
    case Continuation(m) => [Esc] + "_Gm=" + [Flag(m)] + ";"
  }

  /** The text of one frame: header, payload verbatim, terminator ESC backslash. */
  function FrameText(f: Frame): (r: string)
    ensures |r| == |HeaderText(f.header)| + |f.payload| + 2
    ensures r[..|HeaderText(f.header)|] == HeaderText(f.header)
    ensures r[|HeaderText(f.header)|..|r| - 2] == f.payload
    ensures r[|r| - 2..] == [Esc, '\\']
  {
    HeaderText(f.header) + f.payload + [Esc, '\\']
  }

  /** The characters one write puts on the stream. */
  function TokenText(t: Token): string
  {
    match t
    case HeaderToken(h) => HeaderText(h)
    case PayloadToken(p) => p
    case Terminator => [Esc, '\\']
  }

  /** The characters a sequence of writes puts on the stream, in order. */
  function StreamText(ts: seq<Token>): string
    decreases |ts|
  {
    if ts == [] then [] else StreamText(ts[..|ts| - 1]) + TokenText(ts[|ts| - 1])
  }

  /** The texts of a sequence of frames, one after the other. */
  function FramesText(fs: seq<Frame>): string
    decreases |fs|
  {
    if fs == [] then [] else FramesText(fs[..|fs| - 1]) + FrameText(fs[|fs| - 1])
  }

  /** The text of two runs of writes is the text of the first followed by that of the second. */
  lemma {:induction false} StreamTextAppend(a: seq<Token>, b: seq<Token>)
    ensures StreamText(a + b) == StreamText(a) + StreamText(b)
    decreases |b|
  {
    if b == [] {
      assert a + b == a;
    } else {
      var init := b[..|b| - 1];
      assert (a + b)[..|a + b| - 1] == a + init;
      StreamTextAppend(a, init);
    }
  }

  /**
   * The writes of a sequence of frames put exactly the frames' texts on the
   * stream, one frame after the other.
   */
  lemma {:induction false} EmitText(fs: seq<Frame>)
    ensures StreamText(Emit(fs)) == FramesText(fs)
    decreases |fs|
  {
    if fs != [] {
      var init := fs[..|fs| - 1];
      var f := fs[|fs| - 1];
      assert Emit(fs) == Emit(init) + FrameTokens(f);
      assert FramesText(fs) == FramesText(init) + FrameText(f);
      EmitText(init);
      StreamTextAppend(Emit(init), FrameTokens(f));
      FrameTokensText(f);
    }
  }

  /** The three writes of a frame put exactly that frame's text on the stream. */
  lemma FrameTokensText(f: Frame)
    ensures StreamText(FrameTokens(f)) == FrameText(f)
  {
    var ft := FrameTokens(f);
    assert ft[..2][..1] == [ft[0]];
    assert ft[..2] == [ft[0], ft[1]];
    assert ft[..1] == [ft[0]];
    assert StreamText([ft[0]]) == HeaderText(f.header) by {
      assert [ft[0]][..0] == [];
    }
  }

  /** No character of s starts an escape sequence. */
  predicate NoEsc(s: string)
  {
    forall j :: 0 <= j < |s| ==> s[j] != Esc
  }

  lemma NoEscAppend(a: string, b: string)
    requires NoEsc(a) && NoEsc(b)
    ensures NoEsc(a + b)
  {
  }

  /** Decimal digits and base64 text never contain ESC. */
  lemma NoEscDecimal(n: nat)
    ensures NoEsc(Decimal(n))
  {
  }

  lemma NoEscEncode(s: seq<byte>)
    ensures NoEsc(Encode(s))
  {
  }

  /** The text after the ESC of a full header holds no ESC. */
  lemma NoEscFullKeys(w: uint32, v: uint32, m: bool)
    ensures NoEsc("_Ga=T,f=32,s=" + Decimal(w) + ",v=" + Decimal(v) + ",m=" + [Flag(m)] + ";")
  {
  }

  /** A header is ESC _ G followed by text with no further ESC. */
  lemma HeaderTextShape(h: Header)
    ensures |HeaderText(h)| >= 3
    ensures HeaderText(h)[..3] == [Esc, '_', 'G']
    ensures NoEsc(HeaderText(h)[1..])
  {
    match h
    case Full(w, v, m) =>
      var tail := "_Ga=T,f=32,s=" + Decimal(w) + ",v=" + Decimal(v) + ",m=" + [Flag(m)] + ";";
      NoEscFullKeys(w, v, m);
      assert HeaderText(h) == [Esc] + tail;
      assert HeaderText(h)[1..] == tail;
    case Continuation(m) =>
      assert HeaderText(h)[1..] == "_Gm=" + [Flag(m)] + ";";
  }

  /**
   * Every frame opens one escape sequence and closes it, and nothing in
   * between can be read as an escape: the text starts with ESC _ G, ends with
   * ESC backslash, and has no other ESC.
   */
  lemma FrameTextFraming(image: seq<byte>, width: uint32, height: uint32, i: nat)
    requires i < |Frames(image, width, height)|
    ensures var t := FrameText(Frames(image, width, height)[i]);
      && |t| >= 5
      && t[..3] == [Esc, '_', 'G']
      && t[|t| - 2..] == [Esc, '\\']
      && NoEsc(t[1..|t| - 2])
  {
    var f := Frames(image, width, height)[i];
    var h := HeaderText(f.header);
    HeaderTextShape(f.header);
    assert f.payload == Encode(Chunks(image)[i]);
    NoEscEncode(Chunks(image)[i]);
    NoEscAppend(h[1..], f.payload);
    var t := FrameText(f);
    assert t == h + f.payload + [Esc, '\\'];
    assert t[..3] == h[..3];
    assert t[1..|t| - 2] == h[1..] + f.payload;
  }

  // ----- The writer -----

  /**
   * `fprint_rgba32`: the writes made for a width x height image whose pixel bytes
   * start at `rgba`. Exactly TotalBytes(width, height) bytes are read; the writes are
   * those of `Frames` over those bytes, so the stream receives the frames' texts in order.
   */
  method FprintRgba32(rgba: seq<byte>, width: uint32, height: uint32) returns (out: seq<Token>)
    requires |rgba| >= TotalBytes(width, height)
    ensures out == Emit(Frames(rgba[..TotalBytes(width, height)], width, height))
    ensures StreamText(out) == FramesText(Frames(rgba[..TotalBytes(width, height)], width, height))
  {
    var totalBytes: nat := TotalBytes(width, height);
    ghost var image := rgba[..totalBytes];
    ghost var frames := Frames(image, width, height);
    ghost var n := NumChunks(totalBytes);
    ChunkAt(image, 0);
    assert |frames| == n;
    NumChunksBounds(totalBytes);
    var b64Buf := new char[B64BufSize];
    var offset: nat := 0;
    var first := true;
    ghost var k: nat := 0;
    out := [];
    while offset < totalBytes
      invariant k <= n
      invariant offset == Min(totalBytes, k * ChunkSize)
      invariant first <==> k == 0
      invariant out == Emit(frames[..k])
      decreases totalBytes - offset
    {
      var chunk := totalBytes - offset;
      if chunk > ChunkSize {
        chunk := ChunkSize;
      }
      LoopStep(rgba, width, height, k, offset, chunk);
      var piece := rgba[offset..offset + chunk];
      assert |piece| == chunk;
      var b64Len := B64BufSize;
      b64Len := Base64Encode8(piece, b64Buf, b64Len);
      offset := offset + chunk;
      var last := offset >= totalBytes;
      var header;
      if first {
        header := Full(width, height, !last);
        first := false;
      } else {
        header := Continuation(!last);
      }
      assert frames[k] == Frame(header, b64Buf[..b64Len]);
      EmitPrefix(frames, k);
      out := out + [HeaderToken(header), PayloadToken(b64Buf[..b64Len]), Terminator];
      k := k + 1;
    }
    assert frames[..k] == frames;
    EmitText(frames);
  }

  /**
   * One turn of the writer's loop, at chunk k: `chunk` bytes are read from `offset`,
   * they are chunk k of the image, their base64 fits the buffer, and the frame is
   * the last one exactly when the advanced offset reaches the end.
   */
  lemma LoopStep(rgba: seq<byte>, width: uint32, height: uint32, k: nat, offset: nat, chunk: nat)
    requires |rgba| >= TotalBytes(width, height)
    requires offset == Min(TotalBytes(width, height), k * ChunkSize) < TotalBytes(width, height)
    requires chunk == Min(TotalBytes(width, height) - offset, ChunkSize)
    ensures offset + chunk <= TotalBytes(width, height)
    ensures offset + chunk == Min(TotalBytes(width, height), (k + 1) * ChunkSize)
    ensures EncodedLength(chunk) <= B64BufSize
    ensures var fs := Frames(rgba[..TotalBytes(width, height)], width, height);
      && k < |fs|
      && fs[k].payload == Encode(rgba[offset..offset + chunk])
      && fs[k].header == FrameHeader(k, |fs|, width, height)
      && (offset + chunk >= TotalBytes(width, height) <==> k + 1 == |fs|)
  {
    var total := TotalBytes(width, height);
    var image := rgba[..total];
    ChunkAt(image, k);
    NumChunksBounds(total);
    assert offset == k * ChunkSize;
    assert k < NumChunks(total);
    assert Chunks(image)[k] == rgba[offset..offset + chunk];
    EncodedLengthFits(chunk);
  }

  /**
   * The writes for an image number three per chunk, ceil(|image| / 3072) chunks,
   * and there are none at all for an empty image.
   */
  lemma EmittedCount(image: seq<byte>, width: uint32, height: uint32)
    ensures |Emit(Frames(image, width, height))| == 3 * NumChunks(|image|)
    ensures Emit(Frames(image, width, height)) == [] <==> |image| == 0
  {
    FramesShape(image, width, height, 0);
    NumChunksBounds(|image|);
  }

  /**
   * Writes 3i, 3i+1 and 3i+2 for an image are the header, payload and terminator
   * of frame i: only the first header is a full one and it carries width and
   * height; only the last header says m=0; every payload fits the 4096-byte buffer.
   */
  lemma EmittedFrame(image: seq<byte>, width: uint32, height: uint32, i: nat)
    requires i < NumChunks(|image|)
    ensures var out := Emit(Frames(image, width, height));
      && |out| == 3 * NumChunks(|image|)
      && out[3 * i].HeaderToken? && out[3 * i + 1].PayloadToken? && out[3 * i + 2] == Terminator
      && (out[3 * i].header.Full? <==> i == 0)
      && (i == 0 ==> out[3 * i].header == Full(width, height, 1 < NumChunks(|image|)))
      && (out[3 * i].header.more <==> i + 1 < NumChunks(|image|))
      && |out[3 * i + 1].text| <= B64BufSize
  {
    var fs := Frames(image, width, height);
    FramesShape(image, width, height, i);
    EmitAt(fs, i);
  }
}
