/**
 * Least-significant-bit steganography over RGBA pixels (core/stego.py).
 *
 * `Hide` writes the bits of the secret text, followed by a 16-bit end marker, into the lowest
 * bit of the red channel of successive pixels. `Extract` reads those bits back, cuts them into
 * 8-bit chunks and decodes characters until it meets a marker byte or has 1001 characters.
 * Opening, converting and saving the image file are left out: an image is its pixel list,
 * and a file that cannot be opened is `None`.
 */
module Stego {
  import opened Wrappers

  type Byte = x: int | 0 <= x < 256
  type Bit = x: nat | x < 2

  datatype Pixel = Pixel(r: Byte, g: Byte, b: Byte, a: Byte)

  /** The 16-bit END_MARKER appended to every payload. */
  const EndMarker: seq<Bit> := [1, 1, 1, 1, 1, 1, 1, 1, 1, 1, 1, 1, 1, 1, 1, 0]
  /** Its first byte, which ends extraction only once some text has been decoded. */
  const MarkerHigh: seq<Bit> := [1, 1, 1, 1, 1, 1, 1, 1]
  /** Its second byte, which always ends extraction. */
  const MarkerLow: seq<Bit> := [1, 1, 1, 1, 1, 1, 1, 0]

  const NoMessage: string := "无隐写信息"
  const ExtractFailed: string := "提取失败"

  // ---------------------------------------------------------------------------------------
  // Binary strings: format(x, '08b') and int(chunk, 2)
  // ---------------------------------------------------------------------------------------

  /** int(bits, 2): the most significant bit comes first. */
  function BitsValue(bits: seq<Bit>): nat
  {
    if bits == [] then 0 else 2 * BitsValue(bits[..|bits| - 1]) + bits[|bits| - 1]
  }

  /** The binary digits of x without leading zeros (empty for 0). */
  function ToBits(x: nat): seq<Bit>
  {
    if x == 0 then [] else ToBits(x / 2) + [x % 2]
  }

  function Zeros(k: nat): (z: seq<Bit>)
    ensures |z| == k && forall i :: 0 <= i < k ==> z[i] == 0
  {
    if k == 0 then [] else Zeros(k - 1) + [0]
  }

  /** format(x, '08b'): binary, padded with zeros on the left to at least 8 digits. */
  function Format08b(x: nat): (bits: seq<Bit>)
    ensures |bits| >= 8 && BitsValue(bits) == x
    ensures x < 256 ==> |bits| == 8
  {
    var b := ToBits(x);
    ToBitsValue(x);
    if |b| < 8 then
      LeadingZeros(8 - |b|, b);
      Zeros(8 - |b|) + b
    else
      b
  }

  lemma {:induction false} ToBitsValue(x: nat)
    ensures BitsValue(ToBits(x)) == x
    ensures x < 256 ==> |ToBits(x)| <= 8
  {
    if x > 0 {
      ToBitsValue(x / 2);
      var b := ToBits(x / 2) + [x % 2];
      assert b[..|b| - 1] == ToBits(x / 2);
    }
    if x < 256 {
      Pow2Monotone(8, 8);
      ToBitsLength(x, 8);
    }
  }

  lemma {:induction false} ToBitsLength(x: nat, k: nat)
    requires x < Pow2(k)
    ensures |ToBits(x)| <= k
  {
    if x > 0 {
      ToBitsLength(x / 2, k - 1);
    }
  }

  function Pow2(k: nat): nat
  {
    if k == 0 then 1 else 2 * Pow2(k - 1)
  }

  lemma {:induction false} LeadingZeros(k: nat, b: seq<Bit>)
    ensures BitsValue(Zeros(k) + b) == BitsValue(b)
    decreases |b|
  {
    if b == [] {
      assert Zeros(k) + b == Zeros(k);
      AllZeros(k);
    } else {
      var s := Zeros(k) + b;
      assert s[..|s| - 1] == Zeros(k) + b[..|b| - 1];
      LeadingZeros(k, b[..|b| - 1]);
    }
  }

  lemma {:induction false} AllZeros(k: nat)
    ensures BitsValue(Zeros(k)) == 0
  {
    if k > 0 {
      assert Zeros(k)[..k - 1] == Zeros(k - 1);
      AllZeros(k - 1);
    }
  }

  lemma {:induction false} BitsValueBound(bits: seq<Bit>)
    ensures BitsValue(bits) < Pow2(|bits|)
  {
    if bits != [] {
      BitsValueBound(bits[..|bits| - 1]);
    }
  }

  /** chr(int(chunk, 2)) for a chunk of at most 8 bits. */
  function ChunkChar(chunk: seq<Bit>): (c: char)
    requires |chunk| <= 8
    ensures c as int == BitsValue(chunk)
  {
    BitsValueBound(chunk);
    Pow2Monotone(|chunk|, 8);
    BitsValue(chunk) as char
  }

  lemma {:induction false} Pow2Monotone(j: nat, k: nat)
    requires j <= k
    ensures Pow2(j) <= Pow2(k) && Pow2(8) == 256
  {
    if j < k {
      Pow2Monotone(j, k - 1);
    }
  }

  // ---------------------------------------------------------------------------------------
  // Hiding
  // ---------------------------------------------------------------------------------------

  /** The bits of every character of `text`, eight or more per character. */
  function EncodeChars(text: string): seq<Bit>
  {
    if text == [] then [] else Format08b(text[0] as nat) + EncodeChars(text[1..])
  }

  /** binary_text: the encoded characters followed by the end marker. */
  function Payload(text: string): seq<Bit>
  {
    EncodeChars(text) + EndMarker
  }

  /** `r & ~1 | bit`: replace the lowest bit of a byte. */
  function SetLowBit(r: Byte, bit: Bit): (s: Byte)
    ensures s % 2 == bit && s / 2 == r / 2
  {
    r - r % 2 + bit
  }

  /** Pixel i after hiding: its red low bit carries payload bit i, if there is one. */
  function EmbedAt(pixels: seq<Pixel>, payload: seq<Bit>, i: nat): Pixel
    requires i < |pixels|
  {
    var p := pixels[i];
    if i < |payload| then Pixel(SetLowBit(p.r, payload[i]), p.g, p.b, p.a) else p
  }

  /** The whole picture after hiding `payload`. */
  function Embed(pixels: seq<Pixel>, payload: seq<Bit>): (out: seq<Pixel>)
    ensures |out| == |pixels|
    ensures forall i :: 0 <= i < |pixels| ==>
      out[i].g == pixels[i].g && out[i].b == pixels[i].b && out[i].a == pixels[i].a
      && out[i].r / 2 == pixels[i].r / 2
      && (i < |payload| ==> out[i].r % 2 == payload[i])
      && (i >= |payload| ==> out[i] == pixels[i])
  {
    seq(|pixels|, i requires 0 <= i < |pixels| => EmbedAt(pixels, payload, i))
  }

  /**
   * hide: `None` as input is an image that cannot be opened, for which hide returns False;
   * otherwise the new pixel list is what `putdata` receives and the result is True.
   */
  method Hide(image: Option<seq<Pixel>>, secret: string) returns (saved: Option<seq<Pixel>>)
    ensures image.None? ==> saved.None?
    ensures image.Some? ==> saved == Some(Embed(image.value, Payload(secret)))
  {
    if image.None? {
      return None;
    }
    var pixels := image.value;
    var binaryText := Payload(secret);
    var newPixels: seq<Pixel> := [];
    var idx := 0;
    for k := 0 to |pixels|
      invariant idx == if k < |binaryText| then k else |binaryText|
      invariant |newPixels| == k
      invariant forall i :: 0 <= i < k ==> newPixels[i] == EmbedAt(pixels, binaryText, i)
    {
      var p := pixels[k];
      if idx < |binaryText| {
        var r := SetLowBit(p.r, binaryText[idx]);
        newPixels := newPixels + [Pixel(r, p.g, p.b, p.a)];
        idx := idx + 1;
      } else {
        newPixels := newPixels + [p];
      }
    }
    assert newPixels == Embed(pixels, binaryText);
    saved := Some(newPixels);
  }

  // ---------------------------------------------------------------------------------------
  // Extraction
  // ---------------------------------------------------------------------------------------

  /** binary_data: the red low bit of every pixel. */
  function LowBits(pixels: seq<Pixel>): (bits: seq<Bit>)
    ensures |bits| == |pixels|
  {
    seq(|pixels|, i requires 0 <= i < |pixels| => pixels[i].r % 2)
  }

  /** all_bytes: consecutive 8-bit chunks; the last one may be shorter. */
  function Chunks(bits: seq<Bit>): (chunks: seq<seq<Bit>>)
    ensures forall i :: 0 <= i < |chunks| ==> 1 <= |chunks[i]| <= 8
    decreases |bits|
  {
    if bits == [] then []
    else if |bits| <= 8 then [bits]
    else [bits[..8]] + Chunks(bits[8..])
  }

  /** Cutting the next chunk off the bits that remain. */
  lemma ChunksStep(bits: seq<Bit>, i: nat, end: nat)
    requires i < |bits| && end == (if i + 8 < |bits| then i + 8 else |bits|)
    ensures Chunks(bits[i..]) == [bits[i..end]] + Chunks(bits[end..])
  {
    if i + 8 < |bits| {
      var rest := bits[i..];
      assert |rest| > 8;
      assert Chunks(rest) == [rest[..8]] + Chunks(rest[8..]);
      assert rest[..8] == bits[i..end];
      assert rest[8..] == bits[end..];
    } else {
      assert bits[i..] == bits[i..end] && |bits[i..]| <= 8;
      assert bits[end..] == [];
    }
  }

  /** The decoding loop, from the chunks not yet read and the text decoded so far. */
  function DecodeFrom(chunks: seq<seq<Bit>>, decoded: string): string
    requires forall i :: 0 <= i < |chunks| ==> |chunks[i]| <= 8
    decreases |chunks|
  {
    if chunks == [] then decoded
    else if chunks[0] == MarkerHigh && |decoded| > 0 then decoded
    else if chunks[0] == MarkerLow then decoded
    else
      var d := decoded + [ChunkChar(chunks[0])];
      if |d| > 1000 then d else DecodeFrom(chunks[1..], d)
  }

  /** What extract returns for an image it could open. */
  function ExtractText(pixels: seq<Pixel>): string
  {
    var decoded := DecodeFrom(Chunks(LowBits(pixels)), "");
    if decoded == [] then NoMessage else decoded
  }

  /** extract, with `None` standing for an image that cannot be opened. */
  method Extract(image: Option<seq<Pixel>>) returns (text: string)
    ensures image.None? ==> text == ExtractFailed
    ensures image.Some? ==> text == ExtractText(image.value)
  {
    if image.None? {
      return ExtractFailed;
    }
    var binaryData := ReadLowBits(image.value);
    var allBytes := SplitBytes(binaryData);
    var decoded := DecodeBytes(allBytes);
    text := if decoded == [] then NoMessage else decoded;
  }

  /** extract's first loop: the red low bit of every pixel. */
  method ReadLowBits(pixels: seq<Pixel>) returns (binaryData: seq<Bit>)
    ensures binaryData == LowBits(pixels)
  {
    binaryData := [];
    for k := 0 to |pixels|
      invariant binaryData == LowBits(pixels[..k])
    {
      assert LowBits(pixels[..k + 1]) == LowBits(pixels[..k]) + [pixels[k].r % 2];
      binaryData := binaryData + [pixels[k].r % 2];
    }
    assert pixels[..|pixels|] == pixels;
  }

  /** extract's slicing into 8-bit chunks, the last one possibly shorter. */
  method SplitBytes(binaryData: seq<Bit>) returns (allBytes: seq<seq<Bit>>)
    ensures allBytes == Chunks(binaryData)
  {
    allBytes := [];
    var i := 0;
    while i < |binaryData|
      invariant i <= |binaryData|
      invariant allBytes + Chunks(binaryData[i..]) == Chunks(binaryData)
    {
      var end := if i + 8 < |binaryData| then i + 8 else |binaryData|;
      ChunksStep(binaryData, i, end);
      allBytes := allBytes + [binaryData[i..end]];
      i := end;
    }
    assert binaryData[i..] == [];
  }

  /** extract's decoding loop with its three ways out. */
  method DecodeBytes(allBytes: seq<seq<Bit>>) returns (decoded: string)
    requires forall i :: 0 <= i < |allBytes| ==> |allBytes[i]| <= 8
    ensures decoded == DecodeFrom(allBytes, "")
  {
    decoded := "";
    var j := 0;
    while j < |allBytes|
      invariant j <= |allBytes|
      invariant DecodeFrom(allBytes[j..], decoded) == DecodeFrom(allBytes, "")
    {
      var chunk := allBytes[j];
      assert allBytes[j..][0] == chunk;
      if chunk == MarkerHigh && |decoded| > 0 {
        return;
      }
      if chunk == MarkerLow {
        return;
      }
      assert allBytes[j..][1..] == allBytes[j + 1..];
      decoded := decoded + [ChunkChar(chunk)];
      if |decoded| > 1000 {
        return;
      }
      j := j + 1;
    }
    assert allBytes[j..] == [];
  }

  // ---------------------------------------------------------------------------------------
  // Properties
  // ---------------------------------------------------------------------------------------

  /** Every character of `text` fits in one byte. */
  predicate SingleByteText(text: string)
  {
    forall i :: 0 <= i < |text| ==> text[i] as int < 256
  }

  lemma MarkerValues()
    ensures BitsValue(MarkerHigh) == 255 && BitsValue(MarkerLow) == 254
  {
    var ones: seq<Bit> := [1, 1, 1, 1, 1, 1, 1, 1];
    for k := 1 to 9
      invariant BitsValue(ones[..k - 1]) == Pow2(k - 1) - 1
    {
      assert ones[..k][..k - 1] == ones[..k - 1];
    }
    assert ones[..8] == ones && MarkerLow[..7] == ones[..7];
    Pow2Monotone(8, 8);
    assert MarkerHigh == ones;
  }

  lemma {:induction false} EncodeCharsLength(text: string)
    requires SingleByteText(text)
    ensures |EncodeChars(text)| == 8 * |text|
  {
    if text != [] {
      EncodeCharsLength(text[1..]);
    }
  }

  /** With single-byte characters, character j occupies bits 8j .. 8j+7 of the encoding. */
  lemma EncodedCharAt(text: string, j: nat)
    requires SingleByteText(text) && j < |text|
    ensures |EncodeChars(text)| == 8 * |text|
    ensures EncodeChars(text)[8 * j .. 8 * j + 8] == Format08b(text[j] as nat)
  {
    var x, y, z := EncodeChars(text[..j]), Format08b(text[j] as nat), EncodeChars(text[j + 1..]);
    EncodeCharsSplit(text, j);
    EncodedPrefixLength(text, j);
    EncodeCharsLength(text);
    MiddleSlice(x, y, z);
  }

  /** The encoding around character j: what precedes it, its own bits, what follows. */
  lemma EncodeCharsSplit(text: string, j: nat)
    requires j < |text|
    ensures EncodeChars(text) == EncodeChars(text[..j]) + (Format08b(text[j] as nat) + EncodeChars(text[j + 1..]))
  {
    var pre, rest := text[..j], text[j..];
    assert text == pre + rest;
    EncodeCharsAppend(pre, rest);
    assert rest[1..] == text[j + 1..];
  }

  /** With single-byte characters, the first j characters take 8j bits and the next one 8. */
  lemma EncodedPrefixLength(text: string, j: nat)
    requires SingleByteText(text) && j < |text|
    ensures |EncodeChars(text[..j])| == 8 * j && |Format08b(text[j] as nat)| == 8
  {
    var pre := text[..j];
    assert SingleByteText(pre) by {
      forall i | 0 <= i < |pre|
        ensures pre[i] as int < 256
      {
        assert pre[i] == text[i];
      }
    }
    EncodeCharsLength(pre);
  }

  /** The encoding of a concatenation is the concatenation of the encodings. */
  lemma {:induction false} EncodeCharsAppend(a: string, b: string)
    ensures EncodeChars(a + b) == EncodeChars(a) + EncodeChars(b)
    decreases |a|
  {
    if a == [] {
      assert a + b == b;
    } else {
      assert (a + b)[0] == a[0] && (a + b)[1..] == a[1..] + b;
      EncodeCharsAppend(a[1..], b);
    }
  }

  /** The middle part of a three-part concatenation. */
  lemma MiddleSlice<T>(x: seq<T>, y: seq<T>, z: seq<T>)
    ensures (x + (y + z))[|x| .. |x| + |y|] == y
  {
    assert (x + (y + z))[|x| .. |x| + |y|] == (y + z)[..|y|];
  }

  /** Chunk j of a bit string long enough to hold it is bits 8j .. 8j+7. */
  lemma {:induction false} ChunkAt(bits: seq<Bit>, j: nat)
    requires 8 * j + 8 <= |bits|
    ensures j < |Chunks(bits)| && Chunks(bits)[j] == bits[8 * j .. 8 * j + 8]
    decreases j
  {
    if |bits| == 8 {
      assert bits[0..8] == bits;
    } else if j > 0 {
      ChunkAt(bits[8..], j - 1);
      assert bits[8..][8 * (j - 1) .. 8 * (j - 1) + 8] == bits[8 * j .. 8 * j + 8];
    }
  }

  /** The low bits of an embedded picture repeat the payload, as far as the picture reaches. */
  lemma LowBitsOfEmbed(pixels: seq<Pixel>, payload: seq<Bit>, from: nat, to: nat)
    requires from <= to <= |payload| && to <= |pixels|
    ensures LowBits(Embed(pixels, payload))[from..to] == payload[from..to]
  {
  }

  /**
   * Decoding chunks that spell out `text` (no character 254 or 255) and then the marker's
   * first byte gives back `text`, from whatever prefix of it has been decoded already.
   */
  lemma {:induction false} DecodeRecovers(chunks: seq<seq<Bit>>, text: string, j: nat)
    requires forall i :: 0 <= i < |chunks| ==> |chunks[i]| <= 8
    requires 1 <= |text| <= 1001 && j <= |text| && |text| < |chunks|
    requires forall i :: 0 <= i < |text| ==> text[i] as int < 254 && chunks[i] == Format08b(text[i] as nat)
    requires chunks[|text|] == MarkerHigh
    ensures DecodeFrom(chunks[j..], text[..j]) == text
    decreases |text| - j
  {
    if j == |text| {
      RecoverEnd(chunks, text);
    } else {
      RecoverStep(chunks, text, j);
      if j + 1 <= 1000 {
        DecodeRecovers(chunks, text, j + 1);
      } else {
        assert text[..j + 1] == text;
      }
    }
  }

  /** Once the whole text is decoded, the first marker byte ends the loop. */
  lemma RecoverEnd(chunks: seq<seq<Bit>>, text: string)
    requires forall i :: 0 <= i < |chunks| ==> |chunks[i]| <= 8
    requires 1 <= |text| < |chunks| && chunks[|text|] == MarkerHigh
    ensures DecodeFrom(chunks[|text|..], text) == text
  {
    assert chunks[|text|..][0] == MarkerHigh;
  }

  /** Chunk j of the encoding decodes to character j. */
  lemma RecoverStep(chunks: seq<seq<Bit>>, text: string, j: nat)
    requires forall i :: 0 <= i < |chunks| ==> |chunks[i]| <= 8
    requires j < |text| < |chunks|
    requires text[j] as int < 254 && chunks[j] == Format08b(text[j] as nat)
    ensures DecodeFrom(chunks[j..], text[..j]) ==
      if j + 1 > 1000 then text[..j + 1] else DecodeFrom(chunks[j + 1..], text[..j + 1])
  {
    var rest := chunks[j..];
    NotMarker(text[j] as nat);
    assert rest[0] == chunks[j] && rest[1..] == chunks[j + 1..];
    assert text[..j] + [ChunkChar(chunks[j])] == text[..j + 1];
    DecodeCharStep(rest, text[..j]);
  }

  /** The encoding of a code below 254 is neither marker byte and decodes back to that code. */
  lemma NotMarker(x: nat)
    requires x < 254
    ensures Format08b(x) != MarkerHigh && Format08b(x) != MarkerLow
    ensures ChunkChar(Format08b(x)) as int == x
  {
    MarkerValues();
  }

  /** One pass of the decoding loop over a chunk that is no marker byte. */
  lemma DecodeCharStep(chunks: seq<seq<Bit>>, decoded: string)
    requires forall i :: 0 <= i < |chunks| ==> |chunks[i]| <= 8
    requires chunks != [] && chunks[0] != MarkerHigh && chunks[0] != MarkerLow
    ensures DecodeFrom(chunks, decoded) ==
      var d := decoded + [ChunkChar(chunks[0])];
      if |d| > 1000 then d else DecodeFrom(chunks[1..], d)
  {
  }

  /** Chunk i of a picture holding `text` is the encoding of character i. */
  lemma HiddenCharChunk(pixels: seq<Pixel>, text: string, i: nat)
    requires SingleByteText(text) && i < |text| && |pixels| >= 8 * |text| + 8
    ensures i < |Chunks(LowBits(Embed(pixels, Payload(text))))|
    ensures Chunks(LowBits(Embed(pixels, Payload(text))))[i] == Format08b(text[i] as nat)
  {
    var encoded := EncodeChars(text);
    var payload := Payload(text);
    var bits := LowBits(Embed(pixels, payload));
    EncodedCharAt(text, i);
    PrefixSlice(encoded, EndMarker, 8 * i, 8 * i + 8);
    LowBitsOfEmbed(pixels, payload, 8 * i, 8 * i + 8);
    ChunkAt(bits, i);
  }

  /** Slicing inside the first part of a concatenation. */
  lemma PrefixSlice<T>(x: seq<T>, y: seq<T>, from: nat, to: nat)
    requires from <= to <= |x|
    ensures (x + y)[from..to] == x[from..to]
  {
  }

  /** The chunk after the last character of a hidden `text` is the marker's first byte. */
  lemma HiddenMarkerChunk(pixels: seq<Pixel>, text: string)
    requires SingleByteText(text) && |pixels| >= 8 * |text| + 8
    ensures |text| < |Chunks(LowBits(Embed(pixels, Payload(text))))|
    ensures Chunks(LowBits(Embed(pixels, Payload(text))))[|text|] == MarkerHigh
  {
    var payload := Payload(text);
    var bits := LowBits(Embed(pixels, payload));
    var k := |text|;
    EncodeCharsLength(text);
    assert payload[8 * k .. 8 * k + 8] == MarkerHigh;
    LowBitsOfEmbed(pixels, payload, 8 * k, 8 * k + 8);
    ChunkAt(bits, k);
  }

  /**
   * Round trip: a secret of 1 to 1001 characters below 254, hidden in a picture with room
   * for its bits and the first marker byte, is extracted unchanged.
   */
  lemma ExtractHidden(pixels: seq<Pixel>, text: string)
    requires 1 <= |text| <= 1001
    requires forall i :: 0 <= i < |text| ==> text[i] as int < 254
    requires |pixels| >= 8 * |text| + 8
    ensures ExtractText(Embed(pixels, Payload(text))) == text
  {
    var chunks := Chunks(LowBits(Embed(pixels, Payload(text))));
    forall i | 0 <= i < |text|
      ensures i < |chunks| && chunks[i] == Format08b(text[i] as nat)
    {
      HiddenCharChunk(pixels, text, i);
    }
    HiddenMarkerChunk(pixels, text);
    DecodeRecovers(chunks, text, 0);
    assert chunks[0..] == chunks;
  }

  /** Extraction never yields more than 1001 decoded characters. */
  lemma {:induction false} DecodeFromLength(chunks: seq<seq<Bit>>, decoded: string)
    requires forall i :: 0 <= i < |chunks| ==> |chunks[i]| <= 8
    requires |decoded| <= 1000
    ensures |DecodeFrom(chunks, decoded)| <= 1001
    decreases |chunks|
  {
    if chunks != [] && !(chunks[0] == MarkerHigh && |decoded| > 0) && chunks[0] != MarkerLow {
      var d := decoded + [ChunkChar(chunks[0])];
      if |d| <= 1000 {
        DecodeFromLength(chunks[1..], d);
      }
    }
  }

  lemma ExtractTextLength(pixels: seq<Pixel>)
    ensures 1 <= |ExtractText(pixels)| <= 1001
  {
    DecodeFromLength(Chunks(LowBits(pixels)), "");
  }

  /**
   * Hiding the empty secret writes only the end marker; its first byte is read as the
   * character 255, because the marker byte 11111111 ends extraction only after some text.
   */
  lemma ExtractHiddenEmpty(pixels: seq<Pixel>)
    requires |pixels| >= 16
    ensures ExtractText(Embed(pixels, Payload(""))) == [255 as char]
  {
    var payload := Payload("");
    assert payload == MarkerHigh + MarkerLow;
    var bits := LowBits(Embed(pixels, payload));
    LowBitsOfEmbed(pixels, payload, 0, 16);
    MarkerChunks(bits);
    DecodeMarkerOnly(Chunks(bits));
  }

  /** Bits that start with the end marker split into its two bytes first. */
  lemma MarkerChunks(bits: seq<Bit>)
    requires |bits| >= 16 && bits[0..16] == MarkerHigh + MarkerLow
    ensures |Chunks(bits)| >= 2 && Chunks(bits)[0] == MarkerHigh && Chunks(bits)[1] == MarkerLow
  {
    ChunkAt(bits, 0);
    ChunkAt(bits, 1);
    assert bits[0..8] == bits[0..16][0..8];
    assert bits[8..16] == bits[0..16][8..16];
  }

  /** The decoding loop on the bare end marker: the first byte decodes, the second stops. */
  lemma DecodeMarkerOnly(chunks: seq<seq<Bit>>)
    requires forall i :: 0 <= i < |chunks| ==> |chunks[i]| <= 8
    requires |chunks| >= 2 && chunks[0] == MarkerHigh && chunks[1] == MarkerLow
    ensures DecodeFrom(chunks, "") == [255 as char]
  {
    MarkerValues();
    assert ChunkChar(chunks[0]) == 255 as char;
    assert DecodeFrom(chunks, "") == DecodeFrom(chunks[1..], [255 as char]);
    assert chunks[1..][0] == MarkerLow;
  }
}
