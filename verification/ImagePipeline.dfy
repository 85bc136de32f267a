/**
 The boot logo from the image file to the screen: the image compiler encodes and compresses
 (rescompiler/imagecompiler/src/tux64-imagecompiler/tux64-imagecompiler.c), and the
 bootloader decompresses (boot/src/tux64-boot/stage1/logo.c).
 */
module ImagePipeline {
  import opened Bytes
  import Rle
  import Compressor
  import opened Encoder
  import opened Logo

  /** What the screen is to show for a pixel. */
  function Shown(pixel: nat, transparent: nat): nat {
    if Opaque(pixel) then pixel else transparent
  }

  /** The picture of an image, two pixels to a word. */
  function Picture(pairs: seq<Pair>, transparent: nat): (words: seq<nat>)
    ensures |words| == |pairs|
  {
    seq(|pairs|, k requires 0 <= k < |pairs| =>
        Shown(pairs[k].first, transparent) * 0x1_0000 + Shown(pairs[k].second, transparent))
  }

  // ----- The picture, byte by byte -----

  /** The half word that the screen holds for a pixel. */
  function Half(screen: seq<nat>, pixel: nat): nat
    requires pixel < 2 * |screen|
  {
    if pixel % 2 == 0 then screen[pixel / 2] / 0x1_0000 else screen[pixel / 2] % 0x1_0000
  }

  /** A pixel of four bytes (red, green, blue, alpha) is shown: the background if it is less than half opaque. */
  predicate ShowsBytes(half: nat, bytes: seq<Byte>, transparent: nat)
    requires |bytes| == 4
  {
    var r: int, g: int, b: int, a: int := bytes[0], bytes[1], bytes[2], bytes[3];
    if a < 0x80 then half == transparent
    else half / 0x800 == r / 8 && half / 0x40 % 0x20 == g / 8 && half / 2 % 0x20 == b / 8 && half % 2 == 1
  }

  /** Each pixel of the image is shown in its place, the first of two in the upper half of their word. */
  predicate ShowsImage(screen: seq<nat>, input: seq<Byte>, transparent: nat) {
    |input| == 8 * |screen|
    && forall k :: 0 <= k < 2 * |screen| ==> ShowsBytes(Half(screen, k), input[4 * k..4 * k + 4], transparent)
  }

  lemma PixelShowsBytes(r: Byte, g: Byte, b: Byte, a: Byte, transparent: nat)
    requires transparent < 0x1_0000
    ensures Shown(Rgba5551(r, g, b, a), transparent) < 0x1_0000
    ensures ShowsBytes(Shown(Rgba5551(r, g, b, a), transparent), [r, g, b, a], transparent)
  {
    if a >= 0x80 {
      Rgba5551KeepsChannels(r, g, b, a);
    }
    hide Rgba5551;
  }

  lemma HalvesOf(first: nat, second: nat)
    requires second < 0x1_0000
    ensures (first * 0x1_0000 + second) / 0x1_0000 == first && (first * 0x1_0000 + second) % 0x1_0000 == second
  {
  }

  /** The picture of the pairs of an image shows the image itself. */
  lemma PictureShowsImage(input: seq<Byte>, transparent: nat)
    requires |input| % 8 == 0 && transparent < 0x1_0000
    ensures ShowsImage(Picture(Pairs(input), transparent), input, transparent)
  {
    hide ShowsBytes;
    hide Picture;
    hide Half;
    var screen := Picture(Pairs(input), transparent);
    forall k | 0 <= k < 2 * |screen|
      ensures ShowsBytes(Half(screen, k), input[4 * k..4 * k + 4], transparent)
    {
      PairShowsBytes(input, transparent, k / 2);
      assert k == 2 * (k / 2) || k == 2 * (k / 2) + 1;
    }
  }

  lemma PairShowsBytes(input: seq<Byte>, transparent: nat, i: nat)
    requires |input| % 8 == 0 && transparent < 0x1_0000 && 8 * i + 8 <= |input|
    ensures var screen := Picture(Pairs(input), transparent);
            && 2 * i + 1 < 2 * |screen|
            && ShowsBytes(Half(screen, 2 * i), input[8 * i..8 * i + 4], transparent)
            && ShowsBytes(Half(screen, 2 * i + 1), input[8 * i + 4..8 * i + 8], transparent)
  {
    var at, screen := 8 * i, Picture(Pairs(input), transparent);
    var first := Shown(Rgba5551(input[at], input[at + 1], input[at + 2], input[at + 3]), transparent);
    var second := Shown(Rgba5551(input[at + 4], input[at + 5], input[at + 6], input[at + 7]), transparent);
    assert screen[i] == first * 0x1_0000 + second;
    hide Picture;
    hide Rgba5551;
    hide ShowsBytes;
    HalvesOfPair(screen, i, first, second) by {
      PixelShowsBytes(input[at + 4], input[at + 5], input[at + 6], input[at + 7], transparent);
    }
    PixelShowsBytes(input[at], input[at + 1], input[at + 2], input[at + 3], transparent);
    PixelShowsBytes(input[at + 4], input[at + 5], input[at + 6], input[at + 7], transparent);
    FourBytes(input, at);
    FourBytes(input, at + 4);
  }

  lemma HalvesOfPair(screen: seq<nat>, i: nat, first: nat, second: nat)
    requires i < |screen| && screen[i] == first * 0x1_0000 + second && second < 0x1_0000
    ensures Half(screen, 2 * i) == first && Half(screen, 2 * i + 1) == second
  {
    HalvesOf(first, second);
  }

  lemma FourBytes(input: seq<Byte>, at: nat)
    requires at + 4 <= |input|
    ensures input[at..at + 4] == [input[at], input[at + 1], input[at + 2], input[at + 3]]
  {
  }

  lemma PairColors(input: seq<Byte>, i: nat, color: nat)
    requires |input| % 8 == 0 && 8 * i + 8 <= |input|
    ensures HasColor(Pairs(input)[i], color) <==>
            ColorOf(input[8 * i..8 * i + 4], color) || ColorOf(input[8 * i + 4..8 * i + 8], color)
  {
    hide ColorOf;
    hide Rgba5551;
    PixelColor(input[8 * i..8 * i + 4], color);
    PixelColor(input[8 * i + 4..8 * i + 8], color);
  }

  /** The colours of an image are those of its opaque pixels. */
  lemma ColorsOfBytes(input: seq<Byte>, color: nat)
    requires |input| % 8 == 0
    ensures color in OpaqueColors(Pairs(input)) <==>
            exists k :: 0 <= k < |input| / 4 && ColorOf(input[4 * k..4 * k + 4], color)
  {
    hide ColorOf;
    hide HasColor;
    hide Pairs;
    OpaqueColorsOf(Pairs(input), color);
    if i :| 0 <= i < |Pairs(input)| && HasColor(Pairs(input)[i], color) {
      PairColors(input, i, color);
      var k := if ColorOf(input[8 * i..8 * i + 4], color) then 2 * i else 2 * i + 1;
      assert ColorOf(input[4 * k..4 * k + 4], color);
    }
    if k :| 0 <= k < |input| / 4 && ColorOf(input[4 * k..4 * k + 4], color) {
      PairColors(input, k / 2, color);
      assert k == 2 * (k / 2) || k == 2 * (k / 2) + 1;
      assert HasColor(Pairs(input)[k / 2], color);
    }
  }

  /** The table of the decoder: the background, then the colours the encoder put out. */
  function DecoderTable(entry0: nat, seen: seq<nat>, transparent: nat): (table: seq<nat>)
    requires |seen| <= COLORS
    ensures |table| == COLOR_TABLE_ENTRIES
  {
    [transparent] + TableOf(entry0, seen)
  }

  lemma IndexIsShown(entry0: nat, seen: seq<nat>, pixel: nat, transparent: nat)
    requires |seen| <= COLORS && (Opaque(pixel) ==> pixel in seen)
    ensures IndexFor(seen, pixel) <= COLORS
    ensures DecoderTable(entry0, seen, transparent)[IndexFor(seen, pixel)] == Shown(pixel, transparent)
  {
    if Opaque(pixel) {
      IndexLeadsToColor(entry0, seen, pixel);
    }
  }

  lemma NibblesOf(high: nat, low: nat, tuple: int)
    requires low < 0x10 && tuple == high * 0x10 + low
    ensures tuple / 16 == high && tuple % 16 == low
  {
  }

  lemma TupleIsShown(entry0: nat, seen: seq<nat>, pair: Pair, transparent: nat)
    requires |seen| <= COLORS && Knows(seen, pair)
    ensures ColorWord(DecoderTable(entry0, seen, transparent), TupleFor(seen, pair))
         == Shown(pair.first, transparent) * 0x1_0000 + Shown(pair.second, transparent)
  {
    IndexIsShown(entry0, seen, pair.first, transparent);
    IndexIsShown(entry0, seen, pair.second, transparent);
    NibblesOf(IndexFor(seen, pair.first), IndexFor(seen, pair.second), TupleFor(seen, pair));
  }

  /** Colouring the tuples of an image shows the image, whatever entry 0 of the table held before. */
  lemma TuplesShowPicture(entry0: nat, seen: seq<nat>, pairs: seq<Pair>, transparent: nat)
    requires |seen| <= COLORS && Covers(seen, pairs)
    ensures Colored(DecoderTable(entry0, seen, transparent), Tuples(seen, pairs)) == Picture(pairs, transparent)
  {
    forall k | 0 <= k < |pairs|
      ensures Colored(DecoderTable(entry0, seen, transparent), Tuples(seen, pairs))[k] == Picture(pairs, transparent)[k]
    {
      assert Knows(seen, pairs[k]);
      TupleIsShown(entry0, seen, pairs[k], transparent);
    }
  }

  /** The whole way: decompressing what was compressed shows every pixel of an image that fits. */
  lemma ImageIsShown(entry0: nat, pairs: seq<Pair>, transparent: nat)
    requires Fits(entry0, Seen(pairs))
    ensures Covers(Seen(pairs), pairs)
    ensures var compressed := Compressor.Encode([], Tuples(Seen(pairs), pairs));
            && Rle.WellFormed(compressed) && |Rle.Decode(compressed)| == |pairs|
            && Colored(DecoderTable(entry0, Seen(pairs), transparent), Rle.Decode(compressed)) == Picture(pairs,
                transparent)
  {
    SeenCovers(pairs);
    var tuples := Tuples(Seen(pairs), pairs);
    Compressor.DecodeOfEncode([], tuples);
    Compressor.NothingPending(tuples);
    TuplesShowPicture(entry0, Seen(pairs), pairs, transparent);
  }

  /**
   Compiles an image and decodes it again. With a colour table that starts out zeroed, as a
   global does, this succeeds exactly for images of the right size with at most fifteen
   opaque colours, and then the screen holds the picture.
   */
  method CompileAndShow(input: seq<Byte>, colorTable: array<nat>, pixelTuples: array<Byte>, buffer: array<Byte>,
                        transparent: nat, screen: array<nat>) returns (status: Status)
    requires colorTable.Length == COLORS && colorTable[0] == EMPTY_COLOR
    requires 2 <= pixelTuples.Length == screen.Length && buffer.Length == Compressor.MaxBytes(pixelTuples.Length)
    requires pixelTuples != buffer && colorTable != screen
    modifies colorTable, pixelTuples, buffer, screen
    ensures status == InvalidImageFormat <==> |input| != 8 * screen.Length
    ensures |input| == 8 * screen.Length ==>
              (if |OpaqueColors(Pairs(input))| <= COLORS then status == Ok
                  && screen[..] == Picture(Pairs(input), transparent)
                  && (transparent < 0x1_0000 ==> ShowsImage(screen[..], input, transparent))
               else status == TooManyColors)
  {
    hide OpaqueColors;
    hide Picture;
    hide Encoded;
    hide Fits;
    status := Encoder.Encode(input, colorTable, pixelTuples);
    if status == InvalidImageFormat {
      return;
    }
    ghost var pairs := Pairs(input);
    FitsIffFewColors(pairs);
    if status != Ok {
      return;
    }
    EncodedIsShown(pairs, colorTable[..], pixelTuples[..], transparent);
    var length := Compressor.Compress(pixelTuples[..], buffer);
    var decoder := new Decoder(buffer[..length], colorTable[..], screen);
    TableWithBackground(colorTable[..], transparent);
    decoder.Initialize(transparent);
    assert screen[..] == screen[..|pairs|];
    hide ShowsImage;
    if transparent < 0x1_0000 {
      PictureShowsImage(input, transparent);
    }
  }

  lemma TableWithBackground(colors: seq<nat>, transparent: nat)
    requires |colors| == COLORS
    ensures ([0] + colors)[0 := transparent] == [transparent] + colors
  {
  }

  lemma FitsIffFewColors(pairs: seq<Pair>)
    ensures Fits(EMPTY_COLOR, Seen(pairs)) <==> |OpaqueColors(pairs)| <= COLORS
  {
    hide OpaqueColors;
    SeenCountsColors(pairs);
  }

  lemma EncodedIsShown(pairs: seq<Pair>, colors: seq<nat>, tuples: seq<Byte>, transparent: nat)
    requires Encoded(EMPTY_COLOR, pairs, colors, tuples)
    ensures Fits(EMPTY_COLOR, Seen(pairs)) && |colors| == COLORS
    ensures var compressed := Compressor.Encode([], tuples);
            && Rle.WellFormed(compressed) && |Rle.Decode(compressed)| == |pairs|
            && Colored([transparent] + colors, Rle.Decode(compressed)) == Picture(pairs, transparent)
  {
    ImageIsShown(EMPTY_COLOR, pairs, transparent);
  }
}
