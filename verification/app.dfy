/**
 * The part of the application's `handleFileSelect` that is not I/O: the
 * variable name taken from the file name, and the loop that packs the
 * decoded RGBA pixels into the stored RGB565 image with the truncating
 * packer.
 */
module App {
  import opened Bits
  import opened Rgb565
  import opened Frames
  import opened Naming
  import opened ImageConverter
  import opened Wrappers
  import opened CArraySyntax

  /** One decoded pixel packed by truncation; its alpha byte is never read. */
  function PackPixelTruncating(p: Rgba): (v: nat)
    requires IsRgbaPixel(p)
    ensures v < 65536
    ensures Red5(v) == p.r / 8 && Green6(v) == p.g / 4 && Blue5(v) == p.b / 8
  {
    PackTruncating(p.r, p.g, p.b)
  }

  /** The loop over the decoded RGBA bytes, four in and two out per pixel. */
  function PackFrameTruncating(rgba: seq<nat>): (data: seq<nat>)
    requires IsBytes(rgba) && |rgba| % 4 == 0
    ensures |data| == |rgba| / 2 && IsBytes(data)
    ensures forall k :: 0 <= k < |rgba| / 4 ==> WordAt(data, k) == PackPixelTruncating(PixelAt(rgba, k))
  {
    var words := seq(|rgba| / 4, k requires 0 <= k < |rgba| / 4 => PackPixelTruncating(PixelAt(rgba, k)));
    WordsToBytes(words)
  }

  /**
   * Pixel k (bytes 4k .. 4k + 3) lands in bytes 2k and 2k + 1, high byte
   * first, and nowhere else.
   */
  lemma TruncatingFrameLayout(rgba: seq<nat>, k: nat)
    requires IsBytes(rgba) && |rgba| % 4 == 0 && k < |rgba| / 4
    ensures var data := PackFrameTruncating(rgba);
      var v := PackTruncating(rgba[4 * k], rgba[4 * k + 1], rgba[4 * k + 2]);
      data[2 * k] == HighByte(v) && data[2 * k + 1] == LowByte(v)
  {
    var data := PackFrameTruncating(rgba);
    var v := PackTruncating(rgba[4 * k], rgba[4 * k + 1], rgba[4 * k + 2]);
    assert WordAt(data, k) == v;
    CombineSplit(data[2 * k], data[2 * k + 1]);
  }

  /** Two decoded frames that differ at most in their alpha bytes pack to the same data. */
  lemma TruncatingFrameIgnoresAlpha(rgba: seq<nat>, other: seq<nat>)
    requires IsBytes(rgba) && IsBytes(other) && |rgba| == |other| && |rgba| % 4 == 0
    requires forall i :: 0 <= i < |rgba| && i % 4 != 3 ==> rgba[i] == other[i]
    ensures PackFrameTruncating(rgba) == PackFrameTruncating(other)
  {
    var a, b := PackFrameTruncating(rgba), PackFrameTruncating(other);
    assert |a| / 2 == |rgba| / 4;
    forall k | 0 <= k < |rgba| / 4 ensures WordAt(a, k) == WordAt(b, k) {
      ColoursAgree(rgba, other, k);
    }
    WordsDetermineBytes(a, b);
  }

  lemma ColoursAgree(rgba: seq<nat>, other: seq<nat>, k: nat)
    requires |rgba| == |other| && 4 * k + 3 < |rgba|
    requires forall i :: 0 <= i < |rgba| && i % 4 != 3 ==> rgba[i] == other[i]
    ensures PixelAt(rgba, k).r == PixelAt(other, k).r
    ensures PixelAt(rgba, k).g == PixelAt(other, k).g
    ensures PixelAt(rgba, k).b == PixelAt(other, k).b
  {
    var i := 4 * k;
    assert i % 4 == 0 && (i + 1) % 4 == 1 && (i + 2) % 4 == 2;
    assert rgba[i] == other[i] && rgba[i + 1] == other[i + 1] && rgba[i + 2] == other[i + 2];
  }

  /**
   * An image unpacked proportionally for resizing and packed again by the
   * upload path's truncating packer comes back unchanged.
   */
  lemma TruncatingFrameAfterUnpack(data: seq<nat>)
    requires IsBytes(data) && |data| % 2 == 0
    ensures PackFrameTruncating(UnpackFrame(data)) == data
  {
    var back := PackFrameTruncating(UnpackFrame(data));
    forall k | 0 <= k < |data| / 2 ensures WordAt(back, k) == WordAt(data, k) {
      TruncatingWordAfterUnpack(data, k);
    }
    WordsDetermineBytes(back, data);
  }

  lemma TruncatingWordAfterUnpack(data: seq<nat>, k: nat)
    requires IsBytes(data) && |data| % 2 == 0 && k < |data| / 2
    ensures |PackFrameTruncating(UnpackFrame(data))| == |data|
    ensures WordAt(PackFrameTruncating(UnpackFrame(data)), k) == WordAt(data, k)
  {
    var rgba := UnpackFrame(data);
    assert |rgba| / 4 == |data| / 2 && 4 * k + 3 < |rgba|;
    assert PixelAt(rgba, k) == UnpackProportional(WordAt(data, k));
    TruncatingAfterProportional(WordAt(data, k));
  }

  /** What `handleFileSelect` keeps once the file is decoded. */
  datatype Loaded = Loaded(variableName: string, image: ImageData)

  /** The words of an upload: pixel k of the decoded frame packed by truncation. */
  function UploadWords(rgba: seq<nat>, pixels: nat): (words: seq<nat>)
    requires IsBytes(rgba) && |rgba| == pixels * 4
    ensures |words| == pixels
    ensures forall k :: 0 <= k < pixels ==> words[k] == PackPixelTruncating(PixelAt(rgba, k))
  {
    seq(pixels, k requires 0 <= k < pixels => PackPixelTruncating(PixelAt(rgba, k)))
  }

  /**
   * `handleFileSelect` from the decoded RGBA frame onwards: the stored image
   * keeps the decoded size, and its words are the decoded pixels packed by
   * truncation, in order.
   */
  function HandleFileSelect(fileName: string, width: nat, height: nat, rgba: seq<nat>): (loaded: Loaded)
    requires IsRgbaFrame(rgba, width, height)
    ensures loaded.variableName == VariableName(fileName)
    ensures loaded.image.width == width && loaded.image.height == height
    ensures Valid(loaded.image) && |loaded.image.data| % 2 == 0
    ensures BytesToWords(loaded.image.data) == UploadWords(rgba, width * height)
  {
    var pixels := width * height;
    FrameSize(rgba, pixels);
    var data := PackFrameTruncating(rgba);
    PackedWords(rgba, pixels);
    Loaded(VariableName(fileName), ImageData(width, height, data))
  }

  lemma FrameSize(rgba: seq<nat>, pixels: nat)
    requires |rgba| == pixels * 4
    ensures |rgba| % 4 == 0 && |rgba| / 4 == pixels && |rgba| / 2 == pixels * 2
    ensures (pixels * 2) % 2 == 0
  {
    DivModUnique(pixels * 4, 2, pixels * 2, 0);
    DivModUnique(pixels * 4, 4, pixels, 0);
  }

  /** The truncating frame packer stores exactly the upload's words. */
  lemma PackedWords(rgba: seq<nat>, pixels: nat)
    requires IsBytes(rgba) && |rgba| == pixels * 4
    ensures |rgba| % 4 == 0
    ensures BytesToWords(PackFrameTruncating(rgba)) == UploadWords(rgba, pixels)
  {
    FrameSize(rgba, pixels);
  }

  /**
   * Converting a freshly loaded image to C declares one element per decoded
   * pixel, under the name derived from the file, holding each pixel's
   * truncating pack in order.
   */
  lemma LoadThenConvert(fileName: string, width: nat, height: nat, rgba: seq<nat>)
    requires IsRgbaFrame(rgba, width, height)
    ensures var loaded := HandleFileSelect(fileName, width, height, rgba);
      Read(ConvertToC(loaded.image, fileName))
        == Some(Declaration(width * height, VariableName(fileName), UploadWords(rgba, width * height)))
  {
    var data := HandleFileSelect(fileName, width, height, rgba).image.data;
    assert |data| / 2 == width * height;
  }
}
