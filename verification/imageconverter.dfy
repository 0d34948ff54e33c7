/**
 * `resizeImage` and `convertToC`: resizing an RGB565 image through RGBA and
 * formatting RGB565 data as a C array declaration.
 */
module ImageConverter {
  import opened Wrappers
  import opened Bits
  import opened Rgb565
  import opened Frames
  import opened Naming
  import opened NumberText
  import opened CArraySyntax

  /** An image in the converter's stored form: RGB565, two bytes per pixel. */
  datatype ImageData = ImageData(width: nat, height: nat, data: seq<nat>)

  predicate Valid(image: ImageData)
  {
    IsRgb565Frame(image.data, image.width, image.height)
  }

  /**
   * The browser's drawing surface, given an RGBA frame with its width and
   * height and the target width and height: whatever resampling it does, it
   * hands back an RGBA frame of the target size.
   */
  type Canvas = draw: (seq<nat>, nat, nat, nat, nat) -> seq<nat>
    | forall src, w, h, fw, fh :: IsRgbaFrame(draw(src, w, h, fw, fh), fw, fh)
    witness BlankCanvas

  /** A canvas that paints every target pixel transparent black. */
  function BlankCanvas(src: seq<nat>, w: nat, h: nat, fw: nat, fh: nat): (frame: seq<nat>)
    ensures IsRgbaFrame(frame, fw, fh)
  {
    seq(fw * fh * 4, _ => 0)
  }

  /** The canvas leaves an RGBA frame drawn at its own size untouched. */
  ghost predicate IdentityAt(canvas: Canvas, w: nat, h: nat)
  {
    forall src :: IsRgbaFrame(src, w, h) ==> canvas(src, w, h, w, h) == src
  }

  /** `getImageData` refuses a zero width or height. */
  datatype ResizeError = ZeroDimension

  /**
   * JavaScript truthiness of an optional dimension: `undefined` and `0` are
   * falsy, every other value counts.
   */
  predicate Truthy(target: Option<nat>)
  {
    target.Some? && target.value != 0
  }

  /**
   * `newWidth || Math.round(newHeight * aspectRatio)` and
   * `newHeight || Math.round(newWidth / aspectRatio)`, with the aspect ratio
   * `width / height` taken exactly.
   */
  function FinalSize(image: ImageData, newWidth: Option<nat>, newHeight: Option<nat>): (size: (nat, nat))
    requires Truthy(newWidth) || Truthy(newHeight)
    requires image.width > 0 && image.height > 0
    ensures Truthy(newWidth) ==> size.0 == newWidth.value
    ensures Truthy(newHeight) ==> size.1 == newHeight.value
    ensures !Truthy(newWidth) ==>
      -(image.height as int) < 2 * (image.height * size.0 - newHeight.value * image.width) <= image.height
    ensures !Truthy(newHeight) ==>
      -(image.width as int) < 2 * (image.width * size.1 - newWidth.value * image.height) <= image.width
  {
    var finalWidth := if Truthy(newWidth) then newWidth.value
      else RoundDiv(newHeight.value * image.width, image.height);
    var finalHeight := if Truthy(newHeight) then newHeight.value
      else RoundDiv(newWidth.value * image.height, image.width);
    (finalWidth, finalHeight)
  }

  /** The loop converting RGB565 back to RGBA before drawing. */
  function UnpackFrame(data: seq<nat>): (rgba: seq<nat>)
    requires IsBytes(data) && |data| % 2 == 0
    ensures |rgba| == 2 * |data| && |rgba| % 4 == 0 && IsBytes(rgba)
    ensures forall k :: 0 <= k < |data| / 2 ==> PixelAt(rgba, k) == UnpackProportional(WordAt(data, k))
  {
    var n := |data| / 2;
    assert |data| == 2 * n;
    var pixels := seq(n, k requires 0 <= k < n => UnpackProportional(WordAt(data, k)));
    PixelsToBytes(pixels)
  }

  /** The loop converting the resized RGBA back to RGB565. */
  function RepackFrame(rgba: seq<nat>): (data: seq<nat>)
    requires IsBytes(rgba) && |rgba| % 4 == 0
    ensures |data| == |rgba| / 2 && IsBytes(data)
    ensures forall k :: 0 <= k < |rgba| / 4 ==> WordAt(data, k) == RepackPixel(PixelAt(rgba, k))
  {
    var words := seq(|rgba| / 4, k requires 0 <= k < |rgba| / 4 => RepackPixel(PixelAt(rgba, k)));
    WordsToBytes(words)
  }

  /** One resized RGBA pixel packed proportionally; its alpha byte is never read. */
  function RepackPixel(p: Rgba): (v: nat)
    requires IsRgbaPixel(p)
    ensures v < 65536
    ensures -255 < 2 * (255 * Red5(v) - 31 * p.r) <= 255
    ensures -255 < 2 * (255 * Green6(v) - 63 * p.g) <= 255
    ensures -255 < 2 * (255 * Blue5(v) - 31 * p.b) <= 255
  {
    PackProportional(p.r, p.g, p.b)
  }

  /** Unpacking a whole frame and repacking it gives the frame back, byte for byte. */
  lemma FrameRoundTrip(data: seq<nat>)
    requires IsBytes(data) && |data| % 2 == 0
    ensures RepackFrame(UnpackFrame(data)) == data
  {
    var back := RepackFrame(UnpackFrame(data));
    forall k | 0 <= k < |data| / 2 ensures WordAt(back, k) == WordAt(data, k) {
      WordRoundTrip(data, k);
    }
    WordsDetermineBytes(back, data);
  }

  lemma WordRoundTrip(data: seq<nat>, k: nat)
    requires IsBytes(data) && |data| % 2 == 0 && k < |data| / 2
    ensures |RepackFrame(UnpackFrame(data))| == |data|
    ensures WordAt(RepackFrame(UnpackFrame(data)), k) == WordAt(data, k)
  {
    var rgba := UnpackFrame(data);
    assert |rgba| / 4 == |data| / 2 && 4 * k + 3 < |rgba|;
    assert PixelAt(rgba, k) == UnpackProportional(WordAt(data, k));
    ProportionalRoundTrip(WordAt(data, k));
  }

  /** `resizeImage(imageData, newWidth, newHeight)` */
  function Resize(image: ImageData, newWidth: Option<nat>, newHeight: Option<nat>, canvas: Canvas)
    : (r: Result<ImageData, ResizeError>)
    requires Valid(image)
    requires Truthy(newWidth) || Truthy(newHeight) ==> image.width > 0 && image.height > 0
    ensures !Truthy(newWidth) && !Truthy(newHeight) ==> r == Success(image)
    ensures r.Success? ==> Valid(r.value)
    ensures Truthy(newWidth) || Truthy(newHeight) ==>
      var size := FinalSize(image, newWidth, newHeight);
      && (r.Failure? <==> size.0 == 0 || size.1 == 0)
      && (r.Success? ==> r.value.width == size.0 && r.value.height == size.1)
      && (r.Success? ==>
            var resized := canvas(UnpackFrame(image.data), image.width, image.height, size.0, size.1);
            forall k :: 0 <= k < size.0 * size.1 ==>
              WordAt(r.value.data, k) == RepackPixel(PixelAt(resized, k)))
  {
    if !Truthy(newWidth) && !Truthy(newHeight) then Success(image)
    else
      var (finalWidth, finalHeight) := FinalSize(image, newWidth, newHeight);
      if finalWidth == 0 || finalHeight == 0 then Failure(ZeroDimension)
      else
        var rgba := UnpackFrame(image.data);
        var resized := canvas(rgba, image.width, image.height, finalWidth, finalHeight);
        var pixels := finalWidth * finalHeight;
        assert IsRgbaFrame(resized, finalWidth, finalHeight);
        assert |resized| == pixels * 4;
        DivModUnique(pixels * 4, 2, pixels * 2, 0);
        DivModUnique(pixels * 4, 4, pixels, 0);
        Success(ImageData(finalWidth, finalHeight, RepackFrame(resized)))
  }

  /**
   * Resizing to the image's own size through a canvas that draws a frame at
   * its own size unchanged gives the image back: the two proportional
   * conversions lose nothing on the way.
   */
  lemma ResizeToSameSize(image: ImageData, newWidth: Option<nat>, newHeight: Option<nat>, canvas: Canvas)
    requires Valid(image) && image.width > 0 && image.height > 0
    requires Truthy(newWidth) || Truthy(newHeight)
    requires FinalSize(image, newWidth, newHeight) == (image.width, image.height)
    requires IdentityAt(canvas, image.width, image.height)
    ensures Resize(image, newWidth, newHeight, canvas) == Success(image)
  {
    var rgba := UnpackFrame(image.data);
    assert IsRgbaFrame(rgba, image.width, image.height);
    FrameRoundTrip(image.data);
  }

  /**
   * A width or height of 0 is falsy, so `newWidth || …` treats it as if it
   * had not been given at all.
   */
  lemma ZeroTargetIsAbsent(image: ImageData, newWidth: Option<nat>, newHeight: Option<nat>, canvas: Canvas)
    requires Valid(image)
    requires Truthy(newWidth) || Truthy(newHeight) ==> image.width > 0 && image.height > 0
    ensures Resize(image, Some(0), newHeight, canvas) == Resize(image, None, newHeight, canvas)
    ensures Resize(image, newWidth, Some(0), canvas) == Resize(image, newWidth, None, canvas)
  {
  }

  /** A 128x256 image resized to height 64 alone becomes 32 wide. */
  lemma FinalSizeExample(image: ImageData)
    requires image.width == 128 && image.height == 256
    ensures FinalSize(image, None, Some(64)) == (32, 64)
  {
  }

  /** `convertToC(imageData, filename)` */
  function ConvertToC(image: ImageData, fileName: string): (code: string)
    requires IsBytes(image.data) && |image.data| % 2 == 0
    ensures Read(code) == Some(Declaration(|image.data| / 2, VariableName(fileName), BytesToWords(image.data)))
  {
    var variableName := VariableName(fileName);
    var words := BytesToWords(image.data);
    var hexData := HexLiterals(words);
    ReadDeclare(|hexData|, variableName, words);
    Declare(|hexData|, variableName, Join(hexData, Separator))
  }
}
