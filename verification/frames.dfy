/**
 * Pixel buffers as the converter stores them: flat byte sequences with no
 * padding or stride. An RGB565 frame holds two bytes per pixel, the word's
 * high byte first; an RGBA frame holds four bytes per pixel in the order
 * R, G, B, A.
 */
module Frames {
  import opened Bits
  import opened Rgb565

  predicate IsRgb565Frame(data: seq<nat>, width: nat, height: nat)
  {
    |data| == width * height * 2 && IsBytes(data)
  }

  predicate IsRgbaFrame(rgba: seq<nat>, width: nat, height: nat)
  {
    |rgba| == width * height * 4 && IsBytes(rgba)
  }

  /** `(data[2k] << 8) | data[2k + 1]`: the k-th word of an RGB565 buffer. */
  function WordAt(data: seq<nat>, k: nat): (w: nat)
    requires IsBytes(data) && 2 * k + 1 < |data|
    ensures w < 65536
    ensures w / 256 == data[2 * k] && w % 256 == data[2 * k + 1]
  {
    Combine(data[2 * k], data[2 * k + 1])
  }

  /** The k-th pixel of an RGBA buffer, bytes 4k .. 4k + 3. */
  function PixelAt(rgba: seq<nat>, k: nat): (p: Rgba)
    requires 4 * k + 3 < |rgba|
    ensures IsBytes(rgba) ==> IsRgbaPixel(p)
  {
    Rgba(rgba[4 * k], rgba[4 * k + 1], rgba[4 * k + 2], rgba[4 * k + 3])
  }

  predicate AreWords(words: seq<nat>)
  {
    forall k :: 0 <= k < |words| ==> words[k] < 65536
  }

  predicate ArePixels(pixels: seq<Rgba>)
  {
    forall k :: 0 <= k < |pixels| ==> IsRgbaPixel(pixels[k])
  }

  /** Stores each word as its high byte followed by its low byte. */
  function WordsToBytes(words: seq<nat>): (data: seq<nat>)
    requires AreWords(words)
    ensures |data| == 2 * |words| && IsBytes(data)
    ensures forall k :: 0 <= k < |words| ==> WordAt(data, k) == words[k]
  {
    var data := seq(2 * |words|, i requires 0 <= i < 2 * |words| => StoredByte(words[i / 2], i % 2));
    WordsLaidOut(words, data);
    data
  }

  /** Byte `half` of a word in storage order: 0 for the high byte, 1 for the low. */
  function StoredByte(w: nat, half: nat): (x: nat)
    ensures IsByte(x)
  {
    if half == 0 then HighByte(w) else LowByte(w)
  }

  lemma WordsLaidOut(words: seq<nat>, data: seq<nat>)
    requires AreWords(words) && |data| == 2 * |words|
    requires forall i :: 0 <= i < |data| ==> data[i] == StoredByte(words[i / 2], i % 2)
    ensures IsBytes(data)
    ensures forall k :: 0 <= k < |words| ==> WordAt(data, k) == words[k]
  {
    forall k | 0 <= k < |words| ensures WordAt(data, k) == words[k] {
      assert (2 * k) / 2 == k && (2 * k + 1) / 2 == k && (2 * k) % 2 == 0 && (2 * k + 1) % 2 == 1;
      SplitCombine(words[k]);
    }
  }

  /** Reads the buffer back as one word per byte pair. */
  function BytesToWords(data: seq<nat>): (words: seq<nat>)
    requires IsBytes(data) && |data| % 2 == 0
    ensures |words| == |data| / 2 && AreWords(words)
    ensures forall k :: 0 <= k < |words| ==> words[k] == WordAt(data, k)
  {
    seq(|data| / 2, k requires 0 <= k < |data| / 2 => WordAt(data, k))
  }

  /** Stores each pixel as its four channels in the order R, G, B, A. */
  function PixelsToBytes(pixels: seq<Rgba>): (rgba: seq<nat>)
    requires ArePixels(pixels)
    ensures |rgba| == 4 * |pixels| && IsBytes(rgba)
    ensures forall k :: 0 <= k < |pixels| ==> PixelAt(rgba, k) == pixels[k]
  {
    var rgba := seq(4 * |pixels|, i requires 0 <= i < 4 * |pixels| => Channel(pixels[i / 4], i % 4));
    PixelsLaidOut(pixels, rgba);
    rgba
  }

  /** Channel `c` of a pixel in storage order. */
  function Channel(p: Rgba, c: nat): (x: nat)
    requires IsRgbaPixel(p)
    ensures IsByte(x)
  {
    if c == 0 then p.r else if c == 1 then p.g else if c == 2 then p.b else p.a
  }

  lemma PixelsLaidOut(pixels: seq<Rgba>, rgba: seq<nat>)
    requires ArePixels(pixels) && |rgba| == 4 * |pixels|
    requires forall i :: 0 <= i < |rgba| ==> rgba[i] == Channel(pixels[i / 4], i % 4)
    ensures IsBytes(rgba)
    ensures forall k :: 0 <= k < |pixels| ==> PixelAt(rgba, k) == pixels[k]
  {
    forall k | 0 <= k < |pixels| ensures PixelAt(rgba, k) == pixels[k] {
      assert (4 * k) / 4 == k && (4 * k + 1) / 4 == k && (4 * k + 2) / 4 == k && (4 * k + 3) / 4 == k;
      assert (4 * k) % 4 == 0 && (4 * k + 1) % 4 == 1 && (4 * k + 2) % 4 == 2 && (4 * k + 3) % 4 == 3;
    }
  }

  /** Two byte buffers of one even length that agree on every word are equal. */
  lemma WordsDetermineBytes(a: seq<nat>, b: seq<nat>)
    requires IsBytes(a) && IsBytes(b) && |a| == |b| && |a| % 2 == 0
    requires forall k :: 0 <= k < |a| / 2 ==> WordAt(a, k) == WordAt(b, k)
    ensures a == b
  {
    forall i | 0 <= i < |a| ensures a[i] == b[i] {
      ByteOfWord(a, b, i);
    }
  }

  lemma ByteOfWord(a: seq<nat>, b: seq<nat>, i: nat)
    requires IsBytes(a) && IsBytes(b) && |a| == |b| && |a| % 2 == 0 && i < |a|
    requires WordAt(a, i / 2) == WordAt(b, i / 2)
    ensures a[i] == b[i]
  {
    var k := i / 2;
    assert i == 2 * k || i == 2 * k + 1;
  }

  /** Reading a buffer as words and storing the words again gives the buffer back. */
  lemma BytesWordsRoundTrip(data: seq<nat>)
    requires IsBytes(data) && |data| % 2 == 0
    ensures WordsToBytes(BytesToWords(data)) == data
  {
    WordsDetermineBytes(WordsToBytes(BytesToWords(data)), data);
  }

  /** Storing words as bytes and reading them back gives the words back. */
  lemma WordsBytesRoundTrip(words: seq<nat>)
    requires AreWords(words)
    ensures BytesToWords(WordsToBytes(words)) == words
  {
  }
}
