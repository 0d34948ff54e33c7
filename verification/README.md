# BMP to C array converter: RGB565 pixel pipeline in Dafny

This project models the pixel-format core of the bmp-to-c converter. The converter turns a decoded
image into a C array of 16-bit RGB565 values for microcontroller displays. The model covers:

- the upload path in `handleFileSelect`. Decoded RGBA bytes are packed into RGB565 by truncation,
  `((r & 0xF8) << 8) | ((g & 0xFC) << 3) | (b >> 3)`, and stored high byte first. The C identifier is
  derived from the file name (modules `App`, `Rgb565`, `Naming`);
- `resizeImage`. It picks the target size (a missing side follows the aspect ratio, and no target at
  all returns the image unchanged). It unpacks RGB565 to RGBA with `round(c * 255 / max)`, lets the
  canvas resample, and repacks with `round(c * max / 255)` (modules `ImageConverter`, `Rgb565`);
- `convertToC`. It reads byte pairs big-endian and writes each word as `0x` plus four lower-case hex
  digits, joined by `, `. The declaration is headed by a `// array size is N` comment (modules
  `ImageConverter`, `CArraySyntax`, `NumberText`).

The bit operations `&`, `|`, `<<` and `>>` are defined bit by bit on natural numbers (module `Bits`).
Lemmas connect them to division and remainder. Every value involved stays below 2^16, so
JavaScript's 32-bit semantics never wrap. `Math.round(a / b)` on non-negative operands is
`(2a + b) div 2b` (`Rgb565.RoundDiv`). JavaScript rounds halves upward, and this formula does too.
In the two colour conversions no half can arise: the numerator doubled is even and the divisor is
odd.

The two packers are kept apart because the code really does use two rounding policies. Both of them
invert the proportional unpack (`ProportionalRoundTrip`, `TruncatingAfterProportional`). The
formatter's partner is a reader of the emitted text (`CArraySyntax.Read`). Reading what
`ConvertToC` writes gives back the element count, the identifier and every 16-bit value.

The file-name sanitiser appears twice in the source, at src/App.tsx:20 and at
src/utils/imageConverter.ts:91. It is defined once here, as `Naming.VariableName`.

The model follows what the code does:

- The code validates neither buffer lengths nor target dimensions. Buffer lengths are
  preconditions, since the code's callers always pass whole frames.
- A derived side that rounds to 0 makes the canvas's `getImageData` throw, so `Resize` returns
  `Failure(ZeroDimension)` there.
- The only RGB565 to RGBA expansion in the code is the proportional one, `round(c * 255 / max)`.
- JavaScript strings are sequences of UTF-16 code units, and `/[^a-zA-Z0-9_]/g` has no `u` flag, so
  it replaces each code unit on its own. A character above U+FFFF is two code units and becomes
  `__`. `Naming.ReplaceNonWord` is stated against that code-unit replacement (`Naming.Utf16`,
  `Naming.ReplaceUnits`).
- The size comment is written by `toString`, which never writes a leading zero. The reader refuses
  one, so the comment's text is pinned as well as its value.

## Model

| member | source | states |
|---|---|---|
| Bits.Shl | src/utils/imageConverter.ts:74 | `x << n` loses nothing: shifting the result right by n gives x back |
| Bits.Shr | src/utils/imageConverter.ts:40-41 | `x >> n` on a non-negative value never exceeds x; `Bits.ShrIsDiv` gives its exact value |
| Bits.And | src/utils/imageConverter.ts:40-42 | `a & b` never exceeds either operand; `Bits.AndLowMask` and `Bits.AndFieldMask` give its value under the converter's masks |
| Bits.Or | src/utils/imageConverter.ts:74 | `a \| b` lies between the larger operand and the sum; `Bits.OrLowField` shows it is the sum when the fields do not overlap |
| Bits.Combine | src/utils/imageConverter.ts:35-37 | `(hi << 8) \| lo` on two bytes is a word below 65536 whose quotient by 256 is `hi` and whose remainder is `lo` |
| Bits.HighByte | src/App.tsx:50 | `(v >> 8) & 0xFF` is a byte, and for a 16-bit word it is the word's upper half |
| Bits.LowByte | src/App.tsx:51 | `v & 0xFF` is a byte and equals `v mod 256` |
| Bits.SplitCombine | src/App.tsx:49-51 | storing a 16-bit word as high byte then low byte and recombining them gives the word |
| Bits.CombineSplit | src/utils/imageConverter.ts:97-100 | combining two bytes into a word and splitting it again gives both bytes back |
| Bits.ShrIsDiv | src/utils/imageConverter.ts:40-41 | `x >> n` on a non-negative value is x divided by 2^n, rounded down |
| Bits.OrLowField | src/utils/imageConverter.ts:74 | or-ing a field shifted above k bits with a value below 2^k is addition (the packed fields never overlap) |
| Bits.AndLowMask | src/utils/imageConverter.ts:40-42 | `x & (2^k - 1)` is `x mod 2^k` |
| Bits.AndFieldMask | src/App.tsx:49 | `x & ((2^m - 1) << k)` keeps exactly bits k .. k+m-1 of x in place |
| Bits.ClearLow3 | src/App.tsx:49 | `b & 0xF8` on a byte is b rounded down to a multiple of 8 |
| Bits.ClearLow2 | src/App.tsx:49 | `g & 0xFC` on a byte is g rounded down to a multiple of 4 |
| Rgb565.RoundDiv | src/utils/imageConverter.ts:46 | `Math.round(a / b)` is the integer q with q - 1/2 <= a/b < q + 1/2 |
| Rgb565.Red5 | src/utils/imageConverter.ts:40 | `(v >> 11) & 0x1F` is below 32 and is bits 15..11 of v |
| Rgb565.Green6 | src/utils/imageConverter.ts:41 | `(v >> 5) & 0x3F` is below 64 and is bits 10..5 of v |
| Rgb565.Blue5 | src/utils/imageConverter.ts:42 | `v & 0x1F` is below 32 and is bits 4..0 of v |
| Rgb565.WordFromFields | src/utils/imageConverter.ts:40-42 | a 16-bit word equals its red, green and blue fields put back at bits 11, 5 and 0 |
| Rgb565.FieldsOfWord | src/utils/imageConverter.ts:74 | fields placed at bits 11, 5 and 0 form a 16-bit word from which each field is read back unchanged |
| Rgb565.FieldsDetermineWord | src/utils/imageConverter.ts:40-42 | two 16-bit words with equal red, green and blue fields are equal |
| Rgb565.LayoutIsSum | src/utils/imageConverter.ts:74 | `(r5 << 11) \| (g6 << 5) \| b5` equals `r5*2048 + g6*32 + b5` for in-range fields |
| Rgb565.PackTruncating | src/App.tsx:49 | the packed value is below 65536 and its fields are the truncations `r >> 3`, `g >> 2`, `b >> 3` |
| Rgb565.TruncatingLayout | src/App.tsx:49 | the truncating packer's value is `(r div 8)*2048 + (g div 4)*32 + b div 8` for byte channels |
| Rgb565.TruncatingIgnoresDiscardedBits | src/App.tsx:49 | packing `r & 0xF8`, `g & 0xFC`, `b & 0xF8` gives the same word as packing r, g, b |
| Rgb565.Expand | src/utils/imageConverter.ts:46-48 | `Math.round(c * 255 / max)` is the integer nearest c*255/max, halves going up |
| Rgb565.Reduce | src/utils/imageConverter.ts:70-72 | `Math.round(c * max / 255)` is the integer nearest c*max/255, halves going up |
| Rgb565.ExpandKeepsTopBits | src/utils/imageConverter.ts:46-48 | a 5-bit (6-bit) level scaled by `round(c*255/max)` is a byte whose top 5 (6) bits are the level |
| Rgb565.ChannelRoundTrip | src/utils/imageConverter.ts:46-72 | scaling a level up with `round(c*255/max)` and back with `round(x*max/255)` returns the level |
| Rgb565.UnpackProportional | src/utils/imageConverter.ts:37-49 | each channel is the byte nearest field*255/max (halves up), its top bits are the field, and alpha is 255 |
| Rgb565.PackProportional | src/utils/imageConverter.ts:70-74 | the word is below 65536 and each field is the level nearest the channel's proportional position c*max/255 |
| Rgb565.ProportionalRoundTrip | src/utils/imageConverter.ts:37-74 | unpacking any 16-bit word proportionally and repacking it proportionally gives the word back |
| Rgb565.TruncatingAfterProportional | src/App.tsx:49 | the truncating packer applied to the proportional unpack of any 16-bit word gives the word back |
| Rgb565.TruncatingIdempotent | src/App.tsx:49 | a truncating-packed pixel survives a proportional unpack and a second truncating pack unchanged |
| Frames.WordAt | src/utils/imageConverter.ts:99 | the k-th big-endian word is below 65536, its quotient by 256 is byte 2k and its remainder byte 2k+1 |
| Frames.WordsToBytes | src/utils/imageConverter.ts:75-76 | the buffer has two bytes per word, all bytes, and its k-th byte pair reads back as the k-th word |
| Frames.BytesToWords | src/utils/imageConverter.ts:97-101 | one 16-bit word per byte pair, the k-th being `(b[2k] << 8) \| b[2k+1]` |
| Frames.PixelsToBytes | src/utils/imageConverter.ts:45-49 | four byte channels per pixel in order R, G, B, A; pixel k reads back from bytes 4k .. 4k+3 |
| Frames.WordsDetermineBytes | src/App.tsx:50-51 | two byte buffers of equal even length that agree on every word are equal |
| Frames.BytesWordsRoundTrip | src/utils/imageConverter.ts:97-101 | reading a byte buffer as words and storing the words again gives the buffer back |
| Frames.WordsBytesRoundTrip | src/utils/imageConverter.ts:75-76 | storing words as byte pairs and reading them back gives the words back |
| Naming.ExtensionAtUnique | src/App.tsx:20 | `/\.[^/.]+$/` can match at one position at most, so the leftmost match is the only one |
| Naming.FindExtension | src/App.tsx:20 | the backward scan finds a position exactly when the extension pattern matches there, and none when it matches nowhere |
| Naming.StripExtension | src/App.tsx:20 | the result is the name cut at the match of `/\.[^/.]+$/` when there is one, the name itself otherwise |
| Naming.ReplaceNonWord | src/App.tsx:20 | the result is an identifier whose UTF-16 code units are those of the input with every unit outside `[A-Za-z0-9_]` replaced by `_` |
| Naming.VariableName | src/utils/imageConverter.ts:91 | the code units of the identifier are those of the name before the extension match (the whole name without one), each unit outside `[A-Za-z0-9_]` replaced by `_` |
| Naming.CodeUnits | src/App.tsx:20 | a character is one code unit equal to itself below U+10000, otherwise a high surrogate followed by a low surrogate |
| Naming.Utf16Injective | src/App.tsx:20 | two strings with the same UTF-16 code units are the same string, so a contract stated on code units pins the string |
| Naming.AstralNameTwoUnderscores | src/App.tsx:20 | the file name `\U{1F600}.bmp` yields the identifier `__`, one underscore per code unit |
| Naming.ReplaceKeepsIdentifier | src/App.tsx:20 | an identifier passes the replacement unchanged |
| Naming.VariableNameIdempotent | src/App.tsx:20 | deriving the name from an already derived name changes nothing |
| NumberText.ToRadix | src/utils/imageConverter.ts:100 | `v.toString(radix)` is never empty and starts with `0` exactly when v is 0, which it then writes as `0` alone |
| NumberText.ToRadixRoundTrip | src/utils/imageConverter.ts:100 | `v.toString(radix)` consists of digits of that radix and reads back as v |
| NumberText.ToRadixLength | src/utils/imageConverter.ts:100 | a number below radix^n takes at most n digits, so a 16-bit word needs at most 4 hex digits |
| NumberText.PadStart | src/utils/imageConverter.ts:100 | `padStart(n, c)` yields max(length, n) characters: the fill character, then the original string |
| NumberText.LeadingZeros | src/utils/imageConverter.ts:100 | zero digits in front of a digit string do not change its value |
| NumberText.Join | src/utils/imageConverter.ts:102 | `join(sep)` is as long as the parts together plus one separator between each pair of neighbours |
| NumberText.JoinEnds | src/utils/imageConverter.ts:102 | the joined text starts with the first part and ends with the last |
| CArraySyntax.HexLiteral | src/utils/imageConverter.ts:100 | for a 16-bit word the literal is `0x` and exactly four lower-case hex digits that read back as the word |
| CArraySyntax.HexLiterals | src/utils/imageConverter.ts:97-101 | one literal per value, in order |
| CArraySyntax.Declare | src/utils/imageConverter.ts:108-111 | the declaration text is `// array size is `, the decimal size, `\nint16_t `, the name, `[] PROGMEM = {\n  `, the body and `\n};`, each piece at its own offset; `CArraySyntax.ReadDeclare` reads it back |
| CArraySyntax.ReadJoinedLiterals | src/utils/imageConverter.ts:102 | literals joined by `, ` read back as the original 16-bit values |
| CArraySyntax.ReadDeclare | src/utils/imageConverter.ts:105-111 | the reader recovers the size comment's number, the identifier and every value from the declaration text |
| ImageConverter.FinalSize | src/utils/imageConverter.ts:14-16 | a given side is used verbatim; a missing side is the nearest integer (halves up) to the other side scaled by the aspect ratio |
| ImageConverter.UnpackFrame | src/utils/imageConverter.ts:33-50 | twice as many bytes as the RGB565 buffer, pixel k being the proportional unpack of word k |
| ImageConverter.RepackFrame | src/utils/imageConverter.ts:63-77 | half as many bytes as the RGBA frame, word k being the proportional pack of pixel k |
| ImageConverter.RepackPixel | src/utils/imageConverter.ts:65-74 | a resized pixel packs to a word below 65536 whose fields are the levels nearest r*31/255, g*63/255 and b*31/255; alpha is not read |
| ImageConverter.FrameRoundTrip | src/utils/imageConverter.ts:33-77 | unpacking a whole RGB565 buffer and repacking it gives the buffer back byte for byte |
| ImageConverter.Resize | src/utils/imageConverter.ts:7-84 | no truthy target returns the input unchanged; otherwise the result has the final size, fails exactly when a side is 0, and word k is the proportional (rounding) pack of pixel k of the canvas's resampling of the unpacked frame |
| ImageConverter.ZeroTargetIsAbsent | src/utils/imageConverter.ts:12-16 | a width or height of 0 resizes exactly as if that side had not been given |
| ImageConverter.ResizeToSameSize | src/utils/imageConverter.ts:12-84 | resizing to the image's own size through a canvas that leaves such a frame untouched returns the image unchanged |
| ImageConverter.FinalSizeExample | src/utils/imageConverter.ts:14-16 | a 128x256 image resized to height 64 alone becomes 32x64 |
| ImageConverter.ConvertToC | src/utils/imageConverter.ts:86-115 | the emitted text reads back as size `data.length/2`, the sanitised file name and the big-endian word of every byte pair |
| App.PackPixelTruncating | src/App.tsx:44-49 | a decoded pixel packs to a word below 65536 whose fields are r div 8, g div 4 and b div 8; alpha is not read |
| App.PackFrameTruncating | src/App.tsx:41-52 | half as many bytes as the RGBA data, word k being the truncating pack of pixel k |
| App.LoadThenConvert | src/App.tsx:18-58 | converting a loaded image declares width*height elements under the file's identifier, element k being decoded pixel k packed by truncation |
| App.TruncatingFrameLayout | src/App.tsx:43-51 | pixel k's packed value lands in bytes 2k (high byte) and 2k+1 (low byte) |
| App.TruncatingFrameIgnoresAlpha | src/App.tsx:43-49 | frames differing only in alpha bytes pack to the same RGB565 data |
| App.TruncatingFrameAfterUnpack | src/App.tsx:43-52 | the truncating packer applied to the proportional unpack of an RGB565 buffer returns the buffer |
| App.HandleFileSelect | src/App.tsx:18-58 | the variable name is the one derived from the file name, the stored image has the decoded dimensions, and its words are the decoded pixels packed by truncation, in order |

## Left out

- Canvas resampling (`drawImage`, `putImageData`, `getImageData`) is a browser primitive. It is the
  `Canvas` parameter of `Resize`, constrained only to return an RGBA frame of the requested size.
- Image decoding and file handling (`Image`, `Blob`, `URL`, `file.arrayBuffer`) are I/O. The model
  starts from the decoded RGBA bytes.
- Clipboard copy and header-file save are side effects only.
- The UI components and bootstrap code (file upload, conversion options form, theme) are not part
  of this model.
- ImageConverter.FinalSize: the aspect ratio is exact rational arithmetic. The code divides in
  floating point first, which could in principle round an exact .5 tie differently.
- ImageConverter.Resize: targets are `Option<nat>`. An absent target and 0 are falsy, as in the
  code. NaN is not modelled, and negative targets are excluded by the type.
- ImageConverter.Resize requires positive image dimensions when a target is given. The code divides
  by them, and the decoder never yields an empty image.
- ImageConverter.ConvertToC requires an even number of bytes, since odd-length data has no defined
  behaviour in the code. The options object that src/App.tsx:75 passes where a file name is declared
  is not modelled; `ConvertToC` follows its declared signature.
- The `Uint8Array` wrap-around and `Uint8ClampedArray` clamping on stores are not modelled. Every
  stored value is already a byte, which the contracts prove.
- JavaScript strings may hold unpaired surrogate code units; Dafny strings hold Unicode scalar
  values, so a file name with an unpaired surrogate is not modelled.
