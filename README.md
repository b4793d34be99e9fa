# Ritualnet knot + pixel avatar generator, modelled in Dafny

`script.js` turns a typed username into a picture and two lines of text:

1. `generate` trims the input, strips one leading `@`, lower-cases it and
   alerts "Enter a username!" when nothing is left.
2. It hashes the username with SHA-256. `hash[1]` gives the member number
   `hash[1] % 1000 + 1`. `hash[2]` seeds a 32-bit linear congruential
   generator.
3. It paints a 256 x 256 RGBA `ImageData`:
   - the 32 x 32 knot bitmap from `getKnotPixels`, scaled up 8x, over
     the whole canvas;
   - then the 16 x 16 mirror-symmetric avatar from `generateAvatar`,
     scaled up 8x, at row `avatarTop = 32 * 8 + 16 = 272`, column 40.
4. It shows the badge "Member #n/1000" and the caption
   "Congratulations @name, you are ritualized! #n/1000 Knot Avatar".

The model covers this core:
- the generator;
- `generateAvatar`, as a method over a `Uint8Array` (`array<Byte>`);
- `getKnotPixels`, with `trim()` and `replace(/\s/g, '')` over
  ECMAScript's white-space set;
- the username normalisation and the member number;
- the two upscaling blits, as methods that write through
  `ImageData.data.set`, a method of the `Canvas.ImageData` class that
  throws `RangeError` when the source does not fit;
- the whole of `generate` as a method, with the SHA-256 digest as a
  parameter. It is proved equal to the function `Generate.Generated`,
  and the lemmas are stated about that function.

The canvas height is a parameter of `Generate.Generate`. As written it is
256 (`createImageData(256, 256)`), and then every accepted username ends in
a `RangeError` (see Findings). The properties of the rendered picture are
proved for any height of at least 400 rows, the corrected canvas.

Modules:

| file | module | models |
|---|---|---|
| lcg.dfy | `Lcg` | the generator step `(seed * 1664525 + 1013904223) >>> 0` and `seed >>> 24` |
| jsstring.dfy | `JsString` | `trim()` and `replace(/\s/g, '')` |
| username.dfy | `Username` | input normalisation and the member number |
| decimal.dfy | `Numerals` | the decimal numeral a template literal prints for the member number |
| knot.dfy | `Knot` | `getKnotPixels` |
| avatar.dfy | `Avatars` | `generateAvatar` |
| canvas.dfy | `Canvas` | `createImageData` and `data.set` |
| upscale.dfy | `Upscale` | the geometry of the two 8x blits: which step writes which pixel |
| generate.dfy | `Generate` | the blit loops, the picture they leave, and `generate` as a whole |

## Model

| member | source | states |
|---|---|---|
| Lcg.UnwrappedIsExact | script.js:28 | `seed * 1664525 + 1013904223` stays below 2^53 for every 32-bit seed, so the double arithmetic before `>>> 0` is exact and the step is arithmetic modulo 2^32 |
| Lcg.ToUint32 | script.js:28 | `>>> 0` gives a 32-bit word congruent to its argument modulo 2^32 |
| Lcg.Step | script.js:138-141 | one draw of `rng()`: `(seed * 1664525 + 1013904223) >>> 0`, the definition that UnwrappedIsExact, StepBackStep and StepStepBack state is an exact bijection on 32-bit words |
| Lcg.State | script.js:138-146 | the state after `k` draws from the seed; StateAdd and StateInjective state how draws compose and that no two seeds meet |
| Lcg.TopByte | script.js:140 | `seed >>> 24` is below 256 and is the index of the 2^24-wide band that holds the state |
| Lcg.StepBackStep | script.js:139 | running the generator back undoes a draw, so one step never merges two seeds |
| Lcg.StepStepBack | script.js:139 | every word is the next state of some word: the step is a bijection on 32-bit words |
| Lcg.StateAdd | script.js:144-146 | drawing `a` values and then `b` more is drawing `a + b` values from the seed |
| Lcg.StateInjective | script.js:137-139 | two seeds that reach the same state after the same number of draws are equal |
| JsString.IsWhitespace | script.js:6 | the characters `\s` matches and `trim()` removes, here and at script.js:127: ECMAScript's WhiteSpace and LineTerminator code points, tab to carriage return, space, no-break space, the Ogham space mark, the en quad to hair space range, the line and paragraph separators, the narrow no-break space, the medium mathematical space, the ideographic space and the byte order mark |
| JsString.SkipForward | script.js:6 | the scan `trim()` makes from the front stops at the first character that is not white space, or at the end |
| JsString.SkipBackward | script.js:6 | the scan from the back stops just after the last character that is not white space, or at 0 |
| JsString.SkipForwardUnique | script.js:6 | that forward stop is the only index with white space before it and none at it |
| JsString.SkipBackwardUnique | script.js:6 | that backward stop is the only index with white space after it and none just before it |
| JsString.TrimStart | script.js:6 | the result is a suffix whose dropped prefix is all white space and whose first character is not |
| JsString.TrimEnd | script.js:6 | the result is a prefix whose dropped suffix is all white space and whose last character is not |
| JsString.Trim | script.js:6 | `trim()` as the front trim followed by the back trim; TrimIsSlice, TrimEnds and TrimPadding state what it keeps and what it drops |
| JsString.TrimIsSlice | script.js:6 | `trim()` returns the slice after the leading white space that is followed only by white space |
| JsString.TrimEnds | script.js:6 | a non-empty trimmed string neither starts nor ends with white space |
| JsString.TrimPadding | script.js:6 | white space added on both sides of a string does not change `trim()` |
| JsString.TrimStartPadding | script.js:6 | white space in front does not change the trimmed start |
| JsString.TrimStartAppend | script.js:6 | white space appended survives the front trim unless the string was all white space |
| JsString.TrimEndPadding | script.js:6 | white space appended does not change the trimmed end |
| JsString.RemoveWhitespace | script.js:127 | `replace(/\s/g, '')` leaves no white space and never lengthens the string |
| JsString.RemoveWhitespaceAppend | script.js:127 | removing white space distributes over concatenation |
| JsString.RemoveAllWhitespace | script.js:127 | a string of white space vanishes |
| JsString.RemoveNoWhitespace | script.js:127 | a string without white space is unchanged |
| JsString.TrimThenRemove | script.js:127 | the `trim()` before `replace(/\s/g, '')` changes nothing |
| Username.LowerChar | script.js:9 | `toLowerCase()` maps an ASCII capital to the lower-case letter at the same place in the alphabet, and keeps every other character, white space and `@` included |
| Username.ToLower | script.js:9 | lower-casing maps each character and keeps the length |
| Username.StripLeadingAt | script.js:6 | `replace(/^@/, '')` removes exactly one `@`, and only at the start |
| Username.MemberId | script.js:19 | `hash[1] % 1000 + 1` is in 1..1000 and congruent to `hash[1] + 1` modulo 1000 |
| Username.MemberIdOnto | script.js:19 | every member number 1..1000 comes from some hash word |
| Username.Normalize | script.js:6-9 | the username `generate` goes on with, or none where it alerts; NormalizeRejects and NormalizeAccepts state both outcomes in full |
| Username.NormalizeRejects | script.js:6-7 | the input is refused exactly when, trimmed, it is empty or a lone `@` |
| Username.NormalizeAccepts | script.js:6-9 | an accepted username is the trimmed input without one leading `@`, lower-cased, non-empty, with no upper-case ASCII letter |
| Username.LowerTrim | script.js:6-9 | lower-casing commutes with `trim()` |
| Username.LowerStripLeadingAt | script.js:6-9 | lower-casing commutes with stripping the leading `@` |
| Username.LowerIdempotent | script.js:9 | lower-casing twice is lower-casing once |
| Username.NormalizeIgnoresCase | script.js:6-9 | an input and its lower-cased form normalise to the same username |
| Username.NormalizeIgnoresPadding | script.js:6-9 | white space around the input does not change the username |
| Username.NormalizeStripsOneAt | script.js:6 | `@@name` becomes `@name`: only one `@` is stripped |
| Numerals.Decimal | script.js:71 | the numeral of a member number is non-empty, all digits, without a leading zero, and "0" only for 0 |
| Numerals.DecimalValue | script.js:71 | reading the numeral back gives the number |
| Numerals.DecimalInjective | script.js:71 | different member numbers print differently |
| Numerals.DecimalLength | script.js:71 | numbers below 10, 100, 1000 and 10000 take one, two, three and four digits |
| Knot.KnotText | script.js:94-127 | the template literal `getKnotPixels` parses: a line break after the opening backtick, then 32 rows of 32 `1`s, each ending its line; KnotPixelsAllOn states what it parses to |
| Knot.DigitValue | script.js:128 | `+c` stored in a `Uint8Array` is the digit's value for a decimal digit and 0 otherwise |
| Knot.ParsePixels | script.js:127-128 | the pixel array has one entry per non-white-space character, each that character's digit value |
| Knot.LinesWithoutWhitespace | script.js:127 | removing white space from bitmap rows, each followed by a line break, runs the rows together |
| Knot.ParseBitmap | script.js:94-128 | a text of 32-wide 0/1 rows parses to 32 entries per row, and cell (r, c) lands at `r * 32 + c`, 1 exactly where the text has `1` |
| Knot.KnotPixelsAllOn | script.js:94-128 | the embedded bitmap parses to 1024 entries, all 1 |
| Knot.GetKnotPixels | script.js:92-129 | `getKnotPixels()` returns 1024 entries, all 1 |
| Avatars.Cell | script.js:146-148 | every cell the loop writes is 0 or 1 |
| Avatars.Avatar | script.js:134-152 | the 256 cells of the avatar, row-major; GenerateAvatar is proved to fill exactly these, and AvatarMirror, AvatarLeftCell and AvatarIsBinary state what they are |
| Avatars.AvatarAt | script.js:147-148 | index `y * 16 + x` of the avatar holds cell (y, x) |
| Avatars.CellDraw | script.js:146-148 | the draw made for left cell (y, x) decides both (y, x) and its mirror (y, 15 - x) |
| Avatars.SetPair | script.js:147-148 | the two writes change exactly the left cell and its mirror |
| Avatars.DrawRow | script.js:145-149 | one pass of the inner loop takes the generator eight draws further and fills row y, leaving the other rows as they were |
| Avatars.GenerateAvatar | script.js:134-152 | `generateAvatar(hash)` returns a fresh 256-cell array equal to the avatar of `hash[2]` |
| Avatars.AvatarMirror | script.js:147-148 | each row reads the same from the right: cell (y, x) equals cell (y, 15 - x) |
| Avatars.AvatarLeftCell | script.js:137-148 | left cell (y, x) is 1 exactly when the `(y * 8 + x + 1)`-th state from `hash[2]` has a top byte above 120 |
| Avatars.AvatarIsBinary | script.js:146-147 | every cell is 0 or 1 |
| Avatars.AvatarRowShift | script.js:144-149 | row y is the first row of the avatar drawn from the state after the `8 * y` draws above it |
| Canvas.Overwrite | script.js:42 | after a copy, the bytes from the offset on hold the source and every other byte is unchanged |
| Canvas.ImageData.constructor | script.js:24 | `createImageData(w, h)` holds `4 * w * h` bytes, all 0 |
| Canvas.ImageData.Set | script.js:61 | `data.set(src, offset)` copies `src` in when it fits; otherwise it throws a RangeError and writes nothing |
| Upscale.KnotColour | script.js:37 | the knot colour is four bytes, all 255 when the cell is on and all 0 when it is off |
| Upscale.AvatarColour | script.js:54 | the avatar colour is `[180, 100, 255, 255]`, opaque purple, when the cell is on, and `[0, 0, 0, 0]` exactly when it is off |
| Upscale.KnotStep | script.js:34-41 | step `y * 2048 + x * 64 + sy * 8 + sx` of the knot loop paints pixel `(y * 8 + sy, x * 8 + sx)`, which shows knot cell `y * 32 + x` |
| Upscale.KnotOrderThenPixel | script.js:34-41 | every pixel of the top 256 rows is painted at the step the knot loop numbers it with |
| Upscale.KnotPixelThenOrder | script.js:34-41 | every step of the knot loop paints a pixel of the top 256 rows that has that step as its number |
| Upscale.KnotVisitsEachPixelOnce | script.js:34-45 | the knot loop paints each of the 65536 pixels of the top 256 rows at exactly one step |
| Upscale.KnotWritesInBounds | script.js:41-42 | every knot write ends within the first `256 * 256 * 4` bytes |
| Upscale.KnotPainted | script.js:34-46 | the canvas once the knot loop has run, keeping the length; KnotPaintedAt states it byte by byte and KnotPartialDone connects it to the loop |
| Upscale.KnotPaintedAt | script.js:34-45 | once the knot loop has run, byte `k` of pixel `P` is the colour of the knot cell that holds `P` when `P` is in the top 256 rows, and every byte past them is unchanged |
| Upscale.KnotPartialStep | script.js:41-42 | one knot step writes the four bytes of its pixel and nothing else |
| Upscale.KnotBlitStep | script.js:41-42 | the write at knot step t fits in the canvas and turns the first t steps' result into the first t + 1 steps' result |
| Upscale.KnotPartialDone | script.js:34-46 | all 65536 knot steps together give the painted canvas |
| Upscale.AvatarStep | script.js:51-60 | step `ay * 1024 + ax * 64 + sy * 8 + sx` of the avatar loop paints pixel `(272 + ay * 8 + sy, 40 + ax * 8 + sx)`, which shows avatar cell `ay * 16 + ax` |
| Upscale.AvatarPixelAt | script.js:58-60 | every pixel the avatar loop addresses lies in rows 272..399 and columns 40..167 |
| Upscale.AvatarOrderThenPixel | script.js:51-60 | every pixel of the avatar square is painted at the step the avatar loop numbers it with |
| Upscale.AvatarPixelThenOrder | script.js:51-60 | every step of the avatar loop paints a pixel of the square that has that step as its number |
| Upscale.AvatarVisitsEachPixelOnce | script.js:51-62 | the avatar loop paints each of the 16384 pixels of the square at exactly one step |
| Upscale.AvatarWritesBelowKnotCanvas | script.js:50-60 | every avatar write is in rows 272..399 and columns 40..167, at least 16 rows past the end of a 256-row canvas |
| Upscale.AvatarFirstWriteOutOfRange | script.js:58-61 | the first avatar write is pixel `272 * 256 + 40`, at byte 278688, past the 262144 bytes of a 256 x 256 canvas, so it throws at step 0 |
| Upscale.FirstFailingStep | script.js:56-61 | the first avatar step whose write does not fit is 16384 (none fails) exactly when the canvas has at least 400 rows |
| Upscale.AvatarFirstFailure | script.js:56-61 | every step before the first failing step writes a row inside the canvas, and the first failing step writes a row outside it |
| Upscale.AvatarPainted | script.js:48-65 | the canvas once the avatar loop has run, keeping the length; AvatarPaintedAt states it byte by byte and AvatarPartialDone connects it to the loop |
| Upscale.AvatarPaintedAt | script.js:51-65 | once the avatar loop has run, byte `k` of a pixel in the avatar square is its cell's avatar colour, and every other byte is unchanged |
| Upscale.AvatarPartialStep | script.js:60-61 | one avatar step writes the four bytes of its pixel and nothing else |
| Upscale.AvatarBlitStep | script.js:58-61 | the write at avatar step t fits exactly when its row is inside the canvas, always before the first failing step and never at it, and then extends the painted steps by one |
| Upscale.AvatarPartialDone | script.js:51-65 | all 16384 avatar steps together give the painted canvas |
| Generate.BlitKnotCell | script.js:39-44 | the two inner knot loops paint the 64 pixels of knot cell (y, x), extending the painted part by those 64 steps |
| Generate.BlitKnot | script.js:34-46 | the knot loop leaves the canvas painted with the knot: every pixel of the top 256 rows in its cell's colour, everything below unchanged |
| Generate.BlitAvatarCell | script.js:56-63 | the two inner avatar loops paint the 64 pixels of avatar cell (ay, ax), or throw a RangeError at the first failing step with exactly the earlier writes done |
| Generate.BlitAvatar | script.js:49-65 | the avatar loop finishes exactly when the canvas has at least 400 rows, leaving the avatar painted; otherwise it throws a RangeError with the writes up to the first failing step in place |
| Generate.Blank | script.js:24 | the data of `createImageData(256, height)` as a value, the functional form of the `Canvas.ImageData` constructor: `1024 * height` bytes, all 0 |
| Generate.Draw | script.js:24-65 | the drawing succeeds exactly when the canvas has at least 400 rows; it then yields the picture of the avatar of `hash[2]`, and otherwise throws a RangeError |
| Generate.Generated | script.js:5-87 | the outcome of `generate`: the alert, the RangeError or the rendered image with badge and caption; GeneratedAlerts, AsWrittenNeverRenders and CorrectedRenders state which occurs and what it holds |
| Generate.Generate | script.js:5-87 | `generate` alerts, throws or renders exactly as the outcome function describes |
| Generate.Badge | script.js:71 | the badge text `Member #${memberId}/1000`; BadgeShowsMemberId states its layout and that the number reads back |
| Generate.Caption | script.js:83 | the caption text; CaptionNamesUser states where the username and the member number stand in it |
| Generate.BadgeShowsMemberId | script.js:71 | the badge reads "Member #", the member number's digits and "/1000", and the number can be read back from it |
| Generate.CaptionNamesUser | script.js:83 | the caption names the user right after "Congratulations @" and shows the member number before "/1000 Knot Avatar" |
| Generate.Picture | script.js:24-65 | the image data once both loops have run on a blank canvas, `1024 * height` bytes long; PictureAt gives every byte in closed form |
| Generate.PictureAt | script.js:34-65 | byte `k` of pixel `P` of the picture is its cell's avatar colour inside the avatar square, 255 in the top 256 rows, and 0 elsewhere |
| Generate.PictureKnot | script.js:34-46 | the top 256 rows of the picture are opaque white |
| Generate.PictureBackground | script.js:24-65 | below the knot and outside the avatar square every byte is 0 |
| Generate.PictureAvatar | script.js:51-65 | avatar cell (ay, ax) fills the 8 x 8 block at pixel `(272 + ay * 8, 40 + ax * 8)` with its colour |
| Generate.PictureMirrorCell | script.js:51-65 | two mirror-image pixels in cells that agree have the same colour |
| Generate.MirrorIndexes | script.js:58-60 | pixel (y, x) and its mirror (y, 207 - x) are the pixels the loop paints for cell ax and cell 15 - ax at mirrored offsets |
| Generate.PictureMirror | script.js:51-65 | the avatar square of the picture is mirror-symmetric: pixel (y, x) and pixel (y, 207 - x) have the same colour |
| Generate.GeneratedAlerts | script.js:6-7 | `generate` alerts "Enter a username!" exactly when the trimmed input is empty or a lone `@` |
| Generate.AsWrittenNeverRenders | script.js:24-61 | on the 256-row canvas nothing is ever rendered: every accepted username ends in a RangeError |
| Generate.CorrectedRenders | script.js:5-87 | on a canvas of at least 400 rows, every accepted username renders the avatar of `hash[2]`, the badge of member `hash[1] % 1000 + 1`, and the caption of that username and member number, with the username right after "Congratulations @" |
| Generate.GeneratedIgnoresCase | script.js:6-9 | letter case in the input does not change the outcome |
| Generate.GeneratedIgnoresPadding | script.js:6-9 | white space around the input does not change the outcome |

## Left out

- SHA-256 (`crypto.subtle.digest`, script.js:14) is foreign code. The digest is a parameter `digest: string -> Hash` that returns eight 32-bit words. The UTF-8 encoding of the username and the byte order of `new Uint32Array(hashBuf)` are inside that parameter.
- The floating-point `rng` in `generate` (script.js:16, 26-30) is never called. Its step is the one modelled in `Lcg`; its division by 2^32 is not modelled.
- `putImageData`, `toBlob`, `URL.createObjectURL` and `Image` (script.js:68, 74-80) only display the picture. The model stops at the image data.
- The `textContent` and `style` writes (script.js:71, 84, 86) are DOM effects. The badge and caption texts are returned in the outcome instead.
- `alert` (script.js:7) is modelled as the outcome `Alerted("Enter a username!")`, not as I/O.
- `download` and `copyCaption` (script.js:157-169) are browser I/O: a download link and the clipboard.
- Username.LowerChar: `toLowerCase()` is modelled for ASCII letters only. Other characters are kept as they are, where JavaScript would also lower-case non-ASCII letters.
- Strings are sequences of Unicode characters. JavaScript counts a character outside the Basic Multilingual Plane as two UTF-16 code units, in `.length` and in `split('')`. The model counts it as one. This changes the counts in `Knot.ParsePixels` and the caption offsets in `Generate.CaptionNamesUser` for such text. The embedded bitmap and the fixed texts are ASCII.
- The async function's failure is modelled as the outcome `Rejected(RangeError)`. The model does not say what the browser does with the rejected promise.
- The canvas height is a parameter of `Generate.Generate`, `Generate.Draw` and `Generate.Generated`. The source fixes it at 256. The picture lemmas need at least 400 rows, the corrected canvas.

## Findings

| source | as written | input that shows it | evidently intended | confidence | as-written member | corrected member |
|---|---|---|---|---|---|---|
| script.js:24 | The canvas has 256 rows (`createImageData(256, 256)`), but the avatar is drawn from row `avatarTop = 32 * 8 + 16 = 272` (script.js:50). The first write, at byte `(272 * 256 + 40) * 4 = 278688`, is past the 262144-byte buffer, so `data.set` throws a RangeError at script.js:61. `generate` then stops before `putImageData`, the badge and the caption. | any accepted username, for example "alice" | a canvas tall enough for the avatar under the knot: at least `272 + 16 * 8 = 400` rows | not executed | Generate.AsWrittenNeverRenders | Generate.CorrectedRenders |
