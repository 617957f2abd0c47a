# Greyscale converter: a Dafny model

This project models the two pieces of logic in `GreyscaleConverter`, the class behind a browser page that turns a chosen image into greyscale.

1. **The greyscale pass** of `convertToGreyscale`. The image sits in a canvas `ImageData` byte array: repeating red, green, blue and alpha bytes. A loop steps through the array four bytes at a time. At each step it computes one grey value from the pixel's red, green and blue bytes and writes that value into all three. Alpha is never touched.
2. **The file-type gate** of `handleChange`. The MIME type of the first selected file picks an image extension (PNG or JPEG), and the converter remembers it. The file is refused only when no extension is remembered afterwards.

Modules:

- `Wrappers` (wrappers.dfy): `Option`, standing for JavaScript's `undefined`.
- `Pixels` (pixels.dfy): bytes, buffers, the `Rgba` pixel, and `Luminance`. A `Luminance` is the map from a pixel's red, green and blue bytes to the grey byte that ends up stored.
- `Greyscale` (greyscale.dfy): the pass. `ConvertToGreyscale` is the loop on a buffer value. `ConvertInPlace` is the same loop on an array, mutated in place. `Greyscale` is a pixel-by-pixel functional reference, and `ByteAfter`/`GreyAt` give the per-byte description. The lemmas connect these and state the pass's properties.
- `WeightedLuminance` (weighted_luminance.dfy): one concrete luminance. It is a weighted sum with three real coefficients, followed by the ToUint8Clamp conversion of the ECMAScript specification, which a `Uint8ClampedArray` applies on every store: clamp to 0..255, then round to nearest with ties to even.
- `ExtensionGate` (extension_gate.dfy): the remembered extension, the `switch` on the MIME type, the validity check, and runs of several `change` events.

The luminance is a parameter of the pass. The coefficients live in `utils/constants`, which is not part of this model. Nothing about the pass depends on them. The lemmas that need a property of the luminance, such as idempotence, take that property as a precondition (`FixesGrey`). `WeightedLuminance.Weighted` states that every weighted luminance with non-negative coefficients summing to one has this property.

The pass is modelled for every buffer length, using the semantics of JavaScript typed arrays:

- A read past the end yields `undefined`, which makes the grey value NaN.
- Storing NaN into a `Uint8ClampedArray` stores 0.
- A write past the end is dropped.

A buffer from `getImageData` always has a length that is a multiple of four. For such buffers, `PixelsBecomeGrey` gives the clean statement: every pixel becomes `(l, l, l, alpha)`, where `l` is the luminance of its own original colours.

The MIME type strings `"image/png"` and `"image/jpeg"` are assumed values of `ImageType.Png` and `ImageType.Jpeg`. `utils/types` is not part of this model. The extensions are modelled as the two-valued `Extension`. `handleChange` checks `!this.getImageExtension()`, which also fails for an empty string, so the model assumes both `ImageExtension` strings are non-empty. Under that assumption the check fails exactly when the extension is `undefined`.

## Model

| member | source | states |
|---|---|---|
| Greyscale.ConvertToGreyscale | src/greyscale-converter/main.ts:40-45 | The stride-4 loop produces exactly the pixel-by-pixel conversion of the buffer. It runs once per pixel start 0, 4, 8, … in increasing order, ⌈length/4⌉ times in all, so an empty buffer is left unchanged |
| Greyscale.ConvertInPlace | src/greyscale-converter/main.ts:40-45 | Mutating the byte array in place leaves in it the pixel-by-pixel conversion of its original contents |
| Greyscale.Read | src/greyscale-converter/main.ts:41 | Reading `data[j]` gives a byte exactly when `j` is in range, and that byte is `data[j]`; past the end it gives `undefined` |
| Greyscale.Sample | src/greyscale-converter/main.ts:41 | The grey value is defined exactly when the three colour reads at `i`, `i+1`, `i+2` are in range, and is then the luminance of those three bytes |
| Greyscale.Stored | src/greyscale-converter/main.ts:42-44 | Definition of the byte a `Uint8ClampedArray` keeps when the grey value is stored: the value itself, or 0 for NaN. Its effect on whole buffers is stated by `Greyscale.Write` and `Greyscale.PartialPixel` |
| Greyscale.Write | src/greyscale-converter/main.ts:42-44 | A store keeps the buffer's length and changes only the byte at its own index; a store past the end changes nothing |
| Greyscale.Greyscale | src/greyscale-converter/main.ts:40-44 | The pass preserves the buffer's length |
| Greyscale.ByteAfterPass | src/greyscale-converter/main.ts:40-45 | Byte `c` of pixel `p` after the pass: alpha keeps its value; a colour byte becomes the luminance of that pixel's original colours, or 0 when one of them lies past the end |
| Greyscale.GreyscaleAt | src/greyscale-converter/main.ts:40-45 | The same description for every byte index `k`, through `k / 4` and `k % 4` |
| Greyscale.AlphaUnchanged | src/greyscale-converter/main.ts:40-45 | Every byte at an index ≡ 3 (mod 4) is unchanged, for any buffer length |
| Greyscale.PixelsBecomeGrey | src/greyscale-converter/main.ts:41-44 | On a buffer whose length is a multiple of four, every pixel becomes grey: red = green = blue = the one luminance of its original colours, alpha kept, pixel count unchanged |
| Greyscale.PartialPixel | src/greyscale-converter/main.ts:40-44 | A trailing partial pixel of one or two bytes is stored as zeros (NaN grey); one of three bytes gets the luminance of its three bytes |
| Greyscale.PixelDependsOnlyOnItsColours | src/greyscale-converter/main.ts:41-44 | A pixel's new colours depend only on that pixel's original red, green and blue: two buffers that agree there agree on the result there |
| Greyscale.ConvertPiecewise | src/greyscale-converter/main.ts:40-45 | Converting `a + b`, where `a` ends on a pixel boundary, equals converting `a` and `b` separately: no iteration touches another pixel's bytes |
| Greyscale.Idempotent | src/greyscale-converter/main.ts:41-44 | If the luminance maps every grey colour to itself, a second pass changes nothing |
| WeightedLuminance.ToUint8Clamp | src/greyscale-converter/main.ts:42-44 | The stored byte is 0 for values ≤ 0 and 255 for values ≥ 255. In between it is within one half of the value, and a tie goes to the even byte |
| WeightedLuminance.WeightedSum | src/greyscale-converter/main.ts:41 | The grey formula `r·Cr + g·Cg + b·Cb`. With non-negative coefficients summing to one, the sum already lies in 0..255, so the clamp of the store never engages. A grey colour `(v, v, v)` sums to `v` |
| WeightedLuminance.Weighted | src/greyscale-converter/main.ts:41-44 | The grey formula followed by the clamped store into the byte array. With normalised coefficients it maps every grey colour to its own level (`FixesGrey`), which is the hypothesis of `Greyscale.Idempotent` |
| WeightedLuminance.WeightedIdempotent | src/greyscale-converter/main.ts:40-45 | With normalised coefficients, the pass is idempotent |
| WeightedLuminance.Rec601Examples | src/greyscale-converter/main.ts:41-44 | With the BT.601 weights, pure red stores 76, black stores 0 and white stores 255 |
| ExtensionGate.GetImageExtension | src/greyscale-converter/main.ts:8 | Definition of the getter: the remembered extension, `None` for `undefined`. Get-after-set is stated by `ExtensionGate.SetImageExtension` |
| ExtensionGate.SetImageExtension | src/greyscale-converter/main.ts:8-12 | After the extension is set, the getter returns it |
| ExtensionGate.ExtensionOf | src/greyscale-converter/main.ts:119-128 | A MIME type names an extension exactly when it is the PNG or the JPEG type: PNG for the PNG type, JPEG for the JPEG type |
| ExtensionGate.SelectExtension | src/greyscale-converter/main.ts:119-128 | The PNG type stores the PNG extension and the JPEG type stores the JPEG extension. Any other type leaves the converter unchanged and does not clear the stored extension |
| ExtensionGate.HandleChange | src/greyscale-converter/main.ts:114-133 | Events from a non-input target or without a file list change nothing. An empty file list fails on `files[0].type` and changes nothing. A file is rejected exactly when no extension was stored and its type is unsupported, and a rejection changes nothing. A file is accepted exactly when an extension is stored afterwards |
| ExtensionGate.Run | src/greyscale-converter/main.ts:114-133 | Successive `handleChange` calls on one converter, each starting from the state the previous one left: exactly one outcome per event |
| ExtensionGate.RunSnoc | src/greyscale-converter/main.ts:114-133 | Handling one more event extends the run: the new state and outcome are those of `HandleChange` on the state the earlier events left |
| ExtensionGate.OutcomeAt | src/greyscale-converter/main.ts:114-133 | The outcome of event `j` is `HandleChange` applied to event `j` and the state the first `j` events left |
| ExtensionGate.StoredIsLastAnnounced | src/greyscale-converter/main.ts:119-128 | After any sequence of events, the stored extension is the one named by the latest event with a PNG or JPEG first file, or the starting one if there was none |
| ExtensionGate.RejectedUntilFirstSupported | src/greyscale-converter/main.ts:130-133 | From a fresh converter, event `j` is rejected exactly when it has a file and neither it nor any earlier event had a PNG or JPEG first file |
| ExtensionGate.AcceptedStaysAccepted | src/greyscale-converter/main.ts:126-133 | Once an extension is stored it stays stored, and no later event is rejected |
| ExtensionGate.GifAcceptedAfterPng | src/greyscale-converter/main.ts:119-133 | A GIF is rejected by a fresh converter but accepted, with the PNG extension kept, by a converter that has already accepted a PNG |

## Left out

- Canvas and DOM work in `convertToGreyscale`: `getContext`, `drawImage`, `getImageData`, `putImageData`, and copying the width and height (main.ts:25-37, 47-48). These are browser APIs. The model starts from the byte array `getImageData` returns.
- `convertImageToCanvas`, `resizeCanvas` and the 0.5 scale in `handleImageLoad` (main.ts:51-112). These are canvas drawing and floating-point scaling.
- `FileReader`, the data URL, `alert` and the image `load` that later triggers the pass (main.ts:131, 135-139). These are I/O. `Outcome.Rejected` stands for the alert and `Outcome.Accepted` for going on to read the file.
- Listener binding and unbinding (main.ts:14-16, 142-154). This is event plumbing. A sequence of `ChangeEvent`s stands for the events the listener receives.
- The coefficient values in `utils/constants` are unknown to the model. WeightedLuminance.Rec601Examples uses the BT.601 weights only as an illustration.
- WeightedLuminance.Weighted: computes the weighted sum exactly over `real` instead of in IEEE-754 double precision. It therefore does not model floating-point rounding of the sum before the store, and it has no NaN.
- Greyscale.Sample: stands for NaN by `None`. It does not model floating-point NaN arithmetic beyond "any `undefined` operand gives NaN".
