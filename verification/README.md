# Grayscale preprocessing of the OCR web client, in Dafny

The OCR application is a browser page plus a small server. The page turns the
selected image to grayscale before uploading it. The server forwards the image
to a remote text-extraction model. The only logic that is computed locally is
in the page, and this project models it:

- the per-pixel grayscale loop of `processToGrayscale`. It walks the canvas
  RGBA buffer (`ImageData.data`, a `Uint8ClampedArray`) four bytes at a time.
  Each pixel's red, green and blue become `(r + g + b) / 3`, and alpha is left
  alone;
- the upload button handler `uploadImage`. It has a guard for a missing file,
  and it chooses which text the output element shows.

Files:

- `uint8_clamped.dfy` (module `Uint8Clamped`): the ToUint8Clamp conversion
  (section 7.1.12 of ECMA-262). A `Uint8ClampedArray` applies it to every
  number stored into it. Numbers are modelled as exact reals.
- `grayscale.dfy` (module `GrayscalePass`): buffers as `seq<int>`, the value
  one pixel receives (`GrayLevel`), the functional specification of the whole
  pass (`Grayscale`, with `GrayAt` giving the value at each index), and the
  loop itself (`ProcessToGrayscale`).
- `grayscale_properties.dfy` (module `GrayscaleProperties`): what the pass
  promises for a whole buffer. The lemmas cover gray output, untouched alpha,
  bounds, fixed points and idempotence, and pixel independence.
- `upload.dfy` (module `Upload`): the upload handler, with the browser and
  the network as parameters.

The division `(r + g + b) / 3` produces a number with fraction 0, 1/3 or 2/3.
Storing it rounds to the nearest integer, and with those fractions no tie or
clamp can occur. So the stored byte is exactly `(r + g + b + 1) / 3` in
integer division. `StoredMeanIsGrayLevel` proves this from the definition of
ToUint8Clamp, and the loop stores through that definition
(`StoreAverage`).

The loop is modelled on the buffer as a value, updated index by index exactly
where the source writes: offsets `i + 2`, `i + 1` and `i` of each pixel, in
that order. `getImageData` returns a fresh copy of the canvas pixels, so no
other state is involved. The loop requires what `ImageData` guarantees: the
length is a multiple of four and every element is a byte.

Two details of the code matter for the model. The average is a float, and
the store into the clamped buffer rounds it to nearest (public/script.js:28-29).
The two failure paths of the upload show different fixed messages:
"Error extracting text" when the reply says `success: false`
(public/script.js:64), and "Error during processing" when `fetch` or the JSON
parse throws (public/script.js:67).

## Model

| member | source | states |
|---|---|---|
| `Uint8Clamped.ToUint8Clamp` | public/script.js:29 | The number stored into a clamped byte array becomes a byte: 0 at or below 0, 255 at or above 255, otherwise an integer within 1/2 of the number, the even one on a tie. |
| `GrayscalePass.GrayLevelIsNearestMean` | public/script.js:28 | The channel value is the integer nearest the mean of r, g and b (three times it is within one of their sum). It lies between the smallest and largest channel, and it is a byte when they are. |
| `GrayscalePass.StoredMeanIsGrayLevel` | public/script.js:28-29 | For byte channels, storing the exact mean `(r + g + b) / 3` into the clamped buffer yields `(r + g + b + 1) / 3`: no tie and no clamping ever occur. |
| `GrayscalePass.StoreAverage` | public/script.js:28-29 | One step of the loop body: computing the average and storing it gives the byte GrayLevel(r, g, b). |
| `GrayscalePass.ProcessToGrayscale` | public/script.js:25-31 | The stride-4 loop over the pixel buffer keeps its length. It leaves at every index the value GrayAt describes: the pixel's GrayLevel in red, green and blue, and the original alpha. Its result equals the functional pass `Grayscale`. |
| `GrayscaleProperties.GrayscaleMakesGray` | public/script.js:28-29 | After the pass every pixel has red = green = blue, and that common value is the GrayLevel of the pixel's original colours. |
| `GrayscaleProperties.GrayscaleKeepsAlpha` | public/script.js:27-30 | The alpha byte of every pixel (index 4k+3) is unchanged by the pass. |
| `GrayscaleProperties.GrayscaleWithinChannels` | public/script.js:28 | For a valid buffer every output value is a byte. Each output colour channel lies between the minimum and maximum of that pixel's original red, green and blue. |
| `GrayscaleProperties.GrayImageIsFixed` | public/script.js:28-29 | A buffer in which every pixel already has red = green = blue is returned unchanged by the pass. |
| `GrayscaleProperties.GrayscaleFixedPoints` | public/script.js:28-29 | The pass leaves a buffer unchanged if and only if every pixel of it is already gray. |
| `GrayscaleProperties.GrayscaleIdempotent` | public/script.js:27-30 | Applying the pass twice gives the same buffer as applying it once. |
| `GrayscaleProperties.GrayscaleAppend` | public/script.js:27-30 | The pass over two buffers laid end to end equals the two passes laid end to end, so each pixel is processed independently of the others. |
| `GrayscaleProperties.GrayscaleIsPixelLocal` | public/script.js:27-30 | Output index i depends only on the four input bytes of its own pixel. Two buffers that agree on that pixel agree at i after the pass. |
| `Upload.DisplayText` | public/script.js:64 | The output shows the reply's `text` when `success` is true (empty when the field is absent), and the fixed "Error extracting text" otherwise. |
| `Upload.DisplayTextSeparatesOutcomes` | public/script.js:64 | Any two failing replies display the same string, and two successful replies with different text display different strings. |
| `Upload.UploadImage` | public/script.js:42-68 | With no file selected, the "Please select an image" alert appears, nothing is sent and the output is untouched. A request is sent exactly when an image decoded to a non-empty pixel buffer, and it carries that image's grayscale pass, which is gray with alpha intact. An undecodable image, or one of zero width or height (where `getImageData` throws inside `onload`, public/script.js:25), leaves "Processing OCR..." showing. A thrown fetch or parse shows "Error during processing". Otherwise the display choice is applied to the reply. |

## Left out

- The server (`server.js`): routing, multipart storage, the temporary file, the server-side grayscale pass done by an image library whose formula is not visible, and the remote model call. None of it is computed locally.
- Browser I/O around the loop: `FileReader`, `Image` decoding, canvas `drawImage`, `getImageData` and `putImageData`, and JPEG re-encoding with `toBlob`. The model takes the decoded pixels as input, and the payload it sends is the grayscale pixel buffer rather than its JPEG encoding.
- `fetch`, `FormData`, the preview image, `console.error` and the DOM itself. The server exchange is a parameter: either the parsed reply, or nothing when `fetch` or `res.json()` throws.
- Floating point: the average is taken as an exact real rather than an IEEE double. For byte inputs the double's rounding error is far from the 1/2 boundary where ToUint8Clamp would change its answer. NaN and infinities cannot arise from byte channels and are not modelled.
- Buffers whose length is not a multiple of four. `ImageData` never produces one, and `ProcessToGrayscale` requires it.
- Upload.DisplayText: a `success` field that is present but not a boolean is not modelled, so the truthiness test of `data.success` is reduced to a boolean. A `text` field that is not a string is not modelled either.
- Upload.UploadImage: the intermediate "Processing OCR..." text is modelled only where it stays on screen, for an undecodable image. Everywhere else a later assignment overwrites it.
