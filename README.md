# Image upload and watermark service — a verified model

This project models the core of an image service that runs as HTTP cloud
functions on top of an object store.

- **Upload handler.** `ImageUploadHTTP` takes a base64 payload, a declared
  MIME type and an optional file name. It normalises the type (trimmed and
  lower-cased). It then checks the request in a fixed order:
  1. the content is non-empty;
  2. the type is on the allow-list (JPEG, PNG, WebP);
  3. the payload is strict standard base64;
  4. the decoded size is at most 10 MiB;
  5. the leading magic bytes match the type.

  The handler then picks an extension and an object path under `images/`,
  and stores the bytes through the storage adapter.
- **Watermark handler.** `WatermarkHTTP` reads a picture and a watermark
  from the store. It scales the watermark to a quarter of the picture's
  width and tiles it over the picture in a row-major grid. It encodes the
  result as PNG or JPEG and stores it under a `watermarked` directory next
  to the original.
- **Storage adapter.** `StorageService` holds a bucket handle. It uploads
  objects with a fresh download token in their metadata and returns a
  public URL that carries the same token. It also downloads objects and
  generates random names and dated upload paths.

Modules, one per file:

| module | file | covers |
|---|---|---|
| `Common` | `common.dfy` | bytes, `Option`, `Result`, the handlers' `Reply`, the HTTP status codes |
| `Arith` | `arith.dfy` | small facts about integer division used by the proofs |
| `Strings` | `strings.dfy` | Go's `strings.TrimSpace` (with `unicode.IsSpace`) and `strings.ToLower` |
| `Decimal` | `decimal.dfy` | `%d` rendering of integers and zero-padded date fields |
| `Hex` | `hex.dfy` | `hex.EncodeToString`, plus a decoder as its partner |
| `Base64` | `base64.dfy` | `base64.StdEncoding.Strict().DecodeString`, plus the encoder as its partner |
| `Paths` | `paths.dfy` | `filepath.Clean`, `Join`, `Dir`, `Base` and `Ext` on `/`-separated paths |
| `Storage` | `storage.dfy` | the bucket as a class with a map of objects, the writer, `StorageService`, tokens, URLs, UUIDs, upload paths |
| `Upload` | `upload.dfy` | the configuration globals, `isValidImage`, type normalisation, the extension switch, `generateFilePath`, the validation chain, `ImageUploadHTTP` |
| `Tiling` | `tiling.dfy` | the tiling grid, the nested tiling loops, the watermark's scaled size |
| `Watermark` | `watermark.dfy` | the required-paths check, encoder selection, the content type, the output path, the pixel stage, `WatermarkHTTP` |

The two handlers are modelled as methods that change a `Storage.Bucket`.
Each one's postcondition states the reply and the new contents of the
bucket for every path through the handler:

- `ImageUploadHTTP` is stated in terms of the specification function
  `ValidateUpload`.
- `WatermarkHTTP` is stated in terms of the specification function
  `Render`.

The tiling loops keep the source's nested `for` loops over `y` and `x`:
`Tiling.Tile` is the outer loop and `Tiling.TileRow` the inner one.
Together they are proved to lay the watermark at exactly the points of
`Tiling.Plan`, in order. The plan's size, membership and row-major order
are proved about `Tiling.Plan` itself.

Everything the handlers draw from outside becomes a parameter:

- random bytes and clock readings;
- `url.PathEscape`;
- whether the storage client can be built;
- whether the writer's `Write` and `Close` succeed;
- the image decoder, resizer, overlay and encoder, as a `Codec` of
  functions.

## Model

| member | source | states |
|---|---|---|
| `Upload.Config.InitUploadHandler` | handlers/upload.go:34-37 | the handler configuration afterwards holds exactly the given bucket name and credentials file |
| `Upload.IsValidImage` | handlers/upload.go:124-138 | content is valid if and only if it has at least twelve bytes and, for JPEG, opens with FF D8 FF, for PNG with 89 50 4E 47, and for WebP has "RIFF" at bytes 0-3 and "WEBP" at bytes 8-11 |
| `Upload.ShortDataIsNoImage` | handlers/upload.go:124-127 | content shorter than twelve bytes is never a valid image, whatever the declared type |
| `Upload.JpegSignature` | handlers/upload.go:129-130 | with at least twelve bytes, JPEG content is valid if and only if it opens with FF D8 FF |
| `Upload.PngSignature` | handlers/upload.go:131-132 | with at least twelve bytes, PNG content is valid if and only if it opens with 89 50 4E 47 |
| `Upload.WebpSignature` | handlers/upload.go:133-135 | with at least twelve bytes, WebP content is valid if and only if bytes 0-3 are "RIFF" and bytes 8-11 are "WEBP" |
| `Upload.WebpIgnoresSizeAndBody` | handlers/upload.go:133-135 | two contents that agree on bytes 0-3 and 8-11 get the same WebP verdict: the RIFF size field and the body are never read |
| `Upload.OtherTypesUnchecked` | handlers/upload.go:136-137 | any type other than the three known ones passes the signature check once there are twelve bytes, so only the allow-list keeps such types out |
| `Upload.NormalizeType` | handlers/upload.go:54 | the normalised type is no longer than the declared one, holds no character that lower-casing would change, has no white space at either end, and is empty exactly when the declared type is all white space |
| `Upload.AllowedTypesAreNormal` | handlers/upload.go:54-68 | each allowed type normalises to itself, so normalising before the allow-list check loses no allowed type |
| `Upload.PaddedUpperCaseType` | handlers/upload.go:54-68 | the type " IMAGE/PNG\t", written with surrounding blanks and in upper case, normalises to "image/png" |
| `Upload.PaddedType` | handlers/upload.go:54 | for any text whose first and last characters are not white space, surrounded by any white space, the normalised type is the lower-cased text |
| `Upload.Extension` | handlers/upload.go:86-92 | the extension is ".png" exactly for "image/png", ".webp" exactly for "image/webp", and ".jpg" for every other type |
| `Upload.ExtensionIsWellFormed` | handlers/upload.go:86-92 | every chosen extension is a dot followed by at least three characters with no dot or slash |
| `Upload.ExtensionsDistinct` | handlers/upload.go:86-92 | two different allowed types never get the same extension |
| `Upload.GenerateFilePath` | handlers/upload.go:117-122 | a plain file name is stored at "images/" followed by the name; without a file name the path is "images/" followed by the generated id and the extension |
| `Upload.FilenameDecidesPath` | handlers/upload.go:117-120 | when a file name is given, the extension, the random bytes and the clock play no part, and a plain name is stored at "images/" followed by the name |
| `Upload.FilenameClimbsOut` | handlers/upload.go:117-120 | a file name "../x" escapes the images directory and is stored at "x" |
| `Upload.ValidateUpload` | handlers/upload.go:54-84 | the checks run in the source's order, each with its own message: empty content gives "Base64 content required"; otherwise a type off the allow-list gives "Unsupported image type"; otherwise malformed base64 gives "Invalid base64"; otherwise more than 10 MiB gives "Image too large"; otherwise a signature that does not match gives "Invalid image content"; an accepted request has non-empty content, the normalised and allowed type, bytes that are the strict base64 decoding of the content, at most 10 MiB, with magic bytes matching the type |
| `Upload.AcceptedMeans` | handlers/upload.go:54-84 | an accepted request has an allowed, normalised type, its decoded bytes re-encode to the payload with newlines removed, its size lies between 12 bytes and 10 MiB, and its magic bytes match the type |
| `Upload.AcceptedWhenAllChecksPass` | handlers/upload.go:54-84 | conversely, a request that passes every check is accepted with exactly the decoded bytes and the normalised type |
| `Upload.EmptyContentFirst` | handlers/upload.go:55-58 | empty content is refused with "Base64 content required" before the type is even looked at |
| `Upload.SizeLimitIsInclusive` | handlers/upload.go:76-79 | for an allowed type and well-formed base64, the size check fires if and only if the decoded size exceeds 10 MiB, so exactly 10 MiB is accepted |
| `Upload.TenBytePngRefused` | handlers/upload.go:81-84 | ten bytes that open like a PNG pass the allow-list and base64 checks but are refused as "Invalid image content" |
| `Upload.CheckRequest` | handlers/upload.go:54-92 | the step-by-step checks return exactly the verdict of the validation chain, and for an accepted request the extension of its type |
| `Upload.ImageUploadHTTP` | handlers/upload.go:39-115 | a rejected request gets its check's message with 400 and the bucket is unchanged; a missing client gives "Storage error" 500; a failed write or close gives "Upload failed" 500 and the bucket is unchanged; otherwise the decoded bytes, the type and the token are stored at the generated path, and the reply carries that path and the public URL with the same token |
| `Storage.GenerateToken` | storage/storage.go:44-48 | the token is 32 lower-case hex characters that decode back to the 16 random bytes |
| `Storage.PublicUrl` | storage/storage.go:68-73 | the public URL is the store's host, the bucket, "/o/", the escaped path, then "?alt=media&token=" and the token; so it opens with "https://firebasestorage.googleapis.com/v0/b/", and any token without an "=" is read back from it unchanged |
| `Storage.PublicUrlCarriesToken` | storage/storage.go:68-73 | the token query value read back from the public URL is the token that was generated |
| `Storage.Writer.Write` | storage/storage.go:59-61 | a write that the transport accepts appends the data; a refused write reports "upload failed" and changes nothing |
| `Storage.Writer.Close` | storage/storage.go:63-65 | a successful close commits the written data, content type and metadata at the writer's path; a failed close reports "failed to finalize upload" and leaves the bucket as it was |
| `Storage.StorageService.constructor` | storage/storage.go:22-41 | the service is a handle on the given bucket name and store |
| `Storage.StorageService.UploadImage` | storage/storage.go:50-76 | it succeeds if and only if both write and close succeed; on success the path alone is updated to the data, the caller's content type and the token as the only metadata, and the returned URL is the public URL whose token equals the stored metadata token; on failure the bucket is unchanged and the error is the write or close error |
| `Storage.StorageService.DownloadImage` | storage/storage.go:78-86 | the result is the stored object's data when the path is stored and "download failed" otherwise, exactly as `Fetch` reads the bucket, and the bucket is unchanged |
| `Storage.FetchAfterStore` | storage/storage.go:78-86 | a download after a store to the same path yields the stored data, and other paths read as before |
| `Storage.GenerateUuid` | storage/storage.go:100-107 | with random bytes the id is 32 lower-case hex characters that decode back to them; without, the id reads back as the nanosecond clock value; either way it is a single path element |
| `Storage.StorageService.GenerateUploadPath` | storage/storage.go:88-98 | the upload path is "images/yyyy/mm/dd/nanos" plus an extension, and that extension is the original name's, or ".jpg" when it has none; `Paths.Ext` of the path gives that extension back |
| `Storage.DateElements` | storage/storage.go:95 | the date becomes three all-digit path elements whose decimal values are the year, the month and the day, each exactly as long as its digits or, if shorter, zero-padded to 4, 2 and 2 characters |
| `Storage.PaddedNumber` | storage/storage.go:95 | a zero-padded number is a run of digits exactly as long as the larger of the number's digit count and the width, and it reads back as the number |
| `Decimal.ZeroPadValue` | storage/storage.go:95 | padding with leading zeros never changes the value of a digit string |
| `Tiling.Tile` | handlers/watermark.go:94-101 | the nested loops lay the mark over the base at exactly the points of the plan for steps rw+rh/2 and rh+rh/2, in plan order |
| `Tiling.TileRow` | handlers/watermark.go:98-100 | one pass of the inner loop lays the mark at x = 0, sx, 2sx, ... below the width, at the row's height, left to right |
| `Tiling.Plan` | handlers/watermark.go:97-101 | the number of placements is the product of the column count and the row count |
| `Tiling.CountBound` | handlers/watermark.go:97-98 | the k-th iteration of a loop from 0 in steps of s runs if and only if k*s is below the bound |
| `Tiling.CountIsCeiling` | handlers/watermark.go:97-98 | a loop from 0 in steps of s below n runs ceil(n/s) times |
| `Tiling.PlanMembers` | handlers/watermark.go:97-98 | a point is placed if and only if 0 <= x < W and 0 <= y < H, with x a multiple of the x step and y a multiple of the y step |
| `Tiling.PlanOrdered` | handlers/watermark.go:97-101 | placements come in strictly increasing row-major order (y outer, x inner), so no point is visited twice |
| `Tiling.ApplyAllAppend` | handlers/watermark.go:99 | overlaying one run of points and then another is overlaying their concatenation |
| `Tiling.ResizedDims` | handlers/watermark.go:93 | resizing to a positive width keeps that width and at least one pixel of height, rounded to the nearest pixel by the aspect ratio; a height of exactly 1 means the rounded height was below 1.5 pixels (2·w·h + W < 4·W); an empty source or a zero target width gives an empty image |
| `Tiling.ScaledWidth` | handlers/watermark.go:93 | the target width is a quarter of the base width, rounded down |
| `Tiling.NarrowBaseNeverAdvances` | handlers/watermark.go:93-98 | for a base 1 to 3 pixels wide both loop steps are 0 while the loop guard stays true, so the tiling never ends |
| `Tiling.CorrectedScaledWidth` | handlers/watermark.go:93 | the clamped target width is at least one, equals the source's quarter width for bases at least 4 pixels wide, and is exactly 1 for narrower bases |
| `Tiling.CorrectedStepsArePositive` | handlers/watermark.go:93-98 | with the clamp, any non-empty watermark gives positive steps in both directions |
| `Tiling.ExampleTiling` | handlers/watermark.go:93-101 | an 800x600 picture with a 400x100 watermark gives a 200x50 tile, 4 columns and 8 rows, 32 placements, and a first row at x = 0, 225, 450, 675 |
| `Watermark.SelectEncoder` | handlers/watermark.go:104-109 | the encoder is PNG if and only if the format is "png", and otherwise JPEG at quality 90 |
| `Watermark.ContentTypeAsWritten` | handlers/watermark.go:116 | the uploaded content type is "image/" followed by the decoded format's name |
| `Watermark.GifLabelledWrongly` | handlers/watermark.go:104-116 | a GIF picture is written as JPEG but labelled "image/gif" |
| `Watermark.EncodedContentType` | handlers/watermark.go:104-116 | the corrected label is "image/png" exactly for the PNG encoder and "image/jpeg" exactly for the JPEG encoder |
| `Watermark.EncodedContentTypeAgrees` | handlers/watermark.go:104-116 | the corrected label is always an allowed type, and for "png" and "jpeg" it equals the label the source writes |
| `Watermark.OutputPath` | handlers/watermark.go:115 | the output path is a non-empty, already clean path |
| `Watermark.OutputPathOfNested` | handlers/watermark.go:115 | a path under directories gets a "watermarked" element inserted before its last element, so the output never overwrites the input |
| `Watermark.OutputPathOfName` | handlers/watermark.go:115 | a bare file name is written under "watermarked/" |
| `Watermark.OutputPathExample` | handlers/watermark.go:115 | "images/a.png" is written to "images/watermarked/a.png" |
| `Watermark.MarkDims` | handlers/watermark.go:93-96 | the watermark is resized to a quarter of the base width and the aspect-ratio height; the width is clamped to 1 pixel for bases under 4 pixels wide (see the findings); the resulting steps are positive in both directions |
| `Watermark.Render` | handlers/watermark.go:81-113 | an undecodable picture fails with "Invalid image" 400; a decodable picture with an undecodable watermark fails with "Invalid watermark" 400; when both decode, an encoder that produces bytes gives a rendering of exactly those bytes, labelled after the encoder used, and an encoder failure gives "Encoding failed" 500; a success is labelled with an allowed type. The label and the watermark width are the corrected ones from the findings below |
| `Watermark.RenderedMeans` | handlers/watermark.go:81-113 | a rendering succeeds only when both images decode; the marks then lie exactly on the grid inside the picture, in row-major order; the rendered bytes are the chosen encoder applied to the picture overlaid at every plan point; and the label is "image/png" exactly when the picture is a PNG |
| `Watermark.RenderStep` | handlers/watermark.go:81-113 | decoding, tiling and encoding step by step gives exactly the specified rendering |
| `Watermark.WatermarkHTTP` | handlers/watermark.go:29-126 | either path empty gives "Both paths required" 400 before any storage access; a missing client gives "Storage error" 500; either object missing gives "Download failed" 500; a failed rendering gives its own message and status; a failed write or close gives "Upload failed" 500; every failure leaves the bucket unchanged; on success the rendered bytes are stored at the output path, and the reply's watermarked path is the public URL carrying the stored token |
| `Base64.Decode` | handlers/upload.go:70-74 | strict decoding accepts only canonical text: whatever decodes re-encodes to the input with newlines removed |
| `Base64.DecodeSkipsNewlines` | handlers/upload.go:70-74 | carriage returns and line feeds are skipped wherever they stand: a text decodes exactly as it does with them removed |
| `Base64.DecodeEncode` | handlers/upload.go:70-74 | decoding the encoding of any bytes gives them back |
| `Base64.ForeignCharacterRejected` | handlers/upload.go:70-74 | a payload with a character outside the alphabet, padding and newlines is invalid base64 |
| `Base64.Encode` | handlers/upload.go:70-74 | encoded text is a whole number of four-character quanta with no line breaks |
| `Hex.HexRoundTrip` | storage/storage.go:44-48 | hex-decoding the hex encoding of any bytes gives them back |
| `Hex.HexEncodeInjective` | storage/storage.go:44-48 | different random bytes give different tokens |
| `Hex.HexEncode` | storage/storage.go:44-48 | the encoding has two lower-case hex characters per byte, high nibble first |
| `Decimal.DecimalRoundTrip` | storage/storage.go:104-105 | the decimal rendering of any integer reads back as that integer |
| `Strings.TrimSpace` | handlers/upload.go:54 | the trimmed text is no longer than the input, has no white space at either end, and is empty exactly when the input is all white space |
| `Strings.TrimSpaceOfPadded` | handlers/upload.go:54 | trimming a text padded with white space gives the text between the padding |
| `Strings.ToLower` | handlers/upload.go:54 | lower-casing keeps the length and lowers each character independently |
| `Paths.Clean` | handlers/upload.go:117-122 | the cleaned path is never empty, and it is rooted exactly when the input is |
| `Paths.Join` | handlers/upload.go:117-122 | the joined path is empty exactly when every element is empty, and otherwise already clean |
| `Paths.Dir` | handlers/watermark.go:115 | the directory is a non-empty, already clean path |
| `Paths.Base` | handlers/watermark.go:115 | the base is never empty, and it is either the root "/" or a single element with no slash |
| `Paths.Ext` | storage/storage.go:89-92 | the extension is a suffix of the path; it is empty or a dot followed by no further dot, and it never contains a slash |
| `Paths.CleanIdempotent` | handlers/upload.go:117-122 | a cleaned path cleans to itself |
| `Paths.JoinUnder` | handlers/upload.go:117-122 | joining plain names under a directory is plain concatenation with slashes |
| `Paths.JoinClimbsOut` | handlers/upload.go:117-122 | a ".." element cancels the directory before it |
| `Paths.DirBaseOfJoined` | handlers/watermark.go:115 | the directory and the base of a path of plain names are everything before and the last element |

## Left out

- Request decoding and reply writing: the JSON body, `sendJSON` and `sendJSONError` are not modelled. A request is already a record, and a reply is a message with a status or a body record.
- The per-request context timeouts are not modelled.
- `isRateLimited` always answers false, so its branch never fires and is not modelled.
- Building the storage client from the credentials file (`NewStorageService`) is reduced to one parameter, `clientOk`, which says whether it succeeds. The credentials are recorded but never read.
- The two downloads of `WatermarkHTTP` run concurrently and share an error variable. They are modelled as two sequential reads: either read failing gives the single "Download failed" error.
- `image.Decode`, `imaging.Resize`, `imaging.Overlay` and the PNG and JPEG encoders do floating-point pixel work. They are functions of a `Codec` parameter, and their images are an opaque type. The decoder is taken to report positive dimensions.
- `imaging.Clone` is dropped: images are values in the model, so the copy the source tiles over is the decoded picture itself.
- `crypto/rand` and `time.Now` are parameters: random bytes, an option of random bytes for a failing source, and clock readings. A failing `rand.Read` inside the token generator is not modelled; its error is ignored anyway.
- `url.PathEscape` is a function parameter.
- A failing `io.ReadAll` while a download is read back is not modelled. A download fails only when the path is not stored.
- `log.Printf` calls are not modelled.
- main.go, the functions directory and the JavaScript watermarking scripts are not part of this model. They are duplicate handlers built on temporary files and external processes.
- Strings.LowerRune: lowers only ASCII letters and the two non-ASCII letters whose lower case is ASCII (U+0130 and U+212A). This decides every comparison with the ASCII allow-list exactly, but it is not all of Unicode case mapping.
- Tiling.ResizedDims: computes the scaled height by exact rational rounding (half up) instead of the library's floating-point arithmetic.
- Paths.Clean: models the Unix `filepath.Clean` on `/`-separated elements, where "." elements vanish and ".." cancels the element before it.
- Watermark.Render: uses the corrected watermark width (`MarkDims`' 1-pixel clamp) and labels the result with the encoder actually used (`EncodedContentType`), not the source's `"image/" + format`; both corrections are the findings below.
- Watermark.WatermarkHTTP: uses the corrected watermark width and the corrected content type from the findings below, not the behaviour as written.
- Watermark.WatermarkHTTP: the request must carry exactly sixteen random bytes for the token.
- Upload.ImageUploadHTTP: the request must carry sixteen random bytes for the token, and sixteen for the name whenever the random source succeeds.

## Findings

| source | as written | input that shows it | evidently intended | confidence | as-written member | corrected member |
|---|---|---|---|---|---|---|
| handlers/watermark.go:93-101 | the watermark is resized to width `W/4`, and the loops step by `rw+rh/2` and `rh+rh/2` | a picture 1 to 3 pixels wide: `W/4` is 0, the resized watermark is empty, both steps are 0 and `x < W` stays true forever | a watermark at least one pixel wide, so both loops advance | not executed | `Tiling.NarrowBaseNeverAdvances` | `Tiling.CorrectedStepsArePositive` |
| handlers/watermark.go:104-116 | every format other than "png" is encoded as JPEG, but the object is labelled `"image/" + format` | a GIF picture: JPEG bytes are stored with content type "image/gif" | the label of the encoder actually used, "image/png" or "image/jpeg" | not executed | `Watermark.GifLabelledWrongly` | `Watermark.EncodedContentTypeAgrees` |
