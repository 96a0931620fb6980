# Thermal-printer density editor and print server: a Dafny model

This project models the computational core of a small thermal-printer application.

- **The browser density editor** (client/src/preview.js). Every loaded image gets a per-pixel threshold map (the "density" map) filled with the slider's value. A circular brush paints new thresholds into the map. A thresholding pass turns the image's RGBA bytes into black and white: R, G and B become 0 when the red byte is below the pixel's threshold, and 255 otherwise. The reset button copies each map's load-time snapshot back.
  - Module `Preview`: the `DensityMap` class (`createDensityMap`, `setPixelDensity`), the brush loops as `DensityMap.Paint`, the thresholding loop `ApplyDensityMap` over a canvas byte array, and the mouse-to-buffer mapping.
  - Module `PreviewSession`: the `previewItems` list as class `Page`, and its entries as class `Session`. A session holds the map, the `originalMap` snapshot, the image bytes, the canvas buffer and the `painting` flag of its mouse handlers.
- **The ESC/POS raster encoder** (backend/printer.py), in module `Printer`.
  - `ImageToRasterBytes` is `image_to_raster_bytes`: the nested loops that shift pixels into a byte accumulator and append bytes to the raster. It is proved equal to the function `RasterBytes`, and the command layout, the bit order and the padding are proved about that function.
  - `PrintJob` is `print_job`, returning the list of messages it writes to the printer.
- **The density-map helpers** (backend/densityxpixel.py), in module `DensityPixel`. They work on a two-dimensional `array2<byte>`.
- **The print form** of both Flask servers, in module `FormCheck`. This covers `allowed_file`, the counts and order parsing (`split(',')`, `strip()`, `isdigit()`, `int()`), the density field (`int()`), the error rules and their messages, and the job handed on when there are no errors. `int()` is CPython's from the releases that introduced the digit limit on (3.11, 3.10.7, 3.9.14, 3.8.14, 3.7.14): it refuses a decimal text of more than 4300 digits (`sys.get_int_max_str_digits()`), so an over-long count, order item or density makes the request fail with a 500.
  - backend/app.py queues the job and counts it: module `QueuedApp`, class `Server`.
  - app.py prints the job at once: module `DirectApp`.
  - The validation text is identical in the two files (backend/app.py:53-77 and app.py:16-40; backend/app.py:117-118 and app.py:54-55). The table below cites backend/app.py for the shared part.

Three behaviours of the editor code shape the model:

- **Red byte, not luminance.** The thresholding loop compares the red byte of each RGBA pixel with the pixel's threshold. It forces only R, G and B to 0 or 255 and leaves the alpha byte untouched.
- **No size check.** `applyDensityMap` reads `getImageData(0, 0, width, height)` and never compares the map with the image. Here the canvas and the image bytes are `4 * width * height` long, which the session invariant guarantees.
- **Zero-area images are dropped.** For an image with a width or height of 0, `getImageData` throws inside `img.onload` before `previewItems.push`. No session is made, the list is unchanged and the image is not added. `PreviewSession.Page.Add` returns None in that case, and a `Session` always has a positive width and height.

## Model

| member | source | states |
|---|---|---|
| Preview.CellIndexInRange | client/src/preview.js:10-11 | an in-bounds (x, y) has row-major index y * width + x inside the width * height map |
| Preview.CellOfIndex | client/src/preview.js:18-20 | every map index k the thresholding loop visits is the in-bounds cell (k % width, k / width) |
| Preview.IndexOfCell | client/src/preview.js:11 | the index y * width + x of an in-bounds cell gives back x and y, so distinct cells have distinct indices |
| Preview.DensityMap.constructor | client/src/preview.js:4-7 | createDensityMap: width * height cells, every one equal to defaultD, in a fresh array |
| Preview.DensityMap.SetPixelDensity | client/src/preview.js:9-12 | the new map is SetPixel of the old one: unchanged out of bounds, one cell written in bounds |
| Preview.SetPixel | client/src/preview.js:9-12 | setPixelDensity never changes the map's length |
| Preview.SetPixelCells | client/src/preview.js:9-12 | after setPixelDensity, cell (x, y) holds d when (x, y) is in bounds, and every other cell keeps its value; an out-of-bounds write changes nothing |
| Preview.DensityMap.Paint | client/src/preview.js:94-102 | the nested brush loops leave the map equal to Stamped of the old map |
| Preview.Stamped | client/src/preview.js:96-101 | one brush stamp keeps the map's length |
| Preview.StampedCell | client/src/preview.js:96-101 | after a stamp, an in-bounds cell holds brushD exactly when its offset (dx, dy) from the centre has -r <= dx, dy <= r and dx^2 + dy^2 <= r^2; every other cell keeps its value |
| Preview.StampRadiusZero | client/src/preview.js:96-100 | a radius-0 stamp is exactly one setPixelDensity at the centre |
| Preview.StampIdempotent | client/src/preview.js:96-101 | stamping the same circle twice gives the same map as stamping it once |
| Preview.StampStep | client/src/preview.js:97-100 | one inner-loop pass calls setPixelDensity exactly when the offset passes the circle test, and otherwise changes nothing |
| Preview.StampDone | client/src/preview.js:96-102 | once the loops have passed the last row, the visited offsets are the whole stamp |
| Preview.Binarize | client/src/preview.js:21 | an output channel is 0 or 255, and 0 exactly when the red byte is below the threshold |
| Preview.PixelOut | client/src/preview.js:19-22 | one pixel after the loop body: R, G and B are equal, 0 exactly when the red byte is below the threshold and 255 otherwise, and alpha is kept |
| Preview.Thresholded | client/src/preview.js:18-23 | the thresholding pass keeps the buffer's length |
| Preview.ThresholdedPixel | client/src/preview.js:19-22 | pixel i's R, G and B are all 0 if its red byte is below map[i] and all 255 otherwise; its alpha byte is unchanged |
| Preview.ThresholdedBinary | client/src/preview.js:21-22 | every R, G and B byte of the output is 0 or 255 |
| Preview.ThresholdedSlice | client/src/preview.js:18-22 | output pixel i is computed from source pixel i and map[i] alone |
| Preview.ThresholdedLocal | client/src/preview.js:19-22 | two buffers and maps that agree on pixel i's red and alpha bytes and on map[i] give the same output pixel i |
| Preview.ThresholdStep | client/src/preview.js:19-22 | one loop pass extends the thresholded prefix by pixel i and leaves later pixels as drawn |
| Preview.ApplyDensityMap | client/src/preview.js:14-25 | after drawing the image and running the loop, the canvas bytes are Thresholded(image, map) |
| Preview.PaintScenario | client/src/preview.js:94-103 | 4 x 4 image with red bytes 100 and density 127: all pixels render black; after a radius-0 stamp of 50 at (2, 2), only pixel 10 renders white |
| Preview.ToBufferCoord | client/src/preview.js:84-85 | the buffer coordinate b satisfies b <= (client - start) * canvasSize / rectSize < b + 1 |
| Preview.ToBufferCoordInside | client/src/preview.js:83-85 | a mouse position inside the displayed canvas maps inside the buffer, at any positive scale |
| Preview.ToBufferCoordUnscaled | client/src/preview.js:84 | at 1:1 scale, a mouse position n pixels right of the canvas edge is on column n |
| Preview.ToBufferCoordExample | client/src/preview.js:84 | buffer 100 wide, displayed 200 wide at x = 10: mouse x = 60 maps to column 25 |
| PreviewSession.Slice | client/src/preview.js:52 | `dm.map.slice()` returns a fresh array with the same bytes |
| PreviewSession.CopyInto | client/src/preview.js:135 | `map.set(originalMap)` makes the map's bytes equal to the snapshot's |
| PreviewSession.Session.constructor | client/src/preview.js:49-60 | img.onload for an image of positive width and height: the map is filled with the slider value, the snapshot holds the same fill, the canvas shows Thresholded(image, map), and painting is off |
| PreviewSession.Session.MouseDown | client/src/preview.js:77 | mousedown sets the painting flag |
| PreviewSession.Session.MouseMove | client/src/preview.js:82-105 | mousemove stamps the brush at the mapped cell only while painting, otherwise leaves the map as it was; the canvas again shows the map's render and the snapshot is untouched |
| PreviewSession.Session.Restore | client/src/preview.js:134-137 | one reset step: the map equals the snapshot again, every cell holds the load-time density, and the canvas is re-rendered |
| PreviewSession.Page.constructor | client/src/preview.js:38 | previewItems starts empty |
| PreviewSession.Page.Clear | client/src/preview.js:42-43 | a new file selection empties previewItems |
| PreviewSession.Page.Add | client/src/preview.js:49-60 | an image with a width or height of 0 adds nothing (getImageData throws before the push); any other image appends one new, valid, not-painting session with fresh arrays, whose map and load-time density hold the slider value, and the other sessions are kept, sharing no buffer |
| PreviewSession.Page.MouseDown | client/src/preview.js:77 | mousedown on image k sets only that session's flag |
| PreviewSession.Page.MouseUp | client/src/preview.js:78 | a window mouseup clears every session's painting flag |
| PreviewSession.Page.MouseMove | client/src/preview.js:82-105 | moving over image k changes at most that session's map (by one stamp, only while painting) and canvas; every other session's map and canvas are unchanged |
| PreviewSession.Page.RestoreAt | client/src/preview.js:134-137 | one pass of the reset loop: session k's map equals its snapshot again and every other session's map is unchanged |
| PreviewSession.Page.Reset | client/src/preview.js:133-138 | reset makes every map equal, element for element, to its snapshot, that is, to its load-time fill, and re-renders every canvas |
| Printer.Header | backend/printer.py:41-48 | the header is 8 bytes, 1D 76 30 00, then bytes_per_row and height each as a little-endian 16-bit value (low byte + 256 * high byte is the value modulo 65536) |
| Printer.LowHigh | backend/printer.py:42-43 | `v & 0xFF` plus 256 times `(v >> 8) & 0xFF` is v modulo 65536 |
| Printer.PackRow | backend/printer.py:52-61 | a packed row has the fewest bytes that hold width bits: width <= 8 * its length < width + 8 |
| Printer.Acc | backend/printer.py:52-58 | after k pixels the shifting accumulator is below 2^k, so a byte of 8 pixels fits in 0 .. 255 |
| Printer.PackedByte | backend/printer.py:52-58 | a byte that lies wholly past the end of the row is all padding, 0x00 (its bits are stated by Printer.PackedBit) |
| Printer.AccSame | backend/printer.py:52-58 | shifting in only white bits leaves 0, and k black bits leave 2^k - 1 |
| Printer.PackedSame | backend/printer.py:52-58 | eight white pixels pack to 0x00 and eight black ones to 0xFF |
| Printer.Body | backend/printer.py:50-61 | every row contributes exactly bytes_per_row bytes |
| Printer.BodyAt | backend/printer.py:50-61 | packed byte j of row y sits at offset y * bytes_per_row + j of the rows' bytes |
| Printer.AccBit | backend/printer.py:55 | shifting in a pixel's bit then k more bits leaves that bit at position k |
| Printer.AccPadded | backend/printer.py:59-60 | shifting in positions past the end of the row equals the final left shift by 8 - width % 8 |
| Printer.RasterBytes | backend/printer.py:38-62 | the command is 8 + height * bytes_per_row bytes long and starts 1D 76 30 00, then the little-endian 16-bit bytes_per_row = ceil(width / 8) and height |
| Printer.RasterByteAt | backend/printer.py:45-61 | byte j of row y is at offset 8 + y * bytes_per_row + j of the command |
| Printer.PackedBit | backend/printer.py:53-58 | pixel x of a row is bit 7 - x % 8 (most significant first) of packed byte x / 8 |
| Printer.RasterPixel | backend/printer.py:53-58 | in the command, pixel (x, y) is bit 7 - x % 8 of byte i = 8 + y * bytes_per_row + x / 8, and that bit is 1 exactly for a black (zero) pixel |
| Printer.RasterPadding | backend/printer.py:59-61 | when width % 8 != 0, the low 8 - width % 8 bits of each row's last byte (at i = 8 + (y + 1) * bytes_per_row - 1) are 0 |
| Printer.LastBytePadded | backend/printer.py:59-61 | the padded last byte of a row ends in 8 - width % 8 zero bits |
| Printer.PackStep | backend/printer.py:53-58 | one inner-loop pass: the accumulator takes in the pixel's bit and, after the eighth, equals the packed byte appended to the row |
| Printer.PackRowEnd | backend/printer.py:59-61 | after the inner loop, the left-shifted leftover accumulator is the row's last packed byte |
| Printer.ImageToRasterBytes | backend/printer.py:38-62 | the loops return exactly RasterBytes: the header, then every row packed |
| Printer.AppendRow | backend/printer.py:52-61 | the inner loop and the padding step append exactly one packed row |
| Printer.BodyStep | backend/printer.py:51-61 | the rows' bytes for one more row are the earlier rows' bytes followed by that row packed |
| Printer.PrintJob | backend/printer.py:64-74 | the messages written are ESC @, then [0x12, density], then for each idx of order, counts[idx] times (raster of images[idx], ESC d 3); a density outside 0 .. 255 stops the job after ESC @; the density defaults to 127 |
| Printer.PrintOrder | backend/printer.py:70-74 | the loop over order writes exactly OrderWrites: each entry's raster and feed commands, in order |
| Printer.PrintImage | backend/printer.py:71-74 | one entry of order: the image is packed and its copies are written |
| Printer.WriteCopies | backend/printer.py:72-74 | the loop over range(count) appends exactly Copies(raster, count) |
| Printer.OrderWritesStep | backend/printer.py:70-74 | the writes for one more entry of order are the earlier writes followed by that image's copies |
| Printer.Copies | backend/printer.py:72-74 | the copies of one image alternate raster and feed command, 2 * max(count, 0) messages, a raster first |
| Printer.OrderWrites | backend/printer.py:70-74 | the loop over order writes two messages per printed copy: 2 * the sum of the non-negative counts it names |
| Printer.PrintJobWrites | backend/printer.py:64-74 | the first message is 1B 40; the job completes exactly when 0 <= density < 256; then the second message is [0x12, density] and there are 2 + 2 * copies messages, otherwise just one |
| DensityPixel.CreateDensityMap | backend/densityxpixel.py:10-14 | a fresh height x width grid, every cell equal to default_density, whatever the dpi |
| DensityPixel.SetPixelDensity | backend/densityxpixel.py:16-18 | cell [y, x] becomes density and no other cell changes |
| DensityPixel.SetRegionDensity | backend/densityxpixel.py:20-22 | the cells of rows y0 .. y0+height-1 and columns x0 .. x0+width-1 that lie inside the grid become density and all other cells keep their value; a zero width or height changes nothing |
| FormCheck.RSplitDot | backend/app.py:118 | `rsplit('.', 1)` finds no split exactly when the name has no dot; otherwise name == before + "." + after and after has no dot |
| FormCheck.RSplitDotOf | backend/app.py:118 | splitting name + "." + ext gives back (name, ext) when ext has no dot |
| FormCheck.Lower | backend/app.py:118 | the ASCII fold that stands in for str.lower() keeps the text's length |
| FormCheck.LowerCase | backend/app.py:118 | lowering leaves no capital A .. Z, keeps every other character, and changes nothing a second time |
| FormCheck.AllowedFile | backend/app.py:117-118 | an allowed name has a dot, does not end with it, and is at least four characters long |
| FormCheck.AllowedFileIff | backend/app.py:117-118 | name.ext is allowed exactly when ext, lower-cased, is png, jpg, jpeg or bmp, whatever the name |
| FormCheck.AllowedFileExamples | backend/app.py:117-118 | "scan.PNG" and "a.b.JPeg" are allowed |
| FormCheck.RefusedFileExamples | backend/app.py:117-118 | "photo.gif" and the dotless "png" are refused |
| FormCheck.LastExtensionExample | backend/app.py:117-118 | "photo.png.txt" is refused: only the last extension counts |
| FormCheck.Split | backend/app.py:68 | `split(',')` gives at least one part and no part contains a comma |
| FormCheck.JoinSplit | backend/app.py:68 | joining the parts of `split(',')` with commas gives back the text |
| FormCheck.SplitAppendPart | backend/app.py:68 | appending comma-free text to a string extends only its last part |
| FormCheck.SplitJoin | backend/app.py:68 | `split(',')` gives back the parts that were joined, when none contains a comma |
| FormCheck.StripStartShape | backend/app.py:68 | for any whitespace test (str.strip()'s or int()'s), stripping the start removes a whitespace prefix and leaves text not starting with whitespace |
| FormCheck.StripEndShape | backend/app.py:68 | for any whitespace test, stripping the end removes a whitespace suffix and leaves text not ending with whitespace |
| FormCheck.StripTrims | backend/app.py:68-70 | for any whitespace test, trimming leaves a stretch of the text with only whitespace around it, neither starting nor ending with whitespace |
| FormCheck.IsSpace | backend/app.py:68 | space, tab, newline and carriage return are whitespace to str.strip(); no digit and not the comma is |
| FormCheck.IsIntSpace | backend/app.py:70 | among ASCII characters int() skips exactly tab, newline, \v, \f, carriage return and space; nothing it skips is a sign, digit or underscore |
| FormCheck.Strip | backend/app.py:68 | str.strip() never lengthens the text, leaves no whitespace at either end, and leaves text with no whitespace at its ends unchanged |
| FormCheck.Decimal | backend/app.py:68 | str(n) is a non-empty digit string whose value is n, with no leading zero unless n is 0 |
| FormCheck.StripDigits | backend/app.py:68 | strip() leaves a digit string as it is |
| FormCheck.Numbers | backend/app.py:68 | the comprehension keeps at most one number per part; None is the ValueError int() raises on a digit string of more than 4300 digits |
| FormCheck.NumbersRaise | backend/app.py:68 | int() raises inside the comprehension exactly when some stripped part is a digit string of more than 4300 digits |
| FormCheck.NumbersDecimals | backend/app.py:68 | the numbers of the parts str(x0), str(x1), ... are x0, x1, ... when each has at most 4300 digits; otherwise int() raises |
| FormCheck.ParseIndexList | backend/app.py:68-69 | at most one number per comma-separated item, and none for an empty field; None when int() raises on an item |
| FormCheck.ParseIndexListTooLong | backend/app.py:68-69 | a field that is one digit string of more than 4300 digits makes int() raise |
| FormCheck.ParseIndexListRoundTrip | backend/app.py:68-69 | a list of numbers written with commas between them parses back to the same list when every number has at most 4300 digits, and raises otherwise |
| FormCheck.ParseIndexListExample | backend/app.py:68-69 | " 2, x,-1,3 " parses to [2, 3]: spaces are stripped, and "x" and "-1" are dropped |
| FormCheck.NumbersExample | backend/app.py:68 | the parts " 2", " x", "-1", "3 " give the numbers [2, 3] |
| FormCheck.WithoutUnderscores | backend/app.py:70 | removing underscores from digits-and-underscores leaves digits only, and text with no underscore unchanged |
| FormCheck.PyInt | backend/app.py:70 | a text int() accepts contains a digit and none of the information separators U+001C .. U+001F, which int() does not skip as whitespace; a digit string of more than 4300 digits is refused |
| FormCheck.PyIntDigits | backend/app.py:70 | a digit string d with int() whitespace around it reads as d's value, or raises when d has more than 4300 digits |
| FormCheck.TrimSpan | backend/app.py:70 | the trimmed text sits at some offset of the original, and every character outside it is whitespace |
| FormCheck.PyIntDecimal | backend/app.py:70 | int(str(n)) == n when str(n) has at most 4300 digits; otherwise int() raises |
| FormCheck.PyIntNegative | backend/app.py:70 | int("-" + str(n)) == -n when str(n) has at most 4300 digits; otherwise int() raises |
| FormCheck.PyIntMinus | backend/app.py:70 | int("-" + d) is minus the value of the digit string d when d has at most 4300 digits; otherwise int() raises |
| FormCheck.PyIntPadded | backend/app.py:70 | int(" " + str(n) + "\n") == n: surrounding whitespace is ignored; the 4300-digit limit still applies |
| FormCheck.PyIntSeparator | backend/app.py:70 | U+001C before str(n) is removed by strip() but makes int() raise ValueError |
| FormCheck.ParseDensity | backend/app.py:70 | a missing density field is 127; a density text int() accepts contains a digit |
| FormCheck.Message | backend/app.py:56-77 | every error has a non-empty text, and the "Invalid file skipped" text ends with the name as uploaded |
| FormCheck.Messages | backend/app.py:51-77 | one non-empty message per error, in the errors' order |
| FormCheck.Accepted | backend/app.py:58-66 | image_paths keeps only allowed names, at most one per upload, and all of them when every upload is allowed |
| FormCheck.Rejected | backend/app.py:60-66 | one "Invalid file skipped" error per refused upload: kept plus refused is the number of uploads, and there is none exactly when every upload is allowed |
| FormCheck.Errors | backend/app.py:53-77 | each rule's message is collected exactly when its rule fails: no printer, no kept upload, a count list of the wrong length, an order index out of range; "Invalid file skipped" names exactly the uploads that are not allowed |
| FormCheck.RejectedNames | backend/app.py:60-66 | a name is reported as skipped exactly when it was uploaded and is not allowed |
| FormCheck.ErrorsMembers | backend/app.py:53-77 | the printer and rule errors are each collected exactly when their test fails |
| FormCheck.ErrorsFiles | backend/app.py:58-66 | the skipped-file errors name exactly the uploads that are not allowed |
| FormCheck.Validate | backend/app.py:53-77 | in the order index() reads the form: 400 exactly when counts is missing, or counts parses and order is missing; a result exactly when all fields are present and int() accepts counts, order and density; 500 in every other case; the kept uploads are all allowed, and with no errors they are all the uploads, at least one, with one count each and every order index in range |
| FormCheck.TooLongRaises | backend/app.py:68-70 | a counts, order or density text that is one digit string of more than 4300 digits gives a 500, once the fields read before it are fine |
| FormCheck.ErrorsEmptyIff | backend/app.py:54-77 | no error exactly when a printer is given, at least one file is uploaded, every upload is allowed, there is one count per upload and every order index names an upload |
| FormCheck.UploadStep | backend/app.py:60-66 | one more upload is either kept or adds its error |
| FormCheck.CheckUploads | backend/app.py:58-66 | the upload loop's kept paths and appended errors are Accepted and Rejected of the uploads |
| FormCheck.CheckUpload | backend/app.py:60-66 | one pass of the upload loop keeps files[i] or reports it, as Accepted and Rejected of one more upload |
| FormCheck.CheckRules | backend/app.py:72-77 | the three rules append exactly RuleErrors, in their order |
| FormCheck.RuleErrors | backend/app.py:72-77 | "no images" exactly when no upload is kept, "counts must match" exactly when the counts list has another length, "out of range" exactly when an order index names no upload; nothing else, at most three |
| FormCheck.CheckForm | backend/app.py:53-77 | the validation statements, reading counts, order and density in the source's order, compute Validate(form): 400 for a missing field, 500 when int() raises on any of the three (a density padded with U+001C .. U+001F, an item of more than 4300 digits), else the errors and parsed fields |
| FormCheck.Dispatch | backend/app.py:79-92 | a GET hands on nothing; a handed-on job has a non-empty printer, all the uploads, at least one, all allowed, one count per image and every order index naming an image |
| FormCheck.Reply | backend/app.py:79-94 | a GET renders the empty page; 400 exactly for a POST whose counts is missing, or whose counts parses and whose order is missing; 500 exactly when an int() call raises; a success page lists no errors, shows the server's text and comes with a job; a POST page shows success exactly when it lists no errors |
| FormCheck.DispatchIff | backend/app.py:53-92 | a POST hands on a job exactly when all of these hold: the fields are present and int() accepts counts, order and density, a printer is given, at least one upload and all allowed, one count per upload, order indices below the upload count; the job carries the printer, all uploads, the parsed counts and order lists and the density |
| FormCheck.ReplySuccessIff | backend/app.py:79-94 | the page shows the success text, and no errors, exactly when a job is handed on |
| FormCheck.DispatchedJobPrintable | backend/app.py:76-77 | with one bitmap per upload, every order index of a handed-on job names an image and a count, so print_job's indexing cannot fail |
| QueuedApp.Server.constructor | backend/app.py:15-25 | the queue is empty and total_jobs and queue_length are 0 |
| QueuedApp.Server.Index | backend/app.py:49-94 | the job is enqueued and total_jobs grows by exactly 1 if and only if the form has no errors; otherwise neither changes; queue_length is the queue's size; the page is Reply with "Print job queued!" |
| DirectApp.Answer | app.py:42-47 | a GET renders the empty page; 400 exactly for a POST whose counts is missing, or whose counts parses and whose order is missing; the success page lists no errors and comes only with a handed-on job whose density is a byte and whose printing completes; a handed-on job whose printing raises gets 500 |
| DirectApp.Index | app.py:12-47 | the job handed to print_job is Dispatch(form); the answer is the page, or 500 when printing raises |
| DirectApp.DispatchedIff | app.py:42-47 | "Print job dispatched!" is shown exactly when the form has no errors, the density is a byte and printing completes; a valid form whose printing raises gets 500 |

## Left out

- DOM work in preview.js is not modelled: element creation, the brush cursor's style, `mouseenter` and `mouseleave`, and `buildFileTable` (which is not defined in preview.js). It is display only.
- The CSS `contrast()` filter of the density slider (client/src/preview.js:117-123) is not modelled. It is a floating-point display effect and never touches a map.
- `FileReader`, `Image` decoding and the canvas `drawImage`/`getImageData`/`putImageData` round trip are browser APIs. The image is the RGBA byte sequence that drawImage produces on a blank canvas, and the canvas is a byte array. `ApplyDensityMap` copies the image into the canvas in place of drawImage.
- Preview.ApplyDensityMap: drawImage composites the image source-over onto the previous render, so the model's copy of the image is exact on every render only for opaque pixels (alpha 255); for other pixels it is exact only on the first render, onto a blank canvas.
- PreviewSession.Session.MouseMove: re-renders through ApplyDensityMap, so its canvas is exact only for opaque pixels once the image has been drawn before.
- PreviewSession.Session.Restore: re-renders through ApplyDensityMap, so its canvas is exact only for opaque pixels.
- PreviewSession.Page.Reset: re-renders every canvas through ApplyDensityMap, so each canvas is exact only for opaque pixels.
- The slider and brush-size fields are parameters: a density in 0 .. 255 (a `byte`) and an integer radius. `parseInt` returning NaN and the `Uint8Array` modulo-256 store are not modelled.
- Preview.ToBufferCoord: uses exact real arithmetic. JavaScript's floating-point rounding of `canvas.width / rect.width` is not modelled, and the displayed width must be positive.
- Each session's mouseup listener is modelled as clearing that session's flag. The listeners of sessions that were cleared from the list keep running in the page, but they only write flags of unreachable sessions.
- The Bluetooth side of backend/printer.py is not modelled: scanning, connecting, `write_gatt_char`, the Nordic UART UUIDs and asyncio. `PrintJob` returns the messages in the order they would be written.
- PIL's `Image.open` and `convert("1")` (which dithers) are not modelled. The encoder's input is an already binarised `Bitmap` whose rows have `width` pixels, and 0 is black.
- The accumulator update `(byte << 1) | bit` is written as `2 * byte + bit`. The two agree because bit is 0 or 1.
- numpy's negative-index wrap-around is not modelled. DensityPixel.SetPixelDensity requires indices inside the grid, and DensityPixel.SetRegionDensity takes a non-negative corner and size.
- DensityPixel.CreateDensityMap: takes the greyscale image's height and width instead of opening the image file. Its density is a byte, while Python accepts any int: NumPy 2 raises OverflowError for a value outside 0 .. 255 and NumPy 1.x wraps it modulo 256.
- DensityPixel.SetPixelDensity: its density is a byte; an int outside 0 .. 255 raises OverflowError under NumPy 2 and wraps modulo 256 under NumPy 1.x, neither of which is modelled.
- DensityPixel.SetRegionDensity: its density is a byte; an int outside 0 .. 255 raises OverflowError under NumPy 2 and wraps modulo 256 under NumPy 1.x, neither of which is modelled.
- Flask itself is left out: routing, `render_template`, the `/scan`, `/queue` and `/metrics` routes, and saving uploads under UPLOAD_FOLDER (a kept upload is represented by its file name).
- An upload with an empty file name is falsy in `if img and ...`. The model uses only `allowed_file`, which refuses a name without a dot, so the outcome is the same.
- The worker thread of backend/app.py is not modelled: its dequeuing, `success_jobs`, `failure_jobs`, `prints` and the timing metrics are concurrency and wall-clock code. The queue in `QueuedApp.Server` therefore only grows. For the same reason the job's `enqueued_at` timestamp (`time.time()`, backend/app.py:79) is not a field of `FormCheck.Job`.
- backend/metrics.py (float averages), client/src/main.js and client/vite.config.js are outside the modelled core.
- The 4300-digit limit of `int()` is CPython's default. Raising or lowering it (`sys.set_int_max_str_digits`, `PYTHONINTMAXSTRDIGITS`) is not modelled, nor are releases without the limit (before 3.11, 3.10.7, 3.9.14, 3.8.14 and 3.7.14).
- `str.isdigit()` and `int()` are modelled for ASCII digits only. Other Unicode digits are treated as non-digits. `str.lower()` folds ASCII letters only, which decides the extension test exactly.
- The `idx < 0` half of the order test is always false. Parsed indices come from digit strings, so they are natural numbers.
- DirectApp.Index: models print_job raising only through a `printCompletes` parameter (Bluetooth failures) and a density outside 0 .. 255. Loading an image file that fails to open is part of `printCompletes`.
