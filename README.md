# Image splitter: a Dafny model of the four-strip splitting page

The page (`app/page.tsx`) takes one uploaded image, cuts it into four
horizontal strips of equal height, re-encodes each strip, and lets the
user save or share them one by one or save all of them. This project
models the deterministic core of that page:

- **Upload validation and session state** (module `Page`, class
  `Page.Session`): the fields `selectedImage`, `splitImages` and
  `imageType`. An upload has two steps. `RequestUpload` refuses a file
  whose type does not start with `image/`, and otherwise records its type
  at once. `OnImageLoad` runs when that file's image has decoded: it
  shows the image and stores its strips. `Upload` is the two steps
  run back to back. `Reset` restores the initial state. `SaveAll` issues one
  download per stored strip. The invariant `Valid` says there are zero or
  four strips, and strips only while an image is shown. `StripsMatchType`
  says the stored strips were encoded for the type that names their files.
- **Slicing** (module `Slicer`): `quarterHeight = height / 4` as an exact
  real number. Strip `i` is the source rectangle
  `(0, i * quarterHeight, width, quarterHeight)`. The strips are produced
  top to bottom by the same `for` loop as the page.
- **Encoder policy and names** (module `EncoderPolicy`): `image/jpeg` and
  `image/jpg` are encoded as JPEG at quality 1.0, and any other type
  keeps its own type at default quality. The extension is `jpg`, `png` or
  `webp`, with `png` as the default. File names are
  `split-{index+1}.{ext}`.
- **`dataURLtoBlob`** (module `DataUrl`): splitting on `,`, the regular
  expression `:(.*?);` with its `image/png` fallback, and the count-down
  loop that fills a `Uint8Array`.
- **Share or download** (module `Exporter`): the trace of host effects
  `shareImage` causes, for every combination of host capabilities, of
  `atob` succeeding or throwing, and of how the share promise settles.
- **JavaScript string operations** (module `JsString`): `startsWith`,
  `split` with a one-character separator, and the decimal text of the
  index in template literals.

Host services are parameters:

- `Render` stands for drawing a region onto the canvas and calling
  `toDataURL`.
- `Atob` stands for base64 decoding. It returns `None` when `atob` throws.
- `Host` gives the share capabilities and the share outcome.
- `Option<DecodedImage>` stands for the file reader and the image decoder.
  `None` means `onload` never fires.

Strings are `seq<char>`. A Dafny `char` is a Unicode scalar value, so a
character above U+FFFF is one `char` here but two UTF-16 code units in
JavaScript, and a lone surrogate cannot be represented. `atob` only
yields code units below 256, so this does not affect `dataURLtoBlob`.

Three facts about the page that the model keeps:

- The page has save-all only, and it always downloads. There is no
  share-all.
- An accepted file sets `imageType` at once (app/page.tsx:18), before it
  has been read. If decoding never completes, only `imageType` has changed.
- Without a 2D context, `splitImageIntoFour` returns early and leaves
  `splitImages` as it was.

## Model

| member | source | states |
|---|---|---|
| `JsString.StartsWith` | app/page.tsx:13 | `s.startsWith(prefix)` holds exactly when the prefix is no longer than `s` and agrees with it character by character |
| `JsString.Split` | app/page.tsx:70 | `split(",")` always yields at least one piece |
| `JsString.SplitJoin` | app/page.tsx:70 | joining the pieces of `split` with the separator gives back the string, and no piece contains the separator |
| `JsString.SplitAfterPiece` | app/page.tsx:70 | a separator-free prefix followed by the separator is split off as the first piece |
| `JsString.SplitWithoutSeparator` | app/page.tsx:70 | a string without the separator splits into itself alone |
| `JsString.JoinSplit` | app/page.tsx:70 | pieces free of the separator are exactly recovered by splitting their join (the inverse round trip) |
| `JsString.SplitFirst` | app/page.tsx:70 | the first piece of `split` begins the string and holds no separator; there is a single piece exactly when the string has no separator, and it is then the whole string; otherwise the separator follows the first piece and the other pieces are the split of the rest |
| `JsString.NatToString` | app/page.tsx:97 | the text of `${index + 1}` is a non-empty run of decimal digits with no leading zero |
| `JsString.ParseNatToString` | app/page.tsx:122 | reading the digits of the rendered number back gives the number |
| `JsString.NatToStringInjective` | app/page.tsx:122 | distinct indices render as distinct texts |
| `EncoderPolicy.EncodingFor` | app/page.tsx:59-63 | a quality argument is given exactly for `image/jpeg` and `image/jpg`, and it is 1.0; both JPEG spellings are encoded as `image/jpeg`; every other type keeps its own media type |
| `EncoderPolicy.FileExtension` | app/page.tsx:81-90 | the extension is always one of `jpg`, `png`, `webp`; `jpg` exactly for the two JPEG spellings, `webp` exactly for `image/webp`, `png` for everything else |
| `EncoderPolicy.ExtensionFollowsEncoding` | app/page.tsx:59-90 | the extension derived from the media type the strips were encoded with equals the extension used to name them |
| `EncoderPolicy.FileName` | app/page.tsx:97 | a file name starts with `split-`, ends with `.` plus the extension, and between them stands the canonical decimal of `index + 1` (digits only, no leading zero, read back as `index + 1`) |
| `EncoderPolicy.FileNameInjective` | app/page.tsx:122 | two strips of one session with the same file name have the same index |
| `EncoderPolicy.FourFileNames` | app/page.tsx:122 | strips 0 to 3 are named `split-1` to `split-4` with the session's extension |
| `Slicer.QuarterHeight` | app/page.tsx:39 | four quarter heights make exactly the image height; no rounding |
| `Slicer.SplitIntoFour` | app/page.tsx:43-64 | the loop yields exactly the sequence `Strips`: four strips, where strip `i` is the render of rectangle `(0, i*h/4, width, h/4)` with the encoding the policy picks |
| `Slicer.StripsTileImage` | app/page.tsx:39-57 | strip 0 starts at the top; each strip starts where the previous one ends; strip 3 ends at the image height; all span the full width; the heights add up to the image height |
| `Slicer.StripsTopToBottom` | app/page.tsx:43-57 | a later strip never starts above an earlier one, and starts strictly below it for a non-empty image |
| `Slicer.FractionalStrips` | app/page.tsx:39-50 | a 199-pixel-high image gives strips 49.75 high starting at 0, 49.75, 99.5 and 149.25 |
| `Slicer.SquareStrips` | app/page.tsx:39-57 | a 100 by 400 image gives four 100 by 100 strips starting at 0, 100, 200 and 300 |
| `DataUrl.Header` | app/page.tsx:70-71 | `arr[0]` is the text before the first comma: a comma-free prefix of the URL that is the whole URL exactly when it has no comma, and is otherwise followed by a comma |
| `DataUrl.Payload` | app/page.tsx:70-72 | with no comma in the URL, `atob` is given the text `undefined`; otherwise `arr[1]` is the comma-free text right after the first comma, ending at the next comma or the end of the URL |
| `DataUrl.ToUint8` | app/page.tsx:76 | storing a code unit into a `Uint8Array` keeps a code unit below 256 unchanged and otherwise keeps it modulo 256 |
| `DataUrl.BlobBytes` | app/page.tsx:73-77 | the filled array has one byte per decoded character, byte `k` being character `k` stored as a `Uint8Array` element |
| `DataUrl.ScanToSemicolon` | app/page.tsx:71 | the lazy `.*?;` stops at the first `;` reachable without crossing a line terminator, and finds one whenever one is reachable |
| `DataUrl.FirstCapture` | app/page.tsx:71 | the search returns a match of `:(.*?);`, and no match starts before the one it returns |
| `DataUrl.CaptureUnique` | app/page.tsx:71 | a match starting at a given colon ends at exactly one semicolon |
| `DataUrl.MimeOf` | app/page.tsx:71 | for any header: with no match of `:(.*?);` the media type is `image/png`; otherwise it is the capture of the leftmost match, or `image/png` when that capture is empty; never empty |
| `DataUrl.CanvasDataUrl` | app/page.tsx:60-72 | for a URL `data:{mime};base64,{payload}` as a canvas produces it, the header, the payload and the media type are read back as they were written |
| `DataUrl.EmptyCanvasDataUrl` | app/page.tsx:70-72 | `data:,` (a zero-size canvas) gives media type `image/png` and an empty payload |
| `DataUrl.DataUrlToBlob` | app/page.tsx:69-79 | fails exactly when `atob` throws, with `InvalidCharacterError`; otherwise the count-down loop leaves the blob holding exactly `BlobBytes` of the decoded payload, and the blob's media type is the extracted one |
| `Exporter.DownloadImage` | app/page.tsx:119-125 | a link download named `split-{index+1}.{ext}` pointing at the strip's data URL |
| `Exporter.ShareTitle` | app/page.tsx:104 | the title is `分割画像 ` followed by the canonical decimal of `index + 1` (digits only, no leading zero, read back as `index + 1`) |
| `Exporter.OnShareError` | app/page.tsx:109-113 | an error other than `AbortError` causes exactly one download of the strip; `AbortError` causes none |
| `Exporter.ShareImage` | app/page.tsx:92-117 | the share sheet is requested exactly when both share APIs exist, `atob` succeeds and `canShare` accepts the file; a download happens exactly when one of those fails or the share rejects with an error other than `AbortError`; at most one download happens, and when both effects occur the share request comes first; every effect uses the strip's file name, downloads use the strip's data URL, and the sheet carries the session's type, the bytes `dataURLtoBlob` fills from the decoded payload, and the 1-based title |
| `Page.Session.constructor` | app/page.tsx:6-9 | the session starts with no image, no strips and type `image/png` |
| `Page.Session.RequestUpload` | app/page.tsx:12-18 | a type not starting with `image/` changes nothing; an accepted type is recorded at once; image and strips are untouched; the invariant is kept |
| `Page.Session.OnImageLoad` | app/page.tsx:23-26 | the decoded image is shown and its four strips, encoded for the type captured by its own upload, are stored (unless there is no 2D context); the recorded type is untouched, so the strips match it exactly when this upload's type is the latest recorded |
| `Page.Session.OnImageLoadCorrected` | app/page.tsx:18-25 | as `OnImageLoad`, but the type is recorded with the strips, so stored strips always match the type that names them |
| `Page.Session.Upload` | app/page.tsx:12-30 | one upload not overlapped by another: a type not starting with `image/` changes nothing; an accepted type is recorded; a decoded image is shown and its four strips stored (unless there is no 2D context); an undecoded one changes no image or strips; the invariant is kept, and the stored strips match the recorded type |
| `Page.Session.SplitImageIntoFour` | app/page.tsx:32-67 | called only while an image is shown (as from `onload`, after `setSelectedImage`); with a 2D context the strips become the four rendered strips of the image, without one nothing changes; the invariant is kept |
| `Page.Session.Reset` | app/page.tsx:143-148 | no image, no strips, type `image/png` |
| `Page.Session.SaveAll` | app/page.tsx:256-259 | one download per stored strip, in index order, download `i` named for index `i` and pointing at strip `i` |
| `Page.CompletedSplitDownloads` | app/page.tsx:256-259 | save-all after a split gives four downloads named `split-1` to `split-4`, all distinct, with the extension of the format the strips were encoded in |
| `Scenarios.RejectNonImage` | app/page.tsx:12-16 | a `text/plain` file is refused and the session stays empty |
| `Scenarios.ResetThenReupload` | app/page.tsx:143-148 | reset followed by the same upload gives the same four strips |
| `Scenarios.SquarePngSaveAll` | app/page.tsx:256-259 | a 100 by 400 PNG is saved as `split-1.png` to `split-4.png` |
| `Scenarios.OverlappingUploads` | app/page.tsx:18-25 | a JPEG picked, then a PNG picked and decoded before the JPEG: the stored strips are the JPEG's strips rendered as `image/jpeg` at quality 1.0, saved as `split-1.png` to `split-4.png` |
| `Scenarios.OverlappingUploadsCorrected` | app/page.tsx:18-25 | the same run with the type recorded at decode: the JPEG strips are saved as `split-1.jpg` to `split-4.jpg` |

## Findings

| source | as written | input that shows it | evidently intended | confidence | as-written member | corrected member |
|---|---|---|---|---|---|---|
| app/page.tsx:18-25 | `imageType` is set when a file is picked, but the strips are stored later, by that file's `img.onload`, with the type the call captured | pick a large JPEG, then, while it still decodes (the drop zone stays on screen until an `onload` sets `selectedImage`), a small PNG that decodes first: the JPEG's strips are stored last while `imageType` is `image/png` | exported names carry the extension of the format the stored strips were encoded in | not executed; medium (depends on decode timing) | `Scenarios.OverlappingUploads` | `Page.Session.OnImageLoadCorrected` |

`Page.Session` keeps the handler as written (`OnImageLoad`). The corrected
handler is used by `Scenarios.OverlappingUploadsCorrected`.

## Left out

- The `FileReader` and `Image` callbacks (app/page.tsx:20-29) are asynchronous host I/O. A successful decode is one atomic step that supplies the data URL, width and height.
- Canvas `getContext`, `drawImage` and `toDataURL` (app/page.tsx:33-57) are host graphics. Drawing plus encoding is the injected `Render`; pixel content is not modelled.
- The canvas truncates a fractional `canvas.height` to an integer. This is not modelled: strips are described by their real-valued source rectangles.
- A canvas falls back to PNG for a type it cannot encode. This is not modelled: `EncoderPolicy.ExtensionFollowsEncoding` is about the requested encoding.
- `atob` (app/page.tsx:72) is the injected `Atob`. Base64 decoding itself is not modelled.
- `navigator.share`, `navigator.canShare` and the link click (app/page.tsx:101-105, 120-124) are host capabilities. Their answers are the `Host` value, and the page's requests are `HostEffect`s.
- The `setTimeout` pause of 100 ms between save-all downloads (app/page.tsx:258) is timing only.
- Drag state (`isDragging`, app/page.tsx:127-141), the `alert` on refusal and all markup are presentation. So is clearing `fileInputRef` (app/page.tsx:147).
- `Page.Session.Upload`: it covers one upload that no other upload overlaps. Overlapping uploads are modelled by calling `RequestUpload` and `OnImageLoad` separately (see Findings). The model does not say which `onload` fires first; callers choose the order.
- `DataUrl.DataUrlToBlob`: the `Uint8Array` allocation throwing for an enormous length is not modelled.
- `DataUrl.DataUrlToBlob`: the `Blob` constructor's treatment of its `type` option is not modelled. It lowercases ASCII letters and gives an empty type when any character lies outside U+0020 to U+007E; the model keeps the extracted media type as it is.
- `Exporter.ShareImage`: the shared `File` is modelled by its name, type and bytes; its `lastModified` time is a clock reading and is not modelled.
- Lone surrogates and characters above U+FFFF as two code units (see above) are not represented.
