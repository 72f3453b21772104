# Segmentation inference server: verified model of its deterministic core

The server of the liver-tumour segmentation project exposes one endpoint,
`/predict/slice`. It takes an uploaded file and routes it by the suffix of its
lower-cased name:

- A raster image (`.png`, `.jpg`, `.jpeg`) is converted to RGB and given to a
  placeholder segmentation model. The endpoint answers with the mask, scaled to
  0/255, and with an overlay: a copy of the image painted red wherever the mask
  is 1.
- A NIfTI volume (`.nii`, `.nii.gz`) is staged in a temporary file whose name
  keeps the gzip suffix. The volume is loaded and its middle slice
  `depth // 2` is normalised to 8 bits. The endpoint answers with that slice
  and the model's mask of it.
- Any other name gets an HTTP 400 answer, "Invalid file type".

The placeholder model (`run_model`) never reads a pixel. It marks a disc of
radius `min(h, w) // 4` in an h × w zero grid. The row coordinate is compared
against `cx = w // 2` where `cy = h // 2` was evidently meant, and `cy` is
never used. So the disc sits at (cx, cx), on the diagonal. For square images
this is the centre. For tall images the disc can miss the image centre. For
wide, short images it can miss the image entirely. The model reproduces this
behaviour exactly. Lemmas in `Segmentation` state where it diverges from the
centred disc.

Modules:

- `Segmentation` (segmentation.dfy): the disc test, `RunModel` (a zero mask
  filled in place by nested loops) and the geometry lemmas.
- `Overlay` (overlay.dfy): the red overlay painted in place on a fresh copy,
  and the `mask * 255` encoding.
- `Routing` (routing.dfy): lower-casing, the suffix dispatch, the
  temporary-path choice and the middle-slice index.
- `Endpoint` (endpoint.dfy): the endpoint, composed from the above. The decoded
  image and volume are parameters.

Images are `array2` values. Channel values are the `byte` newtype. The mask
holds the exact values 0 and 1, which the server stores as float32; the model
stores them as `int`.

## Model

| member | source | states |
|---|---|---|
| `Segmentation.RunModel` | server/main.py:32-42 | The mask is a fresh array with exactly the image's first two dimensions. Entry (y, x) is 1 iff `(x-cx)^2 + (y-cx)^2 <= r^2` with `cx = w//2` and `r = min(h,w)//4`, and 0 otherwise. So the mask is binary and depends only on the shape, never on a pixel value. The image is not modified. |
| `Segmentation.CentreCol` | server/main.py:36 | `cx = w // 2` splits the columns evenly: 2·cx ≤ w ≤ 2·cx + 1. |
| `Segmentation.Radius` | server/main.py:37 | `r = min(h, w) // 4` is the largest r with 4r ≤ h and 4r ≤ w. |
| `Segmentation.InDisc` | server/main.py:40 | The point (cx, cx) is always inside the disc as written, and each offset of an inside point from cx squares to at most r². |
| `Segmentation.DiscInsideBox` | server/main.py:36-40 | Every marked position lies within r of cx in both coordinates. |
| `Segmentation.CentrePixelMarked` | server/main.py:36-40 | If `w//2 < h` and w ≥ 1, then pixel (w//2, w//2) is in the image and marked, even when r = 0. |
| `Segmentation.MaskEmptyFarFromCentre` | server/main.py:36-40 | If `w//2 > h - 1 + r`, then no pixel of the image is marked. |
| `Segmentation.WideStripMaskEmpty` | server/main.py:36-40 | A 2 × 40 image gets an all-zero mask. |
| `Segmentation.ImageCentreMissed` | server/main.py:36-40 | If `h//2 - w//2 > r`, then the image centre (cy, cx) is not marked, although the centred disc would contain it. This is the effect of the unused `cy`. |
| `Segmentation.TallImageCentreMissed` | server/main.py:36-40 | For a 512 × 256 image, (128, 128) is marked and the image centre (256, 128) is not. |
| `Segmentation.SquareDiscCentred` | server/main.py:36-40 | For square images the disc as written equals the disc centred on (cy, cx). |
| `Segmentation.DiscTransposeSymmetric` | server/main.py:40 | Both coordinates are measured from cx, so the disc is symmetric under swapping row and column. |
| `Overlay.PaintOverlay` | server/main.py:56-57 | The overlay is a fresh array of the image's shape. Each pixel whose mask value is 1 is (255, 0, 0), and every other pixel equals the original. The source image is unchanged. |
| `Overlay.EncodeMask` | server/main.py:59 | For a 0/1 mask, the 8-bit encoding of `mask * 255` is a fresh array of the mask's shape. Each entry is 255 exactly where the mask is 1 and 0 exactly where it is 0, so the values lie in {0, 255}. |
| `Routing.LowerChar` | server/main.py:47 | An upper-case ASCII letter maps to the lower-case letter at the same alphabet position. Every other character is unchanged. The result is never upper case. |
| `Routing.Lower` | server/main.py:47 | Lower-casing keeps the length, maps each character, and leaves no upper-case letter. |
| `Routing.LowerIdempotent` | server/main.py:47 | Lower-casing twice equals lower-casing once. |
| `Routing.LowerOfUpper` | server/main.py:47 | Lower-casing ignores a prior upper-casing (`Routing.Upper`, an independent per-character definition): lower(upper(s)) = lower(s). |
| `Routing.LowerConcat` | server/main.py:47 | Lower-casing distributes over concatenation, so it keeps the suffix structure of a name. |
| `Routing.EndsWith` | server/main.py:49 | `endswith(suffix)` holds iff the suffix fits in the name and its characters match the name's last characters, in order. |
| `Routing.EndsWithConcat` | server/main.py:49 | A name ends in a suffix iff it is some prefix followed by that suffix. |
| `Routing.EndsWithAny` | server/main.py:49 | `endswith` of a tuple holds iff the name ends in some member of the tuple. |
| `Routing.SuffixesDisjoint` | server/main.py:49-68 | No name ends in both an image suffix and a volume suffix, so the order of the two branch tests does not matter. |
| `Routing.RouteUpload` | server/main.py:47-106 | After lower-casing, the image branch is taken iff the name ends `.png`, `.jpg` or `.jpeg`. The volume branch is taken iff it ends `.nii` or `.nii.gz`. Within the volume branch, the temp path is `temp_input.nii.gz` iff the name ends `.nii.gz`, else `temp_input.nii`. Every other name is rejected with status 400 and "Invalid file type". |
| `Routing.TempPath` | server/main.py:71-74 | The temp path ends in `.nii.gz` iff the name does. It ends in `.nii` iff the name does not end in `.nii.gz`. |
| `Routing.TempPathKeepsSuffix` | server/main.py:71-74 | For a volume name, the temp path ends in `.nii` iff the lower-cased name does, and it ends in `.nii.gz` iff the name does. So the loader sees a compressed upload as compressed and a plain one as plain. |
| `Routing.RouteIgnoresCase` | server/main.py:47 | A name routes exactly like its lower-cased form. |
| `Routing.PlainVolumeRoute` | server/main.py:68-74 | A name ending `.nii` after lower-casing takes the volume branch with `temp_input.nii`. |
| `Routing.GzipVolumeRoute` | server/main.py:68-74 | A name ending `.nii.gz` after lower-casing takes the volume branch with `temp_input.nii.gz`. |
| `Routing.RouteUpperGzip` | server/main.py:47-74 | Any name ending in upper-case `.NII.GZ`, such as `Scan.NII.GZ`, takes the volume branch with `temp_input.nii.gz`. |
| `Routing.RouteClientVolume` | server/test.py:5 | The client script's upload, `volume-0.nii`, takes the volume branch with `temp_input.nii`. |
| `Routing.MiddleSliceIndex` | server/main.py:82 | The index k = `depth // 2` satisfies 2k ≤ depth ≤ 2k+1, so slices before and after it balance. It is a valid index whenever depth ≥ 1. |
| `Routing.MiddleSliceUnique` | server/main.py:82 | The balance property 2k ≤ depth ≤ 2k+1 determines the middle index. |
| `Endpoint.MiddleSlice` | server/main.py:82 | For a volume with at least one slice, the result is a fresh array with the volume's first two dimensions and equals `vol[:, :, depth // 2]` entry by entry. |
| `Endpoint.PredictSlice` | server/main.py:44-106 | For an image name, the answer is the 0/255 disc mask of the image's shape plus the image painted red exactly on the disc. For a volume name, the answer is a server error when the volume has no slice or an empty slice. Otherwise it is the middle slice plus the 0/255 disc mask of the slice's shape, independent of the voxel values. For any other name, the answer is a 400 error with "Invalid file type". Every array in an answer is freshly allocated. |

## Left out

- The FastAPI application, the async endpoint and reading the upload are request handling and I/O. The model takes the file name, the decoded image and the loaded volume as parameters.
- Loading the torch model at import is left out because it is a foreign call whose result is never used.
- Decoding with PIL (including `convert("RGB")`) and loading with nibabel are library calls, and so are their failures. Writing the temporary file is left out too: the model states only which temp path is chosen.
- Encoding the answer as PNG, base64 and JSON is left out because these are thin library wrappers. The answer carries the arrays that would be encoded.
- Endpoint.PredictSlice: the volume answer's `image` is the raw middle slice. The min-max normalisation to 8 bits and its `1e-6` degenerate-range test are floating point and are not modelled. The mask does not depend on them, because `run_model` reads only the shape.
- Endpoint.MiddleSlice: numpy returns a view of the volume; the model returns a copy. Nothing writes to either, so the aliasing is not observable.
- Routing.Lower: only ASCII letters are lower-cased. Python's `str.lower()` also maps non-ASCII characters, which cannot affect the ASCII suffix tests except for exotic case mappings.
- A missing file name (`None`) is not modelled, because the file name is a `string`.
- Volumes with other than three dimensions are not modelled; the loaded volume is an `array3`.
- `server/test.py` is a network client script, an HTTP POST followed by file writes. Only its upload name is used, in `Routing.RouteClientVolume`.
