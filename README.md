# Image-to-PDF converter: layout, format detection and conversion loop

The converter is a browser page. The user selects images, chooses a page
size, an orientation and a fit mode ("contain" or "cover"), and clicks
convert. For each image in turn, the click handler in `script.js`:

- decodes the image;
- computes where to draw it, inside a 20-point margin;
- starts a new page for every image after the first;
- hands the image to the PDF writer with a format name taken from its data URL.

At the end it saves `converted_images.pdf`. The first error aborts the batch
before the save.

The project has four modules:

- `Layout` (`layout.dfy`) is the placement calculator as a pure function over
  exact reals. Its lemmas prove:
  - the aspect ratio is kept;
  - contain fits inside the box and cover fills it;
  - both are centred, and the cover image sits flush with the margin on one axis;
  - which branch a tie takes makes no difference.

  Each mode is also tied to an independent reference: scaling by the smaller
  (contain) or the larger (cover) of the two box-to-image ratios. Those
  scales are shown to be the largest that fits and the smallest that fills.
- `DataUrl` (`data_url.dfy`) reads the MIME type out of a data URL and forms
  the format name. The JavaScript edge cases the code meets are modelled:
  `indexOf` yields −1 for an absent character, `substring` clamps and swaps
  its bounds, and element 1 of a `split` without a separator is undefined,
  so `toUpperCase` throws. `toUpperCase` itself maps ASCII letters only.
  `split` is proved inverse to joining.
- `Conversion` (`conversion.dfy`) is the click handler's loop, written as a
  method. It appends the commands sent to the PDF document (AddPage,
  AddImage, Save) to a trace. The method is proved equal to a step-by-step
  specification function. Lemmas about that function give:
  - the exact shape and counts of the trace when every file converts;
  - the trace when the batch aborts at the first failing file;
  - the document is saved exactly when every selected file converts.
- `Wrappers` (`wrappers.dfy`) holds the stock `Option` type.

For an 800×600 image on a 595×842 page (A4 portrait rounded to whole points) in
contain mode the code computes
y = 20 + (802 − 416.25) / 2 = 212.875 (`Layout.ExampleContainA4`).

## Model

| member | source | states |
|---|---|---|
| Layout.FitModeOf | script.js:89-103 | the fit selector's value "contain" selects contain mode; every other value takes the cover branch |
| Layout.Placement | script.js:79-117 | requires ValidGeometry (positive image size, page larger than both margins); the rectangle the two branches of each fit mode compute, choosing the branch by the strict comparisons of lines 90 and 104; its properties are the Layout lemmas below |
| Layout.ContainIsMinScale | script.js:79-101 | contain places the image scaled by the smaller of available-width/width and available-height/height, centred in the box inside the margins |
| Layout.CoverIsMaxScale | script.js:103-117 | cover places the image scaled by the larger of the two ratios, centred in the box (the overflow split evenly on both sides) |
| Layout.PlacementKeepsAspectRatio | script.js:83-117 | in both modes the placed width and height are positive and in the image's width:height ratio |
| Layout.ContainFitsBox | script.js:89-101 | contain stays inside the box (and so inside the page margins) on both axes and touches the box on at least one axis |
| Layout.CoverFillsBox | script.js:103-117 | cover is at least as large as the box on both axes and equals it on at least one axis |
| Layout.PlacementIsCentred | script.js:99-117 | in both modes the centre of the placed image is the centre of the box |
| Layout.CoverEdgeOnMargin | script.js:104-116 | in cover mode either x or y equals the margin |
| Layout.ContainIsLargestFit | script.js:89-98 | no uniform scale that fits the box gives a larger image than contain does |
| Layout.CoverIsSmallestFill | script.js:103-113 | no uniform scale that fills the box gives a smaller image than cover does |
| Layout.TieBreakImmaterial | script.js:90-116 | when the image and the box have the same proportions, both branches of each strict comparison give the whole box, so contain and cover agree |
| Layout.ExampleContainA4 | script.js:79-101 | 800×600 on 595×842, contain: width 555, height 416.25, x 20, y 212.875 |
| Layout.ExampleCoverA4 | script.js:103-117 | 800×600 on 595×842, cover: height 802, width 3208/3, y 20, x −1423/6 |
| Layout.ExampleSquareA4 | script.js:79-101 | 500×500 on 595×842, contain: 555×555 at (20, 143.5) |
| DataUrl.IndexOf | script.js:168 | s.indexOf(c): an index from −1 up to the length of s minus one; characterised by DataUrl.IndexOfFindsFirst |
| DataUrl.Substring | script.js:168 | s.substring(start, end): both bounds clamped into 0 up to the length of s and swapped when start exceeds end |
| DataUrl.ImageTypeFromDataUrl | script.js:166-169 | no requires; the substring from just after the first ':' to the first ';', on every input; its cases are the DataUrl.ImageType lemmas below |
| DataUrl.Split | script.js:123 | s.split(sep) for a one-character separator: at least one part, the runs between separators in order; characterised by SplitCount, SplitPartsFree, JoinSplit and SplitJoin |
| DataUrl.FormatName | script.js:123 | no requires; mimeType.split('/')[1] upper-cased, or None for the TypeError when there is no element 1; characterised by FormatNameMissing and FormatNameOfMimeType |
| DataUrl.IndexOfFindsFirst | script.js:168 | indexOf gives −1 exactly when the character is absent, and otherwise an index holding it with no earlier occurrence |
| DataUrl.ImageTypeOfWellFormedUrl | script.js:166-169 | for scheme:type;rest, whose scheme holds neither ':' nor ';' and whose type holds no ';', the result is exactly type |
| DataUrl.ImageTypeWithoutSemicolon | script.js:168 | with a ':' but no ';', substring swaps its bounds and returns the prefix through the first ':' |
| DataUrl.ImageTypeWithoutColon | script.js:168 | with no ':', the result is the prefix before the first ';', or empty when there is no ';' either |
| DataUrl.ImageTypeWithSemicolonFirst | script.js:168 | when the first ';' precedes the first ':', the result runs from that ';' through that ':' |
| DataUrl.SplitCount | script.js:123 | split yields more than one part exactly when the separator occurs |
| DataUrl.SplitPartsFree | script.js:123 | no part of a split contains the separator |
| DataUrl.JoinSplit | script.js:123 | joining the parts of a split with the separator rebuilds the string |
| DataUrl.SplitJoin | script.js:123 | splitting a join of separator-free parts gives the same parts back |
| DataUrl.ToUpperCase | script.js:123 | the result has the input's length and upper-cases each ASCII letter in place |
| DataUrl.FormatNameOfMimeType | script.js:123 | the format name of type/subtype is the upper-cased subtype |
| DataUrl.FormatNameMissing | script.js:123 | the format name is missing (JavaScript throws a TypeError) exactly when the MIME type holds no '/' |
| DataUrl.FormatNameOfDataUrl | script.js:123 | a data URL data:type/subtype;rest yields the format name of the upper-cased subtype |
| DataUrl.ExamplePngType | script.js:166-169 | data:image/png;base64,… gives image/png |
| DataUrl.ExamplePngFormat | script.js:123 | image/png gives PNG |
| Conversion.Step | script.js:71-123 | one loop iteration on file i of a running batch: abort with Unreadable on a decode error; otherwise add a page when i > 0, then abort with NoFormatName or add the image at its placement; an aborted batch is unchanged |
| Conversion.RunFiles | script.js:70-124 | requires positive decoded sizes and a page larger than the margins; the batch after the first n files, Step applied file by file in selection order |
| Conversion.Conversion | script.js:50-133 | no files: no commands and NothingSelected; otherwise the run over all files, followed by Save("converted_images.pdf") and Saved when it is still running, or its commands and Failed at the aborting file |
| Conversion.Convert | script.js:50-133 | the click handler's loop sends exactly the commands, and ends with exactly the outcome, that the step-by-step specification gives |
| Conversion.AbortedStaysAborted | script.js:70-130 | once a file has thrown, no later file sends a command |
| Conversion.ImageCommandsAt | script.js:70-123 | the k-th AddImage of a successful run is the one built from file k |
| Conversion.PaginateLayout | script.js:120-123 | with n images the commands number 2n−1: image 0 first, then AddPage at 2k−1 and image k at 2k; n AddImages, n−1 AddPages, no Save |
| Conversion.RunFilesAllConvertible | script.js:70-124 | while every file so far converts, the loop is still running and has sent exactly the paginated images of those files |
| Conversion.ConversionSucceeds | script.js:70-126 | when every file converts: outcome Saved, 2n commands, image k at 2k in selection order with an AddPage before each image but the first, a single Save last; counts n, n−1 and 1 |
| Conversion.ConversionFailsAtFirstBadFile | script.js:70-133 | at the first file j that does not convert: outcome Failed at j with its reason; the commands are the images of files 0..j−1, plus the AddPage for j when j decoded and j > 0; j AddImages, no Save |
| Conversion.RunFilesFirstBadFile | script.js:70-124 | the loop over all files stops at the first that does not convert, with the commands sent so far |
| Conversion.StepOnBadFile | script.js:71-123 | a file that does not decode aborts before addPage; a decoded file without a format name aborts after it |
| Conversion.SavedExactlyWhenAllConvert | script.js:50-133 | the document is saved iff at least one file is selected and every file converts; nothing happens iff no file is selected |

## Left out

- The check that jsPDF has loaded (script.js:14-18) is not modelled; the model assumes the library is present.
- The DOM is not modelled: selectors, buttons, the file list, status messages and their colours, and re-enabling the button. The page size, the fit value and the files are parameters.
- File decoding is an input, not modelled. `readFileAsDataURL` and `getImageProperties` (FileReader and Image, both asynchronous) appear only as a per-file `Decoded` value: a pixel size and data URL, or a decode error.
- jsPDF is not modelled. The document is the trace of commands sent to it, and page sizes for each format and orientation are a parameter. Errors jsPDF itself might raise inside `addImage` or `save` (an unsupported format name, say) are not modelled.
- Numbers are exact reals, not IEEE-754 doubles. Placement results therefore carry no rounding.
- Layout.Placement: requires a positive image size and a page larger than both margins. On other inputs the JavaScript computes NaN, Infinity, or a zero- or negative-size rectangle, without throwing, and those results are not modelled.
- DataUrl.ToUpperCase: upper-cases ASCII letters only. JavaScript's full Unicode case mapping is not modelled.
- Conversion.Convert: takes the selection as fixed for the whole click. The source re-reads `selectedFiles` on every iteration (script.js:70-71), and the change handler (script.js:22) may replace it while the loop waits on decoding (script.js:72-73); a loop that continues over a newly selected array is not modelled.
- Conversion.Convert: excludes decoded images whose width or height is 0 (`SizesPositive`), which the source accepts (script.js:153-154) and places with NaN, Infinity or zero sizes.
- Conversion.Convert: the error message shown for a failure is not modelled. The outcome records which file failed and why (decode error or missing format name).
