/**
  The converter's click handler: for each selected file in order it takes
  the decoded image, computes its placement, starts a new page for every
  file after the first, adds the image, and finally saves the document. The
  first failure aborts the batch before the save.

  The PDF document is abstracted as the sequence of commands sent to it, and
  the decoding of each file (FileReader and Image, both asynchronous) as an
  input: its pixel size and data URL, or the error it was rejected with.
*/
module Conversion {
  import opened Wrappers
  import Layout
  import DataUrl

  /** What the decoders yield for one selected file. */
  datatype Decoded =
    | Decoded(width: real, height: real, dataUrl: string)
    | DecodeError(message: string)

  /** A call on the PDF document. */
  datatype Command =
    | AddPage
    | AddImage(data: string, format: string, placement: Layout.Rect)
    | Save(fileName: string)

  /** Why a batch stopped: a file could not be decoded, or its MIME type gave no format name. */
  datatype Failure = Unreadable(message: string) | NoFormatName(mimeType: string)

  /** How one click ends: nothing selected, the document saved, or aborted at a file. */
  datatype Outcome = NothingSelected | Saved | Failed(index: nat, failure: Failure)

  /** The name under which the document is saved. */
  const OutputFileName: string := "converted_images.pdf"

  /** The batch after some files: still running, or stopped at a file with the commands sent so far. */
  datatype Run = Running(trace: seq<Command>) | Aborted(trace: seq<Command>, index: nat, failure: Failure)

  /** The page is larger than both margins on each axis. */
  predicate PageFits(pageWidth: real, pageHeight: real)
  {
    pageWidth > 2.0 * Layout.PageMargin && pageHeight > 2.0 * Layout.PageMargin
  }

  /** Every successfully decoded file has a positive pixel size. */
  predicate SizesPositive(files: seq<Decoded>)
  {
    forall i :: 0 <= i < |files| ==> (files[i].Decoded? ==> files[i].width > 0.0 && files[i].height > 0.0)
  }

  /** A file that goes through one loop iteration without throwing: it decoded, and its MIME type holds a '/'. */
  predicate Convertible(file: Decoded)
  {
    file.Decoded? && '/' in DataUrl.ImageTypeFromDataUrl(file.dataUrl)
  }

  /** The AddImage command sent for a convertible file. */
  function ImageCommand(file: Decoded, mode: Layout.FitMode, pageWidth: real, pageHeight: real): Command
    requires Convertible(file) && file.width > 0.0 && file.height > 0.0 && PageFits(pageWidth, pageHeight)
  {
    DataUrl.FormatNameMissing(DataUrl.ImageTypeFromDataUrl(file.dataUrl));
    AddImage(file.dataUrl, DataUrl.FormatName(DataUrl.ImageTypeFromDataUrl(file.dataUrl)).value,
             Layout.Placement(file.width, file.height, pageWidth, pageHeight, Layout.PageMargin, mode))
  }

  /**
    One iteration of the loop on file i. The format name is evaluated as an
    argument of addImage, after addPage, so a missing format name aborts with
    the new page already added.
  */
  function Step(run: Run, i: nat, file: Decoded, mode: Layout.FitMode, pageWidth: real, pageHeight: real): Run
    requires file.Decoded? ==> file.width > 0.0 && file.height > 0.0
    requires PageFits(pageWidth, pageHeight)
  {
    match run
    case Aborted(_, _, _) => run
    case Running(trace) =>
      match file
      case DecodeError(message) => Aborted(trace, i, Unreadable(message))
      case Decoded(width, height, dataUrl) =>
        var placement := Layout.Placement(width, height, pageWidth, pageHeight, Layout.PageMargin, mode);
        var paged := if i > 0 then trace + [AddPage] else trace;
        var mimeType := DataUrl.ImageTypeFromDataUrl(dataUrl);
        match DataUrl.FormatName(mimeType)
        case None => Aborted(paged, i, NoFormatName(mimeType))
        case Some(format) => Running(paged + [AddImage(dataUrl, format, placement)])
  }

  /** The batch after the first n files. */
  function RunFiles(files: seq<Decoded>, n: nat, mode: Layout.FitMode, pageWidth: real, pageHeight: real): Run
    requires n <= |files| && SizesPositive(files) && PageFits(pageWidth, pageHeight)
  {
    if n == 0 then Running([])
    else Step(RunFiles(files, n - 1, mode, pageWidth, pageHeight), n - 1, files[n - 1], mode, pageWidth, pageHeight)
  }

  /** The commands sent and the outcome of one click on the convert button. */
  function Conversion(files: seq<Decoded>, imageFit: string, pageWidth: real, pageHeight: real): (seq<Command>, Outcome)
    requires SizesPositive(files) && PageFits(pageWidth, pageHeight)
  {
    if |files| == 0 then ([], NothingSelected)
    else
      match RunFiles(files, |files|, Layout.FitModeOf(imageFit), pageWidth, pageHeight)
      case Running(trace) => (trace + [Save(OutputFileName)], Saved)
      case Aborted(trace, i, failure) => (trace, Failed(i, failure))
  }

  /**
    The click handler: the loop over the selected files, sending commands to
    the document. Each iteration of the loop body does what Step specifies.
  */
  method Convert(files: seq<Decoded>, imageFit: string, pageWidth: real, pageHeight: real)
    returns (trace: seq<Command>, outcome: Outcome)
    requires SizesPositive(files) && PageFits(pageWidth, pageHeight)
    ensures (trace, outcome) == Conversion(files, imageFit, pageWidth, pageHeight)
  {
    if |files| == 0 {
      return [], NothingSelected;
    }
    var mode := Layout.FitModeOf(imageFit);
    trace := [];
    for i := 0 to |files|
      invariant RunFiles(files, i, mode, pageWidth, pageHeight) == Running(trace)
    {
      match files[i]
      case DecodeError(message) =>
        outcome := Failed(i, Unreadable(message));
        AbortedStaysAborted(files, i + 1, |files|, mode, pageWidth, pageHeight);
        return;
      case Decoded(width, height, dataUrl) =>
        var placement := Layout.Placement(width, height, pageWidth, pageHeight, Layout.PageMargin, mode);
        if i > 0 {
          trace := trace + [AddPage];
        }
        var mimeType := DataUrl.ImageTypeFromDataUrl(dataUrl);
        var format := DataUrl.FormatName(mimeType);
        if format.None? {
          outcome := Failed(i, NoFormatName(mimeType));
          AbortedStaysAborted(files, i + 1, |files|, mode, pageWidth, pageHeight);
          return;
        }
        trace := trace + [AddImage(dataUrl, format.value, placement)];
    }
    trace := trace + [Save(OutputFileName)];
    outcome := Saved;
  }

  /** Once a file has aborted the batch, later files change nothing. */
  lemma {:induction false} AbortedStaysAborted(files: seq<Decoded>, k: nat, n: nat, mode: Layout.FitMode,
                                               pageWidth: real, pageHeight: real)
    requires k <= n <= |files| && SizesPositive(files) && PageFits(pageWidth, pageHeight)
    requires RunFiles(files, k, mode, pageWidth, pageHeight).Aborted?
    ensures RunFiles(files, n, mode, pageWidth, pageHeight) == RunFiles(files, k, mode, pageWidth, pageHeight)
    decreases n - k
  {
    if k < n {
      AbortedStaysAborted(files, k, n - 1, mode, pageWidth, pageHeight);
    }
  }

  // ---------------------------------------------------------------------------
  // What the click handler promises.

  /** The kinds of command, for counting. */
  datatype Kind = PageKind | ImageKind | SaveKind

  function KindOf(c: Command): Kind
  {
    match c
    case AddPage => PageKind
    case AddImage(_, _, _) => ImageKind
    case Save(_) => SaveKind
  }

  /** The number of commands of one kind in a trace. */
  function Count(trace: seq<Command>, kind: Kind): nat
  {
    if |trace| == 0 then 0
    else Count(trace[..|trace| - 1], kind) + (if KindOf(trace[|trace| - 1]) == kind then 1 else 0)
  }

  lemma CountAppend(trace: seq<Command>, c: Command, kind: Kind)
    ensures Count(trace + [c], kind) == Count(trace, kind) + (if KindOf(c) == kind then 1 else 0)
  {
  }

  /**
    The commands for a run of added images: the first image on the page the
    document starts with, and a new page before each later one.
  */
  function Paginate(images: seq<Command>): seq<Command>
  {
    if |images| <= 1 then images
    else Paginate(images[..|images| - 1]) + [AddPage, images[|images| - 1]]
  }

  /** The images of the first n files, in selection order. */
  function ImageCommands(files: seq<Decoded>, n: nat, mode: Layout.FitMode, pageWidth: real, pageHeight: real)
    : (images: seq<Command>)
    requires n <= |files| && SizesPositive(files) && PageFits(pageWidth, pageHeight)
    requires forall i :: 0 <= i < n ==> Convertible(files[i])
    ensures |images| == n
    ensures forall k :: 0 <= k < n ==> images[k].AddImage?
  {
    if n == 0 then []
    else ImageCommands(files, n - 1, mode, pageWidth, pageHeight) + [ImageCommand(files[n - 1], mode, pageWidth, pageHeight)]
  }

  /** Element k of the image list is the AddImage command of file k. */
  lemma {:induction false} ImageCommandsAt(files: seq<Decoded>, n: nat, k: nat, mode: Layout.FitMode,
                                           pageWidth: real, pageHeight: real)
    requires n <= |files| && SizesPositive(files) && PageFits(pageWidth, pageHeight)
    requires forall i :: 0 <= i < n ==> Convertible(files[i])
    requires k < n
    ensures ImageCommands(files, n, mode, pageWidth, pageHeight)[k] == ImageCommand(files[k], mode, pageWidth, pageHeight)
  {
    var prev := ImageCommands(files, n - 1, mode, pageWidth, pageHeight);
    assert ImageCommands(files, n, mode, pageWidth, pageHeight)
           == prev + [ImageCommand(files[n - 1], mode, pageWidth, pageHeight)];
    if k < n - 1 {
      ImageCommandsAt(files, n - 1, k, mode, pageWidth, pageHeight);
    }
  }

  /**
    Where everything lands in a paginated trace: image 0 first, then for each
    later image k an AddPage at 2k-1 and the image at 2k; one AddPage fewer
    than images, and no Save.
  */
  lemma {:induction false} PaginateLayout(images: seq<Command>)
    requires forall k :: 0 <= k < |images| ==> images[k].AddImage?
    ensures var trace := Paginate(images);
            && |trace| == (if |images| == 0 then 0 else 2 * |images| - 1)
            && (|images| > 0 ==> trace[0] == images[0])
            && (forall k :: 1 <= k < |images| ==> trace[2 * k - 1] == AddPage && trace[2 * k] == images[k])
            && Count(trace, ImageKind) == |images|
            && Count(trace, PageKind) == (if |images| == 0 then 0 else |images| - 1)
            && Count(trace, SaveKind) == 0
    decreases |images|
  {
    if |images| == 1 {
      assert Paginate(images)[..0] == [];
    } else if |images| > 1 {
      var n := |images|;
      var init := images[..n - 1];
      PaginateLayout(init);
      var before := Paginate(init);
      assert Paginate(images) == before + [AddPage] + [images[n - 1]];
      CountAppend(before, AddPage, ImageKind);
      CountAppend(before, AddPage, PageKind);
      CountAppend(before, AddPage, SaveKind);
      CountAppend(before + [AddPage], images[n - 1], ImageKind);
      CountAppend(before + [AddPage], images[n - 1], PageKind);
      CountAppend(before + [AddPage], images[n - 1], SaveKind);
    }
  }

  /** While every file so far converts, the batch is still running and has paginated their images. */
  lemma {:induction false} RunFilesAllConvertible(files: seq<Decoded>, n: nat, mode: Layout.FitMode,
                                                  pageWidth: real, pageHeight: real)
    requires n <= |files| && SizesPositive(files) && PageFits(pageWidth, pageHeight)
    requires forall i :: 0 <= i < n ==> Convertible(files[i])
    ensures RunFiles(files, n, mode, pageWidth, pageHeight)
            == Running(Paginate(ImageCommands(files, n, mode, pageWidth, pageHeight)))
  {
    if n > 0 {
      RunFilesAllConvertible(files, n - 1, mode, pageWidth, pageHeight);
      var prev := ImageCommands(files, n - 1, mode, pageWidth, pageHeight);
      var image := ImageCommand(files[n - 1], mode, pageWidth, pageHeight);
      DataUrl.FormatNameMissing(DataUrl.ImageTypeFromDataUrl(files[n - 1].dataUrl));
      var images := ImageCommands(files, n, mode, pageWidth, pageHeight);
      assert images == prev + [image];
      assert images[..n - 1] == prev;
      var trace := Paginate(prev);
      var paged := if n - 1 > 0 then trace + [AddPage] else trace;
      assert Paginate(images) == paged + [image];
      assert Step(Running(trace), n - 1, files[n - 1], mode, pageWidth, pageHeight) == Running(paged + [image]);
    }
  }

  /**
    When every selected file converts, the document gets one page per file
    in selection order (an AddPage before every image but the first) and is
    saved once, at the end.
  */
  lemma ConversionSucceeds(files: seq<Decoded>, imageFit: string, pageWidth: real, pageHeight: real)
    requires SizesPositive(files) && PageFits(pageWidth, pageHeight)
    requires |files| > 0 && forall i :: 0 <= i < |files| ==> Convertible(files[i])
    ensures var (trace, outcome) := Conversion(files, imageFit, pageWidth, pageHeight);
            var mode, n := Layout.FitModeOf(imageFit), |files|;
            && outcome == Saved
            && |trace| == 2 * n
            && trace[0] == ImageCommand(files[0], mode, pageWidth, pageHeight)
            && (forall k :: 1 <= k < n ==>
                  trace[2 * k - 1] == AddPage && trace[2 * k] == ImageCommand(files[k], mode, pageWidth, pageHeight))
            && trace[2 * n - 1] == Save(OutputFileName)
            && Count(trace, ImageKind) == n && Count(trace, PageKind) == n - 1 && Count(trace, SaveKind) == 1
  {
    var mode := Layout.FitModeOf(imageFit);
    var images := ImageCommands(files, |files|, mode, pageWidth, pageHeight);
    RunFilesAllConvertible(files, |files|, mode, pageWidth, pageHeight);
    SavedLayout(images);
    forall k | 0 <= k < |files|
      ensures images[k] == ImageCommand(files[k], mode, pageWidth, pageHeight)
    {
      ImageCommandsAt(files, |files|, k, mode, pageWidth, pageHeight);
    }
  }

  /** A paginated run of images followed by the save: where each command lands, and how many of each kind. */
  lemma SavedLayout(images: seq<Command>)
    requires |images| > 0 && forall k :: 0 <= k < |images| ==> images[k].AddImage?
    ensures var trace, n := Paginate(images) + [Save(OutputFileName)], |images|;
            && |trace| == 2 * n
            && trace[0] == images[0]
            && (forall k :: 1 <= k < n ==> trace[2 * k - 1] == AddPage && trace[2 * k] == images[k])
            && trace[2 * n - 1] == Save(OutputFileName)
            && Count(trace, ImageKind) == n && Count(trace, PageKind) == n - 1 && Count(trace, SaveKind) == 1
  {
    var before := Paginate(images);
    PaginateLayout(images);
    CountAppend(before, Save(OutputFileName), ImageKind);
    CountAppend(before, Save(OutputFileName), PageKind);
    CountAppend(before, Save(OutputFileName), SaveKind);
  }

  /**
    When file j is the first that does not convert, the batch aborts there
    without saving: the trace holds the images of the files before j, plus
    the AddPage already sent for j when only its format name was missing.
  */
  lemma ConversionFailsAtFirstBadFile(files: seq<Decoded>, imageFit: string, pageWidth: real, pageHeight: real,
                                      j: nat)
    requires SizesPositive(files) && PageFits(pageWidth, pageHeight)
    requires j < |files| && !Convertible(files[j]) && forall i :: 0 <= i < j ==> Convertible(files[i])
    ensures var (trace, outcome) := Conversion(files, imageFit, pageWidth, pageHeight);
            var before := Paginate(ImageCommands(files, j, Layout.FitModeOf(imageFit), pageWidth, pageHeight));
            && outcome == Failed(j, FailureOf(files[j]))
            && trace == (if files[j].Decoded? && j > 0 then before + [AddPage] else before)
            && Count(trace, ImageKind) == j
            && Count(trace, SaveKind) == 0
  {
    var mode := Layout.FitModeOf(imageFit);
    var before := Paginate(ImageCommands(files, j, mode, pageWidth, pageHeight));
    RunFilesFirstBadFile(files, j, mode, pageWidth, pageHeight);
    PaginateLayout(ImageCommands(files, j, mode, pageWidth, pageHeight));
    CountAppend(before, AddPage, ImageKind);
    CountAppend(before, AddPage, SaveKind);
  }

  /** The run over all files stops at the first file that does not convert. */
  lemma RunFilesFirstBadFile(files: seq<Decoded>, j: nat, mode: Layout.FitMode, pageWidth: real, pageHeight: real)
    requires SizesPositive(files) && PageFits(pageWidth, pageHeight)
    requires j < |files| && !Convertible(files[j]) && forall i :: 0 <= i < j ==> Convertible(files[i])
    ensures var before := Paginate(ImageCommands(files, j, mode, pageWidth, pageHeight));
            RunFiles(files, |files|, mode, pageWidth, pageHeight)
            == Aborted(if files[j].Decoded? && j > 0 then before + [AddPage] else before, j, FailureOf(files[j]))
  {
    RunFilesAllConvertible(files, j, mode, pageWidth, pageHeight);
    var before := Paginate(ImageCommands(files, j, mode, pageWidth, pageHeight));
    StepOnBadFile(before, j, files[j], mode, pageWidth, pageHeight);
    AbortedStaysAborted(files, j + 1, |files|, mode, pageWidth, pageHeight);
  }

  /** A file that does not convert stops a running batch, after the AddPage when it decoded. */
  lemma StepOnBadFile(trace: seq<Command>, i: nat, file: Decoded, mode: Layout.FitMode,
                      pageWidth: real, pageHeight: real)
    requires (file.Decoded? ==> file.width > 0.0 && file.height > 0.0) && PageFits(pageWidth, pageHeight)
    requires !Convertible(file)
    ensures Step(Running(trace), i, file, mode, pageWidth, pageHeight)
            == Aborted(if file.Decoded? && i > 0 then trace + [AddPage] else trace, i, FailureOf(file))
  {
    if file.Decoded? {
      DataUrl.FormatNameMissing(DataUrl.ImageTypeFromDataUrl(file.dataUrl));
    }
  }

  /** What stops the batch at a file that does not convert. */
  function FailureOf(file: Decoded): Failure
  {
    match file
    case DecodeError(message) => Unreadable(message)
    case Decoded(_, _, dataUrl) => NoFormatName(DataUrl.ImageTypeFromDataUrl(dataUrl))
  }

  /**
    The document is saved exactly when at least one file is selected and
    every selected file converts; the click does nothing exactly when no
    file is selected.
  */
  lemma SavedExactlyWhenAllConvert(files: seq<Decoded>, imageFit: string, pageWidth: real, pageHeight: real)
    requires SizesPositive(files) && PageFits(pageWidth, pageHeight)
    ensures var outcome := Conversion(files, imageFit, pageWidth, pageHeight).1;
            && (outcome == Saved <==> |files| > 0 && forall i :: 0 <= i < |files| ==> Convertible(files[i]))
            && (outcome == NothingSelected <==> |files| == 0)
  {
    if |files| > 0 {
      if forall i :: 0 <= i < |files| ==> Convertible(files[i]) {
        ConversionSucceeds(files, imageFit, pageWidth, pageHeight);
      } else {
        var j := FirstBadFile(files);
        ConversionFailsAtFirstBadFile(files, imageFit, pageWidth, pageHeight, j);
      }
    }
  }

  /** The index of the first file that does not convert. */
  function FirstBadFile(files: seq<Decoded>): (j: nat)
    requires exists i :: 0 <= i < |files| && !Convertible(files[i])
    ensures j < |files| && !Convertible(files[j]) && forall i :: 0 <= i < j ==> Convertible(files[i])
  {
    if !Convertible(files[0]) then 0
    else
      assert exists i :: 0 <= i < |files[1..]| && !Convertible(files[1..][i]) by {
        var i :| 0 <= i < |files| && !Convertible(files[i]);
        assert files[1..][i - 1] == files[i];
      }
      FirstBadFile(files[1..]) + 1
  }
}
