/**
  One file's conversion. `extract_thumbnail` opens the RAW file and writes its
  embedded thumbnail (JPEG bytes as they are, a bitmap through the image
  encoder, any other format not at all); when the decoder reports no thumbnail
  or an unsupported one it falls back to `convert_raw_to_jpg`, which skips an
  output that already exists and otherwise writes the fully decoded image.
  Every other decoder error propagates to the caller.

  The RAW decoder is a map from a path to what the decoder reports for that
  file; a path it cannot open is absent. The disk is a map from path to content.
*/
module Conversion {

  import opened Wrappers
  import opened PosixPath
  import opened OutputPaths

  newtype byte = b: int | 0 <= b < 256

  type Bytes = seq<byte>

  /**
    What a written file holds: bytes written as they are (`f.write`), or the JPEG
    encoding of an image buffer (`imageio.imwrite` to a ".jpg" name), kept symbolic.
  */
  datatype FileContent = Verbatim(bytes: Bytes) | JpegEncoded(image: Bytes)

  type Files = map<Path, FileContent>

  datatype ThumbFormat = JPEG | BITMAP | OtherFormat

  /** What `raw.extract_thumb()` yields or raises. */
  datatype ThumbResult =
    | Thumb(format: ThumbFormat, data: Bytes)
    | NoThumbnail                     // LibRawNoThumbnailError
    | UnsupportedThumbnail            // LibRawUnsupportedThumbnailError
    | ThumbError(reason: string)      // any other error

  /** What `raw.postprocess()` yields or raises. */
  datatype PostprocessResult = Rgb(pixels: Bytes) | PostprocessError(reason: string)

  /** What the decoder reports for one RAW file. */
  datatype RawImage = RawImage(thumb: ThumbResult, postprocess: PostprocessResult)

  /** The files `rawpy.imread` can open, with what each one decodes to. */
  type Decoder = map<Path, RawImage>

  /** An exception that leaves `extract_thumbnail`. */
  datatype Failure =
    | CannotOpen(path: Path)
    | ThumbnailFailure(path: Path, reason: string)
    | PostprocessFailure(path: Path, reason: string)

  /** The outcome a successful call logs. */
  datatype Report =
    | ThumbnailExtracted(thumbPath: Path)
    | Converted(outputPath: Path)
    | AlreadyConverted(outputPath: Path)

  datatype Step = Step(files: Files, report: Report)

  /** A source together with the two paths its conversion may write. */
  datatype Target = Target(source: Path, thumbPath: Path, outputPath: Path)

  /** The paths `extract_thumbnail` and its fallback derive for `filePath`; they never coincide. */
  function TargetOf(outputFolder: Path, filePath: Path): (t: Target)
    ensures t.source == filePath && t.thumbPath != t.outputPath
  {
    ThumbAndFullPathsDiffer(outputFolder, filePath);
    Target(filePath, ThumbOutputPath(outputFolder, filePath), FullOutputPath(outputFolder, filePath))
  }

  /** `extract_thumbnail` for a target. */
  function TargetStep(files: Files, t: Target, decoder: Decoder): Result<Step, Failure>
  {
    ThumbnailStep(files, t.source, t.thumbPath, t.outputPath, decoder)
  }

  /**
    `convert_raw_to_jpg` on a disk holding `files`, once its output path has been
    derived (`FullOutputPath`).
  */
  function FullConversionStep(files: Files, filePath: Path, outputPath: Path, decoder: Decoder): Result<Step, Failure>
  {
    if outputPath in files then Ok(Step(files, AlreadyConverted(outputPath)))
    else if filePath !in decoder then Err(CannotOpen(filePath))
    else match decoder[filePath].postprocess
      case PostprocessError(reason) => Err(PostprocessFailure(filePath, reason))
      case Rgb(pixels) => Ok(Step(files[outputPath := JpegEncoded(pixels)], Converted(outputPath)))
  }

  /**
    `extract_thumbnail` on a disk holding `files`, once its thumbnail path and the
    fallback's output path have been derived.
  */
  function ThumbnailStep(files: Files, filePath: Path, thumbPath: Path, outputPath: Path, decoder: Decoder): Result<Step, Failure>
  {
    if filePath !in decoder then Err(CannotOpen(filePath))
    else
      match decoder[filePath].thumb
      case Thumb(JPEG, data) => Ok(Step(files[thumbPath := Verbatim(data)], ThumbnailExtracted(thumbPath)))
      case Thumb(BITMAP, data) => Ok(Step(files[thumbPath := JpegEncoded(data)], ThumbnailExtracted(thumbPath)))
      case Thumb(OtherFormat, _) => Ok(Step(files, ThumbnailExtracted(thumbPath)))
      case NoThumbnail => FullConversionStep(files, filePath, outputPath, decoder)
      case UnsupportedThumbnail => FullConversionStep(files, filePath, outputPath, decoder)
      case ThumbError(reason) => Err(ThumbnailFailure(filePath, reason))
  }

  /** The disk after a step: a failed step writes nothing. */
  function FilesAfter(step: Result<Step, Failure>, before: Files): Files
  {
    match step
    case Ok(s) => s.files
    case Err(_) => before
  }

  /** What the caller sees of a step: its report, or the exception. */
  function Outcome(step: Result<Step, Failure>): Result<Report, Failure>
  {
    match step
    case Ok(s) => Ok(s.report)
    case Err(e) => Err(e)
  }

  /**
    `convert_raw_to_jpg` never overwrites: an existing output is left alone and
    reported as already converted; otherwise exactly the output path is added,
    and a failure happens only when the output did not exist.
  */
  lemma FullConversionNeverOverwrites(files: Files, filePath: Path, outputPath: Path, decoder: Decoder)
    ensures match FullConversionStep(files, filePath, outputPath, decoder)
      case Ok(s) =>
        && (forall q :: q in files ==> q in s.files && s.files[q] == files[q])
        && s.files.Keys == files.Keys + {outputPath}
        && (s.report == AlreadyConverted(outputPath) <==> outputPath in files)
        && (s.report == Converted(outputPath) <==> outputPath !in files)
      case Err(_) => outputPath !in files
  {
  }

  /** Running `convert_raw_to_jpg` again on its own result changes nothing and reports a skip. */
  lemma FullConversionIdempotent(files: Files, filePath: Path, outputPath: Path, decoder: Decoder)
    requires FullConversionStep(files, filePath, outputPath, decoder).Ok?
    ensures var s := FullConversionStep(files, filePath, outputPath, decoder).value;
      FullConversionStep(s.files, filePath, outputPath, decoder) == Ok(Step(s.files, AlreadyConverted(outputPath)))
  {
  }

  /**
    Thumbnail first: when the decoder yields a thumbnail, a JPEG is written byte
    for byte, a bitmap is encoded, any other format writes nothing, and the full
    conversion's output is left as it was (the two derived paths always differ).
  */
  lemma ThumbnailFirst(files: Files, filePath: Path, outputFolder: Path, decoder: Decoder)
    requires filePath in decoder && decoder[filePath].thumb.Thumb?
    ensures var thumbPath := ThumbOutputPath(outputFolder, filePath);
      var outputPath := FullOutputPath(outputFolder, filePath);
      var t := decoder[filePath].thumb;
      var r := ThumbnailStep(files, filePath, thumbPath, outputPath, decoder);
      && r.Ok? && r.value.report == ThumbnailExtracted(thumbPath)
      && (t.format == JPEG ==> r.value.files == files[thumbPath := Verbatim(t.data)])
      && (t.format == BITMAP ==> r.value.files == files[thumbPath := JpegEncoded(t.data)])
      && (t.format == OtherFormat ==> r.value.files == files)
      && (outputPath in r.value.files <==> outputPath in files)
      && (outputPath in files ==> r.value.files[outputPath] == files[outputPath])
  {
    ThumbAndFullPathsDiffer(outputFolder, filePath);
    ThumbnailWritesOnlyThumbPath(files, filePath, ThumbOutputPath(outputFolder, filePath),
      FullOutputPath(outputFolder, filePath), decoder);
  }

  /** With a thumbnail, only the thumbnail path can change. */
  lemma ThumbnailWritesOnlyThumbPath(files: Files, filePath: Path, thumbPath: Path, outputPath: Path, decoder: Decoder)
    requires filePath in decoder && decoder[filePath].thumb.Thumb?
    ensures var t := decoder[filePath].thumb;
      var r := ThumbnailStep(files, filePath, thumbPath, outputPath, decoder);
      && r.Ok? && r.value.report == ThumbnailExtracted(thumbPath)
      && (t.format == JPEG ==> r.value.files == files[thumbPath := Verbatim(t.data)])
      && (t.format == BITMAP ==> r.value.files == files[thumbPath := JpegEncoded(t.data)])
      && (t.format == OtherFormat ==> r.value.files == files)
      && (forall q :: q != thumbPath ==> (q in r.value.files <==> q in files))
      && (forall q :: q != thumbPath && q in files ==> r.value.files[q] == files[q])
  {
  }

  /**
    The full conversion runs exactly when the decoder reports no thumbnail or an
    unsupported one: only then does `extract_thumbnail` act as `convert_raw_to_jpg`.
  */
  lemma FallbackExactlyOnNamedErrors(files: Files, filePath: Path, thumbPath: Path, outputPath: Path, decoder: Decoder)
    requires filePath in decoder
    ensures ThumbnailStep(files, filePath, thumbPath, outputPath, decoder) == FullConversionStep(files, filePath, outputPath, decoder)
      <==> decoder[filePath].thumb in {NoThumbnail, UnsupportedThumbnail}
  {
    var full := FullConversionStep(files, filePath, outputPath, decoder);
    assert full.Ok? ==> full.value.report.AlreadyConverted? || full.value.report.Converted?;
    assert full.Err? ==> full.error.PostprocessFailure?;
  }

  /**
    The fallback writes the ".jpg" output, never the "_thumb.jpg" one: with no
    usable thumbnail and a decodable image, exactly the full conversion's path is
    added and the thumbnail path is left as it was.
  */
  lemma FallbackWritesFullOutput(files: Files, filePath: Path, outputFolder: Path, decoder: Decoder)
    requires filePath in decoder && decoder[filePath].thumb in {NoThumbnail, UnsupportedThumbnail}
    requires decoder[filePath].postprocess.Rgb?
    requires FullOutputPath(outputFolder, filePath) !in files
    ensures var thumbPath := ThumbOutputPath(outputFolder, filePath);
      var outputPath := FullOutputPath(outputFolder, filePath);
      var r := ThumbnailStep(files, filePath, thumbPath, outputPath, decoder);
      && r == Ok(Step(files[outputPath := JpegEncoded(decoder[filePath].postprocess.pixels)], Converted(outputPath)))
      && (thumbPath in r.value.files <==> thumbPath in files)
  {
    ThumbAndFullPathsDiffer(outputFolder, filePath);
  }

  /** Any other decoder error leaves `extract_thumbnail` as it is, and nothing is written. */
  lemma OtherErrorsPropagate(files: Files, filePath: Path, thumbPath: Path, outputPath: Path, decoder: Decoder)
    ensures filePath !in decoder ==>
      ThumbnailStep(files, filePath, thumbPath, outputPath, decoder) == Err(CannotOpen(filePath))
    ensures filePath in decoder && decoder[filePath].thumb.ThumbError? ==>
      ThumbnailStep(files, filePath, thumbPath, outputPath, decoder)
        == Err(ThumbnailFailure(filePath, decoder[filePath].thumb.reason))
  {
  }

  /**
    `extract_thumbnail` rewrites its thumbnail unconditionally, but with the same
    content, so running it again on its own result leaves the disk as it is.
  */
  lemma ThumbnailStepIdempotent(files: Files, filePath: Path, thumbPath: Path, outputPath: Path, decoder: Decoder)
    requires ThumbnailStep(files, filePath, thumbPath, outputPath, decoder).Ok?
    ensures var s := ThumbnailStep(files, filePath, thumbPath, outputPath, decoder).value;
      var again := ThumbnailStep(s.files, filePath, thumbPath, outputPath, decoder);
      again.Ok? && again.value.files == s.files
  {
    var s := ThumbnailStep(files, filePath, thumbPath, outputPath, decoder).value;
    match decoder[filePath].thumb
    case Thumb(JPEG, data) =>
      assert s.files[thumbPath := Verbatim(data)] == s.files;
    case Thumb(BITMAP, data) =>
      assert s.files[thumbPath := JpegEncoded(data)] == s.files;
    case Thumb(OtherFormat, _) =>
    case NoThumbnail =>
      FullConversionIdempotent(files, filePath, outputPath, decoder);
    case UnsupportedThumbnail =>
      FullConversionIdempotent(files, filePath, outputPath, decoder);
  }

  /** The disk the converter writes to, updated in place. */
  class FileSystem {
    var files: Files

    constructor (initial: Files)
      ensures files == initial
    {
      files := initial;
    }

    /** `os.path.exists(path)` */
    predicate Exists(path: Path)
      reads this
    {
      path in files
    }

    /** Create or overwrite one file. */
    method Write(path: Path, content: FileContent)
      modifies this
      ensures files == old(files)[path := content]
    {
      files := files[path := content];
    }
  }

  /** `convert_raw_to_jpg(file_path, output_folder)`: derive the output path, then convert. */
  method ConvertRawToJpg(fs: FileSystem, filePath: Path, outputFolder: Path, decoder: Decoder)
    returns (r: Result<Report, Failure>)
    modifies fs
    ensures var step := FullConversionStep(old(fs.files), filePath, FullOutputPath(outputFolder, filePath), decoder);
      r == Outcome(step) && fs.files == FilesAfter(step, old(fs.files))
  {
    var outputPath := FullOutputPath(outputFolder, filePath);
    r := ConvertRawToJpgAt(fs, filePath, outputPath, decoder);
  }

  /** The body of `convert_raw_to_jpg` once the output path is known. */
  method ConvertRawToJpgAt(fs: FileSystem, filePath: Path, outputPath: Path, decoder: Decoder)
    returns (r: Result<Report, Failure>)
    modifies fs
    ensures var step := FullConversionStep(old(fs.files), filePath, outputPath, decoder);
      r == Outcome(step) && fs.files == FilesAfter(step, old(fs.files))
  {
    if fs.Exists(outputPath) {
      return Ok(AlreadyConverted(outputPath));
    }
    if filePath !in decoder {
      return Err(CannotOpen(filePath));
    }
    match decoder[filePath].postprocess
    case PostprocessError(reason) =>
      r := Err(PostprocessFailure(filePath, reason));
    case Rgb(pixels) =>
      fs.Write(outputPath, JpegEncoded(pixels));
      r := Ok(Converted(outputPath));
  }

  /**
    `extract_thumbnail(file_path, output_folder)`: derive the thumbnail path (and
    the path its fallback converts to), then extract.
  */
  method ExtractThumbnail(fs: FileSystem, filePath: Path, outputFolder: Path, decoder: Decoder)
    returns (r: Result<Report, Failure>)
    modifies fs
    ensures var step := TargetStep(old(fs.files), TargetOf(outputFolder, filePath), decoder);
      r == Outcome(step) && fs.files == FilesAfter(step, old(fs.files))
  {
    var thumbPath := ThumbOutputPath(outputFolder, filePath);
    var outputPath := FullOutputPath(outputFolder, filePath);
    r := ExtractThumbnailAt(fs, filePath, thumbPath, outputPath, decoder);
  }

  /** The body of `extract_thumbnail` once its paths are known. */
  method ExtractThumbnailAt(fs: FileSystem, filePath: Path, thumbPath: Path, outputPath: Path, decoder: Decoder)
    returns (r: Result<Report, Failure>)
    modifies fs
    ensures var step := ThumbnailStep(old(fs.files), filePath, thumbPath, outputPath, decoder);
      r == Outcome(step) && fs.files == FilesAfter(step, old(fs.files))
  {
    if filePath !in decoder {
      return Err(CannotOpen(filePath));
    }
    match decoder[filePath].thumb
    case Thumb(format, data) =>
      if format == JPEG {
        fs.Write(thumbPath, Verbatim(data));
      } else if format == BITMAP {
        fs.Write(thumbPath, JpegEncoded(data));
      }
      r := Ok(ThumbnailExtracted(thumbPath));
    case NoThumbnail =>
      r := ConvertRawToJpgAt(fs, filePath, outputPath, decoder);
    case UnsupportedThumbnail =>
      r := ConvertRawToJpgAt(fs, filePath, outputPath, decoder);
    case ThumbError(reason) =>
      r := Err(ThumbnailFailure(filePath, reason));
  }
}
