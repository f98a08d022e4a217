/**
 * The upload component: a file dropped on the zone or picked in the file
 * dialog is validated by its MIME type and, when it is a PDF, read as a
 * data URL and handed to the application. Reading the file is the
 * browser's FileReader, a parameter `read` here: the data URL it loads, or
 * `None` when the read never loads.
 */
module FileUpload {
  import opened Wrappers
  import opened Types

  const InvalidFileAlert := "Please upload a valid PDF file."

  /**
   * What `processFile` does with one file: hand it to `onFileSelect` with its
   * data URL, alert, or — when the read of a PDF never loads — neither.
   */
  datatype UploadOutcome = Selected(file: File, dataUrl: string) | Rejected(alert: string) | NotLoaded

  /**
   * `processFile`: only a file whose declared type is exactly the PDF MIME
   * type is read, and only a read that loads reaches the application.
   */
  function ProcessFile(file: File, read: File -> Option<string>): (r: UploadOutcome)
    ensures r.Rejected? <==> file.mimeType != PdfMimeType
    ensures r.Rejected? ==> r.alert == InvalidFileAlert
    ensures r.Selected? <==> file.mimeType == PdfMimeType && read(file).Some?
    ensures r.Selected? ==> r == Selected(file, read(file).value)
  {
    if file.mimeType == PdfMimeType then
      match read(file)
      case Some(dataUrl) => Selected(file, dataUrl)
      case None => NotLoaded
    else
      Rejected(InvalidFileAlert)
  }

  /**
   * `handleInputChange`, and the routing part of `handleDrop`: a missing or
   * empty file list does nothing; otherwise the first file, and only it,
   * goes through `processFile`.
   */
  function HandleInputChange(files: Option<seq<File>>, read: File -> Option<string>): (r: Option<UploadOutcome>)
    ensures r.None? <==> files.None? || files.value == []
    ensures r.Some? ==> r.value == ProcessFile(files.value[0], read)
  {
    if files.Some? && files.value != [] then Some(ProcessFile(files.value[0], read)) else None
  }

  /** Two file lists with the same first file lead to the same outcome: the rest of a multi-file list is ignored. */
  lemma OnlyFirstFileCounts(files1: seq<File>, files2: seq<File>, read: File -> Option<string>)
    requires files1 != [] && files2 != [] && files1[0] == files2[0]
    ensures HandleInputChange(Some(files1), read) == HandleInputChange(Some(files2), read)
  {
  }

  /** A non-PDF file never reaches the application, whatever list it heads. */
  lemma NonPdfNeverSelected(files: seq<File>, read: File -> Option<string>)
    requires files != [] && files[0].mimeType != PdfMimeType
    ensures HandleInputChange(Some(files), read) == Some(Rejected(InvalidFileAlert))
  {
  }

  /** The drop zone and its highlight flag. */
  class DropZone {
    var isDragging: bool

    constructor ()
      ensures !isDragging
    {
      isDragging := false;
    }

    /** `handleDragOver`. */
    method HandleDragOver()
      modifies this
      ensures isDragging
    {
      isDragging := true;
    }

    /** `handleDragLeave`. */
    method HandleDragLeave()
      modifies this
      ensures !isDragging
    {
      isDragging := false;
    }

    /**
     * `handleDrop`: clears the highlight, then routes the dropped files
     * exactly as the file picker does, so both paths validate alike.
     */
    method HandleDrop(files: Option<seq<File>>, read: File -> Option<string>) returns (emitted: Option<UploadOutcome>)
      modifies this
      ensures !isDragging
      ensures emitted == HandleInputChange(files, read)
    {
      isDragging := false;
      emitted := None;
      if files.Some? && files.value != [] {
        emitted := Some(ProcessFile(files.value[0], read));
      }
    }
  }
}
