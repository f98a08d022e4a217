/** The shared records of the application: the selected file, the résumé state and the status enumeration. */
module Types {
  import opened Wrappers

  /** The one MIME type the application accepts and declares for its attachment. */
  const PdfMimeType := "application/pdf"

  /** A browser `File`: its name, its declared MIME type (`file.type`) and its bytes. */
  datatype File = File(name: string, mimeType: string, content: seq<bv8>)

  /** The résumé held by the application; each part is absent until a file is chosen. */
  datatype ResumeState = ResumeState(file: Option<File>, base64: Option<string>, fileName: Option<string>)

  /** Where the upload → submit → display wizard stands. */
  datatype AppStatus = Idle | Loading | Success | Error
}
