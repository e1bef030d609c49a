/**
 * The records of DocumentUploadAPI/Models/ApiModels.cs and the defaults of
 * FileUploadOptions.
 */
module ApiModels {
  import opened Wrappers
  import opened Platform

  /** One byte of an uploaded file. */
  type Byte = bv8

  /** A UTC instant (DateTime.UtcNow), as a tick count supplied by the caller. */
  datatype DateTime = DateTime(ticks: int)

  /**
   * An uploaded multipart file (IFormFile): the client's file name, the declared
   * content type and the bytes of the part. Its Length is the number of bytes.
   */
  datatype FormFile = FormFile(fileName: string, contentType: string, content: seq<Byte>)
  {
    function Length(): nat { |content| }
  }

  /** `record UploadRequest(IFormFile File, string? Description = null)` */
  datatype UploadRequest = UploadRequest(file: FormFile, description: Option<string> := None)

  /** The seven-field immutable record returned for a stored upload. */
  datatype UploadResponse = UploadResponse(
    id: string,
    fileName: string,
    originalFileName: string,
    fileSize: int,
    contentType: string,
    uploadedAt: DateTime,
    storagePath: string)

  /** `record ValidationResult(bool IsValid, IEnumerable<string> Errors)` */
  datatype ValidationResult = ValidationResult(isValid: bool, errors: seq<string>)

  /** `record ApiError(string Message, string? Details = null, int StatusCode = 400)` */
  datatype ApiError = ApiError(message: string, details: Option<string> := None, statusCode: int := 400)

  /** FileUploadOptions: where files go, how large they may be and which extensions pass. */
  datatype FileUploadOptions = FileUploadOptions(
    storagePath: string,
    tempPath: string,
    maxFileSizeBytes: int,
    allowedExtensions: seq<string>)

  const DefaultStoragePath: string := "/app/uploads"
  const DefaultTempPath: string := "/app/temp"
  const DefaultMaxFileSizeBytes: int := 104857600
  const DefaultAllowedExtensions: seq<string> := [".pdf", ".docx", ".doc", ".txt"]

  /** The options a FileUploadOptions object holds when configuration sets nothing. */
  const DefaultOptions: FileUploadOptions :=
    FileUploadOptions(DefaultStoragePath, DefaultTempPath, DefaultMaxFileSizeBytes, DefaultAllowedExtensions)

  lemma DefaultMaxFileSizeIs100MiB()
    ensures DefaultOptions.maxFileSizeBytes == 100 * 1024 * 1024
    ensures DefaultOptions.maxFileSizeBytes / 1024 / 1024 == 100
  {
  }

  lemma DefaultAllowedExtensionsAreDottedLowerCase()
    ensures DefaultOptions.allowedExtensions == [".pdf", ".docx", ".doc", ".txt"]
    ensures forall e :: e in DefaultOptions.allowedExtensions ==> |e| >= 2 && e[0] == '.' && HasNoUpperAscii(e)
    ensures ".exe" !in DefaultOptions.allowedExtensions
  {
    var allowed := DefaultOptions.allowedExtensions;
    assert allowed[0][1] == 'p' && allowed[1][1] == 'd' && allowed[2][1] == 'd' && allowed[3][1] == 't';
    assert forall e :: e in allowed ==> e[1] != ".exe"[1];
  }

  lemma DefaultDirectories()
    ensures DefaultOptions.storagePath == "/app/uploads"
    ensures DefaultOptions.tempPath == "/app/temp"
  {
  }

  lemma ApiErrorDefaults(message: string)
    ensures ApiError(message).details == None
    ensures ApiError(message).statusCode == 400
  {
  }
}
