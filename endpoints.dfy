/**
 * The two minimal-API endpoints (DocumentUploadAPI/Endpoints/DocumentUploadEndpoints.cs):
 * the upload handler, which maps the service's outcome to an HTTP result, and
 * the health check.
 */
module Endpoints {
  import opened Wrappers
  import opened ApiModels
  import opened Platform
  import opened Host
  import opened FileValidation
  import opened FileStorage
  import opened DocumentUpload

  /** The anonymous object the health check returns. */
  datatype HealthReport = HealthReport(status: string, timestamp: DateTime, service: string, version: string)

  /** The IResult values the handlers produce. */
  datatype HttpResult =
    | Created(location: string, response: UploadResponse)
    | BadRequest(error: ApiError)
    | Problem(title: string, detail: Option<string>, problemStatus: int)
    | Ok(report: HealthReport)

  function StatusCode(res: HttpResult): int
  {
    match res
    case Created(_, _) => 201
    case BadRequest(_) => 400
    case Problem(_, _, status) => status
    case Ok(_) => 200
  }

  const MissingFileError: ApiError := ApiError("File is required", None, 400)
  const UnexpectedErrorTitle: string := "An error occurred while processing the upload."

  /** The Location of a stored upload: the documents route, then the id. */
  function LocationOf(id: string): (location: string)
    ensures |location| == |id| + 15 && location[15..] == id
  {
    "/api/documents/" + id
  }

  /** Distinct uploads are never given the same Location. */
  lemma LocationIdentifiesUpload(id1: string, id2: string)
    ensures LocationOf(id1) == LocationOf(id2) ==> id1 == id2
  {
  }

  /** The handler's response once the service has returned or thrown. */
  function ResultFor(outcome: Result<UploadResponse, UploadError>): (res: HttpResult)
    ensures StatusCode(res) == 201 <==> outcome.Success?
    ensures StatusCode(res) == 400 <==> outcome.Failure? && outcome.error.ValidationException?
    ensures StatusCode(res) == 500 <==> outcome.Failure? && outcome.error.InvalidOperationException?
    ensures outcome.Success? ==> res == Created(LocationOf(outcome.value.id), outcome.value)
    ensures outcome.Failure? && outcome.error.ValidationException? ==>
      res == BadRequest(ApiError(outcome.error.message, None, 400))
    ensures outcome.Failure? && outcome.error.InvalidOperationException? ==>
      res == Problem(UnexpectedErrorTitle, Some(outcome.error.message), 500)
  {
    match outcome
    case Success(response) => Created(LocationOf(response.id), response)
    case Failure(ValidationException(message)) => BadRequest(ApiError(message, None, 400))
    case Failure(ex) =>
      var error := ApiError(UnexpectedErrorTitle, Some(ex.message), 500);
      Problem(error.message, error.details, error.statusCode)
  }

  /**
   * POST /api/documents/upload. A missing file is refused before the service
   * is called; otherwise the service's result or exception is mapped.
   */
  method UploadDocument(
    file: Option<FormFile>, description: Option<string>, uploadService: DocumentUploadService,
    fileId: string, now: DateTime, copy: CopyOutcome, cleanupFault: Option<Fault>) returns (res: HttpResult)
    modifies uploadService.metrics, uploadService.storageService.fs
    ensures file.None? ==> res == BadRequest(MissingFileError)
    ensures file.None? ==> unchanged(uploadService.metrics) && unchanged(uploadService.storageService.fs)
    ensures file.Some? ==>
      var request := UploadRequest(file.value, description);
      && res == ResultFor(uploadService.Outcome(request, fileId, now, copy))
      && uploadService.metrics.events == old(uploadService.metrics.events) + [uploadService.Metric(request, copy)]
      && (uploadService.RequestErrors(request) != [] ==>
            uploadService.storageService.fs.files == old(uploadService.storageService.fs.files))
      && (uploadService.RequestErrors(request) == [] ==>
            uploadService.storageService.fs.files == FilesAfterSave(
              old(uploadService.storageService.fs.files),
              StoredFilePath(uploadService.storageService.options.storagePath, fileId, file.value.fileName),
              file.value.content, copy, cleanupFault))
      && uploadService.storageService.fs.directories == old(uploadService.storageService.fs.directories)
  {
    if file.None? {
      return BadRequest(MissingFileError);
    }
    var request := UploadRequest(file.value, description);
    var outcome := uploadService.UploadDocument(request, fileId, now, copy, cleanupFault);
    res := ResultFor(outcome);
  }

  /** GET /api/documents/health. */
  function HealthCheck(now: DateTime): (res: HttpResult)
    ensures StatusCode(res) == 200 && res.Ok?
    ensures res.report.status == "Healthy" && res.report.timestamp == now
    ensures res.report.service == "Document Upload API" && res.report.version == "1.0.0"
  {
    Ok(HealthReport("Healthy", now, "Document Upload API", "1.0.0"))
  }

  // ------------------------------------------------------------------ lemmas

  /** End to end: 400 exactly when validation fails, 201 when the copy completes, 500 otherwise. */
  lemma StatusFollowsPipeline(errors: seq<string>, saved: UploadResponse, copy: CopyOutcome)
    ensures StatusCode(ResultFor(UploadOutcome(errors, saved, copy))) ==
      if errors != [] then 400 else if copy.Copied? then 201 else 500
  {
  }

  /**
   * A storage failure becomes a 500 whose detail is the generic wrapper message:
   * the underlying fault's message never reaches the client.
   */
  lemma StorageFailureHidesCause(errors: seq<string>, saved: UploadResponse, copy: CopyOutcome)
    requires errors == [] && !copy.Copied?
    ensures ResultFor(UploadOutcome(errors, saved, copy)) == Problem(UnexpectedErrorTitle, Some(SaveFailedMessage), 500)
  {
  }

  /** A validation failure's 400 body names every reported error. */
  lemma RejectionNamesErrors(errors: seq<string>, saved: UploadResponse, copy: CopyOutcome)
    requires errors != []
    ensures var res := ResultFor(UploadOutcome(errors, saved, copy));
      && res.BadRequest? && res.error.statusCode == 400 && res.error.details == None
      && forall i :: 0 <= i < |errors| ==> ContainsSubstring(res.error.message, errors[i])
  {
    ValidationMessageListsErrors(errors);
  }

  /** A 10-byte "a.txt" under the defaults is stored as "<id>.txt" in /app/uploads and answered with 201. */
  lemma TextFileCreated(f: FormFile, fileId: string, now: DateTime)
    requires f.fileName == "a.txt" && f.Length() == 10 && IsFileId(fileId)
    ensures var res := ResultFor(UploadOutcome(ValidationErrors(DefaultOptions, UnixInvalidFileNameChars, Some(f)),
                                               SavedResponse(DefaultOptions, f, fileId, now), Copied));
      && StatusCode(res) == 201 && res.Created?
      && res.location == LocationOf(fileId)
      && res.response.originalFileName == "a.txt" && res.response.fileSize == 10
      && res.response.fileName == fileId + ".txt"
      && res.response.storagePath == DefaultStoragePath + "/" + res.response.fileName
  {
    var saved := SavedResponse(DefaultOptions, f, fileId, now);
    SmallTextFileIsValid(f);
    TextFileSavedResponse(f, fileId, now);
    assert UploadOutcome([], saved, Copied) == Success(saved);
  }

  /** A file whose extension lowers to ".exe" is answered with 400 and a "not allowed" message. */
  lemma ExeFileBadRequest(f: FormFile, saved: UploadResponse, copy: CopyOutcome)
    requires f.Length() > 0 && LoweredExtension(f.fileName) == ".exe"
    ensures var res := ResultFor(UploadOutcome(ValidationErrors(DefaultOptions, UnixInvalidFileNameChars, Some(f)), saved, copy));
      && StatusCode(res) == 400 && res.BadRequest?
      && ContainsSubstring(res.error.message, "not allowed")
  {
    var errors := ValidationErrors(DefaultOptions, UnixInvalidFileNameChars, Some(f));
    var m := ExtensionError(".exe", DefaultAllowedExtensions);
    ExeFileRejected(f, UnixInvalidFileNameChars);
    var i :| 0 <= i < |errors| && errors[i] == m;
    ValidationMessageListsErrors(errors);
    SubstringTransitive(ValidationFailureMessage(errors), m, "not allowed");
  }

  /** A 200 MB file under the defaults is answered with 400 and a message naming 100 MB. */
  lemma OversizedFileBadRequest(f: FormFile, saved: UploadResponse, copy: CopyOutcome)
    requires f.Length() == 200 * 1024 * 1024
    ensures var res := ResultFor(UploadOutcome(ValidationErrors(DefaultOptions, UnixInvalidFileNameChars, Some(f)), saved, copy));
      && StatusCode(res) == 400 && res.BadRequest?
      && ContainsSubstring(res.error.message, "100 MB")
  {
    var errors := ValidationErrors(DefaultOptions, UnixInvalidFileNameChars, Some(f));
    OversizedFileRejected(f, UnixInvalidFileNameChars);
    DefaultSizeErrorNames100MB();
    ValidationMessageListsErrors(errors);
    SubstringTransitive(ValidationFailureMessage(errors), errors[0], "100 MB");
  }
}
