/**
 * DocumentUploadService (DocumentUploadAPI/Services/DocumentUploadService.cs):
 * validate, then store, and classify the outcome, recording one metric event
 * per call. DocumentUploadMetrics is kept as the log of the events it records.
 */
module DocumentUpload {
  import opened Wrappers
  import opened ApiModels
  import opened Platform
  import opened Host
  import opened FileValidation
  import opened FileStorage

  /** One call of DocumentUploadMetrics: RecordUpload, RecordUploadError or RecordValidationError. */
  datatype MetricEvent =
    | UploadRecorded(fileType: string, fileSize: int)
    | UploadErrorRecorded(fileType: string, errorType: string)
    | ValidationErrorRecorded(fileType: string, validationError: string)

  /** The metrics component, as the sequence of events recorded so far. */
  class DocumentUploadMetrics {
    var events: seq<MetricEvent>

    constructor ()
      ensures events == []
    {
      events := [];
    }

    method RecordUpload(fileType: string, fileSize: int)
      modifies this
      ensures events == old(events) + [UploadRecorded(fileType, fileSize)]
    {
      events := events + [UploadRecorded(fileType, fileSize)];
    }

    method RecordUploadError(fileType: string, errorType: string)
      modifies this
      ensures events == old(events) + [UploadErrorRecorded(fileType, errorType)]
    {
      events := events + [UploadErrorRecorded(fileType, errorType)];
    }

    method RecordValidationError(fileType: string, validationError: string)
      modifies this
      ensures events == old(events) + [ValidationErrorRecorded(fileType, validationError)]
    {
      events := events + [ValidationErrorRecorded(fileType, validationError)];
    }
  }

  /** The two exceptions UploadDocumentAsync lets escape. */
  datatype UploadError =
    | ValidationException(message: string)
    | InvalidOperationException(message: string, innerException: Fault)

  const SaveFailedMessage: string := "Failed to save the uploaded file."

  function ValidationFailureMessage(errors: seq<string>): string
  {
    "File validation failed: " + Join("; ", errors)
  }

  /**
   * What UploadDocumentAsync returns or throws, from the validator's errors,
   * the response storage would build and the fate of the copy.
   */
  function UploadOutcome(errors: seq<string>, saved: UploadResponse, copy: CopyOutcome): (r: Result<UploadResponse, UploadError>)
    ensures r.Success? <==> errors == [] && copy.Copied?
    ensures r.Success? ==> r.value == saved
    ensures r.Failure? ==> (r.error.ValidationException? <==> errors != [])
    ensures r.Failure? && r.error.ValidationException? ==>
      r.error.message == ValidationFailureMessage(errors)
    ensures r.Failure? && r.error.InvalidOperationException? ==>
      r.error.message == SaveFailedMessage && r.error.innerException == copy.fault
  {
    if errors != [] then Failure(ValidationException(ValidationFailureMessage(errors)))
    else if copy.Copied? then Success(saved)
    else Failure(InvalidOperationException(SaveFailedMessage, copy.fault))
  }

  /** The single metric event a call records. */
  function UploadMetric(fileType: string, errors: seq<string>, fileSize: int, copy: CopyOutcome): (e: MetricEvent)
    ensures e.fileType == fileType
    ensures e.ValidationErrorRecorded? <==> errors != []
    ensures e.UploadRecorded? <==> errors == [] && copy.Copied?
    ensures e.UploadRecorded? ==> e.fileSize == fileSize
    ensures e.ValidationErrorRecorded? ==> e.validationError == Join("; ", errors)
    ensures e.UploadErrorRecorded? ==> !copy.Copied? && e.errorType == copy.fault.typeName
  {
    if errors != [] then ValidationErrorRecorded(fileType, Join("; ", errors))
    else if copy.Copied? then UploadRecorded(fileType, fileSize)
    else UploadErrorRecorded(fileType, copy.fault.typeName)
  }

  /** The orchestrator and its three collaborators. */
  class DocumentUploadService {
    const validationService: FileValidationService
    const storageService: LocalFileStorageService
    const metrics: DocumentUploadMetrics

    constructor (validationService: FileValidationService, storageService: LocalFileStorageService, metrics: DocumentUploadMetrics)
      ensures this.validationService == validationService
      ensures this.storageService == storageService
      ensures this.metrics == metrics
    {
      this.validationService := validationService;
      this.storageService := storageService;
      this.metrics := metrics;
    }

    /** The errors the validator reports for a request's file. */
    function RequestErrors(request: UploadRequest): seq<string>
    {
      ValidationErrors(validationService.options, validationService.invalidFileNameChars, Some(request.file))
    }

    /** What a call returns or throws. */
    function Outcome(request: UploadRequest, fileId: string, now: DateTime, copy: CopyOutcome): Result<UploadResponse, UploadError>
    {
      UploadOutcome(RequestErrors(request), SavedResponse(storageService.options, request.file, fileId, now), copy)
    }

    /** The metric event a call records. */
    function Metric(request: UploadRequest, copy: CopyOutcome): MetricEvent
    {
      UploadMetric(LoweredExtension(request.file.fileName), RequestErrors(request), request.file.Length(), copy)
    }

    /**
     * UploadDocumentAsync. The identifier, the clock and the fate of the copy
     * are what storage would see from Guid.NewGuid, DateTime.UtcNow and the
     * request stream.
     */
    method UploadDocument(
      request: UploadRequest, fileId: string, now: DateTime,
      copy: CopyOutcome, cleanupFault: Option<Fault>) returns (r: Result<UploadResponse, UploadError>)
      modifies metrics, storageService.fs
      ensures r == Outcome(request, fileId, now, copy)
      ensures metrics.events == old(metrics.events) + [Metric(request, copy)]
      ensures RequestErrors(request) != [] ==> storageService.fs.files == old(storageService.fs.files)
      ensures RequestErrors(request) == [] ==> storageService.fs.files == FilesAfterSave(
        old(storageService.fs.files), StoredFilePath(storageService.options.storagePath, fileId, request.file.fileName),
        request.file.content, copy, cleanupFault)
      ensures storageService.fs.directories == old(storageService.fs.directories)
    {
      var fileExtension := ToLowerInvariant(GetExtension(request.file.fileName));

      var validationResult := validationService.ValidateFile(Some(request.file));
      if !validationResult.isValid {
        var errorMessage := Join("; ", validationResult.errors);
        metrics.RecordValidationError(fileExtension, errorMessage);
        return Failure(ValidationException(ValidationFailureMessage(validationResult.errors)));
      }

      r := StoreValidated(request, fileExtension, fileId, now, copy, cleanupFault);
    }

    /**
     * The part of UploadDocumentAsync after validation has passed: store the
     * file, record the outcome, and wrap a storage failure.
     */
    method StoreValidated(
      request: UploadRequest, fileExtension: string, fileId: string, now: DateTime,
      copy: CopyOutcome, cleanupFault: Option<Fault>) returns (r: Result<UploadResponse, UploadError>)
      modifies metrics, storageService.fs
      ensures r == UploadOutcome([], SavedResponse(storageService.options, request.file, fileId, now), copy)
      ensures metrics.events == old(metrics.events) + [UploadMetric(fileExtension, [], request.file.Length(), copy)]
      ensures storageService.fs.files == FilesAfterSave(
        old(storageService.fs.files), StoredFilePath(storageService.options.storagePath, fileId, request.file.fileName),
        request.file.content, copy, cleanupFault)
      ensures storageService.fs.directories == old(storageService.fs.directories)
    {
      var saved := storageService.SaveFile(request.file, request.description, fileId, now, copy, cleanupFault);
      match saved {
        case Success(response) =>
          metrics.RecordUpload(fileExtension, request.file.Length());
          return Success(response);
        case Failure(ex) =>
          metrics.RecordUploadError(fileExtension, ex.typeName);
          return Failure(InvalidOperationException(SaveFailedMessage, ex));
      }
    }
  }

  // ------------------------------------------------------------------ lemmas

  /** The metric recorded always agrees with the outcome reported. */
  lemma MetricMatchesOutcome(fileType: string, errors: seq<string>, saved: UploadResponse, copy: CopyOutcome)
    ensures var e := UploadMetric(fileType, errors, saved.fileSize, copy);
      var r := UploadOutcome(errors, saved, copy);
      && (e.UploadRecorded? <==> r.Success?)
      && (e.ValidationErrorRecorded? <==> r.Failure? && r.error.ValidationException?)
      && (e.UploadErrorRecorded? <==> r.Failure? && r.error.InvalidOperationException?)
      && (e.UploadErrorRecorded? ==> e.errorType == r.error.innerException.typeName)
      && (e.ValidationErrorRecorded? ==> r.error.message == "File validation failed: " + e.validationError)
  {
  }

  /**
   * A validation failure is reported as such and never wrapped; only a storage
   * failure becomes an InvalidOperationException, and it keeps its cause.
   */
  lemma FailuresClassified(errors: seq<string>, saved: UploadResponse, copy: CopyOutcome)
    ensures errors != [] ==> UploadOutcome(errors, saved, copy) == Failure(ValidationException(ValidationFailureMessage(errors)))
    ensures errors == [] && !copy.Copied? ==>
      UploadOutcome(errors, saved, copy) == Failure(InvalidOperationException(SaveFailedMessage, copy.fault))
  {
  }

  /** The validation message names every error the validator reported. */
  lemma ValidationMessageListsErrors(errors: seq<string>)
    ensures forall i :: 0 <= i < |errors| ==> ContainsSubstring(ValidationFailureMessage(errors), errors[i])
  {
    forall i | 0 <= i < |errors|
      ensures ContainsSubstring(ValidationFailureMessage(errors), errors[i])
    {
      JoinContainsItem("; ", errors, i);
      SubstringInContext("File validation failed: ", Join("; ", errors), "", errors[i]);
      assert ValidationFailureMessage(errors) == "File validation failed: " + Join("; ", errors) + "";
    }
  }
}
