# Document upload pipeline, modelled in Dafny

DocumentUploadAPI is a minimal ASP.NET service. It accepts one multipart file on
`POST /api/documents/upload` and stores it on local disk under a generated name.
This project models that upload pipeline and proves what it promises:

- **Validator** (`FileValidation`). `FileValidationService.ValidateFile` checks length, lowered extension
  and file name against `FileUploadOptions`. It returns a validity flag and an ordered error list.
  The method builds the list by successive appends, with the early return for an empty file. It is
  proved equal to the specification function `ValidationErrors`, and the rules are proved about that
  function.
- **Local storage** (`FileStorage`, with `Host.FileSystem`). `LocalFileStorageService` works over a file
  system given as a map from full path to bytes plus a set of directories.
  - `SaveFile` writes `<id><original extension>` into the storage directory.
  - `DeleteFile` and `FileExists` work on a name inside that directory.
  - The static `Create` stands for the C# constructor, which creates the storage and temp directories.
- **Orchestrator** (`DocumentUpload`). `DocumentUploadService.UploadDocument` validates, then stores.
  - A validation failure becomes `ValidationException`.
  - A storage failure becomes `InvalidOperationException` wrapping the cause.
  - Every call appends exactly one event to the metrics log (`DocumentUploadMetrics.events`).
- **Endpoints** (`Endpoints`). The upload handler maps the outcome to 201, 400 or 500 and an `ApiError`.
  `HealthCheck` returns its constant report.
- **Data model** (`ApiModels`). The records and the `FileUploadOptions` defaults.
- **Platform** (`Platform`). The .NET base-library behaviour these use, as on the Unix hosts the
  service is deployed to:
  - `Path.GetExtension` and `Path.Combine`;
  - `ToLowerInvariant`, `IsNullOrWhiteSpace`, `IndexOfAny` and `string.Join`;
  - `long.ToString` and C#'s truncating `/`.

Inputs from the environment are parameters of the operations:

- the generated identifier (`fileId`, constrained by `IsFileId` where a property needs its shape);
- the clock (`now`);
- how the byte copy went (`CopyOutcome`: completed, open failed, or failed or cancelled after some bytes);
- whether the best-effort cleanup, a delete or a directory creation is refused by the host (a `Fault`).

Some behaviour follows from the code itself and may be surprising:

- The validator stops at a missing or empty file and reports only "File is required and cannot be
  empty.". It does not go on to accumulate the other errors (FileValidationService.cs:25-29).
- The allow-list test is an ordinal `Contains` on the already-lowered extension. An entry with an
  upper-case letter therefore never matches (`UpperCaseEntryNeverMatches`).
- The stored name keeps the original extension's case. Only the validation and metric tag use the
  lowered extension.
- The file is opened with `FileMode.Create`, so a file already at the path is overwritten, not
  refused (`SaveOverwrites`).
- The size message names `MaxFileSizeBytes / 1024 / 1024` MB, truncated. A file of exactly the maximum
  length passes.
- The cleanup after a failed save deletes whatever is at the destination path. After a failed open,
  this includes a file that was there before the call (`FilesAfterSave`, `OpenFailed` case).
- The description is accepted by storage and not used.

## Model

| member | source | states |
|---|---|---|
| ApiModels.DefaultMaxFileSizeIs100MiB | DocumentUploadAPI/Models/ApiModels.cs:25 | the default maximum is 100·1024·1024 bytes, and dividing it by 1024 twice gives 100 |
| ApiModels.DefaultAllowedExtensionsAreDottedLowerCase | DocumentUploadAPI/Models/ApiModels.cs:26 | the default allow-list is exactly .pdf, .docx, .doc, .txt; each entry starts with '.' and has no upper-case letter; .exe is not in it |
| ApiModels.DefaultDirectories | DocumentUploadAPI/Models/ApiModels.cs:23-24 | the default storage directory is /app/uploads and the default temp directory is /app/temp |
| ApiModels.ApiErrorDefaults | DocumentUploadAPI/Models/ApiModels.cs:17 | an ApiError built from a message alone has no details and status 400 |
| Platform.TruncDiv | DocumentUploadAPI/Services/FileValidationService.cs:34 | C#'s long division: the remainder a − q·b is smaller than the divisor in magnitude, never negative for a non-negative dividend and never positive for a negative one |
| Platform.TruncDivUnique | DocumentUploadAPI/Services/FileValidationService.cs:34 | that remainder rule fixes the quotient: any q meeting it is the truncated quotient |
| Platform.NatToStringRoundTrip | DocumentUploadAPI/Services/FileValidationService.cs:34 | the decimal rendering put into the size message reads back as the same number |
| Platform.NatToString | DocumentUploadAPI/Services/FileValidationService.cs:34 | the rendering of a non-negative number is a non-empty string of decimal digits with no leading zero |
| Platform.IntToString | DocumentUploadAPI/Services/FileValidationService.cs:34 | the rendering is non-empty, has no leading zero (except for 0 itself) and reads back as the number: digits alone for a non-negative one, a '-' and the digits of its magnitude for a negative one |
| Platform.ToLowerInvariant | DocumentUploadAPI/Services/FileValidationService.cs:38 | lowering keeps the length and lowers each character in its place |
| Platform.LoweredHasNoUpper | DocumentUploadAPI/Services/FileValidationService.cs:38 | a lowered string has no upper-case letter, and lowering it again changes nothing |
| Platform.IsWhiteSpace | DocumentUploadAPI/Services/FileValidationService.cs:45 | among ASCII characters, exactly the space and tab through carriage return are white space; no letter, digit, '.' or separator is |
| Platform.TrimStart | DocumentUploadAPI/Services/FileValidationService.cs:45 | string.TrimStart(), the reference definition that characterises the IsNullOrWhiteSpace call through NullOrWhiteSpaceIffTrimsToEmpty: the result is the suffix left after a run of white space, and it does not start with white space |
| Platform.NullOrWhiteSpaceIffTrimsToEmpty | DocumentUploadAPI/Services/FileValidationService.cs:45 | a name is null-or-white-space iff trimming its leading white space leaves nothing |
| Platform.IndexOfAny | DocumentUploadAPI/Services/FileValidationService.cs:46 | the first index holding one of the characters, or -1 when there is none; it is non-negative iff the name contains one of them |
| Platform.Join | DocumentUploadAPI/Services/FileValidationService.cs:41 | joining no items gives the empty string and joining one gives that item; JoinAppend gives the longer lists |
| Platform.JoinAppend | DocumentUploadAPI/Services/FileValidationService.cs:41 | joining one more item appends the separator and then that item |
| Platform.JoinContainsItem | DocumentUploadAPI/Services/FileValidationService.cs:41 | every item occurs, in full, in the joined string |
| Platform.GetExtension | DocumentUploadAPI/Services/FileStorageService.cs:29 | a non-empty extension is a suffix of the path of at least two characters; it starts with '.' and has no further '.' or separator |
| Platform.ScanShape | DocumentUploadAPI/Services/FileStorageService.cs:29 | whatever the backwards scan returns, if non-empty, is a suffix of at least two characters that starts with '.' and has no further '.' or separator |
| Platform.ExtensionOfDottedSuffix | DocumentUploadAPI/Services/FileStorageService.cs:29 | for a name that ends in '.' and a tail without '.' or separator, the extension is '.' plus that tail |
| Platform.NoDotNoExtension | DocumentUploadAPI/Services/FileStorageService.cs:29 | a name without '.' has no extension |
| Platform.TrailingDotNoExtension | DocumentUploadAPI/Services/FileStorageService.cs:29 | a name ending in '.' has no extension |
| Platform.ExtensionOfLowered | DocumentUploadAPI/Services/DocumentUploadService.cs:33 | taking the extension and lowering commute |
| Platform.Combine | DocumentUploadAPI/Services/FileStorageService.cs:31 | a rooted second path replaces the first; a relative non-empty name ends the combined path |
| Platform.CombineRelative | DocumentUploadAPI/Services/FileStorageService.cs:31 | a relative name is placed after exactly one separator at the end of the directory |
| Platform.CombineInjective | DocumentUploadAPI/Services/FileStorageService.cs:31 | within one directory, relative names that combine to the same path are equal |
| FileValidation.ValidationErrors | DocumentUploadAPI/Services/FileValidationService.cs:23-49 | at most three errors; a missing or empty file gives exactly the empty-file error |
| FileValidation.SizeError | DocumentUploadAPI/Services/FileValidationService.cs:34 | the size message names the limit in whole megabytes, as the rendering of the truncated quotient followed by " MB." |
| FileValidation.ExtensionError | DocumentUploadAPI/Services/FileValidationService.cs:41 | the extension message quotes the lowered extension between single quotes |
| FileValidation.RuleErrorsFollowRules | DocumentUploadAPI/Services/FileValidationService.cs:31-49 | once the size and extension messages can be told apart, each of the three messages is reported iff its rule is broken, in the order size, extension, name, and the empty-file message never is |
| FileValidation.RulesOfFile | DocumentUploadAPI/Services/FileValidationService.cs:31-49 | for a non-empty file the errors are the three rules applied in order, with the rule-by-rule iff and ordering facts |
| FileValidation.SizeMark | DocumentUploadAPI/Services/FileValidationService.cs:34 | the size message is "File s…", so it differs from every other message at its sixth character |
| FileValidation.ExtensionMark | DocumentUploadAPI/Services/FileValidationService.cs:41 | the extension message is "File t…", so it differs from the size message at its sixth character |
| FileValidation.FileValidationService.ValidateFile | DocumentUploadAPI/Services/FileValidationService.cs:21-57 | the appended errors are those of the rules, and the result is valid iff the list is empty; nothing is modified |
| FileValidation.ValidIffAllRulesPass | DocumentUploadAPI/Services/FileValidationService.cs:25-51 | no errors iff the file is present and non-empty, within the size limit, has an allowed lowered extension and has a valid name |
| FileValidation.ErrorsFollowRules | DocumentUploadAPI/Services/FileValidationService.cs:31-49 | for a non-empty file, each rule's message is reported iff that rule is broken, and the empty-file message never is |
| FileValidation.ErrorsInRuleOrder | DocumentUploadAPI/Services/FileValidationService.cs:31-49 | the messages come in the order size, extension, name |
| FileValidation.MaximumLengthPasses | DocumentUploadAPI/Services/FileValidationService.cs:32 | a file of exactly the maximum length gets no size error |
| FileValidation.ExtensionErrorSaysNotAllowed | DocumentUploadAPI/Services/FileValidationService.cs:41 | the extension message says the type is not allowed |
| FileValidation.ExtensionErrorListsAllowed | DocumentUploadAPI/Services/FileValidationService.cs:41 | the extension message names every allow-list entry |
| FileValidation.UpperCaseEntryNeverMatches | DocumentUploadAPI/Services/FileValidationService.cs:38-39 | an allow-list entry holding an upper-case letter never equals a lowered extension |
| FileValidation.DefaultSizeErrorNames100MB | DocumentUploadAPI/Services/FileValidationService.cs:34 | under the defaults the size message is "File size exceeds maximum allowed size of 100 MB." |
| FileValidation.EmptyFileSingleError | DocumentUploadAPI/Services/FileValidationService.cs:25-29 | a missing or zero-length file gives exactly one error, the empty-file message, whatever its name |
| FileValidation.OversizedFileRejected | DocumentUploadAPI/Services/FileValidationService.cs:32-35 | a 200 MB file under the defaults is invalid, and its first error is the 100 MB message |
| FileValidation.ExeFileRejected | DocumentUploadAPI/Services/FileValidationService.cs:38-42 | a file whose extension lowers to .exe gets the extension error, which says "not allowed" |
| FileValidation.SmallTextFileIsValid | DocumentUploadAPI/Services/FileValidationService.cs:21-57 | a 10-byte a.txt passes every rule under the defaults on Unix |
| FileValidation.TextExtensionAllowed | DocumentUploadAPI/Services/FileValidationService.cs:38-39 | under the defaults, a.txt has the allowed lowered extension .txt |
| FileValidation.TextFileNameValid | DocumentUploadAPI/Services/FileValidationService.cs:45-46 | a.txt is neither white space nor holds a character Unix forbids |
| FileStorage.SavedResponse | DocumentUploadAPI/Services/FileStorageService.cs:41-49 | the response carries the id, the stored name, the original name, the byte count, the content type, the time and the combined path |
| FileStorage.IsFileId | DocumentUploadAPI/Services/FileStorageService.cs:28 | an identifier is 32 lower-case hex digits with the UUID version and variant digits, so it holds no '.' and no separator |
| FileStorage.StoredFileName | DocumentUploadAPI/Services/FileStorageService.cs:28-30 | the stored name starts with the identifier; what follows is nothing, or a '.' and at least one more character |
| FileStorage.StoredFilePath | DocumentUploadAPI/Services/FileStorageService.cs:31 | when the identifier does not start with a separator, the path is the storage directory, one separator, then the stored name |
| FileStorage.FilesAfterSave | DocumentUploadAPI/Services/FileStorageService.cs:38-73 | only the destination path changes. A completed copy leaves exactly the bytes there. A failure with a working cleanup leaves nothing there. A failed open whose cleanup fails changes nothing. A failed copy whose cleanup fails leaves a prefix of the bytes |
| FileStorage.StartupOutcome | DocumentUploadAPI/Services/FileStorageService.cs:105-126 | startup passes iff the storage directory can be made, and then the temp directory |
| FileStorage.DirectoriesAfterStartup | DocumentUploadAPI/Services/FileStorageService.cs:105-126 | only the two configured directories are added; after a pass both exist, and after a failure at most the storage directory was added |
| FileStorage.LocalFileStorageService.Create | DocumentUploadAPI/Services/FileStorageService.cs:17-24 | construction succeeds iff both directories exist afterwards; otherwise it fails with the host's fault; files are untouched |
| FileStorage.LocalFileStorageService.EnsureDirectoriesExist | DocumentUploadAPI/Services/FileStorageService.cs:105-126 | creates each missing directory in order, stops at the first refusal with its fault, and changes no file |
| FileStorage.LocalFileStorageService.SaveFile | DocumentUploadAPI/Services/FileStorageService.cs:26-75 | the files become FilesAfterSave of the old files; success returns the saved response; a failure rethrows the copy's fault; directories are unchanged |
| FileStorage.LocalFileStorageService.DeleteFile | DocumentUploadAPI/Services/FileStorageService.cs:77-97 | true and the file removed iff it existed; false and nothing changed otherwise; a failing delete is rethrown and changes nothing |
| FileStorage.LocalFileStorageService.FileExists | DocumentUploadAPI/Services/FileStorageService.cs:99-103 | true iff the name combined with the storage directory is a file; nothing is modified |
| FileStorage.DeleteTwice | DocumentUploadAPI/Services/FileStorageService.cs:77-90 | after a successful delete, deleting the same name again returns false |
| FileStorage.StoredNameKeepsExtension | DocumentUploadAPI/Services/FileStorageService.cs:28-30 | the stored name starts with the 32-digit id and has the original extension, case kept |
| FileStorage.StoredNameIsPlain | DocumentUploadAPI/Services/FileStorageService.cs:28-30 | the stored name is non-empty, not rooted and has no separator, whatever the client sent |
| FileStorage.DistinctIdsDistinctPaths | DocumentUploadAPI/Services/FileStorageService.cs:28-31 | uploads with different ids never share a path |
| FileStorage.TextFileStoredName | DocumentUploadAPI/Services/FileStorageService.cs:28-30 | a.txt is stored as id.txt: 32 lower-case hex digits followed by .txt |
| FileStorage.TextFileSavedResponse | DocumentUploadAPI/Services/FileStorageService.cs:28-49 | saving a.txt under the defaults answers with the id, the original name, the byte count, the name id.txt and the path /app/uploads/id.txt |
| FileStorage.DefaultDirectoryJoin | DocumentUploadAPI/Services/FileStorageService.cs:31 | a relative name is placed in /app/uploads after exactly one separator |
| FileStorage.FailedSaveLeavesNoPartialFile | DocumentUploadAPI/Services/FileStorageService.cs:60-71 | after a failed copy whose cleanup worked, the destination is absent and nothing else changed |
| FileStorage.SaveOverwrites | DocumentUploadAPI/Services/FileStorageService.cs:38 | a completed save replaces a file already at the path |
| DocumentUpload.DocumentUploadMetrics.RecordUpload | DocumentUploadAPI/Services/DocumentUploadService.cs:55 | appends one success event with the extension and size |
| DocumentUpload.DocumentUploadMetrics.RecordUploadError | DocumentUploadAPI/Services/DocumentUploadService.cs:70 | appends one error event with the extension and exception type name |
| DocumentUpload.DocumentUploadMetrics.RecordValidationError | DocumentUploadAPI/Services/DocumentUploadService.cs:47 | appends one validation event with the extension and joined message |
| DocumentUpload.UploadOutcome | DocumentUploadAPI/Services/DocumentUploadService.cs:40-73 | success iff no errors and the copy completed, returning storage's response. Otherwise a ValidationException with "File validation failed: " plus the joined errors iff validation failed. Otherwise an InvalidOperationException with the fixed message and the storage fault as cause |
| DocumentUpload.UploadMetric | DocumentUploadAPI/Services/DocumentUploadService.cs:33-70 | the event is tagged with the lowered extension. It is a validation event with the joined errors iff validation failed. It is a success event with the file's byte count iff the copy completed. Otherwise it is an error event with the fault's type name |
| DocumentUpload.DocumentUploadService.UploadDocument | DocumentUploadAPI/Services/DocumentUploadService.cs:30-75 | returns the outcome, appends exactly one metric event, leaves the files unchanged when validation fails (storage is never reached), and otherwise changes them as a save does |
| DocumentUpload.DocumentUploadService.StoreValidated | DocumentUploadAPI/Services/DocumentUploadService.cs:51-73 | after validation has passed: saves the file as storage does, returns storage's response with an upload event, or wraps storage's fault in InvalidOperationException with an error event naming the fault's type |
| DocumentUpload.MetricMatchesOutcome | DocumentUploadAPI/Services/DocumentUploadService.cs:43-73 | the success, validation and error events match the success, validation and wrapped outcomes one to one. The error event's type is the cause's type name, and the validation event's message is the one thrown |
| DocumentUpload.FailuresClassified | DocumentUploadAPI/Services/DocumentUploadService.cs:62-73 | a validation failure is never wrapped; a storage failure is wrapped with its cause |
| DocumentUpload.ValidationMessageListsErrors | DocumentUploadAPI/Services/DocumentUploadService.cs:43-48 | the thrown message contains every validation error |
| Endpoints.ResultFor | DocumentUploadAPI/Endpoints/DocumentUploadEndpoints.cs:55-74 | 201 iff success, with location /api/documents/ plus the id and the response as body. 400 iff ValidationException, with its message and no details. 500 iff any other exception, with the fixed title and the exception message as detail |
| Endpoints.LocationOf | DocumentUploadAPI/Endpoints/DocumentUploadEndpoints.cs:55 | the Location is the 15-character documents route followed by the id |
| Endpoints.LocationIdentifiesUpload | DocumentUploadAPI/Endpoints/DocumentUploadEndpoints.cs:55 | different ids never get the same Location |
| Endpoints.UploadDocument | DocumentUploadAPI/Endpoints/DocumentUploadEndpoints.cs:32-75 | a missing file gives 400 "File is required" and touches nothing. Otherwise the description is passed on, the service's outcome is mapped, and state changes as the service says |
| Endpoints.HealthCheck | DocumentUploadAPI/Endpoints/DocumentUploadEndpoints.cs:77-89 | 200 with Healthy, the given time, Document Upload API and 1.0.0 |
| Endpoints.StatusFollowsPipeline | DocumentUploadAPI/Endpoints/DocumentUploadEndpoints.cs:50-74 | end to end: 400 iff validation fails; otherwise 201 iff the copy completed; otherwise 500 |
| Endpoints.StorageFailureHidesCause | DocumentUploadAPI/Endpoints/DocumentUploadEndpoints.cs:63-73 | a storage failure is answered 500 with detail "Failed to save the uploaded file.", never the fault's own message |
| Endpoints.RejectionNamesErrors | DocumentUploadAPI/Endpoints/DocumentUploadEndpoints.cs:57-61 | a rejected file gets 400 with no details and a message containing every validation error |
| Endpoints.TextFileCreated | DocumentUploadAPI/Endpoints/DocumentUploadEndpoints.cs:50-55 | a 10-byte a.txt under the defaults gives 201 at /api/documents/id, stored as id.txt in /app/uploads |
| Endpoints.ExeFileBadRequest | DocumentUploadAPI/Endpoints/DocumentUploadEndpoints.cs:57-61 | an .exe file under the defaults gives 400 with a message saying "not allowed" |
| Endpoints.OversizedFileBadRequest | DocumentUploadAPI/Endpoints/DocumentUploadEndpoints.cs:57-61 | a 200 MB file under the defaults gives 400 with a message naming 100 MB |

## Left out

- Logging (`ILogger`), Stopwatch timings and the duration histogram: no effect on the outcome. The metric instruments of DocumentUploadMetrics.cs are modelled as an event log, and that file is not part of this model.
- DocumentUpload.UploadMetric: the success event carries no duration, because the elapsed milliseconds are floating-point clock readings.
- Async, `Task` and `CancellationToken`: cancellation is one of the copy failures (`CopyFailed`), and a save happens atomically with respect to other calls.
- `Guid.NewGuid` and `DateTime.UtcNow`: the identifier and the time are inputs. `IsFileId` states the shape of an identifier (section 4.4 of RFC 4122) where a property needs it.
- Platform.ToLowerInvariant: lowers only the ASCII letters. The invariant culture's full Unicode case mapping is not modelled.
- Platform.Combine: Unix behaviour only. Windows separators, drive roots and invalid-path checks are not modelled.
- Platform.IsWhiteSpace follows `char.IsWhiteSpace`'s list. Surrogate pairs are not treated specially.
- `Path.GetInvalidFileNameChars()` is a parameter of the validator. `UnixInvalidFileNameChars` is used only for the concrete scenarios.
- FileStorage.LocalFileStorageService.Create: the C# constructor throws, and this is modelled as a static method returning a failure. `Directory.CreateDirectory` creating missing parents is not modelled; a `refused` map says which directories the host will not create.
- FileStorage.LocalFileStorageService.SaveFile: which host fault an open or copy raises is an input. The part of the upload written before a failure is given by a byte count.
- FileStorage.LocalFileStorageService.DeleteFile: a failure of `File.Exists` itself is not modelled; only `File.Delete` may fail.
- Paths are compared as strings. ".", "..", repeated separators and symbolic links are not resolved, so "/app/uploads/./x" and "/app/uploads/x" are different files in the model, though .NET's `File.Exists` and `File.Delete` treat them as one. Stored names never contain a separator, so SaveFile is unaffected; DeleteFile and FileExists given such a name are.
- 64-bit ranges: `long` sizes and the option maximum are unbounded integers; no overflow is reachable in the code.
- An exception thrown by the validator is not modelled, because the validator is total over well-formed requests.
- Program.cs, the dependency-injection and configuration setup, OpenTelemetry and Azure Monitor, route registration and OpenAPI metadata, ApiSettings, OpenTelemetryOptions, and deployment/scripts/debug.js: host wiring, not part of the upload logic.
