/**
 * FileValidationService (DocumentUploadAPI/Services/FileValidationService.cs):
 * the rule-based check of an uploaded file's length, extension and name.
 */
module FileValidation {
  import opened Wrappers
  import opened ApiModels
  import opened Platform

  const EmptyFileError: string := "File is required and cannot be empty."
  const InvalidFileNameError: string := "Invalid file name."

  /** `MaxFileSizeBytes / 1024 / 1024`, with C#'s truncating division. */
  function MaxMegabytes(maxFileSizeBytes: int): int
  {
    TruncDiv(TruncDiv(maxFileSizeBytes, 1024), 1024)
  }

  /** The size message: it names the limit in whole megabytes. */
  function SizeError(maxFileSizeBytes: int): (m: string)
    ensures ContainsSubstring(m, IntToString(MaxMegabytes(maxFileSizeBytes)) + " MB.")
  {
    var limit := IntToString(MaxMegabytes(maxFileSizeBytes)) + " MB.";
    var prefix := "File size exceeds maximum allowed size of ";
    assert SubstringAt(prefix + limit, limit, |prefix|);
    prefix + limit
  }

  /** The extension message: it quotes the refused extension. */
  function ExtensionError(extension: string, allowed: seq<string>): (m: string)
    ensures ContainsSubstring(m, "'" + extension + "'")
  {
    var quoted := "'" + extension + "'";
    var rest := " is not allowed. Allowed types: " + Join(", ", allowed);
    InfixIsSubstring("File type ", quoted, rest);
    "File type " + quoted + rest
  }

  /** The extension the rules look at: Path.GetExtension of the name, lowered. */
  function LoweredExtension(fileName: string): string
  {
    ToLowerInvariant(GetExtension(fileName))
  }

  /** Rule 1: the file is missing or has no bytes. */
  predicate IsEmptyFile(file: Option<FormFile>)
  {
    file.None? || file.value.Length() == 0
  }

  /** Rule 2: strictly more bytes than the configured maximum. */
  predicate ExceedsMaxSize(options: FileUploadOptions, file: FormFile)
  {
    file.Length() > options.maxFileSizeBytes
  }

  /** Rule 3: the lowered extension is an entry of the allow-list, compared ordinally. */
  predicate ExtensionAllowed(options: FileUploadOptions, fileName: string)
  {
    LoweredExtension(fileName) in options.allowedExtensions
  }

  /** Rule 4: empty or white-space name, or one holding a character the host forbids. */
  predicate IsInvalidFileName(fileName: string, invalidChars: set<char>)
  {
    IsNullOrWhiteSpace(fileName) || IndexOfAny(fileName, invalidChars) >= 0
  }

  /**
   * The errors ValidateFile reports: the empty-file error alone, or else one
   * message per broken rule in the order size, extension, name.
   */
  function ValidationErrors(options: FileUploadOptions, invalidChars: set<char>, file: Option<FormFile>): (errors: seq<string>)
    ensures |errors| <= 3
    ensures IsEmptyFile(file) ==> errors == [EmptyFileError]
  {
    if IsEmptyFile(file) then [EmptyFileError]
    else
      var f := file.value;
      RuleErrors(ExceedsMaxSize(options, f), SizeError(options.maxFileSizeBytes),
                 !ExtensionAllowed(options, f.fileName),
                 ExtensionError(LoweredExtension(f.fileName), options.allowedExtensions),
                 IsInvalidFileName(f.fileName, invalidChars))
  }

  /**
   * The errors of a present, non-empty file: the size, extension and name
   * messages, each appended when its rule is broken.
   */
  function RuleErrors(tooLarge: bool, sizeMessage: string, refused: bool, extensionMessage: string, badName: bool): seq<string>
  {
    (if tooLarge then [sizeMessage] else [])
    + (if refused then [extensionMessage] else [])
    + (if badName then [InvalidFileNameError] else [])
  }

  /** The validator: immutable options and the host's invalid file-name characters. */
  class FileValidationService {
    const options: FileUploadOptions
    const invalidFileNameChars: set<char>

    constructor (options: FileUploadOptions, invalidFileNameChars: set<char>)
      ensures this.options == options && this.invalidFileNameChars == invalidFileNameChars
    {
      this.options := options;
      this.invalidFileNameChars := invalidFileNameChars;
    }

    /** Builds the error list by successive appends, returning early for an empty file. */
    method ValidateFile(file: Option<FormFile>) returns (result: ValidationResult)
      ensures result.errors == ValidationErrors(options, invalidFileNameChars, file)
      ensures result.isValid <==> result.errors == []
    {
      var errors: seq<string> := [];

      if file.None? || file.value.Length() == 0 {
        errors := errors + [EmptyFileError];
        return ValidationResult(false, errors);
      }
      var f := file.value;

      if f.Length() > options.maxFileSizeBytes {
        errors := errors + [SizeError(options.maxFileSizeBytes)];
      }

      var fileExtension := ToLowerInvariant(GetExtension(f.fileName));
      if fileExtension !in options.allowedExtensions {
        errors := errors + [ExtensionError(fileExtension, options.allowedExtensions)];
      }

      if IsNullOrWhiteSpace(f.fileName) || IndexOfAny(f.fileName, invalidFileNameChars) >= 0 {
        errors := errors + [InvalidFileNameError];
      }

      assert errors == RuleErrors(ExceedsMaxSize(options, f), SizeError(options.maxFileSizeBytes),
                                  !ExtensionAllowed(options, f.fileName),
                                  ExtensionError(LoweredExtension(f.fileName), options.allowedExtensions),
                                  IsInvalidFileName(f.fileName, invalidFileNameChars));
      var isValid := |errors| == 0;
      return ValidationResult(isValid, errors);
    }
  }

  // ------------------------------------------------------------------ lemmas

  /** The size message is told apart from the others by its sixth character. */
  lemma SizeMark(maxFileSizeBytes: int)
    ensures |SizeError(maxFileSizeBytes)| > 5 && SizeError(maxFileSizeBytes)[5] == 's'
  {
    var prefix := "File size exceeds maximum allowed size of ";
    assert SizeError(maxFileSizeBytes) == prefix + (IntToString(MaxMegabytes(maxFileSizeBytes)) + " MB.");
    assert (prefix + (IntToString(MaxMegabytes(maxFileSizeBytes)) + " MB."))[5] == prefix[5];
  }

  /** The extension message is told apart from the others by its sixth character. */
  lemma ExtensionMark(extension: string, allowed: seq<string>)
    ensures |ExtensionError(extension, allowed)| > 5 && ExtensionError(extension, allowed)[5] == 't'
  {
    var prefix := "File type ";
    var quoted := "'" + extension + "'";
    var rest := " is not allowed. Allowed types: " + Join(", ", allowed);
    assert ExtensionError(extension, allowed) == prefix + quoted + rest;
    assert (prefix + quoted + rest)[5] == prefix[5];
  }

  /**
   * Whatever the size and extension messages say, as long as they can be told
   * apart, each is reported exactly when its rule is broken, in rule order.
   */
  lemma RuleErrorsFollowRules(tooLarge: bool, sizeMessage: string, refused: bool, extensionMessage: string, badName: bool)
    requires |sizeMessage| > 5 && sizeMessage[5] == 's'
    requires |extensionMessage| > 5 && extensionMessage[5] == 't'
    ensures var errors := RuleErrors(tooLarge, sizeMessage, refused, extensionMessage, badName);
      && |errors| <= 3
      && (sizeMessage in errors <==> tooLarge)
      && (extensionMessage in errors <==> refused)
      && (InvalidFileNameError in errors <==> badName)
      && EmptyFileError !in errors
      && (tooLarge ==> errors[0] == sizeMessage)
      && (refused ==> errors[if tooLarge then 1 else 0] == extensionMessage)
      && (badName ==> errors[|errors| - 1] == InvalidFileNameError)
  {
  }

  /** A file is valid exactly when it is present, non-empty and passes rules 2 to 4. */
  lemma ValidIffAllRulesPass(options: FileUploadOptions, invalidChars: set<char>, file: Option<FormFile>)
    ensures ValidationErrors(options, invalidChars, file) == [] <==>
      && !IsEmptyFile(file)
      && !ExceedsMaxSize(options, file.value)
      && ExtensionAllowed(options, file.value.fileName)
      && !IsInvalidFileName(file.value.fileName, invalidChars)
  {
  }

  /**
   * For a non-empty file each rule's message is reported exactly when that rule
   * is broken, and the empty-file message never is.
   */
  lemma ErrorsFollowRules(options: FileUploadOptions, invalidChars: set<char>, f: FormFile)
    requires f.Length() > 0
    ensures var errors := ValidationErrors(options, invalidChars, Some(f));
      && (SizeError(options.maxFileSizeBytes) in errors <==> ExceedsMaxSize(options, f))
      && (ExtensionError(LoweredExtension(f.fileName), options.allowedExtensions) in errors
          <==> !ExtensionAllowed(options, f.fileName))
      && (InvalidFileNameError in errors <==> IsInvalidFileName(f.fileName, invalidChars))
      && EmptyFileError !in errors
  {
    RulesOfFile(options, invalidChars, f);
  }

  /** The messages of a non-empty file come in the order size, extension, name. */
  lemma ErrorsInRuleOrder(options: FileUploadOptions, invalidChars: set<char>, f: FormFile)
    requires f.Length() > 0
    ensures var errors := ValidationErrors(options, invalidChars, Some(f));
      && (ExceedsMaxSize(options, f) ==> errors[0] == SizeError(options.maxFileSizeBytes))
      && (!ExtensionAllowed(options, f.fileName) ==>
            errors[if ExceedsMaxSize(options, f) then 1 else 0]
            == ExtensionError(LoweredExtension(f.fileName), options.allowedExtensions))
      && (IsInvalidFileName(f.fileName, invalidChars) ==> errors[|errors| - 1] == InvalidFileNameError)
  {
    RulesOfFile(options, invalidChars, f);
  }

  /** RuleErrorsFollowRules, instantiated with one file's verdicts and messages. */
  lemma RulesOfFile(options: FileUploadOptions, invalidChars: set<char>, f: FormFile)
    requires f.Length() > 0
    ensures var extension := LoweredExtension(f.fileName);
      var errors := RuleErrors(ExceedsMaxSize(options, f), SizeError(options.maxFileSizeBytes),
                               !ExtensionAllowed(options, f.fileName),
                               ExtensionError(extension, options.allowedExtensions),
                               IsInvalidFileName(f.fileName, invalidChars));
      && errors == ValidationErrors(options, invalidChars, Some(f))
      && (SizeError(options.maxFileSizeBytes) in errors <==> ExceedsMaxSize(options, f))
      && (ExtensionError(extension, options.allowedExtensions) in errors <==> !ExtensionAllowed(options, f.fileName))
      && (InvalidFileNameError in errors <==> IsInvalidFileName(f.fileName, invalidChars))
      && EmptyFileError !in errors
      && (ExceedsMaxSize(options, f) ==> errors[0] == SizeError(options.maxFileSizeBytes))
      && (!ExtensionAllowed(options, f.fileName) ==>
            errors[if ExceedsMaxSize(options, f) then 1 else 0] == ExtensionError(extension, options.allowedExtensions))
      && (IsInvalidFileName(f.fileName, invalidChars) ==> errors[|errors| - 1] == InvalidFileNameError)
  {
    var extension := LoweredExtension(f.fileName);
    SizeMark(options.maxFileSizeBytes);
    ExtensionMark(extension, options.allowedExtensions);
    RuleErrorsFollowRules(ExceedsMaxSize(options, f), SizeError(options.maxFileSizeBytes),
                          !ExtensionAllowed(options, f.fileName),
                          ExtensionError(extension, options.allowedExtensions),
                          IsInvalidFileName(f.fileName, invalidChars));
  }

  /** The size check is strict: a file of exactly the maximum length passes it. */
  lemma MaximumLengthPasses(options: FileUploadOptions, invalidChars: set<char>, f: FormFile)
    requires 0 < f.Length() == options.maxFileSizeBytes
    ensures SizeError(options.maxFileSizeBytes) !in ValidationErrors(options, invalidChars, Some(f))
  {
    ErrorsFollowRules(options, invalidChars, f);
  }

  /** A string inside a larger one stays a substring of it. */
  lemma SubstringInContext(a: string, s: string, b: string, t: string)
    requires ContainsSubstring(s, t)
    ensures ContainsSubstring(a + s + b, t)
  {
    var k :| 0 <= k <= |s| && SubstringAt(s, t, k);
    var whole := a + s + b;
    assert whole[|a| + k..|a| + k + |t|] == s[k..k + |t|];
    assert SubstringAt(whole, t, |a| + k);
  }

  /** The extension message says the type is not allowed. */
  lemma ExtensionErrorSaysNotAllowed(extension: string, allowed: seq<string>)
    ensures ContainsSubstring(ExtensionError(extension, allowed), "not allowed")
  {
    var head := "File type " + ("'" + extension + "'");
    var tail := " is not allowed. Allowed types: ";
    var list := Join(", ", allowed);
    assert tail == " is " + "not allowed" + ". Allowed types: ";
    InfixIsSubstring(" is ", "not allowed", ". Allowed types: ");
    SubstringInContext(head, tail, list, "not allowed");
    assert ExtensionError(extension, allowed) == head + (tail + list);
    assert head + (tail + list) == head + tail + list;
  }

  /** The extension message lists every entry of the allow-list. */
  lemma ExtensionErrorListsAllowed(extension: string, allowed: seq<string>)
    ensures forall i :: 0 <= i < |allowed| ==> ContainsSubstring(ExtensionError(extension, allowed), allowed[i])
  {
    var head := "File type " + ("'" + extension + "'");
    var tail := " is not allowed. Allowed types: ";
    var list := Join(", ", allowed);
    var m := ExtensionError(extension, allowed);
    assert m == head + (tail + list);
    assert m == (head + tail) + list + "";
    forall i | 0 <= i < |allowed|
      ensures ContainsSubstring(m, allowed[i])
    {
      JoinContainsItem(", ", allowed, i);
      SubstringInContext(head + tail, list, "", allowed[i]);
    }
  }

  /**
   * The allow-list is compared case-sensitively against a lowered extension,
   * so an entry holding an upper-case letter never matches any file.
   */
  lemma UpperCaseEntryNeverMatches(fileName: string, entry: string)
    requires !HasNoUpperAscii(entry)
    ensures LoweredExtension(fileName) != entry
  {
    LoweredHasNoUpper(GetExtension(fileName));
  }

  /** With the default limit of 104857600 bytes the size message names 100 MB. */
  lemma DefaultSizeErrorNames100MB()
    ensures MaxMegabytes(DefaultOptions.maxFileSizeBytes) == 100
    ensures SizeError(DefaultOptions.maxFileSizeBytes) == "File size exceeds maximum allowed size of 100 MB."
    ensures ContainsSubstring(SizeError(DefaultOptions.maxFileSizeBytes), "100 MB")
  {
    assert NatToString(1) == "1";
    assert NatToString(10) == "10";
    assert NatToString(100) == "100";
    InfixIsSubstring("File size exceeds maximum allowed size of ", "100 MB", ".");
    assert "File size exceeds maximum allowed size of " + "100 MB" + "." == "File size exceeds maximum allowed size of 100 MB.";
  }

  /** A missing or zero-length file gets exactly the one empty-file error. */
  lemma EmptyFileSingleError(options: FileUploadOptions, invalidChars: set<char>, file: Option<FormFile>)
    requires file.None? || file.value.content == []
    ensures ValidationErrors(options, invalidChars, file) == ["File is required and cannot be empty."]
  {
  }

  /** A 200 MB file under the default options is rejected with the 100 MB message. */
  lemma OversizedFileRejected(f: FormFile, invalidChars: set<char>)
    requires f.Length() == 200 * 1024 * 1024
    ensures var errors := ValidationErrors(DefaultOptions, invalidChars, Some(f));
      errors != [] && errors[0] == "File size exceeds maximum allowed size of 100 MB."
  {
    DefaultSizeErrorNames100MB();
  }

  /** Any file whose extension lowers to ".exe" is refused under the defaults, with the "not allowed" message. */
  lemma ExeFileRejected(f: FormFile, invalidChars: set<char>)
    requires f.Length() > 0
    requires LoweredExtension(f.fileName) == ".exe"
    ensures var errors := ValidationErrors(DefaultOptions, invalidChars, Some(f));
      && ExtensionError(".exe", DefaultAllowedExtensions) in errors
      && ContainsSubstring(ExtensionError(".exe", DefaultAllowedExtensions), "not allowed")
  {
    ErrorsFollowRules(DefaultOptions, invalidChars, f);
    ExtensionErrorSaysNotAllowed(".exe", DefaultAllowedExtensions);
  }

  /** "a.txt" has the allowed extension ".txt" under the defaults. */
  lemma TextExtensionAllowed()
    ensures ExtensionAllowed(DefaultOptions, "a.txt")
  {
    assert "a.txt" == "a" + "." + "txt";
    ExtensionOfDottedSuffix("a", "txt");
    LowerCaseIsFixed(".txt");
  }

  /** "a.txt" is a valid file name on Unix. */
  lemma TextFileNameValid()
    ensures !IsInvalidFileName("a.txt", UnixInvalidFileNameChars)
  {
    var name := "a.txt";
    assert !IsWhiteSpace(name[0]);
    assert forall i :: 0 <= i < |name| ==> name[i] !in UnixInvalidFileNameChars;
  }

  /** A 10-byte file named "a.txt" passes every rule under the defaults on Unix. */
  lemma SmallTextFileIsValid(f: FormFile)
    requires f.fileName == "a.txt" && f.Length() == 10
    ensures ValidationErrors(DefaultOptions, UnixInvalidFileNameChars, Some(f)) == []
  {
    TextExtensionAllowed();
    TextFileNameValid();
    assert !ExceedsMaxSize(DefaultOptions, f);
    ValidIffAllRulesPass(DefaultOptions, UnixInvalidFileNameChars, Some(f));
  }

}
