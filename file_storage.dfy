/**
 * LocalFileStorageService (DocumentUploadAPI/Services/FileStorageService.cs):
 * stores an upload under a generated name in the storage directory, cleans up
 * after a failed copy, deletes and looks up stored files by name, and creates
 * its directories when it starts.
 */
module FileStorage {
  import opened Wrappers
  import opened ApiModels
  import opened Platform
  import opened Host

  predicate IsLowerHexDigit(c: char)
  {
    '0' <= c <= '9' || 'a' <= c <= 'f'
  }

  /**
   * `Guid.NewGuid().ToString("N")`: the 32 lower-case hex digits of a version-4
   * UUID (section 4.4 of RFC 4122), so digit 13 is the version 4 and digit 17
   * carries the variant bits 10.
   */
  function IsFileId(id: string): (b: bool)
    ensures b ==> forall i :: 0 <= i < |id| ==> id[i] != '.' && id[i] != DirectorySeparator
  {
    && |id| == 32
    && (forall i :: 0 <= i < |id| ==> IsLowerHexDigit(id[i]))
    && id[12] == '4'
    && id[16] in {'8', '9', 'a', 'b'}
  }

  /**
   * How opening the destination and copying the upload into it went: the copy
   * completed, the FileStream could not be opened, or the copy failed or was
   * cancelled after writing some bytes.
   */
  datatype CopyOutcome =
    | Copied
    | OpenFailed(fault: Fault)
    | CopyFailed(bytesWritten: nat, fault: Fault)

  /**
   * The stored name: the identifier followed by the original extension, case
   * kept. Whatever name the client sent, what follows the identifier is
   * nothing, or a '.' and at least one more character.
   */
  function StoredFileName(fileId: string, originalFileName: string): (name: string)
    ensures |name| >= |fileId| && name[..|fileId|] == fileId
    ensures |name| > |fileId| ==> |name| >= |fileId| + 2 && name[|fileId|] == '.'
  {
    fileId + GetExtension(originalFileName)
  }

  /**
   * Where the upload is written: the stored name combined with the storage
   * directory. A name that does not start with a separator lands directly
   * inside the directory.
   */
  function StoredFilePath(storagePath: string, fileId: string, originalFileName: string): (path: string)
    ensures storagePath != "" && fileId != "" && fileId[0] != DirectorySeparator ==>
      path == AsDirectory(storagePath) + StoredFileName(fileId, originalFileName)
  {
    var name := StoredFileName(fileId, originalFileName);
    if storagePath != "" && fileId != "" && fileId[0] != DirectorySeparator then
      CombineRelative(storagePath, name);
      Combine(storagePath, name)
    else
      Combine(storagePath, name)
  }

  /** The response SaveFileAsync builds once the copy has completed. */
  function SavedResponse(options: FileUploadOptions, file: FormFile, fileId: string, now: DateTime): (r: UploadResponse)
    ensures r.id == fileId && r.originalFileName == file.fileName
    ensures r.fileSize == |file.content| && r.contentType == file.contentType && r.uploadedAt == now
    ensures r.storagePath == Combine(options.storagePath, r.fileName)
    ensures r.fileName == StoredFileName(fileId, file.fileName)
  {
    UploadResponse(
      fileId,
      StoredFileName(fileId, file.fileName),
      file.fileName,
      file.Length(),
      file.contentType,
      now,
      StoredFilePath(options.storagePath, fileId, file.fileName))
  }

  /**
   * The files after a save to `path`: FileMode.Create creates or truncates the
   * file, the copy fills it, and after a failure the catch block deletes
   * whatever is at `path` unless that deletion itself fails.
   */
  function FilesAfterSave(
    files: map<string, seq<Byte>>, path: string, content: seq<Byte>,
    copy: CopyOutcome, cleanupFault: Option<Fault>): (after: map<string, seq<Byte>>)
    ensures forall p :: p != path ==> (p in after <==> p in files)
    ensures forall p :: p != path && p in files ==> after[p] == files[p]
    ensures copy.Copied? ==> path in after && after[path] == content
    ensures !copy.Copied? && cleanupFault.None? ==> path !in after
    ensures copy.OpenFailed? && cleanupFault.Some? ==> after == files
    ensures copy.CopyFailed? && cleanupFault.Some? ==> path in after && after[path] <= content
  {
    match copy
    case Copied => files[path := content]
    case OpenFailed(_) =>
      if path in files && cleanupFault.None? then files - {path} else files
    case CopyFailed(written, _) =>
      var partial := files[path := content[..if written < |content| then written else |content|]];
      if cleanupFault.None? then partial - {path} else partial
  }

  /** A directory exists already or the host lets the service create it. */
  predicate CanCreate(directories: set<string>, path: string, refused: map<string, Fault>)
  {
    path in directories || path !in refused
  }

  /**
   * What EnsureDirectoriesExist reports: the storage directory is made first and
   * its failure stops everything; then the temp directory.
   */
  function StartupOutcome(directories: set<string>, options: FileUploadOptions, refused: map<string, Fault>): (r: Outcome<Fault>)
    ensures r.Pass? <==>
      CanCreate(directories, options.storagePath, refused)
      && CanCreate(directories + {options.storagePath}, options.tempPath, refused)
  {
    if !CanCreate(directories, options.storagePath, refused) then Fail(refused[options.storagePath])
    else if !CanCreate(directories + {options.storagePath}, options.tempPath, refused) then Fail(refused[options.tempPath])
    else Pass
  }

  /** The directories after EnsureDirectoriesExist: those it managed to create are added. */
  function DirectoriesAfterStartup(directories: set<string>, options: FileUploadOptions, refused: map<string, Fault>): (after: set<string>)
    ensures directories <= after <= directories + {options.storagePath, options.tempPath}
    ensures StartupOutcome(directories, options, refused).Pass? ==>
      options.storagePath in after && options.tempPath in after
    // a failed startup has created at most the storage directory
    ensures StartupOutcome(directories, options, refused).Fail? ==> after <= directories + {options.storagePath}
  {
    if !CanCreate(directories, options.storagePath, refused) then directories
    else if !CanCreate(directories + {options.storagePath}, options.tempPath, refused) then directories + {options.storagePath}
    else directories + {options.storagePath, options.tempPath}
  }

  /** The storage service over the host's file system. */
  class LocalFileStorageService {
    const options: FileUploadOptions
    const fs: FileSystem

    /** Binds the fields; Create is the C# constructor, which also makes the directories. */
    constructor (options: FileUploadOptions, fs: FileSystem)
      ensures this.options == options && this.fs == fs
    {
      this.options := options;
      this.fs := fs;
    }

    /**
     * The C# constructor: bind the options, then EnsureDirectoriesExist, whose
     * exception escapes the constructor.
     */
    static method Create(options: FileUploadOptions, fs: FileSystem, refused: map<string, Fault>)
      returns (r: Result<LocalFileStorageService, Fault>)
      modifies fs
      ensures fs.files == old(fs.files)
      ensures fs.directories == DirectoriesAfterStartup(old(fs.directories), options, refused)
      ensures r.Success? <==> StartupOutcome(old(fs.directories), options, refused).Pass?
      ensures r.Failure? ==> StartupOutcome(old(fs.directories), options, refused) == Fail(r.error)
      ensures r.Success? ==> fresh(r.value) && r.value.options == options && r.value.fs == fs
      ensures r.Success? ==> options.storagePath in fs.directories && options.tempPath in fs.directories
    {
      var service := new LocalFileStorageService(options, fs);
      var outcome := service.EnsureDirectoriesExist(refused);
      if outcome.Fail? {
        return Failure(outcome.error);
      }
      return Success(service);
    }

    /** Creates the storage directory, then the temp directory, each only when missing. */
    method EnsureDirectoriesExist(refused: map<string, Fault>) returns (r: Outcome<Fault>)
      modifies fs
      ensures fs.files == old(fs.files)
      ensures fs.directories == DirectoriesAfterStartup(old(fs.directories), options, refused)
      ensures r == StartupOutcome(old(fs.directories), options, refused)
    {
      if options.storagePath !in fs.directories {
        if options.storagePath in refused {
          return Fail(refused[options.storagePath]);
        }
        fs.directories := fs.directories + {options.storagePath};
      }

      if options.tempPath !in fs.directories {
        if options.tempPath in refused {
          return Fail(refused[options.tempPath]);
        }
        fs.directories := fs.directories + {options.tempPath};
      }
      return Pass;
    }

    /**
     * SaveFileAsync with the identifier and the clock supplied by the caller and
     * the fate of the copy given by `copy`. The description is accepted and unused.
     */
    method SaveFile(
      file: FormFile, description: Option<string>, fileId: string, now: DateTime,
      copy: CopyOutcome, cleanupFault: Option<Fault>) returns (r: Result<UploadResponse, Fault>)
      modifies fs
      ensures fs.directories == old(fs.directories)
      ensures fs.files == FilesAfterSave(old(fs.files), StoredFilePath(options.storagePath, fileId, file.fileName),
                                         file.content, copy, cleanupFault)
      ensures copy.Copied? ==> r == Success(SavedResponse(options, file, fileId, now))
      ensures !copy.Copied? ==> r == Failure(copy.fault)
    {
      var fileExtension := GetExtension(file.fileName);
      var uniqueFileName := fileId + fileExtension;
      var filePath := Combine(options.storagePath, uniqueFileName);

      var fault: Fault;
      match copy {
        case Copied =>
          // new FileStream(filePath, FileMode.Create), then CopyToAsync
          fs.files := fs.files[filePath := file.content];
          return Success(UploadResponse(
            fileId, uniqueFileName, file.fileName, file.Length(), file.contentType, now, filePath));
        case OpenFailed(f) =>
          fault := f;
        case CopyFailed(written, f) =>
          // the file was created, then only part of the upload reached it
          var n := if written < |file.content| then written else |file.content|;
          fs.files := fs.files[filePath := file.content[..n]];
          fault := f;
      }

      // catch: remove the partial file; a failing File.Delete is only logged
      if filePath in fs.files {
        if cleanupFault.None? {
          fs.files := fs.files - {filePath};
        }
      }
      return Failure(fault);
    }

    /** DeleteFileAsync: true when the file was there and is gone; a failing File.Delete is rethrown. */
    method DeleteFile(fileName: string, deleteFault: Option<Fault>) returns (r: Result<bool, Fault>)
      modifies fs
      ensures fs.directories == old(fs.directories)
      ensures var path := Combine(options.storagePath, fileName);
        && (path !in old(fs.files) ==> r == Success(false) && fs.files == old(fs.files))
        && (path in old(fs.files) && deleteFault.None? ==> r == Success(true) && fs.files == old(fs.files) - {path})
        && (path in old(fs.files) && deleteFault.Some? ==> r == Failure(deleteFault.value) && fs.files == old(fs.files))
    {
      var filePath := Combine(options.storagePath, fileName);
      if filePath in fs.files {
        if deleteFault.Some? {
          return Failure(deleteFault.value);
        }
        fs.files := fs.files - {filePath};
        return Success(true);
      }
      return Success(false);
    }

    /** FileExistsAsync: whether the name, inside the storage directory, is a file. */
    method FileExists(fileName: string) returns (found: bool)
      ensures found <==> Combine(options.storagePath, fileName) in fs.files
    {
      var filePath := Combine(options.storagePath, fileName);
      found := filePath in fs.files;
    }
  }

  /** Deleting the same name twice: the second call finds nothing and changes nothing. */
  method DeleteTwice(storage: LocalFileStorageService, fileName: string, deleteFault: Option<Fault>)
    returns (first: Result<bool, Fault>, second: Result<bool, Fault>)
    modifies storage.fs
    ensures first.Success? ==> second == Success(false)
    ensures first.Success? ==> storage.fs.files == old(storage.fs.files) - {Combine(storage.options.storagePath, fileName)}
  {
    first := storage.DeleteFile(fileName, deleteFault);
    second := storage.DeleteFile(fileName, None);
  }

  // ------------------------------------------------------------------ lemmas

  /**
   * The stored name starts with the identifier and has the original file's
   * extension, in its original case.
   */
  lemma StoredNameKeepsExtension(fileId: string, originalFileName: string)
    requires IsFileId(fileId)
    ensures var name := StoredFileName(fileId, originalFileName);
      |name| >= 32 && name[..32] == fileId && GetExtension(name) == GetExtension(originalFileName)
  {
    var ext := GetExtension(originalFileName);
    var name := fileId + ext;
    assert name[..32] == fileId;
    if ext == "" {
      assert name == fileId;
      NoDotNoExtension(fileId);
    } else {
      var tail := ext[1..];
      assert ext == "." + tail;
      assert name == fileId + "." + tail;
      ExtensionOfDottedSuffix(fileId, tail);
    }
  }

  /** The stored name is one path component: not empty, not rooted, without a separator. */
  lemma StoredNameIsPlain(fileId: string, originalFileName: string)
    requires IsFileId(fileId)
    ensures var name := StoredFileName(fileId, originalFileName);
      && name != "" && !IsPathRooted(name)
      && forall k :: 0 <= k < |name| ==> name[k] != DirectorySeparator
  {
    var ext := GetExtension(originalFileName);
    var name := fileId + ext;
    forall k | 0 <= k < |name|
      ensures name[k] != DirectorySeparator
    {
      if k < 32 {
        assert name[k] == fileId[k] && IsLowerHexDigit(fileId[k]);
      } else {
        assert name[k] == ext[k - 32];
      }
    }
  }

  /** Two uploads with different identifiers never share a path, whatever their names. */
  lemma DistinctIdsDistinctPaths(storagePath: string, id1: string, name1: string, id2: string, name2: string)
    requires IsFileId(id1) && IsFileId(id2) && id1 != id2
    ensures StoredFilePath(storagePath, id1, name1) != StoredFilePath(storagePath, id2, name2)
  {
    var s1 := StoredFileName(id1, name1);
    var s2 := StoredFileName(id2, name2);
    StoredNameKeepsExtension(id1, name1);
    StoredNameKeepsExtension(id2, name2);
    StoredNameIsPlain(id1, name1);
    StoredNameIsPlain(id2, name2);
    assert s1 != s2 by {
      assert s1[..32] == id1 && s2[..32] == id2;
    }
    if storagePath != "" {
      CombineInjective(storagePath, s1, s2);
    }
  }

  /** The stored name of "a.txt" is 32 lower-case hex digits followed by ".txt". */
  lemma TextFileStoredName(fileId: string)
    requires IsFileId(fileId)
    ensures var name := StoredFileName(fileId, "a.txt");
      && name == fileId + ".txt"
      && |name| == 36 && name[32..] == ".txt"
      && forall i :: 0 <= i < 32 ==> IsLowerHexDigit(name[i])
  {
    assert "a.txt" == "a" + "." + "txt";
    ExtensionOfDottedSuffix("a", "txt");
  }

  /** Saving "a.txt" under the default options answers with "<id>.txt" inside /app/uploads. */
  lemma TextFileSavedResponse(f: FormFile, fileId: string, now: DateTime)
    requires f.fileName == "a.txt" && IsFileId(fileId)
    ensures var r := SavedResponse(DefaultOptions, f, fileId, now);
      && r.id == fileId && r.originalFileName == "a.txt" && r.fileSize == |f.content|
      && r.fileName == fileId + ".txt"
      && r.storagePath == DefaultStoragePath + "/" + r.fileName
  {
    var name := StoredFileName(fileId, "a.txt");
    TextFileStoredName(fileId);
    StoredNameIsPlain(fileId, "a.txt");
    DefaultDirectoryJoin(name);
  }

  /** A plain name is placed in the default storage directory after one separator. */
  lemma DefaultDirectoryJoin(name: string)
    requires name != "" && !IsPathRooted(name)
    ensures Combine(DefaultStoragePath, name) == DefaultStoragePath + "/" + name
  {
    var dir := DefaultStoragePath;
    assert dir[|dir| - 1] == 's';
  }

  /** After a failed copy whose cleanup worked, no file is left at the destination. */
  lemma FailedSaveLeavesNoPartialFile(
    files: map<string, seq<Byte>>, path: string, content: seq<Byte>, written: nat, fault: Fault)
    ensures path !in FilesAfterSave(files, path, content, CopyFailed(written, fault), None)
    ensures FilesAfterSave(files, path, content, CopyFailed(written, fault), None) == files - {path}
  {
  }

  /** A save to an occupied path replaces the old bytes: FileMode.Create truncates. */
  lemma SaveOverwrites(files: map<string, seq<Byte>>, path: string, content: seq<Byte>)
    requires path in files
    ensures FilesAfterSave(files, path, content, Copied, None) == files[path := content]
    ensures |FilesAfterSave(files, path, content, Copied, None)| == |files|
  {
  }
}
