/**
 * The host the service runs on, as far as the upload pipeline touches it: the
 * file system and the exceptions its operations raise.
 */
module Host {
  import opened ApiModels

  /** An exception raised by the host: its type name (`ex.GetType().Name`) and its message. */
  datatype Fault = Fault(typeName: string, message: string)

  /**
   * The file system: the bytes of each file by full path, and the set of
   * directories that exist. File.Exists, File.Delete, FileStream and
   * Directory.CreateDirectory act on these two fields.
   */
  class FileSystem {
    var files: map<string, seq<Byte>>
    var directories: set<string>

    constructor (files: map<string, seq<Byte>>, directories: set<string>)
      ensures this.files == files && this.directories == directories
    {
      this.files := files;
      this.directories := directories;
    }
  }
}
