/** The file system as the plugins see it: the content of each readable file,
    and the paths that refuse to be opened for writing. Opening, writing and
    closing are collapsed into one replacement of a file's whole content. */
module Files {
  import opened Wrappers

  /** The text of the IOError Python 2 raises when opening a missing file. */
  function NoSuchFile(path: string): string {
    "[Errno 2] No such file or directory: '" + path + "'"
  }

  /** The text of the IOError Python 2 raises when a file cannot be opened for writing. */
  function PermissionDenied(path: string): string {
    "[Errno 13] Permission denied: '" + path + "'"
  }

  class FileSystem {
    /** The content of every file that can be opened for reading. */
    var files: map<string, string>
    /** The paths that cannot be opened for writing. */
    var readOnly: set<string>

    constructor (files: map<string, string>, readOnly: set<string>)
      ensures this.files == files && this.readOnly == readOnly
    {
      this.files := files;
      this.readOnly := readOnly;
    }

    /** `open(path).read()`: the content, or the error of a missing file. */
    method Read(path: string) returns (r: Wrappers.Result<string, string>)
      ensures path in files ==> r == Ok(files[path])
      ensures path !in files ==> r == Err(NoSuchFile(path))
    {
      if path in files {
        r := Ok(files[path]);
      } else {
        r := Err(NoSuchFile(path));
      }
    }

    /** `open(path, 'w')`, the writes and `close()`: the file's content becomes
        `content`, or, when the path cannot be opened for writing, nothing
        changes and the error is returned. */
    method Write(path: string, content: string) returns (err: Option<string>)
      modifies this`files
      ensures path in readOnly ==> err == Some(PermissionDenied(path)) && files == old(files)
      ensures path !in readOnly ==> err == None && files == old(files)[path := content]
    {
      if path in readOnly {
        err := Some(PermissionDenied(path));
      } else {
        files := files[path := content];
        err := None;
      }
    }
  }
}
