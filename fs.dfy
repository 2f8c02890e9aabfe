/**
 * The part of the file system the two scripts touch: the contents of files
 * by path, and the set of directory paths that exist.  Paths are compared
 * as strings; `./lib/a` and `lib/a` are different keys here.
 */
module FileSystems {
  import opened Paths

  datatype Disk = Disk(files: map<string, string>, dirs: set<string>)

  /** The file system the tool works on. */
  class FileSystem {
    var files: map<string, string>
    var dirs: set<string>

    constructor (files0: map<string, string>, dirs0: set<string>)
      ensures files == files0 && dirs == dirs0
    {
      files := files0;
      dirs := dirs0;
    }

    function Snapshot(): Disk
      reads this
    {
      Disk(files, dirs)
    }

    /** `os.makedirs(d, exist_ok=True)`: fails on the empty path, and otherwise
        leaves `d` and the directories above it in place. */
    method MakeDirs(d: string) returns (ok: bool)
      modifies this
      ensures ok <==> d != []
      ensures files == old(files)
      ensures dirs == old(dirs) + (if ok then Ancestry(d) else {})
    {
      ok := d != [];
      if ok {
        dirs := dirs + Ancestry(d);
      }
    }

    /** `open(path, 'r').read()` */
    method Read(path: string) returns (content: string)
      requires path in files
      ensures content == files[path]
    {
      content := files[path];
    }

    /** `open(path, 'w').write(content)` */
    method Write(path: string, content: string)
      modifies this
      ensures files == old(files)[path := content]
      ensures dirs == old(dirs)
    {
      files := files[path := content];
    }
  }
}
