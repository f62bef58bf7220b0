/** The part of Node's `fs` module the store uses, as an abstract disk: a map
    from path to file contents and the set of directories that exist. Each
    call completes atomically and callbacks are not modelled. The one
    failure modelled is a missing file: `ReadFile` yields None and `Rename`
    reports false. */
module Disk {
  import opened Wrappers

  class FileSystem {
    var files: map<string, string>
    var dirs: set<string>

    constructor (files0: map<string, string>, dirs0: set<string>)
      ensures files == files0 && dirs == dirs0
    {
      files := files0;
      dirs := dirs0;
    }

    /** `fs.stat(path)` and, when that fails, `fs.mkdir(path)`: afterwards the
        directory exists, whether or not it did before. */
    method EnsureDirectory(path: string)
      modifies this
      ensures dirs == old(dirs) + {path}
      ensures files == old(files)
    {
      if path !in dirs {
        dirs := dirs + {path};
      }
    }

    /** `fs.writeFile(path, data)`: creates or truncates the file. */
    method WriteFile(path: string, data: string)
      modifies this
      ensures files == old(files)[path := data]
      ensures dirs == old(dirs)
    {
      files := files[path := data];
    }

    /** `fs.rename(from, to)`: moves the contents and removes `from`; fails
        when `from` does not exist, changing nothing. */
    method Rename(from: string, to: string) returns (ok: bool)
      modifies this
      ensures ok == (from in old(files))
      ensures ok ==> files == (old(files) - {from})[to := old(files)[from]]
      ensures !ok ==> files == old(files)
      ensures dirs == old(dirs)
    {
      ok := from in files;
      if ok {
        var data := files[from];
        files := (files - {from})[to := data];
      }
    }

    /** A write stream opened with flag 'a' and ended with `data`: the text is
        added after whatever the file held, creating it when absent. */
    method AppendFile(path: string, data: string)
      modifies this
      ensures files == old(files)[path := Contents(old(files), path) + data]
      ensures dirs == old(dirs)
    {
      files := files[path := Contents(files, path) + data];
    }

    /** `fs.readFile(path)`: the contents, or None when the read fails. */
    function ReadFile(path: string): (r: Option<string>)
      reads this
      ensures r.Some? <==> path in files
      ensures r.Some? ==> r.value == files[path]
    {
      if path in files then Some(files[path]) else None
    }
  }

  /** What an append-mode stream finds in a file: its contents, or nothing. */
  function Contents(files: map<string, string>, path: string): string
  {
    if path in files then files[path] else ""
  }
}
