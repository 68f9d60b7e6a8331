/**
 * The part of `node:fs/promises` the core uses, as a map from path to UTF-8 text.
 * Directories (and `mkdir`) are not modelled: a path names a file or nothing.
 */
module FileSystems {
  type Path = string

  /** The rejection of `fs.readFile` (or `fs.rename`) for a path that names no file: ENOENT. */
  datatype FsError = NoSuchFile(path: Path)

  class FileSystem {
    var files: map<Path, string>

    constructor (initial: map<Path, string>)
      ensures files == initial
    {
      files := initial;
    }
  }

  /** `fs.rename(from, to)` on an existing `from`: the text moves, replacing any file at `to`. */
  function Renamed(files: map<Path, string>, from: Path, to: Path): (r: map<Path, string>)
    requires from in files
    ensures to in r && r[to] == files[from]
    ensures from != to ==> from !in r
    ensures forall p :: p != from && p != to ==> (p in r <==> p in files) && (p in r ==> r[p] == files[p])
  {
    (files - {from})[to := files[from]]
  }
}
