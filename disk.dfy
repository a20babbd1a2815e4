/** The filesystem the checkers query, as one snapshot taken before the run. */
module Disk {
  import opened PathLib

  /** The absolute paths, as component sequences, of the regular files and of the
      directories. The root directory `[]` always exists. */
  datatype Fs = Fs(files: set<seq<string>>, dirs: set<seq<string>>)

  /** `p.exists()` / `os.path.exists`: the path, resolved, names a file or directory.
      Every path the checkers query is absolute. */
  predicate Exists(fs: Fs, p: PurePath) {
    var n := Resolve(p).parts;
    n == [] || n in fs.files || n in fs.dirs
  }

  /** `p.is_file()` */
  predicate IsFile(fs: Fs, p: PurePath) {
    Resolve(p).parts in fs.files
  }

  /** `p.is_dir()` / `os.path.isdir` */
  predicate IsDir(fs: Fs, p: PurePath) {
    var n := Resolve(p).parts;
    n == [] || n in fs.dirs
  }

  /** `os.path.exists(s)` on a path string. */
  predicate OsExists(fs: Fs, s: string) {
    Exists(fs, Parse(s))
  }

  /** `os.path.isdir(s)` on a path string. */
  predicate OsIsDir(fs: Fs, s: string) {
    IsDir(fs, Parse(s))
  }
}
