/** What the shell learns from the operating system, taken as data: directory listings,
    which paths exist, and the environment variables it reads. */
module System {
  import opened Wrappers

  /** One entry of a directory listing (`fs::read_dir`), together with what the metadata
      of its path says: a directory, a regular file, and the Unix permission bits. An
      entry whose metadata cannot be read is neither a directory nor a file. */
  datatype Entry = Entry(name: string, isDir: bool, isFile: bool, mode: bv32)

  /** The directories `read_dir` can open, keyed by the path string it is given, each
      with its listing in the (unspecified) order the system returns it. */
  type FileSystem = map<string, seq<Entry>>

  /** The listing of `dir`; a directory that cannot be opened lists nothing. */
  function Listing(fs: FileSystem, dir: string): seq<Entry>
  {
    if dir in fs then fs[dir] else []
  }

  /** The environment of one command: the filesystem as listings, the paths whose
      metadata can be read, and the `PATH` and `HOME` variables (absent when unset). */
  datatype Env = Env(fs: FileSystem, existing: set<string>, path: Option<string>, home: Option<string>)
}
