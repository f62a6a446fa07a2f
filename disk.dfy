/** The filesystem as the archive engine sees it: which paths exist, which
    of them are directories, their modification times, and what the
    platform decides about resolving paths and duplicating files. */
module Disk {
  import opened Wrappers

  /** Every existing path (file or directory) with its modification time
      (`stat().st_mtime`). */
  type Mtimes = map<string, real>

  /** Platform behaviour the model does not compute. */
  datatype Host = Host(
    /** `Path.resolve()` */
    resolve: string -> string,
    /** whether `os.link(src, dst)` may succeed when `dst` is free (same
        volume, supporting filesystem, permission) */
    linkAllowed: (string, string) -> bool,
    /** whether `shutil.copy2(src, dst)` may succeed (permission, space) */
    copyAllowed: (string, string) -> bool,
    /** what a failed `shutil.copy2(src, dst)` leaves at `dst`: None when it
        failed before opening the target, otherwise the modification time
        of the empty or partial file that opening the target for writing
        created or truncated */
    copyResidue: (string, string) -> Option<real>)

  class FileSystem {
    var mtimes: Mtimes
    var dirs: set<string>
    const host: Host

    constructor(mtimes: Mtimes, dirs: set<string>, host: Host)
      ensures this.mtimes == mtimes && this.dirs == dirs && this.host == host
    {
      this.mtimes := mtimes;
      this.dirs := dirs;
      this.host := host;
    }
  }

  /** `Path(p).exists()` */
  predicate Exists(mtimes: Mtimes, p: string) {
    p in mtimes
  }

  /** `Path(p).is_file()` */
  predicate IsFile(mtimes: Mtimes, dirs: set<string>, p: string) {
    p in mtimes && p !in dirs
  }
}
