/**
 * The part of the filesystem the scripts touch: regular files with their
 * bytes, and directories.  Paths are compared as strings.
 */
module FileSystem {

  import opened Paths

  newtype byte = x: int | 0 <= x < 256

  type Bytes = seq<byte>

  datatype Disk = Disk(files: map<Path, Bytes>, dirs: set<Path>)

  /** No path is both a regular file and a directory. */
  predicate WellFormed(d: Disk)
  {
    d.files.Keys !! d.dirs
  }

  /** `os.path.exists`: a file or a directory. */
  predicate Exists(d: Disk, p: Path)
  {
    p in d.files || p in d.dirs
  }

  /** The regular file `p` exists and holds exactly `b`. */
  predicate Holds(d: Disk, p: Path, b: Bytes)
  {
    p in d.files && d.files[p] == b
  }

  /** `if not os.path.exists(p): os.makedirs(p)`: afterwards `p` exists; no file changes. */
  function EnsureDir(d: Disk, p: Path): (r: Disk)
    ensures r.files == d.files
    ensures Exists(r, p)
    ensures d.dirs <= r.dirs && r.dirs <= d.dirs + {p}
    ensures WellFormed(d) ==> WellFormed(r)
  {
    if Exists(d, p) then d else d.(dirs := d.dirs + {p})
  }

  /** `shutil.copyfile(src, dst)`: `dst` gets the bytes of `src`; nothing else changes. */
  function CopyFile(d: Disk, src: Path, dst: Path): (r: Disk)
    requires src in d.files
    ensures r.dirs == d.dirs
    ensures r.files.Keys == d.files.Keys + {dst}
    ensures r.files[dst] == d.files[src]
    ensures forall q :: q in d.files && q != dst ==> r.files[q] == d.files[q]
    ensures WellFormed(d) && dst !in d.dirs ==> WellFormed(r)
  {
    d.(files := d.files[dst := d.files[src]])
  }

  /** `os.rename(src, dst)`: the bytes move to `dst` and `src` disappears, unless they are one path. */
  function Rename(d: Disk, src: Path, dst: Path): (r: Disk)
    requires src in d.files
    ensures r.dirs == d.dirs
    ensures r.files.Keys == if src == dst then d.files.Keys else d.files.Keys - {src} + {dst}
    ensures r.files[dst] == d.files[src]
    ensures forall q :: q in d.files && q != dst && q != src ==> r.files[q] == d.files[q]
    ensures WellFormed(d) && dst !in d.dirs ==> WellFormed(r)
  {
    if src == dst then d else d.(files := (d.files - {src})[dst := d.files[src]])
  }

  /** Saving new bytes under `dst`, creating or replacing it. */
  function WriteFile(d: Disk, dst: Path, bytes: Bytes): (r: Disk)
    ensures r.dirs == d.dirs
    ensures r.files.Keys == d.files.Keys + {dst}
    ensures r.files[dst] == bytes
    ensures forall q :: q in d.files && q != dst ==> r.files[q] == d.files[q]
    ensures WellFormed(d) && dst !in d.dirs ==> WellFormed(r)
  {
    d.(files := d.files[dst := bytes])
  }

  /** `os.remove(p)`. */
  function Remove(d: Disk, p: Path): (r: Disk)
    ensures r.dirs == d.dirs
    ensures r.files.Keys == d.files.Keys - {p}
    ensures forall q :: q in r.files ==> r.files[q] == d.files[q]
    ensures WellFormed(d) ==> WellFormed(r)
  {
    d.(files := d.files - {p})
  }
}
