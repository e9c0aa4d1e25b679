/**
 * The file system as a value: regular files with their bytes, and the set
 * of directories. The organizer's foreign calls become functions on it:
 * `os.path.isfile`, `os.path.exists`, `os.makedirs`, `shutil.copy2` and the
 * content comparison `filecmp.cmp(a, b, False)`.
 */
module FileSystem {
  import opened Paths

  type Bytes = seq<bv8>

  datatype Disk = Disk(files: map<Path, Bytes>, dirs: set<Path>)

  /** `os.path.isfile`. */
  predicate IsFile(disk: Disk, p: Path) {
    p in disk.files
  }

  /** `os.path.exists`. */
  predicate Exists(disk: Disk, p: Path) {
    p in disk.files || p in disk.dirs
  }

  /** `os.makedirs` (parents are taken to exist already). */
  function MakeDirs(disk: Disk, dir: Path): (r: Disk)
    ensures r.files == disk.files && r.dirs == disk.dirs + {dir}
  {
    disk.(dirs := disk.dirs + {dir})
  }

  /** Creates `dir` unless something already exists there. */
  function EnsureDir(disk: Disk, dir: Path): (r: Disk)
    ensures r.files == disk.files && Exists(r, dir)
    ensures r.dirs == if Exists(disk, dir) then disk.dirs else disk.dirs + {dir}
  {
    if Exists(disk, dir) then disk else MakeDirs(disk, dir)
  }

  /** `shutil.copy2(src, dst)`: `dst` afterwards holds the bytes of `src`. */
  function Copy2(disk: Disk, src: Path, dst: Path): (r: Disk)
    requires src in disk.files
    ensures r.dirs == disk.dirs
    ensures r.files.Keys == disk.files.Keys + {dst}
    ensures r.files[dst] == disk.files[src]
    ensures forall p :: p in disk.files && p != dst ==> r.files[p] == disk.files[p]
  {
    disk.(files := disk.files[dst := disk.files[src]])
  }

  /** `filecmp.cmp(a, b, shallow=False)`: byte-for-byte equality of two regular files. */
  predicate SameContent(disk: Disk, a: Path, b: Path)
    requires a in disk.files && b in disk.files
  {
    disk.files[a] == disk.files[b]
  }
}
