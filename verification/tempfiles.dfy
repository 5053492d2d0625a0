/**
  The file system as the sort engine sees it, `delete_file`, and the
  `temporary_file_manager` that deletes every run file it still owns when it
  goes out of scope.

  A disk maps each existing path to its content. Deleting some paths may fail
  (a permission problem, say); `stuck` is the set of paths whose removal
  throws. Both `delete_file` and the manager swallow that failure.
 */
module TempFiles {

  type Path = string

  type Disk = map<Path, seq<char>>

  datatype Deleted = Deleted(disk: Disk, success: bool)

  /** `delete_file(pathname)`: the empty path is a success that touches
      nothing; otherwise the path is removed, and the result says whether it
      existed. A removal that throws is caught and reported as `false`. */
  function DeleteFile(disk: Disk, path: Path, stuck: set<Path>): (d: Deleted)
    ensures path == [] ==> d == Deleted(disk, true)
    ensures path != [] ==> (d.success <==> path in disk && path !in stuck)
    ensures forall q :: q in d.disk <==> q in disk && (q != path || path == [] || path in stuck)
    ensures forall q :: q in d.disk ==> d.disk[q] == disk[q]
  {
    if path == [] then Deleted(disk, true)
    else if path in stuck then Deleted(disk, false)
    else Deleted(disk - {path}, path in disk)
  }

  /** The destructor of `temporary_file_manager`: `delete_file` on every owned
      path, in order. No failure stops it, and none escapes. */
  function Cleanup(disk: Disk, owned: seq<Path>, stuck: set<Path>): (d: Disk)
    ensures forall q :: q in d <==> q in disk && (q !in owned || q == [] || q in stuck)
    ensures forall q :: q in d ==> d[q] == disk[q]
  {
    if |owned| == 0 then disk
    else Cleanup(DeleteFile(disk, owned[0], stuck).disk, owned[1..], stuck)
  }

  /** `boost::filesystem::rename(from, to)`: `to` now holds what `from` held,
      replacing whatever it held, and `from` is gone. */
  function Rename(disk: Disk, from: Path, to: Path): (d: Disk)
    requires from in disk
    ensures forall q :: q in d <==> (q in disk && q != from) || q == to
    ensures d[to] == disk[from]
    ensures forall q :: q in d && q != to ==> d[q] == disk[q]
  {
    (disk - {from})[to := disk[from]]
  }
}
