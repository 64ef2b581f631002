/** The device's filesystem as the sync service of adb sees it (core/adb/file_sync_service.c): what unlink(2),
    open(2), write(2), utime(2) and symlink(2) leave behind, whether they work or not. */
module SyncDisk {
  import opened Bytes
  import opened SyncWire

  datatype Kind = Regular | Link | Socket | Directory | Block | Character | Fifo

  /** The file type in st_mode: its four high bits. */
  function Code(k: Kind): (r: nat)
    ensures r < 16
  {
    match k
    case Regular => 8
    case Link => 10
    case Socket => 12
    case Directory => 4
    case Block => 6
    case Character => 2
    case Fifo => 1
  }

  /** `data` is the content of a regular file, the target of a symbolic link. */
  datatype File = File(kind: Kind, mode: bv16, mtime: nat, data: Text)

  type Files = map<Text, File>

  /** What the filesystem does during one command: whether the old file can be unlinked; whether opening or
      creating works where it may; where a symbolic link leads; whether the k-th write succeeds and how much a
      failing one stores; whether a partial file can be unlinked; whether the times can be set, and the time of
      day; the error text. `stale` is what lies in the service's buffer behind the message just read. */
  datatype Disk = Disk(
    unlinks: bool, opens: bool, leads: Text, writes: nat -> bool, torn: nat, cleans: bool,
    touches: bool, now: nat, reason: Text, stale: Text)

  /** unlink(2), which never removes a directory. */
  function Unlinked(files: Files, path: Text, ok: bool): (r: Files)
    ensures path in r ==> path in files && r == files
    ensures forall p :: p != path ==> (p in r <==> p in files) && (p in files ==> r[p] == files[p])
  {
    if ok && path in files && files[path].kind != Directory then files - {path} else files
  }

  /** The file that opening `path` for writing reaches. */
  function Goal(files: Files, path: Text, disk: Disk): Text {
    if path in files && files[path].kind == Link then disk.leads else path
  }

  /** open(2) with O_EXCL on a path that is free, without on one that is taken. */
  predicate Openable(files: Files, path: Text, disk: Disk) {
    var goal := Goal(files, path, disk);
    disk.opens && (path !in files || (goal in files && files[goal].kind == Regular))
  }

  /** The file opened: a new empty one, or the old one as it is, since it is not truncated. */
  function Opened(files: Files, path: Text, mode: bv16, disk: Disk): File
    requires Openable(files, path, disk)
  {
    if path in files then files[Goal(files, path, disk)] else File(Regular, mode, disk.now, [])
  }

  /** Writing from the start over what is there. */
  function Over(was: Text, data: Text): (r: Text)
    ensures data <= r && (r == data <==> |was| <= |data|)
  {
    if |was| <= |data| then data else data + was[|data|..]
  }

  /** The device when `data` has been written. */
  function Stored(files: Files, path: Text, mode: bv16, disk: Disk, data: Text, mtime: nat): Files
    requires Openable(files, path, disk)
  {
    var f := Opened(files, path, mode, disk);
    files[Goal(files, path, disk) := f.(data := Over(f.data, data), mtime := mtime)]
  }

  /** A stored file is the one sent, exactly when the path was free, or held a regular file of the same mode that
      is no longer than the data. */
  lemma StoredExactly(files: Files, path: Text, mode: bv16, disk: Disk, data: Text, mtime: nat)
    requires Openable(files, path, disk)
    ensures var r := Stored(files, path, mode, disk, data, mtime);
      && path in r
      && (r[path] == File(Regular, mode, mtime, data) <==>
            path !in files || (files[path].kind == Regular && files[path].mode == mode && |files[path].data| <= |data|))
  {
  }

  /** Nothing but the path and the file it leads to is touched. */
  lemma StoredElsewhere(files: Files, path: Text, mode: bv16, disk: Disk, data: Text, mtime: nat, p: Text)
    requires Openable(files, path, disk) && p != path && p != Goal(files, path, disk)
    ensures var r := Stored(files, path, mode, disk, data, mtime);
      (p in r <==> p in files) && (p in r ==> r[p] == files[p])
  {
  }
}
