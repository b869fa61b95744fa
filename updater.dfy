/** The database refresh (`update_database`): download the archive, make
    sure the destination's directory exists, extract the first `.mmdb`
    entry to a temporary file beside the destination, and rename that file
    onto the destination. The HTTP transfer, gzip decompression and tar
    parsing are given as their outcomes. */
module Updater {
  import opened Wrappers
  import opened Paths
  import opened Fs

  /** `StatusCode::is_success`: a status from 200 to 299. */
  predicate IsSuccess(status: nat) {
    200 <= status <= 299
  }

  /** One item of the archive's entry iterator: an entry that could not be
      read, one whose path could not be decoded, or an entry with its path
      and contents. */
  datatype EntryRead = ReadFailed | PathFailed | Entry(path: Path, data: Bytes)

  /** The decompressed archive: `entries()` fails, or yields these entries in order. */
  datatype Archive = Unreadable | Entries(items: seq<EntryRead>)

  /** What the download delivered: the request failed, or a response with
      its status and a body that either failed to arrive or is the archive. */
  datatype Download = SendFailed | Response(status: nat, body: Option<Archive>)

  datatype UpdateError =
    | Network
    | Io
    | Tar
    | DatabaseNotFound
    | DownloadFailed(status: nat)
    | ParentDirMissing(dest: Path)

  /** Where the scan of the entries stops: at the first database entry, at
      an entry that cannot be read, or after the last entry. */
  datatype ScanStop = Found(index: nat) | Broken(index: nat, error: UpdateError) | Exhausted

  /** The scan of `update_database`'s `for` loop, from the first entry. */
  function Scan(items: seq<EntryRead>): (s: ScanStop)
    ensures s.Found? ==> s.index < |items| && items[s.index].Entry? && IsMmdb(items[s.index].path)
    ensures s.Broken? ==>
      s.index < |items| && !items[s.index].Entry? &&
      s.error == if items[s.index].ReadFailed? then Io else Tar
    ensures !s.Exhausted? ==> forall j :: 0 <= j < s.index ==> items[j].Entry? && !IsMmdb(items[j].path)
    ensures s.Exhausted? ==> forall j :: 0 <= j < |items| ==> items[j].Entry? && !IsMmdb(items[j].path)
  {
    if items == [] then Exhausted
    else match items[0]
      case ReadFailed => Broken(0, Io)
      case PathFailed => Broken(0, Tar)
      case Entry(path, _) =>
        if IsMmdb(path) then Found(0)
        else Later(Scan(items[1..]))
  }

  /** A stop in the entries after the first, counted from the first. */
  function Later(s: ScanStop): ScanStop {
    match s
    case Found(i) => Found(i + 1)
    case Broken(i, e) => Broken(i + 1, e)
    case Exhausted => Exhausted
  }

  /** Entries after the one the scan stops at are never looked at: whatever
      follows it, the scan stops at the same place. */
  lemma {:induction false} ScanIgnoresLater(items: seq<EntryRead>, rest: seq<EntryRead>)
    requires !Scan(items).Exhausted?
    ensures Scan(items[..Scan(items).index + 1] + rest) == Scan(items)
  {
    var k := Scan(items).index;
    var cut := items[..k + 1] + rest;
    assert cut[0] == items[0];
    if k > 0 {
      assert items[0].Entry? && !IsMmdb(items[0].path);
      assert Scan(items) == Later(Scan(items[1..]));
      assert Scan(cut) == Later(Scan(cut[1..]));
      assert cut[1..] == items[1..][..k] + rest;
      ScanIgnoresLater(items[1..], rest);
    }
  }

  /** What one refresh does: its result and the disk afterwards. */
  datatype UpdateRun = UpdateRun(result: Result<(), UpdateError>, disk: Disk)

  /** The steps after the destination's directory exists: scan the archive,
      extract the database to `temp`, rename it onto `dest`. */
  function Extract(d: Disk, archive: Archive, dest: Path, temp: Path): (r: UpdateRun)
    ensures r.disk.dirs == d.dirs && r.disk.denied == d.denied
    ensures AgreeExcept(r.disk.files, d.files, {temp, dest})
    ensures r.result.Ok? <==>
      archive.Entries? && Scan(archive.items).Found? && d.Writable(temp) && d.Writable(dest)
    ensures r.result.Ok? ==>
      dest in r.disk.files && r.disk.files[dest] == archive.items[Scan(archive.items).index].data
  {
    match archive
    case Unreadable => UpdateRun(Err(Tar), d)
    case Entries(items) =>
      match Scan(items)
      case Broken(_, e) => UpdateRun(Err(e), d)
      case Exhausted =>
        UpdateRun(Err(DatabaseNotFound), match d.RemoveFile(temp) case Some(d') => d' case None => d)
      case Found(i) =>
        match d.WriteFile(temp, items[i].data)
        case None => UpdateRun(Err(Io), d)
        case Some(d') =>
          match d'.Rename(temp, dest)
          case None => UpdateRun(Err(Io), d')
          case Some(d'') => UpdateRun(Ok(()), d'')
  }

  /** `update_database` from the disk `d`, with the download's outcome and
      the process id that names the temporary file. */
  function Update(d: Disk, download: Download, dest: Path, pid: nat): (r: UpdateRun)
    ensures r.disk.denied == d.denied && d.dirs <= r.disk.dirs
    ensures r.result.Ok? ==> download.Response? && IsSuccess(download.status) && download.body.Some?
    ensures !(download.Response? && IsSuccess(download.status) && download.body.Some? && Parent(dest).Some?) ==>
      r.disk == d
  {
    match download
    case SendFailed => UpdateRun(Err(Network), d)
    case Response(status, body) =>
      if !IsSuccess(status) then UpdateRun(Err(DownloadFailed(status)), d)
      else if body.None? then UpdateRun(Err(Network), d)
      else
        match Parent(dest)
        case None => UpdateRun(Err(ParentDirMissing(dest)), d)
        case Some(parent) =>
          match d.CreateDirAll(parent)
          case None => UpdateRun(Err(Io), d)
          case Some(d') => Extract(d', body.value, dest, TempPath(dest, pid))
  }

  /** `update_database`, with its checks in the source's order. */
  method UpdateDatabase(fs: FileSystem, download: Download, dest: Path, pid: nat)
    returns (r: Result<(), UpdateError>)
    modifies fs
    ensures var run := Update(old(fs.State()), download, dest, pid);
      r == run.result && fs.State() == run.disk
  {
    if download.SendFailed? {
      return Err(Network);
    }
    if !IsSuccess(download.status) {
      return Err(DownloadFailed(download.status));
    }
    if download.body.None? {
      return Err(Network);
    }
    var archive := download.body.value;
    var parent := Parent(dest);
    if parent.None? {
      return Err(ParentDirMissing(dest));
    }
    var created := fs.CreateDirAll(parent.value);
    if !created {
      return Err(Io);
    }
    ghost var ready := fs.State();
    var temp := TempPath(dest, pid);
    if archive.Unreadable? {
      return Err(Tar);
    }
    var items := archive.items;
    var found := false;
    var i := 0;
    while i < |items|
      invariant 0 <= i <= |items|
      invariant forall j :: 0 <= j < i ==> items[j].Entry? && !IsMmdb(items[j].path)
      invariant fs.State() == ready
    {
      var entry := items[i];
      if entry.ReadFailed? {
        return Err(Io);
      }
      if entry.PathFailed? {
        return Err(Tar);
      }
      if IsMmdb(entry.path) {
        assert Scan(items) == Found(i);
        var written := fs.WriteFile(temp, entry.data);
        if !written {
          return Err(Io);
        }
        found := true;
        break;
      }
      i := i + 1;
    }
    if !found {
      var _ := fs.RemoveFile(temp);
      return Err(DatabaseNotFound);
    }
    var renamed := fs.Rename(temp, dest);
    if !renamed {
      return Err(Io);
    }
    return Ok(());
  }

  /** A download with a failure status is reported before anything on disk changes. */
  lemma FailedDownloadChangesNothing(d: Disk, status: nat, body: Option<Archive>, dest: Path, pid: nat)
    requires !IsSuccess(status)
    ensures Update(d, Response(status, body), dest, pid) == UpdateRun(Err(DownloadFailed(status)), d)
  {
  }

  /** A destination without a parent directory is reported before any
      directory is created or anything is extracted. */
  lemma MissingParentChangesNothing(d: Disk, status: nat, archive: Archive, dest: Path, pid: nat)
    requires IsSuccess(status) && (dest == "" || dest == "/")
    ensures Update(d, Response(status, Some(archive)), dest, pid) == UpdateRun(Err(ParentDirMissing(dest)), d)
  {
  }

  /** No file but the temporary file and the destination ever changes, and
      the destination changes only when the refresh succeeds. */
  lemma DestinationOnlyReplacedOnSuccess(d: Disk, download: Download, dest: Path, pid: nat)
    ensures var run := Update(d, download, dest, pid);
      var temp := TempPath(dest, pid);
      (run.result.Err? ==>
        (dest in run.disk.files <==> dest in d.files) &&
        (dest in d.files ==> run.disk.files[dest] == d.files[dest])) &&
      forall p :: p != temp && p != dest ==>
        (p in run.disk.files <==> p in d.files) && (p in d.files ==> run.disk.files[p] == d.files[p])
  {
    if Parent(dest).Some? {
      TempPathBesideDestination(dest, pid);
    }
  }

  /** The refresh succeeds exactly when the download succeeds, the
      destination has a parent directory that can be created, the archive
      holds a database entry before any unreadable one, and the temporary
      file and the destination can be written; the destination then holds
      the first database entry's contents and the temporary file is gone. */
  lemma SuccessInstallsFirstDatabase(d: Disk, status: nat, items: seq<EntryRead>, dest: Path, pid: nat)
    ensures var run := Update(d, Response(status, Some(Entries(items))), dest, pid);
      var temp := TempPath(dest, pid);
      run.result.Ok? <==>
        IsSuccess(status) && Parent(dest).Some? &&
        (d.IsDir(Parent(dest).value) || Parent(dest).value !in d.denied) &&
        Scan(items).Found? && temp !in d.denied && dest !in d.denied
    ensures var run := Update(d, Response(status, Some(Entries(items))), dest, pid);
      run.result.Ok? ==>
        Scan(items).Found? && dest in run.disk.files &&
        run.disk.files[dest] == items[Scan(items).index].data &&
        TempPath(dest, pid) !in run.disk.files
  {
    if Parent(dest).Some? {
      TempPathBesideDestination(dest, pid);
    }
  }

  /** An archive without a database entry is reported as `DatabaseNotFound`
      after the temporary file is removed; the destination is untouched. */
  lemma NoDatabaseCleansUp(d: Disk, status: nat, items: seq<EntryRead>, dest: Path, pid: nat)
    requires IsSuccess(status) && Parent(dest).Some?
    requires d.IsDir(Parent(dest).value) || Parent(dest).value !in d.denied
    requires Scan(items).Exhausted?
    ensures var run := Update(d, Response(status, Some(Entries(items))), dest, pid);
      var temp := TempPath(dest, pid);
      run.result == Err(DatabaseNotFound) &&
      (temp !in d.denied ==> temp !in run.disk.files) &&
      (dest in run.disk.files <==> dest in d.files) &&
      (dest in d.files ==> run.disk.files[dest] == d.files[dest])
  {
    TempPathBesideDestination(dest, pid);
  }
}
