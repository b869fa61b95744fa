/** The filesystem the updater works on (`std::fs` and the tar entry's
    `unpack`): file contents by path, the existing directories, and the
    paths the process may not write, where a write fails with an I/O error. */
module Fs {
  import opened Wrappers
  import opened Paths

  type Bytes = seq<bv8>

  /** `f` and `g` hold the same files, with the same contents, outside `changed`. */
  ghost predicate AgreeExcept(f: map<Path, Bytes>, g: map<Path, Bytes>, changed: set<Path>) {
    forall p :: p !in changed ==> (p in f <==> p in g) && (p in f ==> f[p] == g[p])
  }

  datatype Disk = Disk(files: map<Path, Bytes>, dirs: set<Path>, denied: set<Path>)
  {
    /** `dir` is an existing directory: the current directory (the empty
        path), the root, or one recorded in `dirs`. */
    predicate IsDir(dir: Path) {
      dir == "" || dir == "/" || dir in dirs
    }

    /** A file can be created at `p` when its directory exists and `p` may be written. */
    predicate Writable(p: Path) {
      p !in denied && Parent(p).Some? && IsDir(Parent(p).value)
    }

    /** `fs::create_dir_all`: succeeds at once for a directory that exists,
        and otherwise creates it unless it may not be written. */
    function CreateDirAll(dir: Path): (r: Option<Disk>)
      ensures r.Some? <==> IsDir(dir) || dir !in denied
      ensures r.Some? ==>
        r.value.IsDir(dir) && r.value.files == files && r.value.denied == denied &&
        dirs <= r.value.dirs <= dirs + {dir}
      ensures IsDir(dir) ==> r == Some(this)
    {
      if IsDir(dir) then Some(this)
      else if dir in denied then None
      else Some(this.(dirs := dirs + {dir}))
    }

    /** `Entry::unpack`: writes `data` as the file `to`. */
    function WriteFile(to: Path, data: Bytes): (r: Option<Disk>)
      ensures r.Some? <==> Writable(to)
      ensures r.Some? ==>
        to in r.value.files && r.value.files[to] == data && AgreeExcept(r.value.files, files, {to}) &&
        r.value.dirs == dirs && r.value.denied == denied
    {
      if Writable(to) then Some(this.(files := files[to := data])) else None
    }

    /** `fs::remove_file`. */
    function RemoveFile(p: Path): (r: Option<Disk>)
      ensures r.Some? <==> p in files && p !in denied
      ensures r.Some? ==>
        p !in r.value.files && AgreeExcept(r.value.files, files, {p}) &&
        r.value.dirs == dirs && r.value.denied == denied
    {
      if p in files && p !in denied then Some(this.(files := files - {p})) else None
    }

    /** `fs::rename`: the file `from` now stands at `to`, replacing what was there. */
    function Rename(from: Path, to: Path): (r: Option<Disk>)
      ensures r.Some? <==> from in files && from !in denied && Writable(to)
      ensures r.Some? ==>
        to in r.value.files && r.value.files[to] == files[from] &&
        (from != to ==> from !in r.value.files) && AgreeExcept(r.value.files, files, {from, to}) &&
        r.value.dirs == dirs && r.value.denied == denied
    {
      if from in files && from !in denied && Writable(to) then
        Some(this.(files := (files - {from})[to := files[from]]))
      else None
    }
  }

  /** The filesystem as the updater changes it, one call at a time. */
  class FileSystem {
    var files: map<Path, Bytes>
    var dirs: set<Path>
    const denied: set<Path>

    function State(): Disk
      reads this
    {
      Disk(files, dirs, denied)
    }

    constructor (d: Disk)
      ensures State() == d
    {
      files, dirs, denied := d.files, d.dirs, d.denied;
    }

    method CreateDirAll(dir: Path) returns (ok: bool)
      modifies this
      ensures var next := old(State()).CreateDirAll(dir);
        ok == next.Some? && State() == if ok then next.value else old(State())
    {
      if State().IsDir(dir) {
        return true;
      }
      ok := dir !in denied;
      if ok {
        dirs := dirs + {dir};
      }
    }

    method WriteFile(to: Path, data: Bytes) returns (ok: bool)
      modifies this
      ensures var next := old(State()).WriteFile(to, data);
        ok == next.Some? && State() == if ok then next.value else old(State())
    {
      ok := State().Writable(to);
      if ok {
        files := files[to := data];
      }
    }

    method RemoveFile(p: Path) returns (ok: bool)
      modifies this
      ensures var next := old(State()).RemoveFile(p);
        ok == next.Some? && State() == if ok then next.value else old(State())
    {
      ok := p in files && p !in denied;
      if ok {
        files := files - {p};
      }
    }

    method Rename(from: Path, to: Path) returns (ok: bool)
      modifies this
      ensures var next := old(State()).Rename(from, to);
        ok == next.Some? && State() == if ok then next.value else old(State())
    {
      ok := from in files && from !in denied && State().Writable(to);
      if ok {
        files := (files - {from})[to := files[from]];
      }
    }
  }
}
