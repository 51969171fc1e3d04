/**
  The filesystem as abstract state: the set of paths that exist, the contents
  of the regular files among them, and the paths on which opening or creating
  fails (permissions, I/O errors), which stand for every failure the operating
  system can report.
 */
module FileSystem {
  import opened Paths
  import opened Wrappers

  datatype Disk = Disk(paths: set<Path>, files: map<Path, string>, faulty: set<Path>) {

    /**
      Every file exists, every existing path is absolute, and every existing
      path other than the root sits in an existing directory.
     */
    ghost predicate Valid()
    {
      && files.Keys <= paths
      && (forall p :: p in paths ==> p.absolute)
      && (forall p :: p in paths && p.parts != [] ==> IsDir(ParentPath(p)))
    }

    predicate IsDir(p: Path)
    {
      p in paths && p !in files
    }

    /** An input stream opens `p` for reading: it exists and is a regular file. */
    predicate CanRead(p: Path)
    {
      p in paths && p in files && p !in faulty
    }

    /** An output stream opens `p` for writing: its directory exists and `p` is not one. */
    predicate CanWrite(p: Path)
    {
      p !in faulty && p.parts != [] && IsDir(ParentPath(p)) && !IsDir(p)
    }

    /** create_directory(p) reports that it created `p`. */
    predicate CanCreateDirectory(p: Path)
    {
      p !in faulty && p !in paths && p.parts != [] && IsDir(ParentPath(p))
    }

    /** Truncates or creates the file `p` and fills it with `data`. */
    function Write(p: Path, data: string): Disk
    {
      this.(paths := paths + {p}, files := files[p := data])
    }

    function AddDirectory(p: Path): Disk
    {
      this.(paths := paths + {p})
    }
  }

  lemma WritePreservesValid(d: Disk, p: Path, data: string)
    requires d.Valid() && d.CanWrite(p)
    ensures d.Write(p, data).Valid()
  {
    var e := d.Write(p, data);
    forall q | q in e.paths && q.parts != []
      ensures e.IsDir(ParentPath(q))
    {
      if q != p {
        assert d.IsDir(ParentPath(q));
        assert ParentPath(q) != p;
      }
    }
  }

  lemma AddDirectoryPreservesValid(d: Disk, p: Path)
    requires d.Valid() && d.CanCreateDirectory(p)
    ensures d.AddDirectory(p).Valid()
  {
  }

  /** The filesystem the recorder operates on; its state is a Disk value. */
  class FileStore {
    var disk: Disk

    constructor (d: Disk)
      ensures disk == d
    {
      disk := d;
    }

    /** std::filesystem::exists */
    method Exists(p: Path) returns (b: bool)
      ensures b <==> p in disk.paths
    {
      b := p in disk.paths;
    }

    /** Opens `p` for reading and returns its whole content. */
    method Read(p: Path) returns (r: Option<string>)
      ensures r == if disk.CanRead(p) then Some(disk.files[p]) else None
    {
      if disk.CanRead(p) {
        r := Some(disk.files[p]);
      } else {
        r := None;
      }
    }

    /** Opens `p` for writing with truncation and writes `data`. */
    method Write(p: Path, data: string) returns (ok: bool)
      modifies this
      ensures ok == old(disk).CanWrite(p)
      ensures disk == if ok then old(disk).Write(p, data) else old(disk)
    {
      ok := disk.CanWrite(p);
      if ok {
        disk := disk.Write(p, data);
      }
    }

    /** std::filesystem::create_directory, reporting whether it created `p`. */
    method CreateDirectory(p: Path) returns (created: bool)
      modifies this
      ensures created == old(disk).CanCreateDirectory(p)
      ensures disk == if created then old(disk).AddDirectory(p) else old(disk)
    {
      created := disk.CanCreateDirectory(p);
      if created {
        disk := disk.AddDirectory(p);
      }
    }
  }
}
