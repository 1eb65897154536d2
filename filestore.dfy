/**
  The filesystem the gate talks to, kept abstract: which paths exist, what
  `fs::canonicalize` returns for each path it resolves, which canonical
  locations are directories, and the contents of each regular file, keyed by
  its canonical location. `Valid` collects what is assumed of any real
  filesystem: canonical forms are absolute and free of "." and "..",
  canonicalizing is idempotent, and a path resolves exactly when it exists.
 */
module FileStore {
  import opened Wrappers
  import opened Paths

  /** The shape of every result of `fs::canonicalize`: the root, then plain names. */
  predicate Canonical(p: Path) {
    |p| > 0 && p[0] == RootDir && forall i :: 0 < i < |p| ==> p[i].Normal?
  }

  datatype Disk = Disk(
    canon: map<Path, Path>,  // what `fs::canonicalize` returns, where it succeeds
    existing: set<Path>,     // where `Path::exists` holds
    dirs: set<Path>,         // canonical locations of directories
    files: map<Path, string> // canonical location of a regular file to its text
  )

  predicate Valid(d: Disk) {
    && [] !in d.canon
    && (forall p :: p in d.canon ==> Canonical(d.canon[p]))
    && (forall p :: p in d.canon ==> d.canon[p] in d.canon && d.canon[d.canon[p]] == d.canon[p])
    && d.existing == d.canon.Keys
    && (forall f :: f in d.files ==> f in d.existing && d.canon[f] == f)
    && (forall q :: q in d.dirs ==> q in d.existing && d.canon[q] == q)
    && d.dirs !! d.files.Keys
  }

  /** `fs::canonicalize`. */
  function Canonicalize(d: Disk, p: Path): Option<Path> {
    if p in d.canon then Some(d.canon[p]) else None
  }

  /** `Path::exists`. */
  predicate Exists(d: Disk, p: Path) {
    p in d.existing
  }

  /** `fs::read_to_string`: the text of the regular file `p` resolves to. The
      operating system or the UTF-8 check may still refuse, which `fault` says. */
  function ReadToString(d: Disk, p: Path, fault: bool): Option<string> {
    if !fault && p in d.existing && p in d.canon && d.canon[p] in d.files
    then Some(d.files[d.canon[p]])
    else None
  }

  /** Where a write to `p` lands: the location `p` resolves to, or, for a path
      that does not exist yet, the new name inside the resolved parent directory. */
  function Location(d: Disk, p: Path): Option<Path> {
    if p in d.existing then Canonicalize(d, p)
    else if |p| > 0 && p[|p| - 1].Normal? && p[..|p| - 1] in d.existing
            && p[..|p| - 1] in d.canon && d.canon[p[..|p| - 1]] in d.dirs
    then Some(d.canon[p[..|p| - 1]] + [p[|p| - 1]])
    else None
  }

  /** `fs::write`: create or truncate the file at `p` and store `data`; it fails
      when `p` cannot be resolved or created, when it names a directory, or when
      the operating system refuses (`fault`). */
  function WriteFile(d: Disk, p: Path, data: string, fault: bool): Option<Disk> {
    match Location(d, p)
    case None => None
    case Some(loc) =>
      if fault || loc in d.dirs then None
      else Some(Disk(d.canon[p := loc][loc := loc], d.existing + {p, loc}, d.dirs, d.files[loc := data]))
  }

  /** A write lands on a canonical location; for an existing path, the one it
      resolves to. */
  lemma LocationCanonical(d: Disk, p: Path)
    requires Valid(d) && Location(d, p).Some?
    ensures Canonical(Location(d, p).value)
    ensures p in d.existing ==> Location(d, p).value == d.canon[p]
  {
  }

  /** Writing keeps the filesystem well formed. */
  lemma WritePreservesValid(d: Disk, p: Path, data: string, fault: bool)
    requires Valid(d) && WriteFile(d, p, data, fault).Some?
    ensures Valid(WriteFile(d, p, data, fault).value)
  {
    LocationCanonical(d, p);
    assert p != [] by {
      if p in d.existing { assert p in d.canon; }
    }
    WriteKeepsResolution(d, p, data, fault);
    WriteKeepsStored(d, p, data, fault);
  }

  lemma WriteKeepsResolution(d: Disk, p: Path, data: string, fault: bool)
    requires Valid(d) && WriteFile(d, p, data, fault).Some?
    ensures var d' := WriteFile(d, p, data, fault).value;
      forall q | q in d'.canon ::
        Canonical(d'.canon[q]) && d'.canon[q] in d'.canon && d'.canon[d'.canon[q]] == d'.canon[q]
  {
    var loc := Location(d, p).value;
    var d' := WriteFile(d, p, data, fault).value;
    LocationCanonical(d, p);
    forall q | q in d'.canon
      ensures Canonical(d'.canon[q]) && d'.canon[q] in d'.canon && d'.canon[d'.canon[q]] == d'.canon[q]
    {
      if q != p && q != loc {
        var v := d.canon[q];
        assert v == loc || v != p;
        assert d'.canon[v] == v;
      }
    }
  }

  lemma WriteKeepsStored(d: Disk, p: Path, data: string, fault: bool)
    requires Valid(d) && WriteFile(d, p, data, fault).Some?
    ensures var d' := WriteFile(d, p, data, fault).value;
      && d'.existing == d'.canon.Keys
      && (forall f | f in d'.files :: f in d'.existing && d'.canon[f] == f)
      && (forall q | q in d'.dirs :: q in d'.existing && d'.canon[q] == q)
      && d'.dirs !! d'.files.Keys
  {
    var loc := Location(d, p).value;
    var d' := WriteFile(d, p, data, fault).value;
    forall f | f in d'.files ensures f in d'.existing && d'.canon[f] == f {
      if f != loc {
        assert f in d.files;
      }
    }
    forall q | q in d'.dirs ensures q in d'.existing && d'.canon[q] == q {
      assert q != loc;
    }
  }

  /** After a successful write, reading the same path gives back the data. */
  lemma WriteThenRead(d: Disk, p: Path, data: string, fault: bool)
    requires WriteFile(d, p, data, fault).Some?
    ensures ReadToString(WriteFile(d, p, data, fault).value, p, false) == Some(data)
  {
  }

  /** A write at a path that is its own location resolves that path to itself
      and changes nothing else that resolves. */
  lemma WriteInPlace(d: Disk, p: Path, data: string)
    requires WriteFile(d, p, data, false).Some? && Location(d, p) == Some(p)
    ensures var d' := WriteFile(d, p, data, false).value;
            d'.canon == d.canon[p := p] && d'.existing == d.existing + {p}
  {
  }

  /** Writing the same data at the same path again, when the path is its own
      location, leaves the filesystem as the first write left it. */
  lemma RewriteIdempotent(d: Disk, p: Path, data: string)
    requires WriteFile(d, p, data, false).Some? && Location(d, p) == Some(p)
    ensures WriteFile(WriteFile(d, p, data, false).value, p, data, false) == WriteFile(d, p, data, false)
  {
    var d' := WriteFile(d, p, data, false).value;
    assert Location(d', p) == Some(p);
    assert d'.canon[p := p][p := p] == d'.canon;
    assert d'.existing + {p, p} == d'.existing;
    assert d'.files[p := data] == d'.files;
  }

  /** After a write, the location it landed on reads back the data written. */
  lemma ReadAtLocation(d: Disk, p: Path, data: string)
    requires WriteFile(d, p, data, false).Some?
    ensures ReadToString(WriteFile(d, p, data, false).value, Location(d, p).value, false) == Some(data)
  {
  }

  /** Writing the same data again at the location the first write landed on
      leaves the filesystem as the first write left it, wherever that is. */
  lemma RewriteAtLocation(d: Disk, p: Path, data: string)
    requires WriteFile(d, p, data, false).Some?
    ensures var d' := WriteFile(d, p, data, false).value;
            Location(d', Location(d, p).value) == Location(d, p)
            && WriteFile(d', Location(d, p).value, data, false) == Some(d')
  {
    var loc := Location(d, p).value;
    var d' := WriteFile(d, p, data, false).value;
    assert Location(d', loc) == Some(loc);
    assert d'.canon[loc := loc][loc := loc] == d'.canon;
    assert d'.existing + {loc, loc} == d'.existing;
    assert d'.files[loc := data] == d'.files;
  }

  /** A write changes nothing that is read through a path other than the written
      one and that resolves somewhere other than the written location. */
  lemma WriteLeavesOthers(d: Disk, p: Path, data: string, q: Path)
    requires Valid(d) && WriteFile(d, p, data, false).Some?
    requires q != p && q != Location(d, p).value
    requires q in d.canon ==> d.canon[q] != Location(d, p).value
    ensures ReadToString(WriteFile(d, p, data, false).value, q, false) == ReadToString(d, q, false)
  {
  }

  /** A write never lands on a directory and a read never returns one. */
  lemma DirectoriesHoldNoText(d: Disk, p: Path, data: string, fault: bool)
    requires Valid(d) && p in d.dirs
    ensures WriteFile(d, p, data, fault).None?
    ensures ReadToString(d, p, fault).None?
  {
  }

  /** The mutable filesystem that `fs::write` changes in place. */
  class FileSystem {
    var canon: map<Path, Path>
    var existing: set<Path>
    var dirs: set<Path>
    var files: map<Path, string>

    function State(): Disk
      reads this
    {
      Disk(canon, existing, dirs, files)
    }

    constructor (d: Disk)
      ensures State() == d
    {
      canon, existing, dirs, files := d.canon, d.existing, d.dirs, d.files;
    }

    /** `fs::write` on the filesystem itself. */
    method Write(p: Path, data: string, fault: bool) returns (ok: bool)
      modifies this
      ensures ok <==> WriteFile(old(State()), p, data, fault).Some?
      ensures State() == if ok then WriteFile(old(State()), p, data, fault).value else old(State())
    {
      var loc := Location(State(), p);
      if loc.None? || fault || loc.value in dirs {
        return false;
      }
      canon := canon[p := loc.value][loc.value := loc.value];
      existing := existing + {p, loc.value};
      files := files[loc.value := data];
      ok := true;
    }
  }
}
