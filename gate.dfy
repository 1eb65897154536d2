/**
  The two exported operations: `safe_write_file`, which maps the resolver's
  verdict onto a write and a status of 0, -1 or -2, and `safe_read_file`, which
  maps it onto a read and either the file's text or one of two sentinel strings.
 */
module Gate {
  import opened Wrappers
  import opened Paths
  import opened CStrings
  import opened FileStore
  import opened Resolver

  const Success: int := 0
  const Denied: int := -1
  const IoError: int := -2

  const AccessDenied: string := "ERROR: Access Denied"
  const FileNotFound: string := "ERROR: File not found"

  /** What `safe_read_file` hands back: a C string, or a panic when
      `CString::new(..).unwrap()` meets text that holds a NUL. */
  datatype Reply = Text(text: string) | Panic

  /** The status of a write and the filesystem after it. */
  datatype WriteOutcome = WriteOutcome(status: int, disk: Disk)

  /** The verdict both operations act on, from the raw C arguments. */
  function Verdict(d: Disk, rootDir: CPtr, filename: CPtr): Option<Path>
    requires Terminated(rootDir) && Terminated(filename)
  {
    IsSafePath(d, ParseCString(rootDir), ParseCString(filename))
  }

  /** `safe_write_file`, as a function of the filesystem before the call. */
  function SafeWrite(d: Disk, rootDir: CPtr, filename: CPtr, content: CPtr, fault: bool): (r: WriteOutcome)
    requires Terminated(rootDir) && Terminated(filename) && Terminated(content)
    ensures r.status in {Success, Denied, IoError}
    ensures r.status == Denied <==> Verdict(d, rootDir, filename).None?
    ensures r.status == IoError <==>
              Verdict(d, rootDir, filename).Some?
              && WriteFile(d, Verdict(d, rootDir, filename).value, ParseCString(content), fault).None?
    ensures r.status != Success ==> r.disk == d
    ensures r.status == Success ==>
              r.disk == WriteFile(d, Verdict(d, rootDir, filename).value, ParseCString(content), fault).value
    ensures r.status == Success ==>
              ReadToString(r.disk, Verdict(d, rootDir, filename).value, false) == Some(ParseCString(content))
  {
    var data := ParseCString(content);
    match Verdict(d, rootDir, filename)
    case None => WriteOutcome(Denied, d)
    case Some(p) =>
      match WriteFile(d, p, data, fault)
      case Some(d') => WriteThenRead(d, p, data, fault); WriteOutcome(Success, d')
      case None => WriteOutcome(IoError, d)
  }

  /** `safe_write_file` on the filesystem itself. */
  method SafeWriteFile(fs: FileSystem, rootDir: CPtr, filename: CPtr, content: CPtr, fault: bool)
      returns (status: int)
    requires Terminated(rootDir) && Terminated(filename) && Terminated(content)
    modifies fs
    ensures status == SafeWrite(old(fs.State()), rootDir, filename, content, fault).status
    ensures fs.State() == SafeWrite(old(fs.State()), rootDir, filename, content, fault).disk
  {
    var root := ParseCString(rootDir);
    var file := ParseCString(filename);
    var data := ParseCString(content);
    var safePath := IsSafePath(fs.State(), root, file);
    if safePath.None? {
      return Denied;
    }
    var ok := fs.Write(safePath.value, data, fault);
    status := if ok then Success else IoError;
  }

  /** `safe_read_file`: a function of the filesystem, which it does not change. */
  function SafeRead(d: Disk, rootDir: CPtr, filename: CPtr, fault: bool): (r: Reply)
    requires Terminated(rootDir) && Terminated(filename)
    ensures Verdict(d, rootDir, filename).None? ==> r == Text(AccessDenied)
    ensures (Verdict(d, rootDir, filename).Some?
             && ReadToString(d, Verdict(d, rootDir, filename).value, fault).None?) ==> r == Text(FileNotFound)
    ensures r.Text? && r.text != AccessDenied && r.text != FileNotFound ==>
              Verdict(d, rootDir, filename).Some?
              && ReadToString(d, Verdict(d, rootDir, filename).value, fault) == Some(r.text)
    ensures r.Panic? ==>
              Verdict(d, rootDir, filename).Some?
              && var content := ReadToString(d, Verdict(d, rootDir, filename).value, fault);
                 content.Some? && Nul in content.value
    ensures Verdict(d, rootDir, filename).Some?
            && ReadToString(d, Verdict(d, rootDir, filename).value, fault).Some? ==>
              var content := ReadToString(d, Verdict(d, rootDir, filename).value, fault).value;
              r == if Nul in content then Panic else Text(content)
  {
    match Verdict(d, rootDir, filename)
    case None => Text(AccessDenied)
    case Some(p) =>
      match ReadToString(d, p, fault)
      case Some(content) => if Nul in content then Panic else Text(content)
      case None => Text(FileNotFound)
  }

  /** A root that cannot be canonicalized fails closed: the write is denied and
      changes nothing, and the read is denied. */
  lemma RootUnresolvedFailsClosed(d: Disk, rootDir: CPtr, filename: CPtr, content: CPtr, fault: bool)
    requires Terminated(rootDir) && Terminated(filename) && Terminated(content)
    requires Components(ParseCString(rootDir)) !in d.canon
    ensures SafeWrite(d, rootDir, filename, content, fault) == WriteOutcome(Denied, d)
    ensures SafeRead(d, rootDir, filename, fault) == Text(AccessDenied)
  {
  }

  /** A filename that is accepted but names nothing yet reads as "not found",
      never as a denial and never as an empty file. */
  lemma AbsentFileNotFound(d: Disk, rootDir: CPtr, filename: CPtr, fault: bool)
    requires Terminated(rootDir) && Terminated(filename)
    requires var c := Components(ParseCString(rootDir));
             var j := JoinPath(c, Components(ParseCString(filename)));
             c in d.canon && j !in d.existing && StartsWith(j, d.canon[c])
    ensures SafeRead(d, rootDir, filename, fault) == Text(FileNotFound)
  {
    AbsentTargetVerdict(d, ParseCString(rootDir), ParseCString(filename));
  }

  /** An empty filename resolves to the root directory itself: it is not denied,
      but writing it fails as an I/O error and reading it finds no file. */
  lemma EmptyFilenameHitsRootDirectory(d: Disk, rootDir: CPtr, filename: CPtr, content: CPtr, fault: bool)
    requires Valid(d) && Terminated(rootDir) && Terminated(filename) && Terminated(content)
    requires ParseCString(filename) == []
    requires var c := Components(ParseCString(rootDir)); c in d.existing && d.canon[c] in d.dirs
    ensures SafeWrite(d, rootDir, filename, content, fault) == WriteOutcome(IoError, d)
    ensures SafeRead(d, rootDir, filename, fault) == Text(FileNotFound)
  {
    EmptyTargetIsRoot(d, ParseCString(rootDir));
    var r := d.canon[Components(ParseCString(rootDir))];
    DirectoriesHoldNoText(d, r, ParseCString(content), fault);
  }

  /** A successful write at `p` leaves the same filename accepted at `p` when `p`
      is where the write landed. */
  lemma VerdictSurvivesWrite(d: Disk, rootDir: CPtr, filename: CPtr, content: CPtr)
    requires Terminated(rootDir) && Terminated(filename) && Terminated(content)
    requires SafeWrite(d, rootDir, filename, content, false).status == Success
    requires Location(d, Verdict(d, rootDir, filename).value) == Verdict(d, rootDir, filename)
    ensures Verdict(SafeWrite(d, rootDir, filename, content, false).disk, rootDir, filename)
              == Verdict(d, rootDir, filename)
  {
    var root, file := ParseCString(rootDir), ParseCString(filename);
    var p := IsSafePath(d, root, file).value;
    var d' := WriteFile(d, p, ParseCString(content), false).value;
    assert SafeWrite(d, rootDir, filename, content, false).disk == d';
    StoredPathStaysAccepted(d, root, file, p, ParseCString(content));
  }

  /** The same on the resolver: writing at an accepted path that is its own
      location keeps the filename accepted at that path. */
  lemma StoredPathStaysAccepted(d: Disk, root: string, file: string, p: Path, data: string)
    requires IsSafePath(d, root, file) == Some(p) && Location(d, p) == Some(p)
    requires WriteFile(d, p, data, false).Some?
    ensures IsSafePath(WriteFile(d, p, data, false).value, root, file) == Some(p)
  {
    var d' := WriteFile(d, p, data, false).value;
    var c := Components(root);
    var j := TargetPath(root, file);
    AcceptedVerdict(d, root, file, p);
    WriteInPlace(d, p, data);
    InPlaceResolution(d.canon, p, c, j);
    assert StartsWith(p, d'.canon[c]) by {
      if c == p {
        assert p[..|p|] == p;
      }
    }
    ResolvedVerdict(d', root, file);
  }

  /** The same on the resolver for a write that lands inside the root somewhere
      other than the root's own path: the filename is then accepted at the
      location the write landed on. */
  lemma LandedPathAccepted(d: Disk, root: string, file: string, p: Path, data: string)
    requires Valid(d) && IsSafePath(d, root, file) == Some(p) && WriteFile(d, p, data, false).Some?
    requires var loc := Location(d, p).value;
             loc != Components(root) && StartsWith(loc, d.canon[Components(root)])
    ensures IsSafePath(WriteFile(d, p, data, false).value, root, file) == Location(d, p)
  {
    var d' := WriteFile(d, p, data, false).value;
    var loc := Location(d, p).value;
    var c := Components(root);
    var j := TargetPath(root, file);
    AcceptedVerdict(d, root, file, p);
    LocationCanonical(d, p);
    assert d'.canon[c] == d.canon[c];
    assert d'.canon[j] == loc;
    ResolvedVerdict(d', root, file);
  }

  /** After `canon[p := p]`, a key that resolved still does, and `p` resolves
      to itself. */
  lemma InPlaceResolution(canon: map<Path, Path>, p: Path, c: Path, j: Path)
    requires c in canon
    requires (j in canon && canon[j] == p) || j == p
    ensures c in canon[p := p] && canon[p := p][c] == (if c == p then p else canon[c])
    ensures j in canon[p := p] && canon[p := p][j] == p
  {
  }

  /** A successful write changes no read through another path that resolves
      somewhere other than where the write landed. */
  lemma WriteLeavesOtherReads(d: Disk, rootDir: CPtr, filename: CPtr, content: CPtr, q: Path)
    requires Valid(d) && Terminated(rootDir) && Terminated(filename) && Terminated(content)
    requires SafeWrite(d, rootDir, filename, content, false).status == Success
    requires var p := Verdict(d, rootDir, filename).value;
             q != p && q != Location(d, p).value && (q in d.canon ==> d.canon[q] != Location(d, p).value)
    ensures ReadToString(SafeWrite(d, rootDir, filename, content, false).disk, q, false) == ReadToString(d, q, false)
  {
    WriteLeavesOthers(d, Verdict(d, rootDir, filename).value, ParseCString(content), q);
  }

  /** Write then read: when the written path is its own canonical location, a
      following read of the same filename returns exactly the data written. */
  lemma WriteThenReadRoundTrip(d: Disk, rootDir: CPtr, filename: CPtr, content: CPtr)
    requires Terminated(rootDir) && Terminated(filename) && Terminated(content)
    requires SafeWrite(d, rootDir, filename, content, false).status == Success
    requires Location(d, Verdict(d, rootDir, filename).value) == Verdict(d, rootDir, filename)
    ensures SafeRead(SafeWrite(d, rootDir, filename, content, false).disk, rootDir, filename, false)
              == Text(ParseCString(content))
  {
    VerdictSurvivesWrite(d, rootDir, filename, content);
  }

  /** Writing the same data to the same filename again succeeds again and
      leaves the filesystem as the first write left it. */
  lemma RepeatedWriteIdempotent(d: Disk, rootDir: CPtr, filename: CPtr, content: CPtr)
    requires Terminated(rootDir) && Terminated(filename) && Terminated(content)
    requires SafeWrite(d, rootDir, filename, content, false).status == Success
    requires Location(d, Verdict(d, rootDir, filename).value) == Verdict(d, rootDir, filename)
    ensures var first := SafeWrite(d, rootDir, filename, content, false);
            SafeWrite(first.disk, rootDir, filename, content, false) == first
  {
    VerdictSurvivesWrite(d, rootDir, filename, content);
    RewriteIdempotent(d, Verdict(d, rootDir, filename).value, ParseCString(content));
  }

  /** Write then read when the write lands inside the root but not on the
      accepted path itself, as for "sub/../new.txt" or a new name behind a
      symlinked directory inside the root: the same filename is then accepted
      at the landing place, and reading it returns exactly the data written. */
  lemma WriteInsideThenRead(d: Disk, rootDir: CPtr, filename: CPtr, content: CPtr)
    requires Valid(d) && Terminated(rootDir) && Terminated(filename) && Terminated(content)
    requires SafeWrite(d, rootDir, filename, content, false).status == Success
    requires var c := Components(ParseCString(rootDir));
             var loc := Location(d, Verdict(d, rootDir, filename).value).value;
             loc != c && StartsWith(loc, d.canon[c])
    ensures var out := SafeWrite(d, rootDir, filename, content, false);
            && Verdict(out.disk, rootDir, filename) == Location(d, Verdict(d, rootDir, filename).value)
            && SafeRead(out.disk, rootDir, filename, false) == Text(ParseCString(content))
  {
    var p := Verdict(d, rootDir, filename).value;
    var data := ParseCString(content);
    var d' := WriteFile(d, p, data, false).value;
    assert SafeWrite(d, rootDir, filename, content, false).disk == d';
    LandedPathAccepted(d, ParseCString(rootDir), ParseCString(filename), p, data);
    ReadAtLocation(d, p, data);
  }

  /** Under the same premises, writing the same data to the same filename again
      succeeds and leaves the filesystem as the first write left it. */
  lemma RepeatedWriteInside(d: Disk, rootDir: CPtr, filename: CPtr, content: CPtr)
    requires Valid(d) && Terminated(rootDir) && Terminated(filename) && Terminated(content)
    requires SafeWrite(d, rootDir, filename, content, false).status == Success
    requires var c := Components(ParseCString(rootDir));
             var loc := Location(d, Verdict(d, rootDir, filename).value).value;
             loc != c && StartsWith(loc, d.canon[c])
    ensures var first := SafeWrite(d, rootDir, filename, content, false);
            SafeWrite(first.disk, rootDir, filename, content, false) == first
  {
    var p := Verdict(d, rootDir, filename).value;
    LandedPathAccepted(d, ParseCString(rootDir), ParseCString(filename), p, ParseCString(content));
    RewriteAtLocation(d, p, ParseCString(content));
  }

  /** The traversal the gate lets through: at a canonical root, writing "../x"
      for an "x" that does not exist succeeds, the data lands next to the root
      rather than inside it, and reading or writing the same filename again is
      denied, so the write cannot be repeated. */
  lemma TraversalWriteEscapes(d: Disk, rootDir: CPtr, filename: CPtr, content: CPtr, x: string)
    requires Valid(d) && Terminated(rootDir) && Terminated(filename) && Terminated(content)
    requires PlainName(x) && ParseCString(filename) == ".." + [Sep] + x
    requires var c := Components(ParseCString(rootDir));
             && c in d.canon && d.canon[c] == c && |c| >= 2 && c[|c| - 1] != Normal(x)
             && c + [ParentDir, Normal(x)] !in d.existing
             && c + [ParentDir] in d.existing && d.canon[c + [ParentDir]] == c[..|c| - 1]
             && c[..|c| - 1] in d.dirs && c[..|c| - 1] + [Normal(x)] !in d.dirs
    ensures var c := Components(ParseCString(rootDir));
            var outside := c[..|c| - 1] + [Normal(x)];
            var out := SafeWrite(d, rootDir, filename, content, false);
            && out.status == Success
            && out.disk.files == d.files[outside := ParseCString(content)]
            && !StartsWith(outside, c)
            && SafeRead(out.disk, rootDir, filename, false) == Text(AccessDenied)
            && SafeWrite(out.disk, rootDir, filename, content, false) == WriteOutcome(Denied, out.disk)
  {
    var root := ParseCString(rootDir);
    var c := Components(root);
    AbsentTraversalAccepted(d, root, x);
    TraversalLands(d, c, x, ParseCString(content));
    var d' := WriteFile(d, c + [ParentDir, Normal(x)], ParseCString(content), false).value;
    assert d'.files == d.files[c[..|c| - 1] + [Normal(x)] := ParseCString(content)];
    assert TargetPath(root, ParseCString(filename)) == c + [ParentDir, Normal(x)];
    ResolvedVerdict(d', root, ParseCString(filename));
  }

  /** Where the traversal's write lands: the new name next to the root, which
      the traversal then resolves to. */
  lemma TraversalLands(d: Disk, c: Path, x: string, data: string)
    requires Valid(d) && c in d.canon && d.canon[c] == c && |c| >= 2 && c[|c| - 1] != Normal(x)
    requires c + [ParentDir, Normal(x)] !in d.existing
    requires c + [ParentDir] in d.existing && d.canon[c + [ParentDir]] == c[..|c| - 1]
    requires c[..|c| - 1] in d.dirs && c[..|c| - 1] + [Normal(x)] !in d.dirs
    ensures var j, outside := c + [ParentDir, Normal(x)], c[..|c| - 1] + [Normal(x)];
            && Location(d, j) == Some(outside)
            && WriteFile(d, j, data, false).Some?
            && var d' := WriteFile(d, j, data, false).value;
               && c in d'.canon && d'.canon[c] == c
               && j in d'.existing && d'.canon[j] == outside
               && d'.files == d.files[outside := data]
               && !StartsWith(outside, c)
  {
    var j := c + [ParentDir, Normal(x)];
    var outside := c[..|c| - 1] + [Normal(x)];
    assert j[..|j| - 1] == c + [ParentDir];
    assert outside[..|c|][|c| - 1] != c[|c| - 1];
    assert c != outside && c != j;
  }

  /** The other escape the creation branch leaves open: when a name inside a
      canonical root is a symlink to a directory outside it, writing "l/x" for
      an "x" that does not exist succeeds, the data lands in the linked
      directory, and reading or writing the same filename again is denied. */
  lemma SymlinkedDirWriteEscapes(d: Disk, rootDir: CPtr, filename: CPtr, content: CPtr, l: string, x: string)
    requires Valid(d) && Terminated(rootDir) && Terminated(filename) && Terminated(content)
    requires PlainName(l) && PlainName(x) && ParseCString(filename) == l + [Sep] + x
    requires var c := Components(ParseCString(rootDir));
             && c in d.canon && d.canon[c] == c
             && c + [Normal(l)] in d.canon && d.canon[c + [Normal(l)]] in d.dirs
             && !StartsWith(d.canon[c + [Normal(l)]], c)
             && c + [Normal(l), Normal(x)] !in d.existing
             && d.canon[c + [Normal(l)]] + [Normal(x)] !in d.existing
    ensures var c := Components(ParseCString(rootDir));
            var outside := d.canon[c + [Normal(l)]] + [Normal(x)];
            var out := SafeWrite(d, rootDir, filename, content, false);
            && out.status == Success
            && out.disk.files == d.files[outside := ParseCString(content)]
            && !StartsWith(outside, c)
            && SafeRead(out.disk, rootDir, filename, false) == Text(AccessDenied)
            && SafeWrite(out.disk, rootDir, filename, content, false) == WriteOutcome(Denied, out.disk)
  {
    var root, file := ParseCString(rootDir), ParseCString(filename);
    var c := Components(root);
    SymlinkedDirVerdicts(d, root, l, x);
    LinkedLands(d, c, l, x, ParseCString(content));
    assert TargetPath(root, file) == c + [Normal(l), Normal(x)];
    ResolvedVerdict(WriteFile(d, c + [Normal(l), Normal(x)], ParseCString(content), false).value, root, file);
  }

  /** Where a new file behind a symlinked directory lands: in the linked
      directory, which the joined name then resolves to. */
  lemma LinkedLands(d: Disk, c: Path, l: string, x: string, data: string)
    requires Valid(d) && c in d.canon && d.canon[c] == c
    requires c + [Normal(l)] in d.canon && d.canon[c + [Normal(l)]] in d.dirs
    requires c + [Normal(l), Normal(x)] !in d.existing
    requires d.canon[c + [Normal(l)]] + [Normal(x)] !in d.existing
    requires !StartsWith(d.canon[c + [Normal(l)]] + [Normal(x)], c)
    ensures var j, outside := c + [Normal(l), Normal(x)], d.canon[c + [Normal(l)]] + [Normal(x)];
            && WriteFile(d, j, data, false).Some?
            && var d' := WriteFile(d, j, data, false).value;
               && c in d'.canon && d'.canon[c] == c
               && j in d'.existing && d'.canon[j] == outside
               && d'.files == d.files[outside := data]
  {
    var j := c + [Normal(l), Normal(x)];
    assert j[..|j| - 1] == c + [Normal(l)];
    assert c != j by {
      assert |j| == |c| + 2;
    }
    assert c[..|c|] == c;
  }

  /** The sentinels share the channel of real data: a file whose text is the
      denial sentinel reads exactly like a denial. */
  lemma SentinelIsAmbiguous(d: Disk, rootDir: CPtr, filename: CPtr)
    requires Terminated(rootDir) && Terminated(filename)
    requires Verdict(d, rootDir, filename).Some?
    requires ReadToString(d, Verdict(d, rootDir, filename).value, false) == Some(AccessDenied)
    ensures SafeRead(d, rootDir, filename, false) == Text(AccessDenied)
  {
    SentinelsWithoutNul();
    ReadOfText(d, rootDir, filename, AccessDenied);
  }

  lemma SentinelsWithoutNul()
    ensures Nul !in AccessDenied && Nul !in FileNotFound
  {
  }

  /** An accepted filename whose file holds NUL-free text reads as that text. */
  lemma ReadOfText(d: Disk, rootDir: CPtr, filename: CPtr, text: string)
    requires Terminated(rootDir) && Terminated(filename)
    requires Verdict(d, rootDir, filename).Some? && Nul !in text
    requires ReadToString(d, Verdict(d, rootDir, filename).value, false) == Some(text)
    ensures SafeRead(d, rootDir, filename, false) == Text(text)
  {
  }
}
