# Sandbox path gate

This models the path gate of a small Rust library that a Go program calls
through C. The library exports two calls. `safe_write_file(root_dir,
filename, content)` returns 0, -1 or -2. `safe_read_file(root_dir,
filename)` returns the file's text or one of the sentinels
`"ERROR: Access Denied"` and `"ERROR: File not found"`. Both calls first ask
`is_safe_path` whether the filename, joined to the root, is inside the
root's canonical form.

The modules follow the library's layers:

- `CStrings`: `parse_c_string`. A C pointer is `Null` or a block of memory, and
  the string ends at the first NUL.
- `Paths`: the parts of Rust's `std::path` that the gate relies on, on a Unix
  target. `Components` is `Path::components` (a root, a leading `.`, `..` and
  plain names, with empty and interior `.` segments dropped). `Join` is
  `Path::join` (`PathBuf::push`). `StartsWith` is `Path::starts_with`, a prefix
  test on components.
- `FileStore`: the filesystem as a value `Disk`. It records which paths
  exist, what `fs::canonicalize` returns, which canonical locations are
  directories, and each regular file's text. `Valid` states what any real
  filesystem guarantees about `canonicalize`. `WriteFile` is `fs::write` as a
  function, and the class `FileSystem` holds the same state and changes it in
  place with `Write`.
- `Resolver`: `is_safe_path` as written (`IsSafePath`), and a corrected
  version (`IsSafePathFixed`) that, for a file that does not exist yet,
  canonicalizes the parent directory and places the new name in it, as the
  comment at src/lib.rs:21 describes.
- `Gate`: `safe_write_file` as the pure `SafeWrite` and as the method
  `SafeWriteFile`, which changes a `FileSystem` and is proved equal to
  `SafeWrite`. `safe_read_file` is the function `SafeRead` of the filesystem.
- `Scenarios`: six worked examples on small filesystems with the sandbox at
  `/work/sandbox`. `DemoGreeting` replays the greeting write of the demo
  driver in `main.go`, which returns 0 and reads back.
  `DemoTraversalNotBlocked` replays its `"../system_hack.txt"` write, which
  the demo expects to be blocked but which returns 0 and writes outside the
  sandbox. `DemoTraversalBlockedWhenFixed` shows the corrected resolver
  rejecting it. `SymlinkEscapeDenied`: a symlink to a file outside is denied.
  `LinkedDirEscapes`: a new file behind a symlink to a directory outside is
  written there with status 0, and the corrected resolver rejects it.
  `SiblingPrefixDenied`: a sibling directory whose name starts with the root's
  name is denied.

Calls into the operating system become explicit inputs.
- The filesystem is the argument `d`, or the object `fs`.
- The `fault` flag says that `fs::write` or `fs::read_to_string` failed for
  a reason outside the model, such as permissions or invalid UTF-8.

The code's behaviour differs from what its comments and names suggest in
several places. The model follows the code:

- An absolute filename replaces the root in the join, because `Path::join`
  does that (src/lib.rs:18). The check of the result still applies, so the
  comment at src/lib.rs:14-15 holds for existing absolute targets.
  `Resolver.AbsoluteTargetIgnoresLiteralRoot` states the consequence.
- Bytes that are not valid UTF-8 in a C string are repaired lossily by
  `to_string_lossy` (src/lib.rs:10), not rejected. Only a null pointer
  (src/lib.rs:9) or a pointer at a NUL gives the empty string; invalid bytes
  are repaired, not emptied.
- The root only has to canonicalize (src/lib.rs:17); nothing checks that it
  is a directory.
- A filename that does not exist yet is checked on the raw join
  (src/lib.rs:24-27), although the comment at src/lib.rs:21 says the parent
  directory is checked. Its `..` components are kept, so it is not protected
  against traversal, contrary to src/lib.rs:14-15 (see Findings).
- The root itself is accepted (src/lib.rs:30), although the comment at
  src/lib.rs:14 says "strictly inside".

## Model

| member | source | states |
|---|---|---|
| `CStrings.ParseCString` | src/lib.rs:7-12 | A null pointer gives the empty string. Otherwise the result is the memory up to, and not including, its first NUL. The result never holds a NUL. |
| `CStrings.UntilNul` | src/lib.rs:10 | `CStr::from_ptr`: the string is the memory before the first NUL, which exists and is not part of it. |
| `CStrings.EmptyOnlyForNullOrNul` | src/lib.rs:9-10 | The parsed string is empty exactly for a null pointer or for memory that starts with a NUL. |
| `CStrings.StopsAtFirstNul` | src/lib.rs:10 | Reading stops at the first NUL, whatever follows it. |
| `CStrings.ParseTerminated` | src/lib.rs:10 | A NUL-free string stored with a terminator parses back to itself. |
| `Paths.Components` | src/lib.rs:18 | The components are well formed. They start with the root exactly when the string starts with a separator. They are empty exactly when the string is. |
| `Paths.Join` | src/lib.rs:18 | `Path::join`: an absolute target replaces the base, and a relative one is appended after a separator unless the base is empty or already ends in one. |
| `Paths.JoinShape` | src/lib.rs:18 | An absolute target replaces the base. A relative one is appended, so the base is a prefix of the result. The target is always its suffix. |
| `Paths.StartsWith` | src/lib.rs:30 | `Path::starts_with`: the base's components are the first components of the path. The lemmas below state its consequences. |
| `Paths.JoinComponents` | src/lib.rs:18 | The components of a joined string are the base's components followed by the relative target's. An absolute target's components replace the base's. |
| `Paths.ParentThenName` | src/lib.rs:18 | `"../x"` has the components `..` then `x`. |
| `Paths.NameThenName` | src/lib.rs:18 | `"l/x"` for two plain names has the components `l` then `x`. |
| `Paths.JoinName` | src/lib.rs:18 | Joining a plain name adds exactly one component. |
| `Paths.SiblingNotContained` | src/lib.rs:30 | A path through a sibling name never starts with the root, whatever characters the two names share. |
| `Paths.StartsWithTransitive` | src/lib.rs:30 | Component prefixes compose. |
| `FileStore.Canonicalize` | src/lib.rs:17-23 | `fs::canonicalize`: defined exactly on the paths the filesystem resolves, giving their resolution. Under `Valid` that is canonical and resolves to itself. |
| `FileStore.Exists` | src/lib.rs:22 | `Path::exists`: the path exists. Under `Valid`, exactly the paths that canonicalize. |
| `FileStore.ReadToString` | src/lib.rs:79 | `fs::read_to_string`: the text of the regular file the path resolves to. It fails for a path that does not exist, for a directory, and on a fault. |
| `FileStore.Location` | src/lib.rs:55 | Where `fs::write` lands: an existing path's resolution, or a new last name inside the resolved parent directory. Nothing otherwise. |
| `FileStore.WriteFile` | src/lib.rs:55 | `fs::write`: fails where there is no location, at a directory, or on a fault. Otherwise it stores the data at the location, and the written path resolves there. |
| `FileStore.LocationCanonical` | src/lib.rs:55 | A write lands on a canonical location. For an existing path, that location is where the path resolves. |
| `FileStore.WritePreservesValid` | src/lib.rs:55 | A write keeps the filesystem well formed. |
| `FileStore.WriteThenRead` | src/lib.rs:55 | After a successful write, reading the written path returns the data. |
| `FileStore.WriteInPlace` | src/lib.rs:55 | A write at a path that is its own location changes only that path's resolution and existence. |
| `FileStore.RewriteIdempotent` | src/lib.rs:55 | Repeating a write at its own location leaves the filesystem unchanged. |
| `FileStore.ReadAtLocation` | src/lib.rs:55 | After a write, the location it landed on reads back the data. |
| `FileStore.RewriteAtLocation` | src/lib.rs:55 | Repeating a write at the location the first write landed on leaves the filesystem unchanged, wherever that location is. |
| `FileStore.WriteLeavesOthers` | src/lib.rs:55 | A read through a path that is neither the written path nor resolves to the written location is unchanged by the write. |
| `FileStore.DirectoriesHoldNoText` | src/lib.rs:55 | Writing a directory fails, and reading it finds no text. |
| `FileStore.FileSystem.Write` | src/lib.rs:55 | `fs::write` in place: it succeeds exactly when `WriteFile` does, and the new state is `WriteFile`'s result, or the old state on failure. |
| `Resolver.IsSafePath` | src/lib.rs:16-35 | If the root does not canonicalize, the result is a rejection. Any accepted path starts, component by component, with the canonical root. It is the canonical join when the join exists, and the raw join otherwise. |
| `Resolver.TargetPath` | src/lib.rs:18 | The components of the joined root and filename. An absolute filename's components replace the root's. |
| `Resolver.TargetPathIsJoin` | src/lib.rs:18 | The path that is checked is the component join of the literal root and the filename. |
| `Resolver.ExistingTargetVerdict` | src/lib.rs:22-34 | For an existing target: `Some(p)` exactly when `p` is the canonical join and `p` starts with the canonical root. |
| `Resolver.ResolvedVerdict` | src/lib.rs:22-34 | The same verdict for a resolving join, with nothing assumed of the filesystem. |
| `Resolver.AcceptedVerdict` | src/lib.rs:16-35 | An acceptance means the root resolves and the accepted path is inside it. The join either resolves to that path or is that path and does not exist. |
| `Resolver.EmptyTargetIsRoot` | src/lib.rs:17-31 | An empty filename yields the canonical root itself. |
| `Resolver.AbsentTargetVerdict` | src/lib.rs:24-34 | For a target that does not exist, the verdict is the raw join if it starts with the canonical root, and a rejection otherwise. |
| `Resolver.AbsentRelativeAccepted` | src/lib.rs:24-31 | When the literal root starts with its canonical form, every relative filename that does not exist is accepted, `..` included. |
| `Resolver.AbsentTraversalAccepted` | src/lib.rs:24-31 | At a canonical root, an absent `"../x"` is accepted as the path `root/../x`. |
| `Resolver.DivergentRootRejectsAbsent` | src/lib.rs:17-34 | When neither the literal root nor its canonical form is a prefix of the other, every relative filename that does not exist is rejected. |
| `Resolver.RelativeRootRejectsAbsent` | src/lib.rs:17-34 | A relative root rejects every relative filename that does not exist. |
| `Resolver.AbsoluteTargetIgnoresLiteralRoot` | src/lib.rs:18 | For an absolute filename, two roots with the same canonical form give the same verdict. |
| `Resolver.IsSafePathFixed` | src/lib.rs:16-35 | The corrected resolver fails closed on an unresolvable root, and every path it accepts starts with the canonical root. |
| `Resolver.FixedVerdictContained` | src/lib.rs:20-30 | Every path the corrected resolver accepts is canonical and inside the canonical root, and a write to it lands exactly there. |
| `Resolver.FixedWriteStaysInside` | src/lib.rs:20-30 | A successful write at a path the corrected resolver accepts stores the data inside the root and changes no other file. |
| `Resolver.FixedRejectsTraversal` | src/lib.rs:20-30 | At a canonical root whose `..` is its parent directory, the corrected resolver accepts `"../x"` only as the canonical form of an `x` that already exists and resolves inside the root; an absent `x` is rejected, where the original accepts it. |
| `Resolver.FixedAgreesOtherwise` | src/lib.rs:22-30 | The correction changes nothing for an existing target, nor for a new file whose parent directory is already its own canonical form. |
| `Resolver.SymlinkedDirVerdicts` | src/lib.rs:20-30 | For a name inside a canonical root that is a symlink to a directory outside, a new file behind it is accepted as the raw join by the original and rejected by the correction. |
| `Gate.Verdict` | src/lib.rs:46-74 | The verdict both calls take: `is_safe_path` on the two parsed C strings. Its properties are those of `Resolver.IsSafePath`. |
| `Gate.SafeWrite` | src/lib.rs:40-65 | The status is 0, -1 or -2. It is -1 exactly when the verdict is a rejection, and -2 exactly when an accepted write fails. Any failure leaves the filesystem unchanged. After status 0 the filesystem is `fs::write`'s result at the accepted path, and that path reads back as the parsed content. |
| `Gate.SafeWriteFile` | src/lib.rs:40-65 | On a `FileSystem` object: the status and the new state are those of `SafeWrite` on the old state. |
| `Gate.SafeRead` | src/lib.rs:69-83 | A rejection gives `"ERROR: Access Denied"`. A failed read gives `"ERROR: File not found"`. A successful read of content `c` gives `c` when it is free of NUL and a panic when it holds one. Conversely, any other text is the file's content, and a panic happens only for content holding a NUL. |
| `Gate.RootUnresolvedFailsClosed` | src/lib.rs:46-76 | When the root does not canonicalize, the write returns -1 with the filesystem unchanged, and the read returns the denial sentinel. |
| `Gate.AbsentFileNotFound` | src/lib.rs:79-81 | An accepted filename that names nothing reads as "not found". |
| `Gate.EmptyFilenameHitsRootDirectory` | src/lib.rs:55-81 | An empty filename is accepted as the root directory. Writing it returns -2, and reading it returns "not found". |
| `Gate.WriteLeavesOtherReads` | src/lib.rs:46-58 | A successful write changes no read through a path that is neither the accepted path nor resolves to where the write landed. |
| `Gate.VerdictSurvivesWrite` | src/lib.rs:46-55 | After a successful write at a path that is its own location, the same filename is accepted at the same path. |
| `Gate.StoredPathStaysAccepted` | src/lib.rs:22-31 | When the accepted path is its own location, the resolver keeps accepting it at that path once the write has created it. |
| `Gate.WriteThenReadRoundTrip` | src/lib.rs:55-80 | When the accepted path is its own location, a successful write followed by a read returns exactly the written data. |
| `Gate.RepeatedWriteIdempotent` | src/lib.rs:55-58 | When the accepted path is its own location, writing the same data to the same filename again succeeds and changes nothing further. The escaping writes below are not idempotent. |
| `Gate.LandedPathAccepted` | src/lib.rs:22-31 | When a write lands inside the canonical root, not on the root's literal path and not necessarily on the accepted path, the resolver then accepts the filename at the location where the write landed. |
| `Gate.WriteInsideThenRead` | src/lib.rs:46-80 | When a write lands inside the root somewhere other than the root's literal path, as for `"sub/../new.txt"` or a name behind a symlinked directory inside the root: the same filename is then accepted at that location, and a read returns exactly the written data. |
| `Gate.RepeatedWriteInside` | src/lib.rs:46-58 | Under the same premises, writing the same data to the same filename again succeeds and changes nothing further. |
| `Gate.TraversalWriteEscapes` | src/lib.rs:24-58 | At a canonical root, writing an absent `"../x"` returns 0. The data lands next to the root, outside it, no other file changes, and reading or writing the same filename again is denied. |
| `Gate.TraversalLands` | src/lib.rs:55 | Where that write lands, and how the join resolves after it. |
| `Gate.SymlinkedDirWriteEscapes` | src/lib.rs:20-58 | At a canonical root with a name `l` that is a symlink to a directory outside it, writing an absent `"l/x"` returns 0. The data lands in the linked directory, no other file changes, and reading or writing the same filename again is denied. |
| `Gate.LinkedLands` | src/lib.rs:55 | Where that write lands, and how the join resolves after it. |
| `Gate.ReadOfText` | src/lib.rs:76-80 | An accepted filename whose file holds NUL-free text reads as exactly that text. |
| `Gate.SentinelIsAmbiguous` | src/lib.rs:76-80 | A file whose text is the denial sentinel reads exactly like a denial. |
| `Scenarios.DemoGreeting` | main.go:61-67 | The demo's greeting write inside `/work/sandbox` returns 0, creates exactly that one file, and reads back as written. |
| `Scenarios.DemoTraversalNotBlocked` | main.go:67-82 | After the greeting write, the demo's `"../system_hack.txt"` write returns 0 and stores `"Hacked!"` in `/work`, outside the sandbox, and the greeting is untouched. The demo expects the write to be blocked. The same write a second time returns -1. |
| `Scenarios.DemoTraversalBlockedWhenFixed` | main.go:76-82 | On the filesystem after the greeting, the corrected resolver rejects the demo's traversal. |
| `Scenarios.LinkedDirEscapes` | src/lib.rs:20-58 | With `/work/sandbox/etc` a symlink to the directory `/etc`, writing `"etc/new.txt"` from the sandbox returns 0 and creates `/etc/new.txt`, outside the sandbox; the corrected resolver rejects the same filename. |
| `Scenarios.SymlinkEscapeDenied` | src/lib.rs:22-34 | On a well-formed filesystem, a symlink in the sandbox that points outside it is denied for reads and for writes, and the filesystem is unchanged. |
| `Scenarios.SiblingPrefixDenied` | src/lib.rs:30 | From the root `/a/b`, `"../bx/secret.txt"` is denied although `/a/b` is a character prefix of its target. |

## Left out

- C interface plumbing is left out: raw pointers, `CStr`/`CString` ownership, and result strings that are never freed. A pointer is a value here, either `Null` or the memory it points to.
- CStrings.ParseCString: does not model `to_string_lossy` UTF-8 repair, because strings here are sequences of characters with no encoding. Memory that does not end in a NUL is excluded by `Terminated`, because reading it would be undefined behaviour.
- `fs::read_to_string` rejecting invalid UTF-8, and operating-system refusals, are not modelled in detail. Both are folded into the `fault` input.
- `fs::canonicalize` is kept abstract. `Valid` states its guarantees (absolute, free of `.` and `..`, idempotent, defined exactly on existing paths) instead of resolving symlinks step by step. A dangling symlink is therefore a path that does not exist.
- FileStore.WriteFile: a newly created file becomes known by the written path and by its location only, not by other spellings of it (for example through a symlinked parent).
- Windows paths are not modelled: no prefixes and no `\` separator. Segments are split on `/` only. The Findings and `Scenarios` therefore hold on a Unix target. On Windows, `fs::canonicalize` returns an extended-length `\\?\C:\…` path whose prefix is a different component from a literal `C:\…` root, so the raw join of a missing name never starts with the canonical root there: the traversal would be rejected, and so would the demo's first greeting write.
- FileStore.Location: the filesystem is keyed by component sequences, so a trailing separator is lost. `Path::components` drops it, but the operating system does not: for a filename such as `"new.txt/"` the real `fs::write` fails with "is a directory" and `safe_write_file` returns -2; for an existing regular file named with a trailing `/`, `exists()` is false there and reads and writes fail. A trailing `.` is lost the same way: `"new.txt/."` has the components of `"new.txt"`, but for the operating system it names a directory entry under a file, so `exists()` is false, the raw join is accepted, and the real `fs::write` fails with "no such file or directory", giving -2. The model treats `"x/"` and `"x/."` exactly like `"x"` after a component that is not a directory, so it reports success for such writes and reads.
- FileStore.Location: a dangling symlink is a path that does not exist, and a new file is placed at the canonical parent plus the last name. The real `fs::write` follows a dangling symlink at the last component and creates the link's target, wherever it points. Such a name passes `is_safe_path` as an absent target, in the as-written and the corrected resolver alike, so the model does not show this further escape route.
- The `println!` diagnostics are observability only.
- The gap between checking a path and using it, and concurrent callers, are left out. The code does nothing about them.
- A partial write after a failure is not modelled: a failed `fs::write` leaves the filesystem unchanged.
- The cgo wrapper and the demo driver in `main.go` are left out, apart from the two demo calls replayed in `Scenarios`. `os.Getwd` becomes the fixed directory `/work`.
- Resolver.DivergentRootRejectsAbsent: stated only for relative filenames and for literal roots that diverge from their canonical form. A literal root that merely differs is not enough. An absolute filename replaces the root. A literal root such as `/s/sub/..` extends its canonical form `/s`, so it still accepts absent names under itself.
- Scenarios.DemoGreeting: takes the greeting text as a parameter, stated for any NUL-free text, rather than the demo's literal message; `DemoTraversalNotBlocked` and `DemoTraversalBlockedWhenFixed` likewise start from the filesystem left by the greeting with that text.
- The gate operations use the resolver as written, not the corrected one, so that they show the library's behaviour. The correction is applied to the examples in `Scenarios.DemoTraversalBlockedWhenFixed` and `Scenarios.LinkedDirEscapes`.
- Resolver.FixedRejectsTraversal: assumes that `..` after the canonical root resolves to the root's parent directory, as it does on a real filesystem for a path free of symlinks; `Valid` does not impose it.

## Findings

| source | as written | input that shows it | evidently intended | confidence | as-written member | corrected member |
|---|---|---|---|---|---|---|
| src/lib.rs:24-30 | A target that does not exist is checked as the raw join, and `Path::starts_with` compares components, so a leading `..` passes the prefix test. | Root `/work/sandbox` (already canonical), filename `../system_hack.txt`, no such file: accepted, and the write lands in `/work` | The containment the comments promise, with the parent directory of a new file resolved as src/lib.rs:21 says: a new file must lie inside the root once `..` is resolved | not executed | `Resolver.AbsentTraversalAccepted` | `Resolver.FixedRejectsTraversal` |
| src/lib.rs:20-30 | The parent directory of a target that does not exist is not resolved, although the comment at src/lib.rs:21 says it is checked, so a symlinked directory inside the root passes the prefix test. | Root `/work/sandbox`, `/work/sandbox/etc` a symlink to the directory `/etc`, filename `etc/new.txt`, no such file: accepted, and the write creates `/etc/new.txt` | The parent directory is canonicalized and the new name placed in it, so every write lands inside the root | not executed | `Gate.SymlinkedDirWriteEscapes` | `Resolver.FixedWriteStaysInside` |

Both inputs also make a repeated write behave differently from the first. The
first call returns 0 and creates the joined name. The same call again returns
-1, because the joined name now exists and resolves outside the root. So
`RepeatedWriteIdempotent` needs the accepted path to be its own location, and
`RepeatedWriteInside` needs the write to land inside the root
(`Gate.TraversalWriteEscapes`, `Gate.SymlinkedDirWriteEscapes`,
`Scenarios.DemoTraversalNotBlocked`).
