/**
  Paths as Rust's standard library sees them on a Unix target: a path string is
  read as a sequence of components (`Path::components`), two path strings are
  joined with `PathBuf::push`, and containment is `Path::starts_with`, a prefix
  test on component sequences.
 */
module Paths {

  /** One component of a parsed path. */
  datatype Component = RootDir | CurDir | ParentDir | Normal(name: string)

  type Path = seq<Component>

  const Sep: char := '/'

  /** A segment that `Components` keeps as a `Normal` component. */
  predicate PlainName(x: string) {
    x != [] && x != "." && x != ".." && Sep !in x
  }

  /** A parsed path: a root only at the front, a current-directory marker only at
      the front of a relative path, and plain names in between. */
  predicate WellFormed(p: Path) {
    && (forall i :: 0 < i < |p| ==> p[i].ParentDir? || p[i].Normal?)
    && (forall i :: 0 <= i < |p| && p[i].Normal? ==> PlainName(p[i].name))
  }

  /** The string split at every separator; the empty string is one empty segment. */
  function Split(s: string): (r: seq<string>)
    ensures |r| >= 1
    ensures forall i :: 0 <= i < |r| ==> Sep !in r[i]
    decreases |s|
  {
    if s == [] then [[]]
    else if s[0] == Sep then [[]] + Split(s[1..])
    else
      var rest := Split(s[1..]);
      [[s[0]] + rest[0]] + rest[1..]
  }

  /** What one segment contributes: empty segments and "." vanish, ".." is kept. */
  function SegmentComponents(seg: string): Path {
    if seg == [] || seg == "." then []
    else if seg == ".." then [ParentDir]
    else [Normal(seg)]
  }

  /** The components of a list of separator-free segments. */
  function Flatten(segs: seq<string>): (r: Path)
    requires forall i :: 0 <= i < |segs| ==> Sep !in segs[i]
    ensures forall i :: 0 <= i < |r| ==> r[i].ParentDir? || (r[i].Normal? && PlainName(r[i].name))
    ensures |r| <= |segs|
  {
    if segs == [] then [] else SegmentComponents(segs[0]) + Flatten(segs[1..])
  }

  /** Every component of the string after its root or leading ".". */
  function Body(s: string): Path {
    Flatten(Split(s))
  }

  predicate HasRoot(s: string) {
    |s| > 0 && s[0] == Sep
  }

  /** A relative path whose first segment is exactly "." keeps it as `CurDir`. */
  predicate LeadingCurDir(s: string) {
    !HasRoot(s) && |s| > 0 && s[0] == '.' && (|s| == 1 || s[1] == Sep)
  }

  function Lead(s: string): Path {
    if HasRoot(s) then [RootDir] else if LeadingCurDir(s) then [CurDir] else []
  }

  /** `Path::components` on a Unix target. */
  function Components(s: string): (r: Path)
    ensures WellFormed(r)
    ensures HasRoot(s) <==> |r| > 0 && r[0] == RootDir
    ensures r == [] <==> s == []
  {
    FirstSegment(s);
    Lead(s) + Body(s)
  }

  /** The first segment of a string that does not start with a separator is not
      empty, and it is "." only when the string starts with "." and a separator. */
  lemma FirstSegment(s: string)
    ensures s != [] && s[0] != Sep ==>
      Split(s)[0] != [] && (Split(s)[0] == "." ==> LeadingCurDir(s))
  {
    if s == [] || s[0] == Sep { return; }
    var rest := Split(s[1..]);
    assert Split(s)[0] == [s[0]] + rest[0];
    if Split(s)[0] == "." {
      assert s[0] == ([s[0]] + rest[0])[0] == '.';
      assert rest[0] == [];
    }
  }

  /** `PathBuf::push` (and so `Path::join`) on a Unix target: an absolute path
      replaces the base; otherwise a separator is added unless the base is empty
      or already ends in one. */
  function Join(base: string, path: string): string {
    if HasRoot(path) then path
    else if base == [] || base[|base| - 1] == Sep then base + path
    else base + [Sep] + path
  }

  /** An absolute target replaces the base; a relative one is appended to it.
      Either way the target ends the result. */
  lemma JoinShape(base: string, path: string)
    ensures var r := Join(base, path);
            && |path| <= |r| && r[|r| - |path|..] == path
            && (HasRoot(path) ==> r == path)
            && (!HasRoot(path) ==> |base| <= |r| && r[..|base|] == base)
  {
  }

  /** The same join, stated on components. */
  function JoinPath(base: Path, path: Path): Path {
    if |path| > 0 && path[0] == RootDir then path
    else if base == [] then path
    else base + (if |path| > 0 && path[0] == CurDir then path[1..] else path)
  }

  /** `Path::starts_with`: a prefix test on components, not on characters. */
  predicate StartsWith(p: Path, base: Path) {
    |base| <= |p| && p[..|base|] == base
  }

  lemma {:induction false} SplitAround(a: string, b: string)
    ensures Split(a + [Sep] + b) == Split(a) + Split(b)
    decreases |a|
  {
    var s := a + [Sep] + b;
    if a == [] {
      assert s[0] == Sep && s[1..] == b;
    } else {
      assert s[0] == a[0] && s[1..] == a[1..] + [Sep] + b;
      SplitAround(a[1..], b);
    }
  }

  lemma {:induction false} FlattenAppend(x: seq<string>, y: seq<string>)
    requires forall i :: 0 <= i < |x| ==> Sep !in x[i]
    requires forall i :: 0 <= i < |y| ==> Sep !in y[i]
    ensures Flatten(x + y) == Flatten(x) + Flatten(y)
  {
    if x == [] {
      assert x + y == y;
    } else {
      assert (x + y)[0] == x[0] && (x + y)[1..] == x[1..] + y;
      FlattenAppend(x[1..], y);
      calc {
        Flatten(x + y);
        SegmentComponents(x[0]) + Flatten(x[1..] + y);
        SegmentComponents(x[0]) + (Flatten(x[1..]) + Flatten(y));
        (SegmentComponents(x[0]) + Flatten(x[1..])) + Flatten(y);
      }
    }
  }

  /** The separator between two strings splits their components apart. */
  lemma BodyAround(a: string, b: string)
    ensures Body(a + [Sep] + b) == Body(a) + Body(b)
  {
    SplitAround(a, b);
    FlattenAppend(Split(a), Split(b));
  }

  /** A trailing separator adds no component. */
  lemma BodyTrailingSep(a: string)
    ensures Body(a + [Sep]) == Body(a)
  {
    BodyAround(a, []);
    assert a + [Sep] + [] == a + [Sep];
  }

  /** Joining strings and then parsing is joining the parsed components: the
      prefix that `Path::starts_with` later compares is the literal base. */
  lemma JoinComponents(base: string, path: string)
    ensures Components(Join(base, path)) == JoinPath(Components(base), Components(path))
  {
    if HasRoot(path) {
    } else if base == [] {
      assert Join(base, path) == path;
    } else if base[|base| - 1] == Sep {
      JoinAfterSep(base, path);
    } else {
      JoinAddsSep(base, path);
    }
  }

  /** What a relative path contributes after a non-empty base. */
  lemma RelativeTail(path: string)
    requires !HasRoot(path)
    ensures Body(path) == (if |Components(path)| > 0 && Components(path)[0] == CurDir
                           then Components(path)[1..] else Components(path))
  {
    if path != [] && !LeadingCurDir(path) {
      FirstSegment(path);
      assert Components(path) == Body(path);
    }
  }

  /** Extending a string keeps its root or leading "." unless the extension glues
      onto a lone first character. */
  lemma LeadExtend(base: string, rest: string)
    requires base != []
    requires |base| >= 2 || base[0] == Sep || rest == [] || rest[0] == Sep
    ensures Lead(base + rest) == Lead(base)
  {
    var j := base + rest;
    assert j[0] == base[0];
    assert |base| >= 2 ==> j[1] == base[1];
    assert |base| == 1 && rest != [] ==> j[1] == rest[0];
  }

  lemma JoinAfterSep(base: string, path: string)
    requires !HasRoot(path) && base != [] && base[|base| - 1] == Sep
    ensures Components(Join(base, path)) == JoinPath(Components(base), Components(path))
  {
    var j := Join(base, path);
    var b' := base[..|base| - 1];
    assert base == b' + [Sep];
    assert j == b' + [Sep] + path;
    BodyAround(b', path);
    BodyTrailingSep(b');
    LeadExtend(base, path);
    RelativeTail(path);
  }

  lemma JoinAddsSep(base: string, path: string)
    requires !HasRoot(path) && base != [] && base[|base| - 1] != Sep
    ensures Components(Join(base, path)) == JoinPath(Components(base), Components(path))
  {
    assert Join(base, path) == base + [Sep] + path;
    ComponentsAroundSep(base, path);
    RelativeTail(path);
  }

  lemma ComponentsAroundSep(base: string, path: string)
    requires base != []
    ensures Components(base + [Sep] + path) == Components(base) + Body(path)
  {
    var j := base + [Sep] + path;
    var rest := [Sep] + path;
    assert j == base + rest;
    BodyAround(base, path);
    LeadExtend(base, rest);
    assert Body(j) == Body(base) + Body(path);
    assert Lead(j) == Lead(base);
  }

  /** A separator-free string is a single segment. */
  lemma {:induction false} SplitPlain(x: string)
    requires Sep !in x
    ensures Split(x) == [x]
  {
    if x != [] {
      assert x[0] != Sep && Sep !in x[1..];
      SplitPlain(x[1..]);
      assert [x[0]] + x[1..] == x;
    }
  }

  /** A relative path string parses to its root-less body. */
  lemma RelativeComponents(s: string)
    requires !HasRoot(s) && !LeadingCurDir(s)
    ensures Components(s) == Body(s)
  {
  }

  /** "../x" is a parent step followed by the name. */
  lemma ParentThenName(x: string)
    requires PlainName(x)
    ensures Components(".." + [Sep] + x) == [ParentDir, Normal(x)]
  {
    SplitAround("..", x);
    SplitPlain("..");
    SplitPlain(x);
    FlattenAppend([".."], [x]);
  }

  /** "l/x" for two plain names is the two names. */
  lemma NameThenName(l: string, x: string)
    requires PlainName(l) && PlainName(x)
    ensures Components(l + [Sep] + x) == [Normal(l), Normal(x)]
  {
    var t := l + [Sep] + x;
    assert t[0] == l[0];
    assert |l| >= 2 ==> t[1] == l[1];
    assert !HasRoot(t) && !LeadingCurDir(t);
    SplitAround(l, x);
    SplitPlain(l);
    SplitPlain(x);
    FlattenAppend([l], [x]);
  }

  /** A base followed by a plain name gains exactly that name. */
  lemma JoinName(base: string, x: string)
    requires base != [] && PlainName(x)
    ensures Components(Join(base, x)) == Components(base) + [Normal(x)]
  {
    JoinComponents(base, x);
    SplitPlain(x);
    assert Components(x) == [Normal(x)];
  }

  /** A component prefix never stops inside a name: a sibling whose name merely
      begins with the last name of the base is not inside the base. */
  lemma SiblingNotContained(pre: Path, b: string, bx: string, rest: Path)
    requires b != bx
    ensures !StartsWith(pre + [Normal(bx)] + rest, pre + [Normal(b)])
  {
    var p := pre + [Normal(bx)] + rest;
    assert p[|pre|] == Normal(bx);
  }

  /** `starts_with` is transitive: a path inside a path inside the root is inside the root. */
  lemma StartsWithTransitive(a: Path, b: Path, c: Path)
    requires StartsWith(a, b) && StartsWith(b, c)
    ensures StartsWith(a, c)
  {
    assert a[..|c|] == a[..|b|][..|c|];
  }
}
