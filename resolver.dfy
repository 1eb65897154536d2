/**
  The containment decision `is_safe_path`: canonicalize the root, join the
  literal root with the caller's filename, canonicalize the join when it
  exists and take it as it is when it does not, and accept the result when it
  starts, component by component, with the canonical root.
 */
module Resolver {
  import opened Wrappers
  import opened Paths
  import opened FileStore

  /** The components of the literal join that `is_safe_path` examines. */
  function TargetPath(root: string, target: string): (r: Path)
    ensures HasRoot(target) ==> r == Components(target)
  {
    Components(Join(root, target))
  }

  /** `is_safe_path` as written. */
  function IsSafePath(d: Disk, root: string, target: string): (r: Option<Path>)
    ensures Components(root) !in d.canon ==> r.None?
    ensures r.Some? ==> Components(root) in d.canon && StartsWith(r.value, d.canon[Components(root)])
    ensures r.Some? ==> if Exists(d, TargetPath(root, target))
                        then Canonicalize(d, TargetPath(root, target)) == r
                        else r.value == TargetPath(root, target)
  {
    match Canonicalize(d, Components(root))
    case None => None
    case Some(rootPath) =>
      var targetPath := Components(Join(root, target));
      var finalPath := if Exists(d, targetPath) then Canonicalize(d, targetPath) else Some(targetPath);
      if finalPath.Some? && StartsWith(finalPath.value, rootPath) then finalPath else None
  }

  /** The join examined is the literal root's components followed by the
      filename's, or the filename alone when it is absolute. */
  lemma TargetPathIsJoin(root: string, target: string)
    ensures TargetPath(root, target) == JoinPath(Components(root), Components(target))
  {
    JoinComponents(root, target);
  }

  /** An existing target is accepted exactly when its canonical form lies inside
      the canonical root; this is what rejects a symlink or a ".." that resolves
      outside. */
  lemma ExistingTargetVerdict(d: Disk, root: string, target: string, p: Path)
    requires Valid(d) && Components(root) in d.canon
    requires JoinPath(Components(root), Components(target)) in d.existing
    ensures IsSafePath(d, root, target) == Some(p) <==>
              p == d.canon[JoinPath(Components(root), Components(target))]
              && StartsWith(p, d.canon[Components(root)])
  {
    TargetPathIsJoin(root, target);
  }

  /** The verdict on a target that exists and resolves, with nothing assumed of
      the filesystem. */
  lemma ResolvedVerdict(d: Disk, root: string, target: string)
    requires Components(root) in d.canon
    requires TargetPath(root, target) in d.existing && TargetPath(root, target) in d.canon
    ensures var r, q := d.canon[Components(root)], d.canon[TargetPath(root, target)];
            IsSafePath(d, root, target) == if StartsWith(q, r) then Some(q) else None
  {
  }

  /** What an acceptance says: the root resolves, the accepted path lies inside
      it, and the join either resolves to the accepted path or is that path. */
  lemma AcceptedVerdict(d: Disk, root: string, target: string, p: Path)
    requires IsSafePath(d, root, target) == Some(p)
    ensures Components(root) in d.canon && StartsWith(p, d.canon[Components(root)])
    ensures var j := TargetPath(root, target);
            (j in d.existing && j in d.canon && d.canon[j] == p) || (j !in d.existing && j == p)
  {
  }

  /** An empty filename names the root itself, and the root is accepted: not
      only paths strictly inside it pass. */
  lemma EmptyTargetIsRoot(d: Disk, root: string)
    requires Valid(d) && Components(root) in d.existing
    ensures IsSafePath(d, root, "") == Some(d.canon[Components(root)])
  {
    var c := Components(root);
    var r := d.canon[c];
    TargetPathIsJoin(root, "");
    assert c != [] && Components("") == [];
    assert TargetPath(root, "") == c;
    assert Exists(d, c) && Canonicalize(d, c) == Some(r);
    assert r[..|r|] == r;
  }

  /** A target that does not exist yet is judged on the raw join: nothing is
      resolved and ".." components stay in the returned path. */
  lemma AbsentTargetVerdict(d: Disk, root: string, target: string)
    requires Components(root) in d.canon
    requires JoinPath(Components(root), Components(target)) !in d.existing
    ensures var j := JoinPath(Components(root), Components(target));
            IsSafePath(d, root, target) == if StartsWith(j, d.canon[Components(root)]) then Some(j) else None
  {
    TargetPathIsJoin(root, target);
  }

  /** When the literal root already starts with its canonical form (in
      particular when it is canonical), every relative filename that does not
      exist is accepted, whatever ".." it holds. */
  lemma AbsentRelativeAccepted(d: Disk, root: string, target: string)
    requires root != [] && Components(root) in d.canon
    requires StartsWith(Components(root), d.canon[Components(root)])
    requires !HasRoot(target)
    requires Components(root) + Body(target) !in d.existing
    ensures IsSafePath(d, root, target) == Some(Components(root) + Body(target))
  {
    var j := Components(root) + Body(target);
    RelativeJoin(root, target);
    assert j[..|Components(root)|] == Components(root);
    StartsWithTransitive(j, Components(root), d.canon[Components(root)]);
  }

  /** A relative filename adds its body to a non-empty root. */
  lemma RelativeJoin(root: string, target: string)
    requires root != [] && !HasRoot(target)
    ensures TargetPath(root, target) == Components(root) + Body(target)
  {
    TargetPathIsJoin(root, target);
    RelativeTail(target);
  }

  /** The traversal "../x" at a canonical root is accepted whenever "x" does not
      exist yet, and the accepted path keeps its ".." component. */
  lemma AbsentTraversalAccepted(d: Disk, root: string, x: string)
    requires Valid(d) && Components(root) in d.canon && d.canon[Components(root)] == Components(root)
    requires PlainName(x)
    requires Components(root) + [ParentDir, Normal(x)] !in d.existing
    ensures IsSafePath(d, root, ".." + [Sep] + x) == Some(Components(root) + [ParentDir, Normal(x)])
  {
    var t := ".." + [Sep] + x;
    ParentThenName(x);
    assert !LeadingCurDir(t) && !HasRoot(t);
    RelativeComponents(t);
    assert Components(root) != [];
    AbsentRelativeAccepted(d, root, t);
  }

  /** When the literal root and its canonical form diverge (neither starts with
      the other), every relative filename that does not exist is rejected. */
  lemma DivergentRootRejectsAbsent(d: Disk, root: string, target: string)
    requires root != [] && Components(root) in d.canon
    requires !StartsWith(Components(root), d.canon[Components(root)])
    requires !StartsWith(d.canon[Components(root)], Components(root))
    requires !HasRoot(target)
    requires Components(root) + Body(target) !in d.existing
    ensures IsSafePath(d, root, target).None?
  {
    RelativeTail(target);
    var c := Components(root);
    assert JoinPath(c, Components(target)) == c + Body(target);
    AbsentTargetVerdict(d, root, target);
    DivergentPrefix(c, d.canon[c], Body(target));
  }

  /** Extending a path that neither starts with nor is a start of `r` never
      makes it start with `r`. */
  lemma DivergentPrefix(c: Path, r: Path, tail: Path)
    requires !StartsWith(c, r) && !StartsWith(r, c)
    ensures !StartsWith(c + tail, r)
  {
    var j := c + tail;
    if |r| <= |c| {
      assert j[..|r|] == c[..|r|];
    } else if |r| <= |j| {
      assert j[..|r|][..|c|] == c;
    }
  }

  /** A relative root (one the process's working directory resolves) never
      starts like its absolute canonical form, so it rejects every relative
      filename that does not exist. */
  lemma RelativeRootRejectsAbsent(d: Disk, root: string, target: string)
    requires Valid(d) && root != [] && !HasRoot(root) && Components(root) in d.canon
    requires !HasRoot(target)
    requires Components(root) + Body(target) !in d.existing
    ensures IsSafePath(d, root, target).None?
  {
    var c := Components(root);
    var r := d.canon[c];
    assert Canonical(r);
    assert c[0] != r[0];
    DivergentRootRejectsAbsent(d, root, target);
  }

  /** An absolute filename replaces the root in the join, so the verdict depends
      on the root only through its canonical form. */
  lemma AbsoluteTargetIgnoresLiteralRoot(d: Disk, root1: string, root2: string, target: string)
    requires HasRoot(target)
    requires Components(root1) in d.canon && Components(root2) in d.canon
    requires d.canon[Components(root1)] == d.canon[Components(root2)]
    ensures IsSafePath(d, root1, target) == IsSafePath(d, root2, target)
  {
    TargetPathIsJoin(root1, target);
    TargetPathIsJoin(root2, target);
  }

  /** Where the corrected resolver puts a target that does not exist yet: the
      parent directory is canonicalized and the new name placed in it, as the
      comment on the creation branch says; when that names something that
      exists after all, its canonical form is taken. */
  function ResolveNew(d: Disk, j: Path): Option<Path> {
    if |j| > 0 && j[|j| - 1].Normal? then
      match Canonicalize(d, j[..|j| - 1])
      case None => None
      case Some(dir) =>
        var q := dir + [j[|j| - 1]];
        if Exists(d, q) then Canonicalize(d, q) else Some(q)
    else None
  }

  /** What the corrected resolver tests: the canonical form of a target that
      exists, or the placement of a new one in its resolved parent. */
  function FixedFinal(d: Disk, j: Path): Option<Path> {
    if Exists(d, j) then Canonicalize(d, j) else ResolveNew(d, j)
  }

  /** The resolver with the evidently intended behaviour for a target that does
      not exist yet: its parent directory is resolved before the test, so
      neither a ".." nor a symlinked directory can carry the new file out of
      the root. */
  function IsSafePathFixed(d: Disk, root: string, target: string): (r: Option<Path>)
    ensures Components(root) !in d.canon ==> r.None?
    ensures r.Some? ==> Components(root) in d.canon && StartsWith(r.value, d.canon[Components(root)])
  {
    match Canonicalize(d, Components(root))
    case None => None
    case Some(rootPath) =>
      var targetPath := Components(Join(root, target));
      var finalPath := FixedFinal(d, targetPath);
      if finalPath.Some? && StartsWith(finalPath.value, rootPath) then finalPath else None
  }

  /** Every path the corrected resolver accepts is canonical, lies inside the
      canonical root component by component, and is itself where a write to it
      lands. */
  lemma FixedVerdictContained(d: Disk, root: string, target: string)
    requires Valid(d) && IsSafePathFixed(d, root, target).Some?
    ensures var p := IsSafePathFixed(d, root, target).value;
            && Canonical(p) && StartsWith(p, d.canon[Components(root)])
            && (Location(d, p).Some? ==> Location(d, p) == Some(p))
  {
    assert IsSafePathFixed(d, root, target) == FixedFinal(d, TargetPath(root, target));
    FixedFinalInPlace(d, TargetPath(root, target));
  }

  /** On a well-formed filesystem the path the correction tests is canonical,
      and a write to it lands on it. */
  lemma FixedFinalInPlace(d: Disk, j: Path)
    requires Valid(d) && FixedFinal(d, j).Some?
    ensures var p := FixedFinal(d, j).value;
            Canonical(p) && (Location(d, p).Some? ==> Location(d, p) == Some(p))
  {
    var p := FixedFinal(d, j).value;
    if !Exists(d, j) {
      var dir := d.canon[j[..|j| - 1]];
      var q := dir + [j[|j| - 1]];
      if !Exists(d, q) {
        assert p == q && p[..|p| - 1] == dir;
        assert Canonical(dir) && dir in d.existing && d.canon[dir] == dir;
      }
    }
  }

  /** A write through the corrected resolver stores the data at the accepted
      path, inside the root, and changes no other file. */
  lemma FixedWriteStaysInside(d: Disk, root: string, target: string, data: string, fault: bool)
    requires Valid(d) && IsSafePathFixed(d, root, target).Some?
    requires WriteFile(d, IsSafePathFixed(d, root, target).value, data, fault).Some?
    ensures var p := IsSafePathFixed(d, root, target).value;
            && StartsWith(p, d.canon[Components(root)])
            && WriteFile(d, p, data, fault).value.files == d.files[p := data]
  {
    FixedVerdictContained(d, root, target);
  }

  /** The corrected resolver does not let "../x" out of a canonical root whose
      ".." is its parent directory: it accepts only the canonical form of an
      "x" that already exists next to the root, and only when that lies inside
      the root, so a missing "x" is rejected. */
  lemma FixedRejectsTraversal(d: Disk, root: string, x: string)
    requires Valid(d) && Components(root) in d.canon && d.canon[Components(root)] == Components(root)
    requires |Components(root)| >= 2 && PlainName(x)
    requires Components(root)[|Components(root)| - 1] != Normal(x)
    requires Components(root) + [ParentDir, Normal(x)] !in d.existing
    requires var c := Components(root);
             c + [ParentDir] in d.canon ==> d.canon[c + [ParentDir]] == c[..|c| - 1]
    ensures var c, t := Components(root), ".." + [Sep] + x;
            var sibling := c[..|c| - 1] + [Normal(x)];
            && (IsSafePathFixed(d, root, t).Some? ==>
                  sibling in d.existing && IsSafePathFixed(d, root, t) == Some(d.canon[sibling]))
            && (sibling !in d.existing ==> IsSafePathFixed(d, root, t).None?)
  {
    var c := Components(root);
    var t := ".." + [Sep] + x;
    var j := c + [ParentDir, Normal(x)];
    var sibling := c[..|c| - 1] + [Normal(x)];
    ParentThenName(x);
    assert !LeadingCurDir(t) && !HasRoot(t);
    JoinComponents(root, t);
    assert TargetPath(root, t) == j;
    TraversalFinal(d, c, x);
    assert sibling[..|c|][|c| - 1] != c[|c| - 1];
  }

  /** The correction resolves "root/.." and places the name beside the root. */
  lemma TraversalFinal(d: Disk, c: Path, x: string)
    requires |c| >= 1 && c + [ParentDir, Normal(x)] !in d.existing
    requires c + [ParentDir] in d.canon ==> d.canon[c + [ParentDir]] == c[..|c| - 1]
    ensures var sibling := c[..|c| - 1] + [Normal(x)];
            FixedFinal(d, c + [ParentDir, Normal(x)])
              == if c + [ParentDir] !in d.canon then None
                 else if sibling in d.existing then Canonicalize(d, sibling)
                 else Some(sibling)
  {
    var j := c + [ParentDir, Normal(x)];
    assert j[..|j| - 1] == c + [ParentDir] && j[|j| - 1] == Normal(x);
  }

  /** The correction changes nothing for a target that exists, nor for a new
      file whose parent directory is already its own canonical form. */
  lemma FixedAgreesOtherwise(d: Disk, root: string, target: string)
    requires var j := TargetPath(root, target);
             || j in d.existing
             || (|j| > 0 && j[|j| - 1].Normal? && j[..|j| - 1] in d.canon && d.canon[j[..|j| - 1]] == j[..|j| - 1])
    ensures IsSafePathFixed(d, root, target) == IsSafePath(d, root, target)
  {
    var j := TargetPath(root, target);
    var f := if Exists(d, j) then Canonicalize(d, j) else Some(j);
    assert FixedFinal(d, j) == f by {
      if j !in d.existing {
        ResolveNewInPlace(d, j);
      }
    }
  }

  /** A new name in a directory that is its own canonical form stays where it is. */
  lemma ResolveNewInPlace(d: Disk, j: Path)
    requires j !in d.existing
    requires |j| > 0 && j[|j| - 1].Normal? && j[..|j| - 1] in d.canon && d.canon[j[..|j| - 1]] == j[..|j| - 1]
    ensures ResolveNew(d, j) == Some(j)
  {
    assert j[..|j| - 1] + [j[|j| - 1]] == j;
  }

  /** A symlinked directory under the root is an escape the as-written resolver
      leaves open and the corrected one closes: the new name behind it is
      accepted as written, but rejected once its parent is resolved. */
  lemma SymlinkedDirVerdicts(d: Disk, root: string, l: string, x: string)
    requires Valid(d) && Components(root) in d.canon && d.canon[Components(root)] == Components(root)
    requires PlainName(l) && PlainName(x)
    requires var c := Components(root);
             && c + [Normal(l)] in d.canon && !StartsWith(d.canon[c + [Normal(l)]], c)
             && c + [Normal(l), Normal(x)] !in d.existing
             && d.canon[c + [Normal(l)]] + [Normal(x)] !in d.existing
    ensures var c := Components(root);
            && IsSafePath(d, root, l + [Sep] + x) == Some(c + [Normal(l), Normal(x)])
            && IsSafePathFixed(d, root, l + [Sep] + x).None?
            && !StartsWith(d.canon[c + [Normal(l)]] + [Normal(x)], c)
  {
    var c := Components(root);
    var j := c + [Normal(l), Normal(x)];
    var q := d.canon[c + [Normal(l)]] + [Normal(x)];
    LinkedJoin(root, l, x);
    assert j[..|c|] == c;
    assert q != c by {
      assert c in d.existing;
    }
    LinkedFinal(d, c, Normal(l), Normal(x));
    LinkedNameOutside(c, d.canon[c + [Normal(l)]], Normal(x));
  }

  /** The correction places a new name behind a link in the link's target. */
  lemma LinkedFinal(d: Disk, c: Path, l: Component, x: Component)
    requires x.Normal? && c + [l] in d.canon
    requires c + [l, x] !in d.existing && d.canon[c + [l]] + [x] !in d.existing
    ensures FixedFinal(d, c + [l, x]) == Some(d.canon[c + [l]] + [x])
  {
    var j := c + [l, x];
    assert j[..|j| - 1] == c + [l] && j[|j| - 1] == x;
  }

  /** The join of a root with "l/x" is the root's components and the two names. */
  lemma LinkedJoin(root: string, l: string, x: string)
    requires PlainName(l) && PlainName(x) && Components(root) != []
    ensures TargetPath(root, l + [Sep] + x) == Components(root) + [Normal(l), Normal(x)]
  {
    var t := l + [Sep] + x;
    NameThenName(l, x);
    assert !LeadingCurDir(t) && !HasRoot(t);
    JoinComponents(root, t);
  }

  /** A name added to a path outside `c` stays outside, unless it is `c` itself. */
  lemma LinkedNameOutside(c: Path, dir: Path, n: Component)
    requires !StartsWith(dir, c) && dir + [n] != c
    ensures !StartsWith(dir + [n], c)
  {
    var q := dir + [n];
    if |c| < |q| {
      assert q[..|c|] == dir[..|c|];
    } else if |c| == |q| {
      assert q[..|c|] == q;
    }
  }
}
