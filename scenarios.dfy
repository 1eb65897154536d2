/**
  Worked examples of the gate, on a sandbox at "/work/sandbox" (already
  canonical, as a working directory joined with "sandbox" usually is):
  - DemoGreeting: the demo driver in main.go writes its greeting, status 0,
    and reads it back;
  - DemoTraversalNotBlocked: the demo's "../system_hack.txt", which it expects
    to be blocked, is written next to the sandbox with status 0;
  - DemoTraversalBlockedWhenFixed: the corrected resolver rejects it;
  - SymlinkEscapeDenied: a symlink inside the sandbox to a file outside is
    denied for reading and writing;
  - LinkedDirEscapes: a symlink inside the sandbox to a directory outside lets
    a new file be written there, status 0, and the corrected resolver rejects it;
  - SiblingPrefixDenied: a sibling directory whose name starts with the
    root's name is denied.
 */
module Scenarios {
  import opened Wrappers
  import opened Paths
  import opened CStrings
  import opened FileStore
  import opened Resolver
  import opened Gate

  const Top: Path := [RootDir]
  const Work: Path := [RootDir, Normal("work")]
  const Sandbox: Path := [RootDir, Normal("work"), Normal("sandbox")]

  const SandboxDir: string := "/work/sandbox"
  const Greeting: string := "hello_world.txt"
  const Hack: string := "system_hack.txt"

  /** The filesystem the demo starts from: "/", "/work" and "/work/sandbox" are
      directories, and "/work/sandbox/.." leads to "/work". */
  function DemoDisk(): Disk {
    Disk(
      map[Top := Top, Work := Work, Sandbox := Sandbox, Sandbox + [ParentDir] := Work],
      {Top, Work, Sandbox, Sandbox + [ParentDir]},
      {Top, Work, Sandbox},
      map[])
  }

  const GreetingPath: Path := [RootDir, Normal("work"), Normal("sandbox"), Normal(Greeting)]

  /** The demo filesystem once the greeting holds `text`. */
  function GreetedDisk(text: string): Disk {
    var d := DemoDisk();
    Disk(d.canon[GreetingPath := GreetingPath], d.existing + {GreetingPath}, d.dirs, map[GreetingPath := text])
  }

  /** A C string holding `s`. */
  function C(s: string): CPtr {
    Ptr(s + [Nul])
  }

  lemma ReadC(s: string)
    requires Nul !in s
    ensures ParseCString(C(s)) == s
  {
    ParseTerminated(s, []);
    assert s + [Nul] + [] == s + [Nul];
  }

  lemma TopComponents()
    ensures Components("/") == Top
  {
    assert Split("/") == [[], []];
  }

  lemma WorkJoin()
    ensures PlainName("work") && Join("/", "work") == "/work"
  {
  }

  lemma WorkComponents()
    ensures Components("/work") == Work
  {
    TopComponents();
    WorkJoin();
    JoinName("/", "work");
  }

  lemma SandboxJoin()
    ensures PlainName("sandbox") && Join("/work", "sandbox") == SandboxDir
  {
  }

  lemma SandboxComponents()
    ensures Components(SandboxDir) == Sandbox
  {
    WorkComponents();
    SandboxJoin();
    JoinName("/work", "sandbox");
  }

  lemma DemoCanonicalDirs()
    ensures Canonical(Top) && Canonical(Work) && Canonical(Sandbox)
  {
  }

  lemma DemoResolves()
    ensures forall p | p in DemoDisk().canon :: DemoDisk().canon[p] in {Top, Work, Sandbox}
    ensures forall p | p in {Top, Work, Sandbox} :: p in DemoDisk().canon && DemoDisk().canon[p] == p
  {
  }

  lemma DemoKeys()
    ensures DemoDisk().canon.Keys == DemoDisk().existing
    ensures [] !in DemoDisk().canon
  {
  }

  lemma DemoValid()
    ensures Valid(DemoDisk())
  {
    DemoKeys();
    DemoCanonicalDirs();
    DemoResolves();
  }

  lemma GreetingPlain() ensures PlainName(Greeting) && Nul !in Greeting {}
  lemma HackPlain() ensures PlainName(Hack) && Nul !in ".." + [Sep] + Hack {}
  lemma SandboxDirNulFree() ensures Nul !in SandboxDir {}
  lemma HackedNulFree() ensures Nul !in "Hacked!" {}

  /** The disk facts about the greeting's path: it is new, and its parent is the
      sandbox directory. */
  lemma GreetingDisk()
    ensures var d, p := DemoDisk(), Sandbox + [Normal(Greeting)];
            && Sandbox in d.canon && d.canon[Sandbox] == Sandbox && Sandbox in d.dirs
            && p !in d.existing && p[..|p| - 1] == Sandbox && p !in d.dirs
  {
    var p := Sandbox + [Normal(Greeting)];
    assert p[3] != (Sandbox + [ParentDir])[3];
  }

  lemma GreetingArgs()
    ensures ParseCString(C(SandboxDir)) == SandboxDir && ParseCString(C(Greeting)) == Greeting
  {
    SandboxDirNulFree();
    GreetingPlain();
    ReadC(SandboxDir);
    ReadC(Greeting);
  }

  lemma GreetingJoin()
    ensures Components(SandboxDir) == Sandbox
    ensures JoinPath(Sandbox, Components(Greeting)) == Sandbox + [Normal(Greeting)]
  {
    GreetingPlain();
    SandboxComponents();
    JoinName(SandboxDir, Greeting);
    TargetPathIsJoin(SandboxDir, Greeting);
  }

  /** The greeting's filename is accepted as the new path inside the sandbox,
      and a write to it lands on that path. */
  lemma GreetingVerdict()
    ensures var p := Sandbox + [Normal(Greeting)];
            && Verdict(DemoDisk(), C(SandboxDir), C(Greeting)) == Some(p)
            && Location(DemoDisk(), p) == Some(p)
  {
    var d := DemoDisk();
    GreetingArgs();
    GreetingJoin();
    GreetingDisk();
    var p := Sandbox + [Normal(Greeting)];
    AbsentTargetVerdict(d, SandboxDir, Greeting);
    assert p[..|Sandbox|] == Sandbox;
  }

  /** main.go:61-67: the greeting is written inside the sandbox with status 0,
      and reading it back returns the text (any text free of NUL, as the
      demo's is). */
  lemma DemoGreeting(text: string)
    requires Nul !in text
    ensures var out := SafeWrite(DemoDisk(), C(SandboxDir), C(Greeting), C(text), false);
            && out.status == Success
            && out.disk == GreetedDisk(text)
            && out.disk.files == map[GreetingPath := text]
            && SafeRead(out.disk, C(SandboxDir), C(Greeting), false) == Text(text)
  {
    GreetingOutcome(text);
    GreetingVerdict();
    ReadC(text);
    WriteThenReadRoundTrip(DemoDisk(), C(SandboxDir), C(Greeting), C(text));
  }

  lemma GreetingOutcome(text: string)
    requires Nul !in text
    ensures SafeWrite(DemoDisk(), C(SandboxDir), C(Greeting), C(text), false) == WriteOutcome(Success, GreetedDisk(text))
  {
    ReadC(text);
    GreetingVerdict();
    assert Sandbox + [Normal(Greeting)] == GreetingPath;
    assert Verdict(DemoDisk(), C(SandboxDir), C(Greeting)) == Some(GreetingPath);
    GreetingWrite(text);
  }

  /** Writing the greeting's new path gives the greeted filesystem. */
  lemma GreetingWrite(text: string)
    ensures WriteFile(DemoDisk(), GreetingPath, text, false) == Some(GreetedDisk(text))
  {
    var d, p := DemoDisk(), GreetingPath;
    GreetingDisk();
    assert p == Sandbox + [Normal(Greeting)];
    assert Location(d, p) == Some(p);
    assert d.canon[p := p][p := p] == d.canon[p := p];
    assert d.existing + {p, p} == d.existing + {p};
    assert d.files[p := text] == map[p := text];
  }

  /** The filesystem after the greeting is well formed. */
  lemma GreetedValid(text: string)
    requires Nul !in text
    ensures Valid(GreetedDisk(text))
  {
    DemoValid();
    DemoGreeting(text);
    GreetingVerdict();
    ReadC(text);
    WritePreservesValid(DemoDisk(), GreetingPath, text, false);
  }

  /** What the traversal from the demo's sandbox meets once the greeting exists. */
  lemma GreetedTraversalDisk(text: string)
    ensures var d := GreetedDisk(text);
            && Sandbox in d.canon && d.canon[Sandbox] == Sandbox
            && Sandbox + [ParentDir, Normal(Hack)] !in d.existing
            && Sandbox + [ParentDir] in d.existing && d.canon[Sandbox + [ParentDir]] == Sandbox[..2]
            && Sandbox[..2] in d.dirs && Sandbox[..2] + [Normal(Hack)] !in d.dirs
            && Sandbox[..2] + [Normal(Hack)] !in d.existing
  {
    assert Sandbox[..2] == Work;
    assert (Work + [Normal(Hack)])[2] != Sandbox[2];
    assert Sandbox + [ParentDir, Normal(Hack)] != Sandbox + [ParentDir];
    assert |Sandbox + [ParentDir, Normal(Hack)]| == 5;
    assert Sandbox != GreetingPath;
    assert Sandbox + [ParentDir] != GreetingPath by {
      assert (Sandbox + [ParentDir])[3] != GreetingPath[3];
    }
  }

  lemma HackArgs()
    ensures ParseCString(C(SandboxDir)) == SandboxDir
    ensures ParseCString(C(".." + [Sep] + Hack)) == ".." + [Sep] + Hack
    ensures ParseCString(C("Hacked!")) == "Hacked!"
  {
    SandboxDirNulFree();
    HackPlain();
    HackedNulFree();
    ReadC(SandboxDir);
    ReadC(".." + [Sep] + Hack);
    ReadC("Hacked!");
  }

  /** The traversal write on the greeted filesystem. */
  lemma GreetedTraversal(text: string)
    requires Nul !in text
    ensures var out := SafeWrite(GreetedDisk(text), C(SandboxDir), C(".." + [Sep] + Hack), C("Hacked!"), false);
            && out.status == Success
            && out.disk.files == GreetedDisk(text).files[Work + [Normal(Hack)] := "Hacked!"]
            && !StartsWith(Work + [Normal(Hack)], Sandbox)
            && SafeWrite(out.disk, C(SandboxDir), C(".." + [Sep] + Hack), C("Hacked!"), false).status == Denied
  {
    var d := GreetedDisk(text);
    HackArgs();
    HackPlain();
    SandboxComponents();
    GreetedValid(text);
    GreetedTraversalDisk(text);
    assert Sandbox[..2] == Work;
    TraversalWriteEscapes(d, C(SandboxDir), C(".." + [Sep] + Hack), C("Hacked!"), Hack);
  }

  /** main.go:74-82: after the greeting, the demo expects "../system_hack.txt"
      to be blocked, but the write returns 0 and the file lands in "/work",
      outside the sandbox, beside the untouched greeting; the same write a
      second time is denied. */
  lemma DemoTraversalNotBlocked(text: string)
    requires Nul !in text
    ensures var first := SafeWrite(DemoDisk(), C(SandboxDir), C(Greeting), C(text), false);
            var out := SafeWrite(first.disk, C(SandboxDir), C(".." + [Sep] + Hack), C("Hacked!"), false);
            && out.status == Success
            && Work + [Normal(Hack)] in out.disk.files && out.disk.files[Work + [Normal(Hack)]] == "Hacked!"
            && !StartsWith(Work + [Normal(Hack)], Sandbox)
            && GreetingPath in out.disk.files && out.disk.files[GreetingPath] == text
            && SafeWrite(out.disk, C(SandboxDir), C(".." + [Sep] + Hack), C("Hacked!"), false).status == Denied
  {
    GreetingOutcome(text);
    GreetedTraversal(text);
    assert Work + [Normal(Hack)] != GreetingPath by {
      assert |Work + [Normal(Hack)]| != |GreetingPath|;
    }
  }

  /** The corrected resolver blocks the demo's traversal. */
  lemma DemoTraversalBlockedWhenFixed(text: string)
    requires Nul !in text
    ensures IsSafePathFixed(GreetedDisk(text), SandboxDir, ".." + [Sep] + Hack).None?
  {
    SandboxComponents();
    HackPlain();
    GreetedValid(text);
    GreetedTraversalDisk(text);
    assert Sandbox[2] != Normal(Hack);
    FixedRejectsTraversal(GreetedDisk(text), SandboxDir, Hack);
  }

  const Passwd: Path := [RootDir, Normal("etc"), Normal("passwd")]

  const Link: Path := [RootDir, Normal("work"), Normal("sandbox"), Normal("link")]

  /** The demo filesystem with a symlink "/work/sandbox/link" to "/etc/passwd". */
  function LinkDisk(): Disk {
    Disk(
      map[Top := Top, Work := Work, Sandbox := Sandbox, Sandbox + [ParentDir] := Work,
          Link := Passwd, Passwd := Passwd],
      {Top, Work, Sandbox, Sandbox + [ParentDir], Link, Passwd},
      {Top, Work, Sandbox},
      map[Passwd := "root:x:0:0"])
  }

  /** The symlink filesystem is a well-formed one. */
  lemma LinkValid()
    ensures Valid(LinkDisk())
  {
    var d := LinkDisk();
    LinkCanonical();
    LinkKeys();
    assert d.files.Keys == {Passwd};
    assert Passwd !in d.dirs;
  }

  lemma LinkKeys()
    ensures [] !in LinkDisk().canon && LinkDisk().canon.Keys == LinkDisk().existing
  {
  }

  lemma LinkCanonical()
    ensures var d := LinkDisk();
            forall p :: p in d.canon ==> Canonical(d.canon[p]) && d.canon[p] in d.canon && d.canon[d.canon[p]] == d.canon[p]
  {
    var d := LinkDisk();
    assert Canonical(Top) && Canonical(Work) && Canonical(Sandbox) && Canonical(Passwd);
    forall p | p in d.canon
      ensures Canonical(d.canon[p]) && d.canon[p] in d.canon && d.canon[d.canon[p]] == d.canon[p]
    {
    }
  }

  lemma LinkPlain()
    ensures PlainName("link")
  {
  }

  lemma LinkJoin()
    ensures TargetPath(SandboxDir, "link") == Link
  {
    SandboxComponents();
    LinkPlain();
    JoinName(SandboxDir, "link");
  }

  /** "link" inside the sandbox names "/work/sandbox/link", which exists and
      resolves to "/etc/passwd". */
  lemma LinkTarget()
    ensures var d, j := LinkDisk(), TargetPath(SandboxDir, "link");
            && Sandbox in d.canon && d.canon[Sandbox] == Sandbox
            && j in d.existing && d.canon[j] == Passwd
  {
    LinkJoin();
  }

  lemma LinkArgs()
    ensures ParseCString(C(SandboxDir)) == SandboxDir && ParseCString(C("link")) == "link"
  {
    SandboxDirNulFree();
    assert Nul !in "link";
    ReadC(SandboxDir);
    ReadC("link");
  }

  lemma PasswdOutside()
    ensures !StartsWith(Passwd, Sandbox)
  {
    assert Passwd[..|Sandbox|][1] != Sandbox[1];
  }

  /** The symlink's filename is rejected: its target lies outside the sandbox. */
  lemma LinkVerdict()
    ensures Verdict(LinkDisk(), C(SandboxDir), C("link")).None?
  {
    LinkArgs();
    SandboxComponents();
    LinkTarget();
    PasswdOutside();
  }

  /** A symlink inside the sandbox that points outside is judged by its target:
      reading it is denied and writing it is denied without a change. */
  lemma SymlinkEscapeDenied()
    ensures Valid(LinkDisk())
    ensures SafeRead(LinkDisk(), C(SandboxDir), C("link"), false) == Text(AccessDenied)
    ensures SafeWrite(LinkDisk(), C(SandboxDir), C("link"), C("x"), false) == WriteOutcome(Denied, LinkDisk())
  {
    LinkValid();
    LinkVerdict();
  }

  const Etc: Path := [RootDir, Normal("etc")]
  const EtcLink: Path := [RootDir, Normal("work"), Normal("sandbox"), Normal("etc")]
  const Planted: Path := [RootDir, Normal("etc"), Normal("new.txt")]

  /** The demo filesystem with "/work/sandbox/etc" a symlink to the directory "/etc". */
  function DirLinkDisk(): Disk {
    Disk(
      map[Top := Top, Work := Work, Sandbox := Sandbox, Sandbox + [ParentDir] := Work,
          EtcLink := Etc, Etc := Etc],
      {Top, Work, Sandbox, Sandbox + [ParentDir], EtcLink, Etc},
      {Top, Work, Sandbox, Etc},
      map[])
  }

  lemma DirLinkKeys()
    ensures [] !in DirLinkDisk().canon && DirLinkDisk().canon.Keys == DirLinkDisk().existing
  {
  }

  lemma DirLinkResolves()
    ensures forall p | p in DirLinkDisk().canon :: DirLinkDisk().canon[p] in {Top, Work, Sandbox, Etc}
  {
  }

  lemma DirLinkFixed()
    ensures forall v | v in {Top, Work, Sandbox, Etc} :: v in DirLinkDisk().canon && DirLinkDisk().canon[v] == v
  {
  }

  /** The directory-symlink filesystem is a well-formed one. */
  lemma DirLinkValid()
    ensures Valid(DirLinkDisk())
  {
    var d := DirLinkDisk();
    DirLinkKeys();
    DirLinkCanonical();
    DirLinkResolves();
    DirLinkFixed();
    assert d.dirs <= {Top, Work, Sandbox, Etc} && d.files == map[];
    ValidWithoutFiles(d, {Top, Work, Sandbox, Etc});
  }

  /** A filesystem without regular files is well formed when everything
      resolves into a set of canonical fixed points that holds the directories. */
  lemma ValidWithoutFiles(d: Disk, s: set<Path>)
    requires [] !in d.canon && d.canon.Keys == d.existing && d.files == map[]
    requires forall p | p in d.canon :: d.canon[p] in s
    requires forall v | v in s :: Canonical(v) && v in d.canon && d.canon[v] == v
    requires d.dirs <= s
    ensures Valid(d)
  {
  }

  lemma DirLinkCanonical()
    ensures forall v | v in {Top, Work, Sandbox, Etc} :: Canonical(v)
  {
    DemoCanonicalDirs();
    assert Canonical(Etc);
  }

  lemma DirLinkNames()
    ensures PlainName("etc") && PlainName("new.txt") && "etc/new.txt" == "etc" + [Sep] + "new.txt"
  {
  }

  lemma DirLinkArgs()
    ensures ParseCString(C(SandboxDir)) == SandboxDir
    ensures ParseCString(C("etc/new.txt")) == "etc/new.txt" && ParseCString(C("x")) == "x"
  {
    SandboxDirNulFree();
    assert Nul !in "etc/new.txt" && Nul !in "x";
    ReadC(SandboxDir);
    ReadC("etc/new.txt");
    ReadC("x");
  }

  /** What "etc/new.txt" meets in the sandbox: a link to a directory outside it,
      and no file of that name on either side of the link. */
  lemma DirLinkLayout()
    ensures var d := DirLinkDisk();
            && Sandbox in d.canon && d.canon[Sandbox] == Sandbox
            && Sandbox + [Normal("etc")] in d.canon && d.canon[Sandbox + [Normal("etc")]] == Etc
            && Etc in d.dirs && !StartsWith(Etc, Sandbox)
            && Sandbox + [Normal("etc"), Normal("new.txt")] !in d.existing
            && Etc + [Normal("new.txt")] == Planted && Planted !in d.existing
  {
    assert Sandbox + [Normal("etc")] == EtcLink;
    assert |Sandbox + [Normal("etc"), Normal("new.txt")]| == 5;
    assert Planted[1] != Sandbox[1] && Planted[2] != Work[1];
    assert Etc[..|Etc|] != Sandbox;
  }

  /** A directory symlink inside the sandbox lets a new file out: writing
      "etc/new.txt" returns 0 and creates "/etc/new.txt", outside the sandbox,
      while the corrected resolver rejects the same filename. */
  lemma LinkedDirEscapes()
    ensures var out := SafeWrite(DirLinkDisk(), C(SandboxDir), C("etc/new.txt"), C("x"), false);
            && out.status == Success
            && out.disk.files == map[Planted := "x"]
            && !StartsWith(Planted, Sandbox)
    ensures IsSafePathFixed(DirLinkDisk(), SandboxDir, "etc/new.txt").None?
  {
    DirLinkValid();
    DirLinkArgs();
    DirLinkNames();
    SandboxComponents();
    DirLinkLayout();
    SymlinkedDirWriteEscapes(DirLinkDisk(), C(SandboxDir), C("etc/new.txt"), C("x"), "etc", "new.txt");
    SymlinkedDirVerdicts(DirLinkDisk(), SandboxDir, "etc", "new.txt");
  }

  const RootAB: Path := [RootDir, Normal("a"), Normal("b")]
  const Secret: Path := [RootDir, Normal("a"), Normal("bx"), Normal("secret.txt")]

  /** "/a/b" is the root; the sibling "/a/bx" holds "secret.txt". */
  function SiblingDisk(): Disk {
    var crafted := RootAB + [ParentDir, Normal("bx"), Normal("secret.txt")];
    Disk(map[RootAB := RootAB, Secret := Secret, crafted := Secret],
         {RootAB, Secret, crafted},
         {RootAB},
         map[Secret := "top secret"])
  }

  lemma RootABJoins()
    ensures PlainName("a") && Join("/", "a") == "/a"
    ensures PlainName("b") && Join("/a", "b") == "/a/b"
  {
  }

  lemma AComponents()
    ensures Components("/a") == [RootDir, Normal("a")]
  {
    TopComponents();
    RootABJoins();
    JoinName("/", "a");
  }

  lemma RootABComponents()
    ensures Components("/a/b") == RootAB
  {
    AComponents();
    RootABJoins();
    JoinName("/a", "b");
  }

  lemma CraftedJoins()
    ensures PlainName("bx") && ".." + [Sep] + "bx" == "../bx"
    ensures PlainName("secret.txt") && Join("../bx", "secret.txt") == "../bx/secret.txt"
  {
  }

  lemma CraftedComponents()
    ensures Components("../bx/secret.txt") == [ParentDir, Normal("bx"), Normal("secret.txt")]
  {
    CraftedJoins();
    ParentThenName("bx");
    JoinName("../bx", "secret.txt");
  }

  /** The crafted filename joined to "/a/b" keeps its "..". */
  lemma CraftedJoin()
    ensures TargetPath("/a/b", "../bx/secret.txt") == RootAB + [ParentDir, Normal("bx"), Normal("secret.txt")]
  {
    RootABComponents();
    CraftedComponents();
    TargetPathIsJoin("/a/b", "../bx/secret.txt");
  }

  /** The crafted filename names an existing path that resolves to the
      sibling's file, which does not start with "/a/b" component by component. */
  lemma CraftedTarget()
    ensures var d, j := SiblingDisk(), TargetPath("/a/b", "../bx/secret.txt");
            && RootAB in d.canon && d.canon[RootAB] == RootAB
            && j in d.existing && d.canon[j] == Secret
            && !StartsWith(Secret, RootAB)
  {
    CraftedJoin();
    assert Secret[..3][2] != RootAB[2];
  }

  lemma SiblingArgs()
    ensures ParseCString(C("/a/b")) == "/a/b"
    ensures ParseCString(C("../bx/secret.txt")) == "../bx/secret.txt"
  {
    assert Nul !in "/a/b" && Nul !in "../bx/secret.txt";
    ReadC("/a/b");
    ReadC("../bx/secret.txt");
  }

  /** Containment is a component prefix: "/a/b" is a character prefix of
      "/a/bx/secret.txt", yet "../bx/secret.txt" from the root "/a/b" is denied. */
  lemma SiblingPrefixDenied()
    ensures "/a/b" <= "/a/bx/secret.txt"
    ensures SafeRead(SiblingDisk(), C("/a/b"), C("../bx/secret.txt"), false) == Text(AccessDenied)
  {
    SiblingArgs();
    RootABComponents();
    CraftedTarget();
    assert IsSafePath(SiblingDisk(), "/a/b", "../bx/secret.txt").None?;
  }
}
