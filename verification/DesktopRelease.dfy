/** The release archive of packaging/package_desktop_release.py: bundle trees packed under their root
    names behind a synthesized manifest, in either of two containers, and what a reader gets back. */
module DesktopRelease {
  import opened Outcomes
  import opened Text

  const ARCHIVE_ROOT: string := "swe-mux"
  const SUPERVISOR_ROOT: string := "swe-mux-supervisor"
  const CLI_ROOT: string := "swe-mux-cli"
  const BUNDLE_FILES_NAME: string := "files.json"

  /** What the file system finds when it follows a link. */
  datatype Resolved = ToFile(content: string) | ToDirectory | Dangling

  /** What a path in a bundle is. A symbolic link is a link even when it points at a directory. */
  datatype Node = File(content: string) | Link(target: string, resolved: Resolved) | Directory

  /** A path, component by component; never empty. */
  type Path = seq<string>

  type Tree = map<Path, Node>

  /** A name that a directory can hold. */
  predicate Component(c: string) {
    c != [] && Lacks(c, '/') && c != "." && c != ".."
  }

  predicate ValidPath(path: Path) {
    path != [] && forall i | 0 <= i < |path| :: Component(path[i])
  }

  predicate ValidTree(tree: Tree) {
    forall path | path in tree :: ValidPath(path)
  }

  // ------------------------------------------------------------------ names

  /** `as_posix()`. */
  function Posix(path: Path): string
    requires path != []
  {
    if |path| == 1 then path[0] else path[0] + "/" + Posix(path[1..])
  }

  /** The parts of a name between its slashes. */
  function Split(name: string): (parts: Path)
    ensures parts != []
  {
    if name == [] then [[]]
    else
      var rest := Split(name[1..]);
      if name[0] == '/' then [[]] + rest else [[name[0]] + rest[0]] + rest[1..]
  }

  lemma {:induction false} SplitWhole(c: string)
    requires Lacks(c, '/')
    ensures Split(c) == [c]
  {
    if c != [] {
      SplitWhole(c[1..]);
      assert [c[0]] + c[1..] == c;
    }
  }

  /** A slash separates what is split. */
  lemma {:induction false} SplitAtSlash(a: string, b: string)
    ensures Split(a + "/" + b) == Split(a) + Split(b)
  {
    if a == [] {
      assert a + "/" + b == ['/'] + b;
      assert (['/'] + b)[1..] == b;
    } else {
      assert (a + "/" + b)[1..] == a[1..] + "/" + b;
      SplitAtSlash(a[1..], b);
      SplitFirst(a[0], Split(a[1..]), Split(b));
    }
  }

  lemma {:induction false} SplitFirst(c: char, a: Path, b: Path)
    requires a != []
    ensures [[]] + (a + b) == ([[]] + a) + b
    ensures [[c] + (a + b)[0]] + (a + b)[1..] == ([[c] + a[0]] + a[1..]) + b
  {
  }

  /** Splitting a name returns the path it was made from, so no two paths share a name. */
  lemma {:induction false} SplitOfPosix(path: Path)
    requires ValidPath(path)
    ensures Split(Posix(path)) == path
  {
    hide Split;
    SplitWhole(path[0]);
    if |path| == 1 {
      assert path == [path[0]];
    } else {
      SplitOfPosix(path[1..]);
      SplitAtSlash(path[0], Posix(path[1..]));
      assert path == [path[0]] + path[1..];
    }
  }

  /** A part stands in a name between two slashes, or an end and a slash. */
  ghost predicate StandsIn(part: string, name: string) {
    exists i, j | 0 <= i <= j <= |name| ::
      name[i..j] == part && (i == 0 || name[i - 1] == '/') && (j == |name| || name[j] == '/')
  }

  /** The parts of a name are what stands between its slashes. */
  lemma {:induction false} SplitHolds(name: string, part: string)
    requires Lacks(part, '/')
    ensures part in Split(name) <==> StandsIn(part, name)
    decreases |name|
  {
    HeadOfSplit(name);
    var head := Split(name)[0];
    SplitWhole(head);
    if name == head {
      hide Split;
      StandsInWhole(part, name);
    } else {
      var tail := name[|head| + 1..];
      assert name == head + "/" + tail;
      SplitAtSlash(head, tail);
      SplitHolds(tail, part);
      hide Split;
      StandsInEither(head, tail, part);
    }
  }

  lemma {:induction false} StandsInEither(head: string, tail: string, part: string)
    requires Lacks(head, '/') && Lacks(part, '/')
    ensures StandsIn(part, head + "/" + tail) <==> part == head || StandsIn(part, tail)
  {
    var name, k := head + "/" + tail, |head|;
    assert name[..k] == head && name[k] == '/' && name[k + 1..] == tail;
    hide StandsIn;
    if StandsIn(part, name) {
      StandsBefore(name, k, part);
    }
    StandsAfter(name, k, part);
  }

  /** A part of a name that has its first slash at `k` is what stands before it, or stands in what follows. */
  lemma {:induction false} StandsBefore(name: string, k: nat, part: string)
    requires k < |name| && name[k] == '/' && Lacks(name[..k], '/') && Lacks(part, '/') && StandsIn(part, name)
    ensures part == name[..k] || StandsIn(part, name[k + 1..])
  {
    var i, j :| 0 <= i <= j <= |name| && name[i..j] == part && (i == 0 || name[i - 1] == '/')
                && (j == |name| || name[j] == '/');
    forall m | i <= m < j
      ensures name[m] != '/'
    {
      assert part[m - i] == name[i..j][m - i] == name[m];
    }
    forall m | 0 <= m < k
      ensures name[m] != '/'
    {
      assert name[..k][m] == name[m];
    }
    if i <= k {
      assert j == k && i == 0;
    } else {
      assert name[k + 1..][i - k - 1..j - k - 1] == part;
    }
  }

  lemma {:induction false} StandsAfter(name: string, k: nat, part: string)
    requires k < |name| && name[k] == '/'
    ensures StandsIn(name[..k], name)
    ensures StandsIn(part, name[k + 1..]) ==> StandsIn(part, name)
  {
    assert name[0..k] == name[..k];
    var tail := name[k + 1..];
    if i, j :| 0 <= i <= j <= |tail| && tail[i..j] == part && (i == 0 || tail[i - 1] == '/')
              && (j == |tail| || tail[j] == '/') {
      assert name[i + k + 1..j + k + 1] == part;
    }
  }

  lemma {:induction false} StandsInWhole(part: string, name: string)
    requires Lacks(name, '/')
    ensures StandsIn(part, name) <==> part == name
  {
    assert name[0..|name|] == name;
  }

  lemma {:induction false} HeadOfSplit(s: string)
    ensures Lacks(Split(s)[0], '/') && (s == Split(s)[0] || Split(s)[0] + "/" <= s)
  {
    if s != [] && s[0] != '/' {
      HeadOfSplit(s[1..]);
      assert s == [s[0]] + s[1..];
    }
  }

  /** The name of a member: the path under its root. */
  function NameOf(root: string, path: Path): string
    requires path != []
  {
    root + "/" + Posix(path)
  }

  lemma {:induction false} SplitOfName(root: string, path: Path)
    requires Component(root) && ValidPath(path)
    ensures Split(NameOf(root, path)) == [root] + path
  {
    hide Split, Posix;
    SplitWhole(root);
    SplitAtSlash(root, Posix(path));
    SplitOfPosix(path);
  }

  lemma {:induction false} NameHasNoSlashAtEnd(root: string, path: Path)
    requires ValidPath(path)
    ensures NameOf(root, path) != [] && NameOf(root, path)[|NameOf(root, path)| - 1] != '/'
  {
    PosixHasNoSlashAtEnd(path);
  }

  lemma {:induction false} PosixHasNoSlashAtEnd(path: Path)
    requires ValidPath(path)
    ensures Posix(path) != [] && Posix(path)[|Posix(path)| - 1] != '/'
  {
    assert Component(path[0]);
    if |path| > 1 {
      PosixHasNoSlashAtEnd(path[1..]);
    }
  }

  lemma {:induction false} HeadAndTailIf(a: string, p: Path, b: string, q: Path)
    ensures [a] + p == [b] + q <==> a == b && p == q
  {
    if [a] + p == [b] + q {
      assert ([a] + p)[0] == a && ([a] + p)[1..] == p;
      assert ([b] + q)[0] == b && ([b] + q)[1..] == q;
    }
  }

  lemma {:induction false} RootsAreComponents()
    ensures Component(ARCHIVE_ROOT) && Component(SUPERVISOR_ROOT) && Component(CLI_ROOT)
            && ValidPath([BUNDLE_FILES_NAME])
  {
  }

  // ------------------------------------------------------------------ listing a bundle

  /** What `_members` yields: a name in the archive, and what stands at the path. */
  datatype Listed = Listed(name: string, node: Node)

  /** What is packed from a tree: every path but the directories, and the app's own root-level
      `files.json`. */
  predicate Packed(tree: Tree, root: string, path: Path) {
    path in tree && tree[path] != Directory && !(root == ARCHIVE_ROOT && path == [BUNDLE_FILES_NAME])
  }

  predicate ListedAs(l: Listed, tree: Tree, root: string, path: Path) {
    path != [] && Packed(tree, root, path) && l == Listed(NameOf(root, path), tree[path])
  }

  ghost predicate IsListed(l: Listed, tree: Tree, root: string) {
    exists path :: ListedAs(l, tree, root, path)
  }

  ghost predicate DistinctListed(listing: seq<Listed>) {
    forall i, j | 0 <= i < j < |listing| :: listing[i].name != listing[j].name
  }

  lemma {:induction false} OnlyStalePath(path: Path)
    requires ValidPath(path)
    ensures Posix(path) == BUNDLE_FILES_NAME <==> path == [BUNDLE_FILES_NAME]
  {
    SplitOfPosix(path);
    SplitWhole(BUNDLE_FILES_NAME);
  }

  lemma {:induction false} DistinctPathsHaveDistinctNames(listing: seq<Listed>, paths: seq<Path>, root: string)
    requires Component(root) && |listing| == |paths|
    requires forall i | 0 <= i < |paths| :: ValidPath(paths[i]) && listing[i].name == NameOf(root, paths[i])
    requires forall i, j | 0 <= i < j < |paths| :: paths[i] != paths[j]
    ensures DistinctListed(listing)
  {
    hide NameOf, Split;
    forall i, j | 0 <= i < j < |listing|
      ensures listing[i].name != listing[j].name
    {
      SplitOfName(root, paths[i]);
      SplitOfName(root, paths[j]);
      HeadAndTailIf(root, paths[i], root, paths[j]);
    }
  }

  /** `_members`. The tree is visited in any order, so what holds here holds for the sorted one. */
  method Members(tree: Tree, root: string) returns (listing: seq<Listed>)
    requires ValidTree(tree) && Component(root)
    ensures forall l :: l in listing <==> IsListed(l, tree, root)
    ensures forall l :: l in listing
              <==> exists path | path in tree && (tree[path].File? || tree[path].Link?) ::
                     !(root == "swe-mux" && path == ["files.json"])
                     && l == Listed(root + "/" + Posix(path), tree[path])
    ensures forall i, j | 0 <= i < j < |listing| :: listing[i].name != listing[j].name
  {
    hide Posix, Split;
    listing := [];
    ghost var paths: seq<Path> := [];
    var todo := tree.Keys;
    while todo != {}
      invariant todo <= tree.Keys && |paths| == |listing|
      invariant forall i | 0 <= i < |paths| ::
                  paths[i] in tree && paths[i] !in todo && ListedAs(listing[i], tree, root, paths[i])
      invariant forall path | path in tree && path !in todo && Packed(tree, root, path) :: path in paths
      invariant forall i, j | 0 <= i < j < |paths| :: paths[i] != paths[j]
      decreases |todo|
    {
      var path :| path in todo;
      todo := todo - {path};
      if tree[path] == Directory {
        continue;
      }
      var relative := Posix(path);
      OnlyStalePath(path);
      if root == ARCHIVE_ROOT && relative == BUNDLE_FILES_NAME {
        continue;
      }
      listing := listing + [Listed(root + "/" + relative, tree[path])];
      paths := paths + [path];
    }
    DistinctPathsHaveDistinctNames(listing, paths, root);
    forall l
      ensures l in listing <==> IsListed(l, tree, root)
    {
      if IsListed(l, tree, root) {
        var path :| ListedAs(l, tree, root, path);
        var i :| 0 <= i < |paths| && paths[i] == path;
        assert listing[i] == l;
      }
    }
  }

  // ------------------------------------------------------------------ the two containers

  datatype Container = TarGz | Zip

  /** What a container stores under a name. */
  datatype Entry = FileEntry(content: string) | LinkEntry(target: string) | DirectoryEntry

  datatype Member = Member(name: string, entry: Entry)

  /** How a node is stored. `TarFile.add` stores a link as the link it is. `ZipFile.write` follows it: what it leads to
      is stored in its place, and a link that leads nowhere raises. */
  function EntryFor(container: Container, node: Node): Option<Entry> {
    match node
    case File(content) => Some(FileEntry(content))
    case Directory => Some(DirectoryEntry)
    case Link(target, resolved) =>
      match container
      case TarGz => Some(LinkEntry(target))
      case Zip =>
        match resolved
        case ToFile(content) => Some(FileEntry(content))
        case ToDirectory => Some(DirectoryEntry)
        case Dangling => None
  }

  /** A directory's name ends with a slash. */
  function MemberFor(name: string, entry: Entry): Member {
    Member(if entry == DirectoryEntry then name + "/" else name, entry)
  }

  function Pack(container: Container, l: Listed): Option<Member> {
    match EntryFor(container, l.node)
    case None => None
    case Some(entry) => Some(MemberFor(l.name, entry))
  }

  function PackAll(container: Container, listing: seq<Listed>): Option<seq<Member>> {
    if listing == [] then Some([])
    else
      match PackAll(container, listing[..|listing| - 1])
      case None => None
      case Some(members) =>
        match Pack(container, listing[|listing| - 1])
        case None => None
        case Some(m) => Some(members + [m])
  }

  /** The tar branch. */
  method WriteTar(listing: seq<Listed>) returns (members: seq<Member>)
    requires forall l | l in listing :: l.node != Directory
    ensures PackAll(TarGz, listing) == Some(members)
  {
    members := [];
    for i := 0 to |listing|
      invariant PackAll(TarGz, listing[..i]) == Some(members)
    {
      assert listing[..i + 1][..i] == listing[..i];
      assert listing[i] in listing;
      match listing[i].node
      case File(content) => members := members + [Member(listing[i].name, FileEntry(content))];
      case Link(target, _) => members := members + [Member(listing[i].name, LinkEntry(target))];
    }
    assert listing[..|listing|] == listing;
  }

  /** The zip branch: it stops at the first link that leads nowhere. */
  method WriteZip(listing: seq<Listed>) returns (members: Option<seq<Member>>)
    requires forall l | l in listing :: l.node != Directory
    ensures PackAll(Zip, listing) == members
  {
    var written: seq<Member> := [];
    for i := 0 to |listing|
      invariant PackAll(Zip, listing[..i]) == Some(written)
    {
      assert listing[..i + 1][..i] == listing[..i];
      assert listing[i] in listing;
      match listing[i].node
      case File(content) => written := written + [Member(listing[i].name, FileEntry(content))];
      case Link(_, ToFile(content)) => written := written + [Member(listing[i].name, FileEntry(content))];
      case Link(_, ToDirectory) => written := written + [Member(listing[i].name + "/", DirectoryEntry)];
      case Link(_, Dangling) =>
        PackStopsAt(Zip, listing, i);
        return None;
    }
    assert listing[..|listing|] == listing;
    members := Some(written);
  }

  lemma {:induction false} PackStopsAt(container: Container, listing: seq<Listed>, i: nat)
    requires i < |listing| && Pack(container, listing[i]).None?
    ensures PackAll(container, listing).None?
  {
    hide Pack;
    if i < |listing| - 1 {
      PackStopsAt(container, listing[..|listing| - 1], i);
    }
  }

  predicate Dangles(node: Node) {
    node.Link? && node.resolved.Dangling?
  }

  /** Packing stores each listed node in turn; it fails exactly on a zip with a dangling link. */
  lemma {:induction false} PackAllStores(container: Container, listing: seq<Listed>)
    ensures PackAll(container, listing).Some? <==> container.TarGz? || forall l | l in listing :: !Dangles(l.node)
    ensures PackAll(container, listing).Some? ==>
              && |PackAll(container, listing).value| == |listing|
              && forall i | 0 <= i < |listing|
                     :: Pack(container, listing[i]) == Some(PackAll(container, listing).value[i])
  {
    if listing != [] {
      var init, last := listing[..|listing| - 1], listing[|listing| - 1];
      assert Pack(container, last).Some? <==> container.TarGz? || !Dangles(last.node);
      assert listing == init + [last];
      hide Pack, Dangles;
      PackAllStores(container, init);
    }
  }

  /** The two containers hold the same list of members exactly when no packed node is a link. */
  lemma {:induction false} ContainersAgreeIff(listing: seq<Listed>)
    requires forall l | l in listing :: l.node != Directory
    ensures PackAll(TarGz, listing) == PackAll(Zip, listing) <==> forall l | l in listing :: !l.node.Link?
  {
    hide PackAll;
    PackAllStores(TarGz, listing);
    PackAllStores(Zip, listing);
    forall l | l in listing
      ensures Pack(TarGz, l) == Pack(Zip, l) <==> !l.node.Link?
    {
    }
    hide Pack;
    if forall l | l in listing :: !l.node.Link? {
      var tar, zip := PackAll(TarGz, listing).value, PackAll(Zip, listing).value;
      forall i | 0 <= i < |listing|
        ensures tar[i] == zip[i]
      {
        assert listing[i] in listing && Pack(TarGz, listing[i]) == Pack(Zip, listing[i]);
      }
      assert tar == zip;
    }
    if PackAll(TarGz, listing) == PackAll(Zip, listing) {
      forall l | l in listing
        ensures !l.node.Link?
      {
        var i :| 0 <= i < |listing| && listing[i] == l;
        assert Pack(TarGz, listing[i]) == Pack(Zip, listing[i]);
      }
    }
  }

  // ------------------------------------------------------------------ the archive

  /** Why packaging stops: no readable metadata, another host's bundle, a bundle an archive may not carry, a
      bundle that was never built, a link that a zip cannot follow. */
  datatype Fault = NoMetadata | WrongPlatform | UnknownBundle(name: string) | NotBuilt(name: string) | DanglingLink

  datatype Archive = Archive(container: Container, members: seq<Member>)

  type Siblings = map<string, Option<Tree>>

  predicate Allowed(siblings: Siblings) {
    forall name | name in siblings :: (name == SUPERVISOR_ROOT || name == CLI_ROOT) && siblings[name].Some?
  }

  predicate ValidBundles(app: Tree, siblings: Siblings) {
    ValidTree(app) && forall name | name in siblings && siblings[name].Some? :: ValidTree(siblings[name].value)
  }

  /** The manifest's place in the archive. */
  const MANIFEST_MEMBER: string := ARCHIVE_ROOT + "/" + BUNDLE_FILES_NAME

  /** The bundle packed under a root. */
  function TreeOf(app: Tree, siblings: Siblings, root: string): Option<Tree> {
    if root == ARCHIVE_ROOT then Some(app)
    else if root in siblings then siblings[root] else None
  }

  predicate ListedAt(l: Listed, app: Tree, siblings: Siblings, root: string, path: Path) {
    TreeOf(app, siblings, root).Some? && ListedAs(l, TreeOf(app, siblings, root).value, root, path)
  }

  ghost predicate InBundles(l: Listed, app: Tree, siblings: Siblings) {
    exists root, path :: ListedAt(l, app, siblings, root, path)
  }

  /** All that is packed, each under its own name. */
  ghost predicate IsListing(listing: seq<Listed>, app: Tree, siblings: Siblings) {
    DistinctListed(listing) && forall l :: l in listing <==> InBundles(l, app, siblings)
  }

  ghost predicate NothingDangles(app: Tree, siblings: Siblings) {
    forall l | InBundles(l, app, siblings) :: !Dangles(l.node)
  }

  function ManifestMember(payload: string): Member {
    Member(MANIFEST_MEMBER, FileEntry(payload))
  }

  /** The archive of a listing: the manifest, then everything listed, in order. */
  ghost predicate IsArchive(members: seq<Member>, container: Container, listing: seq<Listed>, payload: string) {
    PackAll(container, listing).Some? && members == [ManifestMember(payload)] + PackAll(container, listing).value
  }

  /** `sibling_bundles`: of the directories beside the app's bundle, the supervisor's and the client's. What it finds
      is never refused. */
  method SiblingBundles(beside: map<string, Tree>) returns (found: Siblings)
    ensures Allowed(found)
    ensures forall name :: name in found <==> name in beside && name in ["swe-mux-supervisor", "swe-mux-cli"]
    ensures forall name | name in found :: found[name] == Some(beside[name])
  {
    found := map[];
    var names := [SUPERVISOR_ROOT, CLI_ROOT];
    for i := 0 to 2
      invariant forall name :: name in found <==> name in beside && name in names[..i]
      invariant forall name | name in found :: found[name] == Some(beside[name])
    {
      assert names[..i + 1] == names[..i] + [names[i]];
      if names[i] in beside {
        found := found[names[i] := Some(beside[names[i]])];
      }
    }
    assert names[..2] == [SUPERVISOR_ROOT, CLI_ROOT];
  }

  lemma {:induction false} ListedUnderRoot(l: Listed, tree: Tree, root: string, path: Path)
    requires ValidTree(tree) && Component(root) && ListedAs(l, tree, root, path)
    ensures Split(l.name) == [root] + path && Split(l.name)[0] == root
    ensures l.name != [] && l.name[|l.name| - 1] != '/'
    ensures l.node != Directory
  {
    hide Split, Posix, NameOf;
    SplitOfName(root, path);
    NameHasNoSlashAtEnd(root, path);
    assert ([root] + path)[0] == root;
  }

  method AddBundle(before: seq<Listed>, tree: Tree, root: string) returns (listing: seq<Listed>)
    requires ValidTree(tree) && Component(root) && DistinctListed(before)
    requires forall l | l in before :: Split(l.name)[0] != root
    ensures DistinctListed(listing)
    ensures forall l :: l in listing <==> l in before || IsListed(l, tree, root)
    ensures forall l | l in listing && l !in before :: Split(l.name)[0] == root
  {
    hide ListedAs, ValidTree, Split;
    var more := Members(tree, root);
    forall l | l in more
      ensures Split(l.name)[0] == root
    {
      var path :| ListedAs(l, tree, root, path);
      ListedUnderRoot(l, tree, root, path);
    }
    listing := before + more;
    forall i, j | 0 <= i < j < |listing|
      ensures listing[i].name != listing[j].name
    {
      assert i < |before| ==> listing[i] in before;
      assert j >= |before| ==> listing[j] in more;
      assert i >= |before| ==> listing[i] == more[i - |before|] && listing[j] == more[j - |before|];
    }
  }

  /** Everything to pack, in the order of the bundles. */
  method ListAll(app: Tree, siblings: Siblings) returns (listing: seq<Listed>)
    requires ValidBundles(app, siblings) && Allowed(siblings)
    ensures IsListing(listing, app, siblings)
  {
    RootsAreComponents();
    hide ListedAs, DistinctListed, Split, ValidTree, Component;
    assert DistinctListed([]) by { NothingIsDistinct(); }
    listing := AddBundle([], app, ARCHIVE_ROOT);
    if CLI_ROOT in siblings {
      listing := AddBundle(listing, siblings[CLI_ROOT].value, CLI_ROOT);
    }
    if SUPERVISOR_ROOT in siblings {
      listing := AddBundle(listing, siblings[SUPERVISOR_ROOT].value, SUPERVISOR_ROOT);
    }
    forall l
      ensures l in listing <==> InBundles(l, app, siblings)
    {
      InBundlesByRoot(l, app, siblings);
    }
  }

  lemma {:induction false} NothingIsDistinct()
    ensures DistinctListed([])
  {
  }

  lemma {:induction false} InBundlesByRoot(l: Listed, app: Tree, siblings: Siblings)
    requires Allowed(siblings)
    ensures InBundles(l, app, siblings)
        <==> (|| IsListed(l, app, ARCHIVE_ROOT)
              || (CLI_ROOT in siblings && IsListed(l, siblings[CLI_ROOT].value, CLI_ROOT))
              || (SUPERVISOR_ROOT in siblings && IsListed(l, siblings[SUPERVISOR_ROOT].value, SUPERVISOR_ROOT)))
  {
    hide ListedAs;
    if IsListed(l, app, ARCHIVE_ROOT) {
      var path :| ListedAs(l, app, ARCHIVE_ROOT, path);
      assert ListedAt(l, app, siblings, ARCHIVE_ROOT, path);
    }
    if CLI_ROOT in siblings && IsListed(l, siblings[CLI_ROOT].value, CLI_ROOT) {
      var path :| ListedAs(l, siblings[CLI_ROOT].value, CLI_ROOT, path);
      assert ListedAt(l, app, siblings, CLI_ROOT, path);
    }
    if SUPERVISOR_ROOT in siblings && IsListed(l, siblings[SUPERVISOR_ROOT].value, SUPERVISOR_ROOT) {
      var path :| ListedAs(l, siblings[SUPERVISOR_ROOT].value, SUPERVISOR_ROOT, path);
      assert ListedAt(l, app, siblings, SUPERVISOR_ROOT, path);
    }
  }

  lemma {:induction false} NoDirectoryListed(listing: seq<Listed>, app: Tree, siblings: Siblings)
    requires IsListing(listing, app, siblings)
    ensures forall l | l in listing :: l.node != Directory
  {
    hide NameOf;
    forall l | l in listing
      ensures l.node != Directory
    {
      var root, path :| ListedAt(l, app, siblings, root, path);
    }
  }

  // ------------------------------------------------------------------ reading it back

  /** Where a reader puts a member: a directory's name without its slash. */
  function Location(m: Member): Path {
    if m.entry == DirectoryEntry && m.name != [] then Split(m.name[..|m.name| - 1]) else Split(m.name)
  }

  lemma {:induction false} LocationOf(name: string, entry: Entry)
    ensures Location(MemberFor(name, entry)) == Split(name)
  {
    assert (name + "/")[..|name + "/"| - 1] == name;
  }

  /** A listed node is stored where its root and path say. */
  lemma {:induction false} ListedIsLocated(l: Listed, m: Member, container: Container, app: Tree, siblings: Siblings,
                                           root: string, path: Path)
    requires ValidBundles(app, siblings) && Allowed(siblings) && ListedAt(l, app, siblings, root, path)
    requires Pack(container, l) == Some(m)
    ensures Location(m) == Split(l.name) == [root] + path
    ensures m.entry == EntryFor(container, TreeOf(app, siblings, root).value[path]).value
    ensures l.name != [] && l.name[|l.name| - 1] != '/' && (m.name == l.name || m.name == l.name + "/")
  {
    RootsAreComponents();
    hide Split, Posix, NameOf, Location, EntryFor;
    ListedUnderRoot(l, TreeOf(app, siblings, root).value, root, path);
    LocationOf(l.name, m.entry);
  }

  lemma {:induction false} ManifestIsLocated(payload: string)
    ensures Location(ManifestMember(payload)) == [ARCHIVE_ROOT] + [BUNDLE_FILES_NAME]
  {
    hide Split;
    SplitWhole(ARCHIVE_ROOT);
    SplitWhole(BUNDLE_FILES_NAME);
    SplitAtSlash(ARCHIVE_ROOT, BUNDLE_FILES_NAME);
  }

  /** Member names are pairwise distinct, in either container. */
  lemma {:induction false} ArchiveNamesAreDistinct(members: seq<Member>, container: Container, listing: seq<Listed>,
                                                   app: Tree, siblings: Siblings, payload: string)
    requires ValidBundles(app, siblings) && Allowed(siblings)
    requires IsListing(listing, app, siblings) && IsArchive(members, container, listing, payload)
    ensures forall i, j | 0 <= i < j < |members| :: members[i].name != members[j].name
    ensures members[0] == ManifestMember(payload)
  {
    hide PackAll, Pack, Location, ListedAt, ValidBundles;
    PackAllStores(container, listing);
    ManifestIsLocated(payload);
    forall i, j | 0 <= i < j < |members|
      ensures members[i].name != members[j].name
    {
      var b := listing[j - 1];
      assert b in listing && Pack(container, b) == Some(members[j]);
      var root, path :| ListedAt(b, app, siblings, root, path);
      ListedIsLocated(b, members[j], container, app, siblings, root, path);
      if i == 0 {
        ManifestIsNotListed(b, app, siblings, root, path);
        assert MANIFEST_MEMBER[|MANIFEST_MEMBER| - 1] == 'n';
      } else {
        var a := listing[i - 1];
        assert a in listing && Pack(container, a) == Some(members[i]);
        var root', path' :| ListedAt(a, app, siblings, root', path');
        ListedIsLocated(a, members[i], container, app, siblings, root', path');
        SlashedNamesDiffer(a.name, b.name);
      }
    }
  }

  lemma {:induction false} SlashedNamesDiffer(a: string, b: string)
    requires a != b && a != [] && b != [] && a[|a| - 1] != '/' && b[|b| - 1] != '/'
    ensures a + "/" != b + "/" && a != b + "/" && a + "/" != b
  {
    assert (a + "/")[..|a|] == a && (b + "/")[..|b|] == b;
  }

  lemma {:induction false} ManifestIsNotListed(l: Listed, app: Tree, siblings: Siblings, root: string, path: Path)
    requires ListedAt(l, app, siblings, root, path) && Split(l.name) == [root] + path
    ensures l.name != MANIFEST_MEMBER
  {
    hide Split, NameOf;
    SplitWhole(ARCHIVE_ROOT);
    SplitWhole(BUNDLE_FILES_NAME);
    SplitAtSlash(ARCHIVE_ROOT, BUNDLE_FILES_NAME);
    HeadAndTailIf(root, path, ARCHIVE_ROOT, [BUNDLE_FILES_NAME]);
  }

  /** What a reader extracts for `root`: an entry at each path under that root. */
  ghost predicate Extracts(members: seq<Member>, root: string, path: Path, entry: Entry) {
    exists i | 0 <= i < |members| :: Location(members[i]) == [root] + path && members[i].entry == entry
  }

  /** A path of a bundle is packed, and stored as `entry`. */
  predicate StoredAs(container: Container, app: Tree, siblings: Siblings, root: string, path: Path, entry: Entry) {
    && TreeOf(app, siblings, root).Some? && path != [] && Packed(TreeOf(app, siblings, root).value, root, path)
    && EntryFor(container, TreeOf(app, siblings, root).value[path]) == Some(entry)
  }

  /** Splitting the archive by root name gives back exactly what was packed of every bundle, as the container stores
      it; in place of the app's own root-level `files.json` stands the new manifest. A `files.json` deeper in the app,
      or anywhere in a sibling, survives. */
  lemma {:induction false} ArchiveRoundTrip(members: seq<Member>, container: Container, listing: seq<Listed>,
                                            app: Tree, siblings: Siblings, payload: string,
                                            root: string, path: Path, entry: Entry)
    requires ValidBundles(app, siblings) && Allowed(siblings)
    requires IsListing(listing, app, siblings) && IsArchive(members, container, listing, payload)
    ensures Extracts(members, root, path, entry)
        <==> if root == ARCHIVE_ROOT && path == [BUNDLE_FILES_NAME] then entry == FileEntry(payload)
             else StoredAs(container, app, siblings, root, path, entry)
  {
    hide PackAll, Pack, Location, ValidBundles, EntryFor, NameOf;
    PackAllStores(container, listing);
    ManifestIsLocated(payload);
    HeadAndTailIf(root, path, ARCHIVE_ROOT, [BUNDLE_FILES_NAME]);
    assert members[0] == ManifestMember(payload);
    if Extracts(members, root, path, entry) {
      var i :| 0 <= i < |members| && Location(members[i]) == [root] + path && members[i].entry == entry;
      if i > 0 {
        assert listing[i - 1] in listing && Pack(container, listing[i - 1]) == Some(members[i]);
        MemberDecodes(listing[i - 1], members[i], container, app, siblings, root, path);
      }
    }
    if StoredAs(container, app, siblings, root, path, entry) {
      var l := Listed(NameOf(root, path), TreeOf(app, siblings, root).value[path]);
      assert ListedAt(l, app, siblings, root, path);
      assert l in listing;
      var i :| 0 <= i < |listing| && listing[i] == l;
      ListedIsLocated(l, members[i + 1], container, app, siblings, root, path);
    }
  }

  lemma {:induction false} MemberDecodes(l: Listed, m: Member, container: Container, app: Tree, siblings: Siblings,
                                         root: string, path: Path)
    requires ValidBundles(app, siblings) && Allowed(siblings) && InBundles(l, app, siblings)
    requires Pack(container, l) == Some(m) && Location(m) == [root] + path
    ensures StoredAs(container, app, siblings, root, path, m.entry)
  {
    hide Location, ValidBundles, NameOf;
    var root', path' :| ListedAt(l, app, siblings, root', path');
    ListedIsLocated(l, m, container, app, siblings, root', path');
    HeadAndTailIf(root, path, root', path');
  }

  /** What a container keeps of a file or a link: a tar the link itself, a zip what it leads to. */
  predicate Keeps(container: Container, node: Node, entry: Entry) {
    match node
    case File(content) => entry == FileEntry(content)
    case Link(target, resolved) =>
      if container == TarGz then entry == LinkEntry(target)
      else
        || (resolved.ToFile? && entry == FileEntry(resolved.content))
        || (resolved.ToDirectory? && entry == DirectoryEntry)
    case Directory => false
  }

  /** A file or a link of some bundle, but for the app's own manifest. */
  predicate Bundled(app: Tree, siblings: Siblings, root: string, path: Path, node: Node) {
    && (node.File? || node.Link?)
    && if root == "swe-mux" then path in app && app[path] == node && path != ["files.json"]
       else
         && root in siblings && siblings[root].Some?
         && path in siblings[root].value && siblings[root].value[path] == node
  }

  lemma {:induction false} BundledIff(app: Tree, siblings: Siblings, root: string, path: Path, node: Node)
    requires ValidBundles(app, siblings)
    ensures Bundled(app, siblings, root, path, node)
        <==> path != [] && ListedAt(Listed(NameOf(root, path), node), app, siblings, root, path)
  {
    hide NameOf;
  }

  lemma {:induction false} DanglingIff(app: Tree, siblings: Siblings)
    requires ValidBundles(app, siblings)
    ensures NothingDangles(app, siblings)
        <==> !exists root, path, target :: Bundled(app, siblings, root, path, Link(target, Dangling))
  {
    hide NameOf, ValidBundles, ListedAt, Bundled;
    forall root, path, node
      ensures Bundled(app, siblings, root, path, node)
          <==> path != [] && ListedAt(Listed(NameOf(root, path), node), app, siblings, root, path)
    {
      BundledIff(app, siblings, root, path, node);
    }
    if l, root, path :| ListedAt(l, app, siblings, root, path) && Dangles(l.node) {
      ListedIsNamed(l, app, siblings, root, path);
      assert Bundled(app, siblings, root, path, Link(l.node.target, Dangling));
    }
    if root, path, target :| Bundled(app, siblings, root, path, Link(target, Dangling)) {
      assert InBundles(Listed(NameOf(root, path), Link(target, Dangling)), app, siblings);
    }
  }

  lemma {:induction false} ListedIsNamed(l: Listed, app: Tree, siblings: Siblings, root: string, path: Path)
    requires ListedAt(l, app, siblings, root, path)
    ensures path != [] && l == Listed(NameOf(root, path), l.node)
  {
    hide NameOf;
  }

  /** Stated on the trees: under the app's root a reader finds the new manifest, and every other file and link of the
      app's tree, at whatever depth, as the container keeps it; under a sibling's root every file and link of the
      sibling; and nothing else. */
  lemma {:induction false} ArchiveHolds(members: seq<Member>, container: Container, listing: seq<Listed>,
                                        app: Tree, siblings: Siblings, payload: string)
    requires ValidBundles(app, siblings) && Allowed(siblings)
    requires IsListing(listing, app, siblings) && IsArchive(members, container, listing, payload)
    ensures forall path, entry ::
              Extracts(members, "swe-mux", path, entry)
              <==> if path == ["files.json"] then entry == FileEntry(payload)
                   else path in app && Keeps(container, app[path], entry)
    ensures forall root, path, entry | root != "swe-mux" ::
              Extracts(members, root, path, entry)
              <==> root in siblings && path in siblings[root].value
                   && Keeps(container, siblings[root].value[path], entry)
  {
    hide IsListing, IsArchive, Extracts, Keeps, StoredAs, ValidBundles;
    forall root, path, entry
      ensures Extracts(members, root, path, entry)
          <==> if root == ARCHIVE_ROOT && path == [BUNDLE_FILES_NAME] then entry == FileEntry(payload)
               else StoredAs(container, app, siblings, root, path, entry)
    {
      ArchiveRoundTrip(members, container, listing, app, siblings, payload, root, path, entry);
    }
    forall path, entry | path != ["files.json"]
      ensures StoredAs(container, app, siblings, "swe-mux", path, entry)
          <==> path in app && Keeps(container, app[path], entry)
    {
      StoredInApp(container, app, siblings, path, entry);
    }
    forall root, path, entry | root != "swe-mux"
      ensures StoredAs(container, app, siblings, root, path, entry)
          <==> root in siblings && path in siblings[root].value
               && Keeps(container, siblings[root].value[path], entry)
    {
      StoredInSibling(container, app, siblings, root, path, entry);
    }
  }

  lemma {:induction false} StoredInApp(container: Container, app: Tree, siblings: Siblings, path: Path, entry: Entry)
    requires ValidBundles(app, siblings) && path != ["files.json"]
    ensures StoredAs(container, app, siblings, "swe-mux", path, entry)
        <==> path in app && Keeps(container, app[path], entry)
  {
  }

  lemma {:induction false} StoredInSibling(container: Container, app: Tree, siblings: Siblings, root: string,
                                           path: Path, entry: Entry)
    requires ValidBundles(app, siblings) && Allowed(siblings) && root != "swe-mux"
    ensures StoredAs(container, app, siblings, root, path, entry)
        <==> root in siblings && path in siblings[root].value
             && Keeps(container, siblings[root].value[path], entry)
  {
  }

  /** `build_archive`: refused exactly when a check of its inputs fails, or a zip meets a link that leads nowhere;
      otherwise the manifest, then the members of every bundle as the container stores them. */
  method BuildArchive(app: Tree, metadataPlatform: Option<string>, host: string, siblings: Siblings, payload: string,
                      container: Container) returns (r: Result<Archive, Fault>)
    requires ValidBundles(app, siblings)
    ensures r == Err(NoMetadata) <==> metadataPlatform.None?
    ensures r == Err(WrongPlatform) <==> metadataPlatform.Some? && metadataPlatform.value != host
    ensures r.Err? && (r.error.UnknownBundle? || r.error.NotBuilt?)
        <==> metadataPlatform == Some(host) && !Allowed(siblings)
    ensures r.Err? && r.error.UnknownBundle? ==>
              r.error.name in siblings && r.error.name != "swe-mux-supervisor" && r.error.name != "swe-mux-cli"
    ensures r.Err? && r.error.NotBuilt? ==> r.error.name in siblings && siblings[r.error.name].None?
    ensures r == Err(DanglingLink)
        <==> (&& metadataPlatform == Some(host) && Allowed(siblings) && container.Zip?
              && exists root, path, target :: Bundled(app, siblings, root, path, Link(target, Dangling)))
    ensures r.Ok?
        <==> (&& metadataPlatform == Some(host) && Allowed(siblings)
              && (container.Zip? ==>
                    !exists root, path, target :: Bundled(app, siblings, root, path, Link(target, Dangling))))
    ensures r.Ok? ==>
              && r.value.container == container
              && exists listing :: IsListing(listing, app, siblings)
                                   && IsArchive(r.value.members, container, listing, payload)
    ensures r.Ok? ==> forall path, entry ::
              Extracts(r.value.members, "swe-mux", path, entry)
              <==> if path == ["files.json"] then entry == FileEntry(payload)
                   else path in app && Keeps(container, app[path], entry)
    ensures r.Ok? ==> forall root, path, entry | root != "swe-mux" ::
              Extracts(r.value.members, root, path, entry)
              <==> root in siblings && path in siblings[root].value
                   && Keeps(container, siblings[root].value[path], entry)
  {
    if metadataPlatform.None? {
      return Err(NoMetadata);
    }
    if metadataPlatform.value != host {
      return Err(WrongPlatform);
    }
    var names := siblings.Keys;
    while names != {}
      invariant names <= siblings.Keys
      invariant forall n | n in siblings && n !in names :: (n == SUPERVISOR_ROOT || n == CLI_ROOT) && siblings[n].Some?
      decreases |names|
    {
      var name :| name in names;
      if name != SUPERVISOR_ROOT && name != CLI_ROOT {
        return Err(UnknownBundle(name));
      }
      if siblings[name].None? {
        return Err(NotBuilt(name));
      }
      names := names - {name};
    }
    hide ValidBundles, DistinctListed, InBundles, PackAll, Dangles, Extracts, Keeps, Bundled;
    DanglingIff(app, siblings);
    var listing := ListAll(app, siblings);
    NoDirectoryListed(listing, app, siblings);
    PackAllStores(container, listing);
    assert NothingDangles(app, siblings) <==> forall l | l in listing :: !Dangles(l.node);
    match container
    case TarGz =>
      var members := WriteTar(listing);
      assert IsArchive([ManifestMember(payload)] + members, container, listing, payload);
      ArchiveHolds([ManifestMember(payload)] + members, container, listing, app, siblings, payload);
      r := Ok(Archive(container, [Member(MANIFEST_MEMBER, FileEntry(payload))] + members));
    case Zip =>
      var members := WriteZip(listing);
      if members.None? {
        return Err(DanglingLink);
      }
      assert IsArchive([ManifestMember(payload)] + members.value, container, listing, payload);
      ArchiveHolds([ManifestMember(payload)] + members.value, container, listing, app, siblings, payload);
      r := Ok(Archive(container, [Member(MANIFEST_MEMBER, FileEntry(payload))] + members.value));
  }

  /** What is stored for a node is what the node is. */
  predicate Faithful(node: Node, entry: Entry) {
    match node
    case File(content) => entry == FileEntry(content)
    case Link(target, _) => entry == LinkEntry(target)
    case Directory => entry == DirectoryEntry
  }

  /** Every packed node of every bundle comes back as it was exactly when the container is a tar, or nothing packed is
      a link. */
  lemma {:induction false} EverythingSurvivesIff(members: seq<Member>, container: Container, listing: seq<Listed>,
                                                 app: Tree, siblings: Siblings, payload: string)
    requires ValidBundles(app, siblings) && Allowed(siblings)
    requires IsListing(listing, app, siblings) && IsArchive(members, container, listing, payload)
    ensures (forall root, path, node | Bundled(app, siblings, root, path, node) ::
               exists entry :: Extracts(members, root, path, entry) && Faithful(node, entry))
        <==> container.TarGz? || forall root, path, node | Bundled(app, siblings, root, path, node) :: !node.Link?
  {
    hide ValidBundles, Allowed, IsListing, IsArchive, Extracts, Bundled;
    forall root, path, node | Bundled(app, siblings, root, path, node)
      ensures (exists entry :: Extracts(members, root, path, entry) && Faithful(node, entry))
          <==> container.TarGz? || !node.Link?
    {
      BundledSurvivesIff(members, container, listing, app, siblings, payload, root, path, node);
    }
  }

  lemma {:induction false} BundledSurvivesIff(members: seq<Member>, container: Container, listing: seq<Listed>,
                                              app: Tree, siblings: Siblings, payload: string,
                                              root: string, path: Path, node: Node)
    requires ValidBundles(app, siblings) && Allowed(siblings)
    requires IsListing(listing, app, siblings) && IsArchive(members, container, listing, payload)
    requires Bundled(app, siblings, root, path, node)
    ensures (exists entry :: Extracts(members, root, path, entry) && Faithful(node, entry))
        <==> container.TarGz? || !node.Link?
  {
    hide ValidBundles, Allowed, IsListing, IsArchive, Extracts;
    ArchiveHolds(members, container, listing, app, siblings, payload);
    if container.TarGz? || !node.Link? {
      var entry := if node.Link? then LinkEntry(node.target) else FileEntry(node.content);
      assert Extracts(members, root, path, entry);
    }
  }

  // ------------------------------------------------------------------ the reader's own validation

  /** The reader takes a backslash for a slash. */
  function Slashed(name: string): (s: string)
    ensures |s| == |name|
  {
    seq(|name|, i requires 0 <= i < |name| => if name[i] == '\\' then '/' else name[i])
  }

  predicate IsRoot(head: string) {
    head == ARCHIVE_ROOT || head == SUPERVISOR_ROOT || head == CLI_ROOT
  }

  /** One name passes: it is not absolute, names no drive, climbs nowhere, and lies under a bundle root. */
  predicate Passes(name: string) {
    var parts := Split(Slashed(name));
    && !("/" <= Slashed(name)) && Lacks(parts[0], ':')
    && ".." !in parts
    && IsRoot(parts[0])
  }

  /** `validate_members`. */
  predicate Admitted(names: seq<string>) {
    && names != []
    && (forall i | 0 <= i < |names| :: Passes(names[i]))
    && exists i | 0 <= i < |names| :: Split(Slashed(names[i]))[0] == ARCHIVE_ROOT
  }

  /** A name is a root, or lies under it. */
  predicate Under(root: string, name: string) {
    name == root || root + "/" <= name
  }

  /** A name passes exactly when, with its backslashes read as slashes, it is a bundle's root or lies under one, and
      never goes up. */
  lemma {:induction false} PassesIff(name: string)
    ensures Passes(name)
        <==> (&& (|| Under("swe-mux", Slashed(name)) || Under("swe-mux-supervisor", Slashed(name))
                  || Under("swe-mux-cli", Slashed(name)))
              && !StandsIn("..", Slashed(name)))
  {
    hide Split, Slashed, StandsIn, IsRoot, Under;
    var s := Slashed(name);
    SplitHolds(s, "..");
    HeadOfSplit(s);
    UnderIff(s, Split(s)[0]);
    if IsRoot(Split(s)[0]) {
      RootsAreSlashless(Split(s)[0]);
      assert |Split(s)[0]| > 0 && s[0] == Split(s)[0][0];
    }
  }

  lemma {:induction false} UnderIff(s: string, head: string)
    requires Lacks(head, '/') && (s == head || head + "/" <= s)
    ensures IsRoot(head) <==> Under("swe-mux", s) || Under("swe-mux-supervisor", s) || Under("swe-mux-cli", s)
  {
    RootsAreComponents();
    hide Under;
    HeadIs(s, head, ARCHIVE_ROOT);
    HeadIs(s, head, SUPERVISOR_ROOT);
    HeadIs(s, head, CLI_ROOT);
  }

  lemma {:induction false} HeadIs(s: string, head: string, root: string)
    requires Lacks(head, '/') && (s == head || head + "/" <= s) && Lacks(root, '/')
    ensures head == root <==> Under(root, s)
  {
    assert forall m | 0 <= m < |head| :: s[m] == head[m];
    assert |head| < |s| ==> s[|head|] == '/';
    if Under(root, s) {
      assert forall m | 0 <= m < |root| :: s[m] == root[m];
      assert |root| < |s| ==> s[|root|] == '/';
      assert |root| == |head|;
    }
  }

  /** A name that does not climb when its backslashes are read as slashes. */
  predicate StaysPut(c: string) {
    ".." !in Split(Slashed(c))
  }

  predicate PathStays(path: Path) {
    forall i | 0 <= i < |path| :: StaysPut(path[i])
  }

  lemma {:induction false} SlashedOfConcat(a: string, b: string)
    ensures Slashed(a + "/" + b) == Slashed(a) + "/" + Slashed(b)
    ensures Slashed(a + "/") == Slashed(a) + "/"
  {
  }

  lemma {:induction false} SlashedPathStays(path: Path)
    requires path != []
    ensures ".." !in Split(Slashed(Posix(path))) <==> PathStays(path)
  {
    hide Split, Slashed;
    if |path| > 1 {
      SlashedPathStays(path[1..]);
      SlashedOfConcat(path[0], Posix(path[1..]));
      SplitAtSlash(Slashed(path[0]), Slashed(Posix(path[1..])));
      assert forall i | 0 < i < |path| :: path[i] == path[1..][i - 1];
    }
  }

  lemma {:induction false} RootsAreSlashless(root: string)
    requires IsRoot(root)
    ensures Slashed(root) == root && Split(root) == [root] && Lacks(root, ':') && root != ".."
    ensures root != [] && root[0] != '/'
  {
    hide Split;
    assert Lacks(root, '/') && Lacks(root, '\\') && Lacks(root, ':') && |root| > 2;
    hide IsRoot;
    SplitWhole(root);
  }

  /** A packed name, with or without a directory's slash, passes exactly when none of its components climbs. */
  lemma {:induction false} NamePassesIff(root: string, path: Path, name: string)
    requires IsRoot(root) && path != [] && (name == NameOf(root, path) || name == NameOf(root, path) + "/")
    ensures Split(Slashed(name))[0] == root
    ensures Passes(name) <==> PathStays(path)
  {
    RootsAreSlashless(root);
    hide Split, Slashed, IsRoot, PathStays;
    var rest := Slashed(Posix(path));
    SlashedOfConcat(root, Posix(path));
    SlashedPathStays(path);
    SplitAtSlash(root, rest);
    if name != NameOf(root, path) {
      SlashedOfConcat(NameOf(root, path), []);
      SplitAtSlash(Slashed(NameOf(root, path)), []);
      SplitWhole([]);
      assert Slashed(NameOf(root, path)) + "/" + [] == Slashed(name);
    }
    assert Slashed(name)[0] == root[0];
  }

  ghost predicate NothingClimbs(app: Tree, siblings: Siblings) {
    forall root, path, node | Bundled(app, siblings, root, path, node) :: PathStays(path)
  }

  lemma {:induction false} NothingClimbsIff(app: Tree, siblings: Siblings)
    requires ValidBundles(app, siblings)
    ensures NothingClimbs(app, siblings)
        <==> forall l, root, path | ListedAt(l, app, siblings, root, path) :: PathStays(path)
  {
    hide NameOf, ValidBundles, ListedAt, Bundled, PathStays;
    forall root, path, node
      ensures Bundled(app, siblings, root, path, node)
          <==> path != [] && ListedAt(Listed(NameOf(root, path), node), app, siblings, root, path)
    {
      BundledIff(app, siblings, root, path, node);
    }
    forall l, root, path | ListedAt(l, app, siblings, root, path)
      ensures Bundled(app, siblings, root, path, l.node)
    {
      ListedIsNamed(l, app, siblings, root, path);
    }
  }

  lemma {:induction false} ManifestPasses()
    ensures Passes(MANIFEST_MEMBER) && Split(Slashed(MANIFEST_MEMBER))[0] == ARCHIVE_ROOT
  {
    var path := [BUNDLE_FILES_NAME];
    assert Slashed(BUNDLE_FILES_NAME) == BUNDLE_FILES_NAME;
    SplitWhole(BUNDLE_FILES_NAME);
    assert StaysPut(path[0]);
    NamePassesIff(ARCHIVE_ROOT, path, MANIFEST_MEMBER);
  }

  lemma {:induction false} PackedNamesPassIff(packed: seq<Member>, container: Container, listing: seq<Listed>,
                                              app: Tree, siblings: Siblings)
    requires ValidBundles(app, siblings) && Allowed(siblings) && IsListing(listing, app, siblings)
    requires PackAll(container, listing) == Some(packed)
    ensures (forall i | 0 <= i < |packed| :: Passes(packed[i].name)) <==> NothingClimbs(app, siblings)
  {
    hide PackAll, Pack, ValidBundles, Passes, PathStays, ListedAt, DistinctListed, NothingClimbs;
    PackAllStores(container, listing);
    NothingClimbsIff(app, siblings);
    forall i, root, path | 0 <= i < |listing| && ListedAt(listing[i], app, siblings, root, path)
      ensures Passes(packed[i].name) <==> PathStays(path)
    {
      MemberPassesIff(listing[i], packed[i], container, app, siblings, root, path);
    }
    if NothingClimbs(app, siblings) {
      forall i | 0 <= i < |packed|
        ensures Passes(packed[i].name)
      {
        assert listing[i] in listing;
        var root, path :| ListedAt(listing[i], app, siblings, root, path);
      }
    }
    if forall i | 0 <= i < |packed| :: Passes(packed[i].name) {
      forall l, root, path | ListedAt(l, app, siblings, root, path)
        ensures PathStays(path)
      {
        assert InBundles(l, app, siblings);
        var i :| 0 <= i < |listing| && listing[i] == l;
        assert Passes(packed[i].name);
      }
    }
  }

  function NamesOf(members: seq<Member>): (names: seq<string>)
    ensures |names| == |members| && forall i | 0 <= i < |members| :: names[i] == members[i].name
  {
    seq(|members|, i requires 0 <= i < |members| => members[i].name)
  }

  lemma {:induction false} AdmittedIff(manifest: Member, packed: seq<Member>)
    requires Passes(manifest.name) && Split(Slashed(manifest.name))[0] == ARCHIVE_ROOT
    ensures Admitted(NamesOf([manifest] + packed)) <==> forall i | 0 <= i < |packed| :: Passes(packed[i].name)
  {
    hide Passes, Slashed, Split;
    var members := [manifest] + packed;
    var names := NamesOf(members);
    assert names[0] == manifest.name;
    hide NamesOf, IsRoot;
    if forall i | 0 <= i < |packed| :: Passes(packed[i].name) {
      forall i | 0 <= i < |names|
        ensures Passes(names[i])
      {
        if i > 0 {
          assert names[i] == members[i].name == packed[i - 1].name;
        }
      }
    }
    if Admitted(names) {
      forall i | 0 <= i < |packed|
        ensures Passes(packed[i].name)
      {
        assert names[i + 1] == members[i + 1].name == packed[i].name;
      }
    }
  }

  /** The reader admits what the writer packed exactly when no packed path has a component that climbs once its
      backslashes are read as slashes. */
  lemma {:induction false} WriterMeetsReaderIff(members: seq<Member>, container: Container, listing: seq<Listed>,
                                                app: Tree, siblings: Siblings, payload: string)
    requires ValidBundles(app, siblings) && Allowed(siblings)
    requires IsListing(listing, app, siblings) && IsArchive(members, container, listing, payload)
    ensures Admitted(NamesOf(members)) <==> NothingClimbs(app, siblings)
  {
    var packed := PackAll(container, listing).value;
    ManifestPasses();
    hide PackAll, ValidBundles, Passes, Slashed, Split, Admitted, NamesOf, NothingClimbs, IsListing;
    AdmittedIff(ManifestMember(payload), packed);
    PackedNamesPassIff(packed, container, listing, app, siblings);
  }

  lemma {:induction false} MemberPassesIff(l: Listed, m: Member, container: Container, app: Tree, siblings: Siblings,
                                           root: string, path: Path)
    requires ValidBundles(app, siblings) && Allowed(siblings) && ListedAt(l, app, siblings, root, path)
    requires Pack(container, l) == Some(m)
    ensures Passes(m.name) <==> PathStays(path)
  {
    hide Pack, Location, ValidBundles, NameOf, Passes, PathStays, Slashed, Split;
    ListedIsLocated(l, m, container, app, siblings, root, path);
    NamePassesIff(root, path, m.name);
  }

  /** On a host where a backslash is an ordinary character, `a\..\b` is a file name. */
  lemma {:induction false} BackslashesClimb()
    ensures Component("a\\..\\b") && !StaysPut("a\\..\\b")
  {
    var c := "a\\..\\b";
    assert Slashed(c) == "a" + "/" + (".." + "/" + "b");
    SplitAtSlash("a", ".." + "/" + "b");
    SplitAtSlash("..", "b");
    SplitWhole("..");
    assert Split("..")[0] == "..";
    assert (Split("..") + Split("b"))[0] == "..";
  }

  /** An archive of a bundle that holds such a file, or a directory of that name with a file in it, is written and then
      refused. */
  lemma {:induction false} BackslashesAreRefused(members: seq<Member>, container: Container, listing: seq<Listed>,
                                                 app: Tree, siblings: Siblings, payload: string,
                                                 root: string, path: Path, node: Node)
    requires ValidBundles(app, siblings) && Allowed(siblings)
    requires IsListing(listing, app, siblings) && IsArchive(members, container, listing, payload)
    requires Bundled(app, siblings, root, path, node) && "a\\..\\b" in path
    ensures !Admitted(NamesOf(members))
  {
    BackslashesClimb();
    var i :| 0 <= i < |path| && path[i] == "a\\..\\b";
    assert !PathStays(path);
    hide ValidBundles, IsListing, IsArchive, Bundled, Admitted, PathStays;
    WriterMeetsReaderIff(members, container, listing, app, siblings, payload);
  }
}
