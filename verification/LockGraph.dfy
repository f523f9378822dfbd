/** The dependency graph of `uv.lock` that two scripts walk, and what it means for a name to be
    reachable in it. */
module LockGraph {
  import opened Outcomes
  import opened Text

  /** One edge of the lock, with the environment marker it is subject to. */
  datatype Dep = Dep(name: string, marker: Option<string>)

  datatype LockWheel = LockWheel(url: string, hash: string, size: nat)

  datatype Entry = Entry(
    name: string,
    version: string,
    dependencies: seq<Dep>,
    optional: map<string, seq<Dep>>,
    groups: map<string, seq<Dep>>,
    wheels: seq<LockWheel>)

  type Lock = map<string, Entry>

  /** Whether a marker holds on some supported environment. */
  type Live = Option<string> -> bool

  type Naming = string -> string

  /** The names a list of edges leads to. */
  function Edges(deps: seq<Dep>, live: Live, naming: Naming): seq<string> {
    if deps == [] then []
    else (if live(deps[0].marker) then [naming(deps[0].name)] else []) + Edges(deps[1..], live, naming)
  }

  /** The names an entry depends on; a name without an entry is a leaf. */
  function Successors(lock: Lock, live: Live, naming: Naming, name: string): seq<string> {
    if name in lock then Edges(lock[name].dependencies, live, naming) else []
  }

  /** The entries by name; the last entry of a name wins. */
  function Index(packages: seq<Entry>, naming: Naming): Lock {
    if packages == [] then map[]
    else var last := packages[|packages| - 1]; Index(packages[..|packages| - 1], naming)[naming(last.name) := last]
  }

  // ------------------------------------------------------------------ reachability

  ghost predicate IsPath(lock: Lock, live: Live, naming: Naming, path: seq<string>) {
    path != [] && forall i | 0 <= i < |path| - 1 :: path[i + 1] in Successors(lock, live, naming, path[i])
  }

  ghost predicate Reachable(lock: Lock, live: Live, naming: Naming, seeds: set<string>, name: string) {
    exists path :: IsPath(lock, live, naming, path) && path[0] in seeds && path[|path| - 1] == name
  }

  /** Everything named is reached, and everything named by something reached. */
  ghost predicate Closed(lock: Lock, live: Live, naming: Naming, seeds: set<string>, names: set<string>) {
    seeds <= names && forall n, m | n in names && m in Successors(lock, live, naming, n) :: m in names
  }

  lemma {:induction false} SeedIsReachable(lock: Lock, live: Live, naming: Naming, seeds: set<string>, name: string)
    requires name in seeds
    ensures Reachable(lock, live, naming, seeds, name)
  {
    assert IsPath(lock, live, naming, [name]);
  }

  lemma {:induction false} SuccessorIsReachable(lock: Lock, live: Live, naming: Naming, seeds: set<string>,
                                                n: string, m: string)
    requires Reachable(lock, live, naming, seeds, n) && m in Successors(lock, live, naming, n)
    ensures Reachable(lock, live, naming, seeds, m)
  {
    var path :| IsPath(lock, live, naming, path) && path[0] in seeds && path[|path| - 1] == n;
    hide Successors;
    var longer := path + [m];
    forall i | 0 <= i < |longer| - 1
      ensures longer[i + 1] in Successors(lock, live, naming, longer[i])
    {
      assert i < |path| - 1 ==> path[i + 1] in Successors(lock, live, naming, path[i]);
    }
    assert IsPath(lock, live, naming, longer);
  }

  lemma {:induction false} PathStaysInClosed(lock: Lock, live: Live, naming: Naming, seeds: set<string>,
                                             names: set<string>,
                                             path: seq<string>)
    requires Closed(lock, live, naming, seeds, names) && IsPath(lock, live, naming, path) && path[0] in seeds
    ensures path[|path| - 1] in names
    decreases |path|
  {
    if |path| > 1 {
      var init := path[..|path| - 1];
      assert forall i | 0 <= i < |init| - 1 :: path[i + 1] in Successors(lock, live, naming, path[i]);
      PathStaysInClosed(lock, live, naming, seeds, names, init);
    }
  }

  /** A closed set of reachable names is the set of reachable names. */
  lemma {:induction false} ClosedIsReachable(lock: Lock, live: Live, naming: Naming, seeds: set<string>,
                                             names: set<string>)
    requires Closed(lock, live, naming, seeds, names)
    requires forall n | n in names :: Reachable(lock, live, naming, seeds, n)
    ensures forall n :: n in names <==> Reachable(lock, live, naming, seeds, n)
  {
    forall n | Reachable(lock, live, naming, seeds, n)
      ensures n in names
    {
      var path :| IsPath(lock, live, naming, path) && path[0] in seeds && path[|path| - 1] == n;
      PathStaysInClosed(lock, live, naming, seeds, names, path);
    }
  }

  /** Reaching distributes over the union of seeds. */
  lemma {:induction false} ReachableFromUnion(lock: Lock, live: Live, naming: Naming, a: set<string>, b: set<string>,
                                              name: string)
    ensures Reachable(lock, live, naming, a + b, name)
        <==> Reachable(lock, live, naming, a, name) || Reachable(lock, live, naming, b, name)
  {
  }

  /** Fewer edges reach less: a marker predicate that holds less often walks a smaller closure. */
  lemma {:induction false} ReachableIsMonotone(lock: Lock, live: Live, more: Live, naming: Naming,
                                               seeds: set<string>, seeds': set<string>, name: string)
    requires forall marker :: live(marker) ==> more(marker)
    requires seeds <= seeds' && Reachable(lock, live, naming, seeds, name)
    ensures Reachable(lock, more, naming, seeds', name)
  {
    var path :| IsPath(lock, live, naming, path) && path[0] in seeds && path[|path| - 1] == name;
    forall i | 0 <= i < |path| - 1
      ensures path[i + 1] in Successors(lock, more, naming, path[i])
    {
      assert path[i + 1] in Successors(lock, live, naming, path[i]);
      EdgesAreMonotone(lock[path[i]].dependencies, live, more, naming, path[i + 1]);
    }
    assert IsPath(lock, more, naming, path);
  }

  lemma {:induction false} EdgesAreMonotone(deps: seq<Dep>, live: Live, more: Live, naming: Naming, name: string)
    requires forall marker :: live(marker) ==> more(marker)
    requires name in Edges(deps, live, naming)
    ensures name in Edges(deps, more, naming)
  {
    if !(live(deps[0].marker) && naming(deps[0].name) == name) {
      EdgesAreMonotone(deps[1..], live, more, naming, name);
    }
  }

  // ------------------------------------------------------------------ chains of requirements

  /** A list of requirements asks for a name: one of them has that name, and a marker that holds somewhere. */
  ghost predicate Asks(deps: seq<Dep>, live: Live, naming: Naming, name: string) {
    exists i | 0 <= i < |deps| :: live(deps[i].marker) && naming(deps[i].name) == name
  }

  lemma {:induction false} EdgesAreAsked(deps: seq<Dep>, live: Live, naming: Naming, name: string)
    ensures name in Edges(deps, live, naming)
        <==> exists i | 0 <= i < |deps| :: live(deps[i].marker) && naming(deps[i].name) == name
  {
    if deps != [] {
      var rest := deps[1..];
      EdgesAreAsked(rest, live, naming, name);
      assert forall i | 0 < i < |deps| :: deps[i] == rest[i - 1];
    }
  }

  /** Each name has an entry that asks for the next. */
  ghost predicate IsChain(lock: Lock, live: Live, naming: Naming, chain: seq<string>) {
    && chain != []
    && forall i | 0 <= i < |chain| - 1 ::
         chain[i] in lock && Asks(lock[chain[i]].dependencies, live, naming, chain[i + 1])
  }

  /** An entry asks for a name, by itself or by one of the extras and groups. */
  ghost predicate RootAsks(root: Entry, extras: seq<string>, groups: seq<string>, live: Live, naming: Naming,
                           name: string) {
    || Asks(root.dependencies, live, naming, name)
    || (exists e | e in extras && e in root.optional :: Asks(root.optional[e], live, naming, name))
    || exists g | g in groups && g in root.groups :: Asks(root.groups[g], live, naming, name)
  }

  /** A chain of requirements leads to a name, from what the entry asks for. */
  ghost predicate ChainLeadsTo(lock: Lock, root: Entry, extras: seq<string>, groups: seq<string>, live: Live,
                               naming: Naming, name: string) {
    exists chain ::
      IsChain(lock, live, naming, chain) && RootAsks(root, extras, groups, live, naming, chain[0])
      && chain[|chain| - 1] == name
  }

  lemma {:induction false} SuccessorsAreAsked(lock: Lock, live: Live, naming: Naming, name: string, next: string)
    ensures next in Successors(lock, live, naming, name)
        <==> name in lock && Asks(lock[name].dependencies, live, naming, next)
  {
    if name in lock {
      EdgesAreAsked(lock[name].dependencies, live, naming, next);
    }
  }

  lemma {:induction false} PathIsChain(lock: Lock, live: Live, naming: Naming, path: seq<string>)
    ensures IsPath(lock, live, naming, path) <==> IsChain(lock, live, naming, path)
  {
    hide Successors, Asks;
    if IsPath(lock, live, naming, path) {
      forall i | 0 <= i < |path| - 1
        ensures path[i] in lock && Asks(lock[path[i]].dependencies, live, naming, path[i + 1])
      {
        SuccessorsAreAsked(lock, live, naming, path[i], path[i + 1]);
      }
    }
    if IsChain(lock, live, naming, path) {
      forall i | 0 <= i < |path| - 1
        ensures path[i + 1] in Successors(lock, live, naming, path[i])
      {
        SuccessorsAreAsked(lock, live, naming, path[i], path[i + 1]);
      }
    }
  }

  /** A chain of requirements leads to a name from one of several. */
  ghost predicate ChainFrom(lock: Lock, live: Live, naming: Naming, starts: seq<string>, name: string) {
    exists chain :: IsChain(lock, live, naming, chain) && chain[0] in starts && chain[|chain| - 1] == name
  }

  lemma {:induction false} ReachableIsChained(lock: Lock, live: Live, naming: Naming, starts: seq<string>, name: string)
    ensures Reachable(lock, live, naming, Elements(starts), name) <==> ChainFrom(lock, live, naming, starts, name)
  {
    if Reachable(lock, live, naming, Elements(starts), name) {
      var path :| IsPath(lock, live, naming, path) && path[0] in Elements(starts) && path[|path| - 1] == name;
      PathIsChain(lock, live, naming, path);
    }
    if ChainFrom(lock, live, naming, starts, name) {
      var chain :| IsChain(lock, live, naming, chain) && chain[0] in starts && chain[|chain| - 1] == name;
      PathIsChain(lock, live, naming, chain);
    }
  }

  /** Reaching a name from what an entry asks for is having a chain of requirements to it. */
  lemma {:induction false} ReachableByChain(lock: Lock, root: Entry, extras: seq<string>, groups: seq<string>,
                                            live: Live, naming: Naming, seeds: set<string>, name: string)
    requires forall n :: n in seeds <==> RootAsks(root, extras, groups, live, naming, n)
    ensures Reachable(lock, live, naming, seeds, name)
        <==> ChainLeadsTo(lock, root, extras, groups, live, naming, name)
  {
    if Reachable(lock, live, naming, seeds, name) {
      var path :| IsPath(lock, live, naming, path) && path[0] in seeds && path[|path| - 1] == name;
      PathIsChain(lock, live, naming, path);
    }
    if ChainLeadsTo(lock, root, extras, groups, live, naming, name) {
      var chain :| IsChain(lock, live, naming, chain) && RootAsks(root, extras, groups, live, naming, chain[0])
                   && chain[|chain| - 1] == name;
      PathIsChain(lock, live, naming, chain);
    }
  }

  /** Of entries with one name, the index holds the last. */
  lemma {:induction false} IndexHoldsTheLast(packages: seq<Entry>, naming: Naming, name: string)
    ensures name in Index(packages, naming) <==> exists i | 0 <= i < |packages| :: naming(packages[i].name) == name
    ensures forall i | 0 <= i < |packages| && naming(packages[i].name) == name
                       && (forall j | i < j < |packages| :: naming(packages[j].name) != name)
              :: name in Index(packages, naming) && Index(packages, naming)[name] == packages[i]
  {
    if packages != [] {
      var init := packages[..|packages| - 1];
      IndexHoldsTheLast(init, naming, name);
      assert forall i | 0 <= i < |init| :: init[i] == packages[i];
    }
  }

  // ------------------------------------------------------------------ the names a walk can meet

  function EdgeTargets(lock: Lock, live: Live, naming: Naming): set<string> {
    set k, n | k in lock && n in Edges(lock[k].dependencies, live, naming) :: n
  }

  lemma {:induction false} SuccessorsAreTargets(lock: Lock, live: Live, naming: Naming, name: string)
    ensures forall n | n in Successors(lock, live, naming, name) :: n in EdgeTargets(lock, live, naming)
  {
  }

  function Elements(s: seq<string>): set<string> {
    set x | x in s
  }

  // ------------------------------------------------------------------ names

  predicate IsSeparator(c: char) { c == '-' || c == '_' || c == '.' }

  function CanonChar(c: char): char {
    if c == '_' || c == '.' then '-' else LowerChar(c)
  }

  /** A name as `_canon` spells it: in lower case, with a hyphen for each underscore and each dot. */
  function Canon(name: string): (r: string)
    ensures |r| == |name|
  {
    seq(|name|, i requires 0 <= i < |name| => CanonChar(name[i]))
  }

  /** The normalized name of PEP 503, section "Normalized Names": in lower case, with one hyphen for each run of
      separators. */
  function Normalize(name: string): (r: string)
    ensures |r| <= |name|
  {
    if name == [] then []
    else if IsSeparator(name[0]) && |name| > 1 && IsSeparator(name[1]) then Normalize(name[1..])
    else [CanonChar(name[0])] + Normalize(name[1..])
  }

  predicate SingleSeparators(name: string) {
    forall i | 0 < i < |name| :: !(IsSeparator(name[i - 1]) && IsSeparator(name[i]))
  }

  lemma {:induction false} NormalizeShortensIff(name: string)
    ensures SingleSeparators(name) ==> Normalize(name) == Canon(name)
    ensures !SingleSeparators(name) ==> |Normalize(name)| < |name|
  {
    if name != [] {
      var rest := name[1..];
      NormalizeShortensIff(rest);
      if SingleSeparators(name) {
        assert |name| > 1 ==> !(IsSeparator(name[1 - 1]) && IsSeparator(name[1]));
        forall i | 0 < i < |rest|
          ensures !(IsSeparator(rest[i - 1]) && IsSeparator(rest[i]))
        {
          assert !(IsSeparator(name[i + 1 - 1]) && IsSeparator(name[i + 1]));
        }
        assert Canon(name) == [CanonChar(name[0])] + Canon(rest);
      } else if !(IsSeparator(name[0]) && |name| > 1 && IsSeparator(name[1])) {
        var i :| 0 < i < |name| && IsSeparator(name[i - 1]) && IsSeparator(name[i]);
        assert IsSeparator(rest[i - 1 - 1]) && IsSeparator(rest[i - 1]);
      }
    }
  }

  /** Canonical names are equal exactly when the names agree but for the case of letters and the choice of
      separators. */
  lemma {:induction false} CanonMeetsIff(a: string, b: string)
    ensures Canon(a) == Canon(b)
        <==> |a| == |b| && forall i | 0 <= i < |a| ::
               || LowerChar(a[i]) == LowerChar(b[i]) || (a[i] in "-_." && b[i] in "-_.")
    ensures forall i | 0 <= i < |a| :: Canon(a)[i] !in "_." && LowerChar(Canon(a)[i]) == Canon(a)[i]
    ensures (forall i | 0 <= i < |a| :: a[i] !in "_." && LowerChar(a[i]) == a[i]) ==> Canon(a) == a
  {
    forall i | 0 <= i < |a| && 0 <= i < |b|
      ensures Canon(a)[i] == Canon(b)[i]
          <==> LowerChar(a[i]) == LowerChar(b[i]) || (a[i] in "-_." && b[i] in "-_.")
    {
    }
    if Canon(a) == Canon(b) {
      assert |a| == |Canon(a)| == |Canon(b)| == |b|;
    }
  }

  /** The voice generator's canonical name is the PEP 503 name exactly when no two separators are
      adjacent: runs are not collapsed. */
  lemma {:induction false} CanonIsNormalizedIff(name: string)
    ensures Canon(name) == Normalize(name) <==> SingleSeparators(name)
  {
    NormalizeShortensIff(name);
  }
}
