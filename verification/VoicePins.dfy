/** The dependency closures of packaging/generate_voice_pins.py: what the voice extras reach, what the
    base application reaches, and the difference, which is acquired at first use. */
module VoicePins {
  import opened Outcomes
  import opened LockGraph
  import Ordering

  const ROOT_PACKAGE: string := "swe-mux"
  const ACQUIRE_EXTRAS: seq<string> := ["voice-local"]
  const ACQUIRE_GROUPS: seq<string> := ["g2p-model"]
  const OWNED_BY_ANOTHER_STORE: set<string> := {"en-core-web-sm"}

  function Listed(lists: map<string, seq<Dep>>, key: string): seq<Dep> {
    if key in lists then lists[key] else []
  }

  /** The edges named by several extras or groups, in order. */
  function ListedEdges(lists: map<string, seq<Dep>>, keys: seq<string>, live: Live): seq<string> {
    if keys == [] then []
    else ListedEdges(lists, keys[..|keys| - 1], live) + Edges(Listed(lists, keys[|keys| - 1]), live, Canon)
  }

  /** Where a walk with these extras and groups starts. */
  function Seeds(root: Entry, extras: seq<string>, groups: seq<string>, live: Live): seq<string> {
    Edges(root.dependencies, live, Canon) + ListedEdges(root.optional, extras, live)
    + ListedEdges(root.groups, groups, live)
  }

  ghost predicate Reaches(lock: Lock, extras: seq<string>, groups: seq<string>, live: Live, name: string)
    requires ROOT_PACKAGE in lock
  {
    Reachable(lock, live, Canon, Elements(Seeds(lock[ROOT_PACKAGE], extras, groups, live)), name)
  }

  /** What the root, the extras and the groups ask for is where the walk starts. */
  lemma {:induction false} SeedsAreAsked(root: Entry, extras: seq<string>, groups: seq<string>, live: Live,
                                         name: string)
    ensures name in Elements(Seeds(root, extras, groups, live))
        <==> RootAsks(root, extras, groups, live, Canon, name)
  {
    EdgesAreAsked(root.dependencies, live, Canon, name);
    ListedAreAsked(root.optional, extras, live, name);
    ListedAreAsked(root.groups, groups, live, name);
    hide Edges, ListedEdges;
  }

  lemma {:induction false} ListedAreAsked(lists: map<string, seq<Dep>>, keys: seq<string>, live: Live, name: string)
    ensures name in ListedEdges(lists, keys, live)
        <==> exists k | k in keys && k in lists :: Asks(lists[k], live, Canon, name)
  {
    if keys != [] {
      var init, last := keys[..|keys| - 1], keys[|keys| - 1];
      ListedAreAsked(lists, init, live, name);
      EdgesAreAsked(Listed(lists, last), live, Canon, name);
      assert keys == init + [last];
      hide Edges, ListedEdges;
    }
  }

  lemma {:induction false} ReachesByChain(lock: Lock, extras: seq<string>, groups: seq<string>, live: Live,
                                          name: string)
    requires ROOT_PACKAGE in lock
    ensures Reaches(lock, extras, groups, live, name)
        <==> ChainLeadsTo(lock, lock[ROOT_PACKAGE], extras, groups, live, Canon, name)
  {
    hide Seeds, RootAsks, Reachable, ChainLeadsTo, Elements;
    var root := lock[ROOT_PACKAGE];
    forall n
      ensures n in Elements(Seeds(root, extras, groups, live)) <==> RootAsks(root, extras, groups, live, Canon, n)
    {
      SeedsAreAsked(root, extras, groups, live, n);
    }
    ReachableByChain(lock, root, extras, groups, live, Canon, Elements(Seeds(root, extras, groups, live)), name);
  }

  /** What the walk has seen, and what is still on the stack: all of it reached, and together closed. */
  ghost predicate Walking(lock: Lock, live: Live, naming: Naming, seeds: set<string>, seen: set<string>,
                          stack: seq<string>) {
    && (forall n | n in seen :: Reachable(lock, live, naming, seeds, n))
    && (forall n | n in stack :: Reachable(lock, live, naming, seeds, n))
    && (forall n | n in seeds :: n in seen || n in stack)
    && (forall n, m | n in seen && m in Successors(lock, live, naming, n) :: m in seen || m in stack)
  }

  lemma {:induction false} VisitKeepsWalking(lock: Lock, live: Live, naming: Naming, seeds: set<string>,
                                             seen: set<string>,
                                             rest: seq<string>, name: string)
    requires Walking(lock, live, naming, seeds, seen, rest + [name])
    ensures name in seen ==> Walking(lock, live, naming, seeds, seen, rest)
    ensures Walking(lock, live, naming, seeds, seen + {name}, rest + Successors(lock, live, naming, name))
  {
    hide Reachable, Successors;
    assert name in rest + [name];
    assert forall n :: n in rest + [name] <==> (n in rest || n == name);
    forall m | m in Successors(lock, live, naming, name)
      ensures Reachable(lock, live, naming, seeds, m)
    {
      SuccessorIsReachable(lock, live, naming, seeds, name, m);
    }
  }

  /** Only what is on the stack matters, not where. */
  lemma {:induction false} StackIsUnordered(lock: Lock, live: Live, naming: Naming, seeds: set<string>,
                                            seen: set<string>, stack: seq<string>, k: nat)
    requires k < |stack| && Walking(lock, live, naming, seeds, seen, stack)
    ensures Walking(lock, live, naming, seeds, seen, stack[..k] + stack[k + 1..] + [stack[k]])
  {
    hide Reachable, Successors;
    assert stack == stack[..k] + [stack[k]] + stack[k + 1..];
    assert forall n :: n in stack <==> n in stack[..k] + stack[k + 1..] + [stack[k]];
  }

  lemma {:induction false} StartWalking(lock: Lock, live: Live, naming: Naming, stack: seq<string>)
    ensures Walking(lock, live, naming, Elements(stack), {}, stack)
  {
    forall n | n in stack
      ensures Reachable(lock, live, naming, Elements(stack), n)
    {
      SeedIsReachable(lock, live, naming, Elements(stack), n);
    }
  }

  lemma {:induction false} WalkEnds(lock: Lock, live: Live, naming: Naming, seeds: set<string>, seen: set<string>)
    requires Walking(lock, live, naming, seeds, seen, [])
    ensures forall n :: n in seen <==> Reachable(lock, live, naming, seeds, n)
  {
    hide Reachable, Successors;
    assert Closed(lock, live, naming, seeds, seen);
    ClosedIsReachable(lock, live, naming, seeds, seen);
  }

  /** `closure`: exactly the names reachable from the root's requirements and the named extras and groups,
      on cyclic and acyclic locks; a name without an entry is a leaf. A lock without the root package
      raises `KeyError`. */
  method Closure(lock: Lock, extras: seq<string>, groups: seq<string>, live: Live) returns (r: Option<set<string>>)
    ensures r.Some? <==> ROOT_PACKAGE in lock
    ensures r.Some? ==> forall n :: n in r.value <==> Reaches(lock, extras, groups, live, n)
    ensures r.Some? ==> "swe-mux" in lock && forall n ::
              n in r.value <==> ChainLeadsTo(lock, lock["swe-mux"], extras, groups, live, Canon, n)
  {
    if ROOT_PACKAGE !in lock {
      return None;
    }
    hide Reachable, Walking, Edges, ChainLeadsTo;
    var root := lock[ROOT_PACKAGE];
    var stack := Edges(root.dependencies, live, Canon);
    var part: seq<string> := [];
    for e := 0 to |extras|
      invariant part == ListedEdges(root.optional, extras[..e], live)
    {
      assert extras[..e + 1][..e] == extras[..e];
      part := part + Edges(Listed(root.optional, extras[e]), live, Canon);
    }
    assert extras[..|extras|] == extras;
    stack := stack + part;
    part := [];
    for g := 0 to |groups|
      invariant part == ListedEdges(root.groups, groups[..g], live)
    {
      assert groups[..g + 1][..g] == groups[..g];
      part := part + Edges(Listed(root.groups, groups[g]), live, Canon);
    }
    assert groups[..|groups|] == groups;
    stack := stack + part;
    var seen := Drain(lock, live, stack);
    forall n
      ensures Reaches(lock, extras, groups, live, n)
          <==> ChainLeadsTo(lock, root, extras, groups, live, Canon, n)
    {
      ReachesByChain(lock, extras, groups, live, n);
    }
    r := Some(seen);
  }

  /** The worklist loop. It may take the names off the stack in any order; the script takes the last. It ends because
      each visit takes a new name from the finitely many the lock mentions, and each skip shortens the stack. */
  method Drain(lock: Lock, live: Live, seeds: seq<string>) returns (seen: set<string>)
    ensures forall n :: n in seen <==> Reachable(lock, live, Canon, Elements(seeds), n)
    ensures forall n :: n in seen <==> ChainFrom(lock, live, Canon, seeds, n)
  {
    hide Reachable, Walking, Edges, EdgeTargets, ChainFrom;
    ghost var universe := Elements(seeds) + EdgeTargets(lock, live, Canon);
    var stack := seeds;
    seen := {};
    StartWalking(lock, live, Canon, stack);
    while stack != []
      invariant Walking(lock, live, Canon, Elements(seeds), seen, stack)
      invariant seen <= universe && forall n | n in stack :: n in universe
      decreases universe - seen, |stack|
    {
      var k :| 0 <= k < |stack|;
      var name, rest := stack[k], stack[..k] + stack[k + 1..];
      StackIsUnordered(lock, live, Canon, Elements(seeds), seen, stack, k);
      VisitKeepsWalking(lock, live, Canon, Elements(seeds), seen, rest, name);
      stack := rest;
      if name in seen {
        continue;
      }
      assert name in universe;
      seen := seen + {name};
      SuccessorsAreTargets(lock, live, Canon, name);
      if name !in lock {
        assert rest + Successors(lock, live, Canon, name) == rest;
        continue;
      }
      stack := stack + Edges(lock[name].dependencies, live, Canon);
    }
    WalkEnds(lock, live, Canon, Elements(seeds), seen);
    forall n
      ensures Reachable(lock, live, Canon, Elements(seeds), n) <==> ChainFrom(lock, live, Canon, seeds, n)
    {
      ReachableIsChained(lock, live, Canon, seeds, n);
    }
  }

  // ------------------------------------------------------------------ what is kept and what is acquired

  /** Reachable without the voice extras: shipped with the base application. */
  ghost predicate Kept(lock: Lock, live: Live, name: string)
    requires ROOT_PACKAGE in lock
  {
    Reaches(lock, [], [], live, name)
  }

  /** Reachable from the voice extras and groups alone. */
  ghost predicate VoiceReaches(lock: Lock, live: Live, name: string)
    requires ROOT_PACKAGE in lock
  {
    var root := lock[ROOT_PACKAGE];
    var voice := ListedEdges(root.optional, ACQUIRE_EXTRAS, live) + ListedEdges(root.groups, ACQUIRE_GROUPS, live);
    Reachable(lock, live, Canon, Elements(voice), name)
  }

  ghost predicate Acquired(lock: Lock, live: Live, name: string)
    requires ROOT_PACKAGE in lock
  {
    VoiceReaches(lock, live, name) && !Kept(lock, live, name) && name !in OWNED_BY_ANOTHER_STORE
  }

  /** The whole closure is the base closure together with what the voice seeds reach. */
  lemma {:induction false} WholeIsKeptOrVoice(lock: Lock, live: Live, name: string)
    requires ROOT_PACKAGE in lock
    ensures Reaches(lock, ACQUIRE_EXTRAS, ACQUIRE_GROUPS, live, name)
        <==> Kept(lock, live, name) || VoiceReaches(lock, live, name)
  {
    hide Reachable, Edges;
    var root := lock[ROOT_PACKAGE];
    var base := Seeds(root, [], [], live);
    var voice := ListedEdges(root.optional, ACQUIRE_EXTRAS, live) + ListedEdges(root.groups, ACQUIRE_GROUPS, live);
    assert Elements(Seeds(root, ACQUIRE_EXTRAS, ACQUIRE_GROUPS, live)) == Elements(base) + Elements(voice);
    ReachableFromUnion(lock, live, Canon, Elements(base), Elements(voice), name);
  }

  /** `acquired_packages`: in order and without repetition, exactly the packages that the voice seeds
      reach, the base seeds do not, and no other store owns. */
  method AcquiredPackages(lock: Lock, live: Live) returns (r: Option<seq<string>>)
    ensures r.Some? <==> ROOT_PACKAGE in lock
    ensures r.Some? ==> forall n :: n in r.value <==> Acquired(lock, live, n)
    ensures r.Some? ==> "swe-mux" in lock && forall n ::
              n in r.value
              <==> (&& ChainLeadsTo(lock, lock["swe-mux"], ["voice-local"], ["g2p-model"], live, Canon, n)
                    && !ChainLeadsTo(lock, lock["swe-mux"], [], [], live, Canon, n) && n != "en-core-web-sm")
    ensures r.Some? ==> forall i, j | 0 <= i < j < |r.value|
              :: Ordering.StringLe(r.value[i], r.value[j]) && r.value[i] != r.value[j]
  {
    hide Ordering.Sort, Ordering.StringLe, Reaches, VoiceReaches, ChainLeadsTo;
    var keep := Closure(lock, [], [], live);
    var whole := Closure(lock, ACQUIRE_EXTRAS, ACQUIRE_GROUPS, live);
    if keep.None? || whole.None? {
      return None;
    }
    CanonOfOwned();
    var difference := whole.value - keep.value - set n | n in OWNED_BY_ANOTHER_STORE :: Canon(n);
    var names := ListOf(difference);
    var sorted := Ordering.Sort(names, Ordering.StringLe);
    Ordering.StringLeIsPreorder();
    Ordering.SortSorts(names, Ordering.StringLe);
    Ordering.SortKeepsDistinct(names, Ordering.StringLe);
    forall n
      ensures n in sorted <==> Acquired(lock, live, n)
    {
      WholeIsKeptOrVoice(lock, live, n);
    }
    r := Some(sorted);
  }

  lemma {:induction false} CanonOfOwned()
    ensures (set n | n in OWNED_BY_ANOTHER_STORE :: Canon(n)) == OWNED_BY_ANOTHER_STORE
  {
    assert Canon("en-core-web-sm") == "en-core-web-sm";
  }

  method ListOf(names: set<string>) returns (list: seq<string>)
    ensures forall n :: n in list <==> n in names
    ensures forall i, j | 0 <= i < j < |list| :: list[i] != list[j]
  {
    list := [];
    var rest := names;
    while rest != {}
      invariant rest <= names && forall n :: n in list <==> n in names && n !in rest
      invariant forall i, j | 0 <= i < j < |list| :: list[i] != list[j]
      decreases |rest|
    {
      var n :| n in rest;
      list, rest := list + [n], rest - {n};
    }
  }

  /** Nothing shipped needs anything that is acquired. */
  lemma {:induction false} KeptNeedsNothingAcquired(lock: Lock, live: Live, kept: string, needed: string)
    requires ROOT_PACKAGE in lock && Kept(lock, live, kept) && needed in Successors(lock, live, Canon, kept)
    ensures Kept(lock, live, needed) && !Acquired(lock, live, needed)
  {
    SuccessorIsReachable(lock, live, Canon, Elements(Seeds(lock[ROOT_PACKAGE], [], [], live)), kept, needed);
  }

  /** Everything an acquired package needs is acquired, shipped, or owned by the other store. */
  lemma {:induction false} AcquiredNeedsAreCovered(lock: Lock, live: Live, acquired: string, needed: string)
    requires ROOT_PACKAGE in lock && Acquired(lock, live, acquired) && needed in Successors(lock, live, Canon, acquired)
    ensures Acquired(lock, live, needed) || Kept(lock, live, needed) || needed in OWNED_BY_ANOTHER_STORE
  {
    var root := lock[ROOT_PACKAGE];
    var voice := ListedEdges(root.optional, ACQUIRE_EXTRAS, live) + ListedEdges(root.groups, ACQUIRE_GROUPS, live);
    SuccessorIsReachable(lock, live, Canon, Elements(voice), acquired, needed);
  }
}
