/** The license gate of packaging/license_audit.py: its own walk of the lock, how it classifies a license,
    and what `--check` returning 0 establishes. */
module LicenseAudit {
  import opened Outcomes
  import opened Text
  import opened LockGraph
  import VoicePins

  const ROOT_PACKAGE: string := "swe-mux"
  const DISTRIBUTED_EXTRAS: seq<string> := ["voice-local"]
  const DISTRIBUTED_GROUPS: seq<string> := ["g2p-model"]

  /** Names are taken as the lock spells them. */
  function AsSpelled(name: string): (same: string)
    ensures same == name
  {
    name
  }

  // ------------------------------------------------------------------ the walk

  /** Why the walk stops: no root, no such group, a name nobody defines. */
  datatype WalkFault = NoRoot | NoGroup(group: string) | NoEntry(name: string)

  function ExtraEdges(root: Entry, extras: seq<string>, live: Live): seq<string> {
    if extras == [] then []
    else ExtraEdges(root, extras[..|extras| - 1], live)
         + Edges(if extras[|extras| - 1] in root.optional then root.optional[extras[|extras| - 1]] else [],
                 live, AsSpelled)
  }

  function GroupEdges(root: Entry, groups: seq<string>, live: Live): seq<string> {
    if groups == [] then []
    else GroupEdges(root, groups[..|groups| - 1], live)
         + Edges(if groups[|groups| - 1] in root.groups then root.groups[groups[|groups| - 1]] else [], live, AsSpelled)
  }

  function Seeds(root: Entry, live: Live): seq<string> {
    Edges(root.dependencies, live, AsSpelled) + ExtraEdges(root, DISTRIBUTED_EXTRAS, live)
    + GroupEdges(root, DISTRIBUTED_GROUPS, live)
  }

  ghost predicate Distributed(lock: Lock, live: Live, name: string)
    requires ROOT_PACKAGE in lock
  {
    Reachable(lock, live, AsSpelled, Elements(Seeds(lock[ROOT_PACKAGE], live)), name)
  }

  /** The root asks for a name that leads to this one, with the voice extra and the group of its model. Names are
      compared as the lock spells them. */
  ghost predicate Ships(lock: Lock, live: Live, name: string) {
    "swe-mux" in lock
    && ChainLeadsTo(lock, lock["swe-mux"], ["voice-local"], ["g2p-model"], live, AsSpelled, name)
  }

  lemma {:induction false} DistributedByChain(lock: Lock, live: Live, name: string)
    requires ROOT_PACKAGE in lock
    ensures Distributed(lock, live, name) <==> Ships(lock, live, name)
  {
    hide Seeds, RootAsks, Reachable, ChainLeadsTo, Elements;
    var root := lock[ROOT_PACKAGE];
    forall n
      ensures n in Elements(Seeds(root, live))
          <==> RootAsks(root, ["voice-local"], ["g2p-model"], live, AsSpelled, n)
    {
      SeedsAreAsked(root, live, n);
    }
    ReachableByChain(lock, root, ["voice-local"], ["g2p-model"], live, AsSpelled, Elements(Seeds(root, live)), name);
  }

  lemma {:induction false} SeedsAreAsked(root: Entry, live: Live, name: string)
    ensures name in Elements(Seeds(root, live))
        <==> RootAsks(root, ["voice-local"], ["g2p-model"], live, AsSpelled, name)
  {
    var extra := if "voice-local" in root.optional then root.optional["voice-local"] else [];
    var group := if "g2p-model" in root.groups then root.groups["g2p-model"] else [];
    EdgesAreAsked(root.dependencies, live, AsSpelled, name);
    EdgesAreAsked(extra, live, AsSpelled, name);
    EdgesAreAsked(group, live, AsSpelled, name);
    SeedsOfThree(root, live);
    hide Edges, Seeds;
  }

  lemma {:induction false} SeedsOfThree(root: Entry, live: Live)
    ensures Seeds(root, live)
         == Edges(root.dependencies, live, AsSpelled)
            + Edges(if "voice-local" in root.optional then root.optional["voice-local"] else [], live, AsSpelled)
            + Edges(if "g2p-model" in root.groups then root.groups["g2p-model"] else [], live, AsSpelled)
  {
    hide Edges;
    assert DISTRIBUTED_EXTRAS[..0] == [] && DISTRIBUTED_GROUPS[..0] == [];
    assert ExtraEdges(root, [], live) == [] && GroupEdges(root, [], live) == [];
  }

  lemma {:induction false} HasGroupsIff(root: Entry)
    ensures HasGroups(root) <==> "g2p-model" in root.groups
  {
    assert DISTRIBUTED_GROUPS[0] == "g2p-model";
  }

  predicate HasGroups(root: Entry) {
    forall g | 0 <= g < |DISTRIBUTED_GROUPS| :: DISTRIBUTED_GROUPS[g] in root.groups
  }

  /** `python_closure`: the version of every distributed package. It raises exactly when the root or a
      distributed group is missing, or when something distributed has no entry. */
  method PythonClosure(lock: Lock, live: Live) returns (r: Result<map<string, string>, WalkFault>)
    ensures r == Err(NoRoot) <==> ROOT_PACKAGE !in lock
    ensures r.Err? && r.error.NoGroup? <==> ROOT_PACKAGE in lock && !HasGroups(lock[ROOT_PACKAGE])
    ensures r.Err? && r.error.NoEntry? <==>
              (&& ROOT_PACKAGE in lock && HasGroups(lock[ROOT_PACKAGE])
               && exists n :: Distributed(lock, live, n) && n !in lock)
    ensures r.Ok? ==> forall n :: n in r.value <==> Distributed(lock, live, n)
    ensures r.Ok? ==> forall n :: n in r.value <==> Ships(lock, live, n)
    ensures r.Ok? ==> forall n | n in r.value :: n in lock && r.value[n] == lock[n].version
  {
    hide Reachable, Edges, Ships;
    if ROOT_PACKAGE !in lock {
      return Err(NoRoot);
    }
    forall n
      ensures Distributed(lock, live, n) <==> Ships(lock, live, n)
    {
      DistributedByChain(lock, live, n);
    }
    var root := lock[ROOT_PACKAGE];
    var seeds := Edges(root.dependencies, live, AsSpelled);
    var part: seq<string> := [];
    for e := 0 to |DISTRIBUTED_EXTRAS|
      invariant part == ExtraEdges(root, DISTRIBUTED_EXTRAS[..e], live)
    {
      var extra := DISTRIBUTED_EXTRAS[e];
      assert DISTRIBUTED_EXTRAS[..e + 1][..e] == DISTRIBUTED_EXTRAS[..e];
      part := part + Edges(if extra in root.optional then root.optional[extra] else [], live, AsSpelled);
    }
    assert DISTRIBUTED_EXTRAS[..|DISTRIBUTED_EXTRAS|] == DISTRIBUTED_EXTRAS;
    seeds := seeds + part;
    part := [];
    for g := 0 to |DISTRIBUTED_GROUPS|
      invariant part == GroupEdges(root, DISTRIBUTED_GROUPS[..g], live)
      invariant forall k | 0 <= k < g :: DISTRIBUTED_GROUPS[k] in root.groups
    {
      var group := DISTRIBUTED_GROUPS[g];
      if group !in root.groups {
        return Err(NoGroup(group));
      }
      assert DISTRIBUTED_GROUPS[..g + 1][..g] == DISTRIBUTED_GROUPS[..g];
      part := part + Edges(root.groups[group], live, AsSpelled);
    }
    assert DISTRIBUTED_GROUPS[..|DISTRIBUTED_GROUPS|] == DISTRIBUTED_GROUPS;
    seeds := seeds + part;
    var walked := Walk(lock, live, seeds);
    match walked
    case Ok(versions) => r := Ok(versions);
    case Err(name) => r := Err(NoEntry(name));
  }

  /** The worklist loop: it stops at the first name without an entry. */
  method Walk(lock: Lock, live: Live, seeds: seq<string>) returns (r: Result<map<string, string>, string>)
    ensures r.Ok? ==> forall n :: n in r.value <==> Reachable(lock, live, AsSpelled, Elements(seeds), n)
    ensures r.Ok? ==> forall n | n in r.value :: n in lock && r.value[n] == lock[n].version
    ensures r.Err? ==> Reachable(lock, live, AsSpelled, Elements(seeds), r.error) && r.error !in lock
    ensures r.Ok? ==> forall n :: n in r.value <==> ChainFrom(lock, live, AsSpelled, seeds, n)
    ensures r.Err? ==> ChainFrom(lock, live, AsSpelled, seeds, r.error)
  {
    hide Reachable, Edges, EdgeTargets, VoicePins.Walking, ChainFrom;
    forall n
      ensures Reachable(lock, live, AsSpelled, Elements(seeds), n) <==> ChainFrom(lock, live, AsSpelled, seeds, n)
    {
      ReachableIsChained(lock, live, AsSpelled, seeds, n);
    }
    ghost var universe := Elements(seeds) + EdgeTargets(lock, live, AsSpelled);
    var queue := seeds;
    var seen: map<string, string> := map[];
    VoicePins.StartWalking(lock, live, AsSpelled, queue);
    assert seen.Keys == {};
    while queue != []
      invariant VoicePins.Walking(lock, live, AsSpelled, Elements(seeds), seen.Keys, queue)
      invariant seen.Keys <= universe && forall n | n in queue :: n in universe
      invariant forall n | n in seen :: n in lock && seen[n] == lock[n].version
      decreases universe - seen.Keys, |queue|
    {
      var name, rest := queue[|queue| - 1], queue[..|queue| - 1];
      assert queue == rest + [name];
      VoicePins.VisitKeepsWalking(lock, live, AsSpelled, Elements(seeds), seen.Keys, rest, name);
      queue := rest;
      if name in seen {
        continue;
      }
      assert name in universe;
      if name !in lock {
        QueuedIsReachable(lock, live, Elements(seeds), seen.Keys, rest, name);
        return Err(name);
      }
      ghost var keys := seen.Keys;
      seen := seen[name := lock[name].version];
      assert seen.Keys == keys + {name};
      SuccessorsAreTargets(lock, live, AsSpelled, name);
      queue := queue + Edges(lock[name].dependencies, live, AsSpelled);
    }
    VoicePins.WalkEnds(lock, live, AsSpelled, Elements(seeds), seen.Keys);
    r := Ok(seen);
  }

  lemma {:induction false} QueuedIsReachable(lock: Lock, live: Live, seeds: set<string>, seen: set<string>,
                                             rest: seq<string>, name: string)
    requires VoicePins.Walking(lock, live, AsSpelled, seeds, seen, rest + [name])
    ensures Reachable(lock, live, AsSpelled, seeds, name)
  {
    hide Reachable;
    assert name in rest + [name];
  }

  // ------------------------------------------------------------------ agreement with the voice generator

  ghost predicate CanonicalDeps(deps: seq<Dep>) {
    forall i | 0 <= i < |deps| :: Canon(deps[i].name) == deps[i].name
  }

  /** Every name in the entry is already canonical. */
  ghost predicate CanonicalEntry(entry: Entry) {
    && Canon(entry.name) == entry.name && CanonicalDeps(entry.dependencies)
    && (forall k | k in entry.optional :: CanonicalDeps(entry.optional[k]))
    && (forall k | k in entry.groups :: CanonicalDeps(entry.groups[k]))
  }

  lemma {:induction false} CanonicalEdgesAgree(deps: seq<Dep>, live: Live)
    requires CanonicalDeps(deps)
    ensures Edges(deps, live, AsSpelled) == Edges(deps, live, Canon)
  {
    if deps != [] {
      CanonicalEdgesAgree(deps[1..], live);
    }
  }

  lemma {:induction false} CanonicalIndexesAgree(packages: seq<Entry>)
    requires forall i | 0 <= i < |packages| :: CanonicalEntry(packages[i])
    ensures Index(packages, AsSpelled) == Index(packages, Canon)
    ensures forall n | n in Index(packages, Canon) :: CanonicalEntry(Index(packages, Canon)[n])
  {
    if packages != [] {
      CanonicalIndexesAgree(packages[..|packages| - 1]);
    }
  }

  /** On a lock of canonical names, and for one marker predicate, the two scripts read one lock and walk
      one closure: what the audit covers is exactly what the voice generator's whole closure holds. */
  lemma {:induction false} AuditCoversVoiceClosure(packages: seq<Entry>, live: Live, name: string)
    requires forall i | 0 <= i < |packages| :: CanonicalEntry(packages[i])
    requires ROOT_PACKAGE in Index(packages, AsSpelled)
    ensures Index(packages, AsSpelled) == Index(packages, Canon)
    ensures Distributed(Index(packages, AsSpelled), live, name)
        <==> VoicePins.Reaches(Index(packages, Canon), VoicePins.ACQUIRE_EXTRAS, VoicePins.ACQUIRE_GROUPS, live, name)
  {
    hide Reachable, Edges, Index, CanonicalEntry;
    CanonicalIndexesAgree(packages);
    var lock := Index(packages, Canon);
    SeedsAgree(lock[ROOT_PACKAGE], live);
    forall n
      ensures Successors(lock, live, AsSpelled, n) == Successors(lock, live, Canon, n)
    {
      if n in lock {
        EntryEdgesAgree(lock[n], live);
      }
    }
    var seeds := Elements(Seeds(lock[ROOT_PACKAGE], live));
    if Reachable(lock, live, AsSpelled, seeds, name) {
      SameSuccessorsReachTheSame(lock, live, AsSpelled, Canon, seeds, name);
    }
    if Reachable(lock, live, Canon, seeds, name) {
      SameSuccessorsReachTheSame(lock, live, Canon, AsSpelled, seeds, name);
    }
  }

  lemma {:induction false} EntryEdgesAgree(entry: Entry, live: Live)
    requires CanonicalEntry(entry)
    ensures Edges(entry.dependencies, live, AsSpelled) == Edges(entry.dependencies, live, Canon)
  {
    CanonicalEdgesAgree(entry.dependencies, live);
  }

  lemma {:induction false} SeedsAgree(root: Entry, live: Live)
    requires CanonicalEntry(root)
    ensures Seeds(root, live) == VoicePins.Seeds(root, VoicePins.ACQUIRE_EXTRAS, VoicePins.ACQUIRE_GROUPS, live)
  {
    hide Edges;
    CanonicalEdgesAgree(root.dependencies, live);
    CanonicalEdgesAgree(if "voice-local" in root.optional then root.optional["voice-local"] else [], live);
    CanonicalEdgesAgree(if "g2p-model" in root.groups then root.groups["g2p-model"] else [], live);
    assert DISTRIBUTED_EXTRAS[..0] == [] && DISTRIBUTED_GROUPS[..0] == [];
    assert VoicePins.ACQUIRE_EXTRAS[..0] == [] && VoicePins.ACQUIRE_GROUPS[..0] == [];
    assert ExtraEdges(root, [], live) == [] && VoicePins.ListedEdges(root.optional, [], live) == [];
    assert GroupEdges(root, [], live) == [] && VoicePins.ListedEdges(root.groups, [], live) == [];
  }

  lemma {:induction false} SameSuccessorsReachTheSame(lock: Lock, live: Live, naming: Naming, naming': Naming,
                                                      seeds: set<string>, name: string)
    requires forall n :: Successors(lock, live, naming, n) == Successors(lock, live, naming', n)
    requires Reachable(lock, live, naming, seeds, name)
    ensures Reachable(lock, live, naming', seeds, name)
  {
    hide Successors;
    var path :| IsPath(lock, live, naming, path) && path[0] in seeds && path[|path| - 1] == name;
    assert IsPath(lock, live, naming', path);
  }

  // ------------------------------------------------------------------ classifying a license

  datatype Category = Unknown | WeakCopyleft | StrongCopyleft | FileLevelCopyleft | Permissive

  function UpperChar(c: char): char {
    if 'a' <= c <= 'z' then (c as int - 32) as char else c
  }

  function Upper(s: string): string {
    seq(|s|, i requires 0 <= i < |s| => UpperChar(s[i]))
  }

  predicate WordChar(c: char) {
    'A' <= c <= 'Z' || 'a' <= c <= 'z' || IsDigit(c) || c == '_'
  }

  const WORD_CHARACTERS: string := CAPITALS + SMALL_LETTERS + "0123456789_"

  lemma {:induction false} WordCharIff(c: char)
    ensures WordChar(c) <==> c in WORD_CHARACTERS
  {
    LettersAre(c);
    OnlyDigitsAreDigits(c);
    assert "0123456789_" == "0123456789" + "_";
    hide CAPITALS, SMALL_LETTERS;
    assert c in WORD_CHARACTERS <==> c in CAPITALS || c in SMALL_LETTERS || c in "0123456789_";
  }

  /** The phrase occurs, in any case. */
  predicate Mentions(text: string, phrase: string) {
    exists i | 0 <= i <= |text| :: OccursAt(Upper(text), phrase, i)
  }

  /** The phrase occurs at the start of a word, and at the end of one too if `whole`. */
  predicate MentionsWord(text: string, phrase: string, whole: bool) {
    exists i | 0 <= i <= |text| :: OccursAt(Upper(text), phrase, i)
      && (i == 0 || !WordChar(text[i - 1]))
      && (whole ==> i + |phrase| == |text| || !WordChar(text[i + |phrase|]))
  }

  predicate SaysWeak(text: string) {
    MentionsWord(text, "LGPL", false) || Mentions(text, "LESSER GENERAL PUBLIC")
    || Mentions(text, "LIBRARY GENERAL PUBLIC")
  }

  predicate SaysStrong(text: string) {
    MentionsWord(text, "GPL", false) || MentionsWord(text, "AGPL", false) || Mentions(text, "GENERAL PUBLIC LICENSE")
  }

  predicate SaysFileLevel(text: string) {
    || MentionsWord(text, "MPL", true) || Mentions(text, "MOZILLA PUBLIC") || MentionsWord(text, "EPL", true)
    || Mentions(text, "ECLIPSE PUBLIC") || MentionsWord(text, "CDDL", true)
  }

  function Classify(text: string): Category {
    if AllSpace(text) then Unknown
    else if SaysWeak(text) then WeakCopyleft
    else if SaysStrong(text) then StrongCopyleft
    else if SaysFileLevel(text) then FileLevelCopyleft
    else Permissive
  }

  /** Letters that differ in case only. */
  predicate SameButCase(a: string, b: string) {
    Lower(a) == Lower(b)
  }

  lemma {:induction false} SameLettersInUpperCase(a: string, b: string)
    requires SameButCase(a, b)
    ensures |a| == |b| && forall i | 0 <= i < |a| :: UpperChar(a[i]) == UpperChar(b[i])
    ensures Upper(a) == Upper(b)
  {
    forall i | 0 <= i < |a|
      ensures UpperChar(a[i]) == UpperChar(b[i])
    {
      assert LowerChar(a[i]) == Lower(a)[i] == Lower(b)[i] == LowerChar(b[i]);
    }
  }

  lemma {:induction false} CaseKeepsClass(a: char, b: char)
    requires UpperChar(a) == UpperChar(b)
    ensures IsSpace(a) <==> IsSpace(b)
    ensures WordChar(a) <==> WordChar(b)
  {
  }

  lemma {:induction false} CaseKeepsMentions(a: string, b: string, phrase: string, whole: bool)
    requires SameButCase(a, b) && MentionsWord(a, phrase, whole)
    ensures MentionsWord(b, phrase, whole)
  {
    SameLettersInUpperCase(a, b);
    hide WordChar, SameButCase;
    var i :| 0 <= i <= |a| && OccursAt(Upper(a), phrase, i) && (i == 0 || !WordChar(a[i - 1]))
             && (whole ==> i + |phrase| == |a| || !WordChar(a[i + |phrase|]));
    if i > 0 {
      CaseKeepsClass(a[i - 1], b[i - 1]);
    }
    if whole && i + |phrase| != |a| {
      CaseKeepsClass(a[i + |phrase|], b[i + |phrase|]);
    }
  }

  lemma {:induction false} CaseKeepsMentionsIff(a: string, b: string, phrase: string, whole: bool)
    requires SameButCase(a, b)
    ensures MentionsWord(a, phrase, whole) <==> MentionsWord(b, phrase, whole)
    ensures Mentions(a, phrase) <==> Mentions(b, phrase)
  {
    if MentionsWord(a, phrase, whole) {
      CaseKeepsMentions(a, b, phrase, whole);
    }
    if MentionsWord(b, phrase, whole) {
      CaseKeepsMentions(b, a, phrase, whole);
    }
    SameLettersInUpperCase(a, b);
  }

  /** The class of a license does not depend on the case of its letters. */
  lemma {:induction false} ClassIgnoresCase(a: string, b: string)
    requires SameButCase(a, b)
    ensures Classify(a) == Classify(b)
  {
    SameLettersInUpperCase(a, b);
    forall i | 0 <= i < |a|
      ensures IsSpace(a[i]) <==> IsSpace(b[i])
    {
      CaseKeepsClass(a[i], b[i]);
    }
    assert AllSpace(a) <==> AllSpace(b);
    hide MentionsWord, Mentions, AllSpace, SameButCase;
    CaseKeepsMentionsIff(a, b, "LGPL", false);
    CaseKeepsMentionsIff(a, b, "LESSER GENERAL PUBLIC", false);
    CaseKeepsMentionsIff(a, b, "LIBRARY GENERAL PUBLIC", false);
    CaseKeepsMentionsIff(a, b, "GPL", false);
    CaseKeepsMentionsIff(a, b, "AGPL", false);
    CaseKeepsMentionsIff(a, b, "GENERAL PUBLIC LICENSE", false);
    CaseKeepsMentionsIff(a, b, "MPL", true);
    CaseKeepsMentionsIff(a, b, "MOZILLA PUBLIC", true);
    CaseKeepsMentionsIff(a, b, "EPL", true);
    CaseKeepsMentionsIff(a, b, "ECLIPSE PUBLIC", true);
    CaseKeepsMentionsIff(a, b, "CDDL", true);
  }

  /** A phrase, in any case, is mentioned by every text it stands in; at the start of a word, as a word. */
  lemma {:induction false} StandingIsMentioned(before: string, words: string, after: string, phrase: string)
    requires SameButCase(words, phrase) && Upper(phrase) == phrase
    ensures Mentions(before + words + after, phrase)
    ensures before == [] || !WordChar(before[|before| - 1]) ==> MentionsWord(before + words + after, phrase, false)
    ensures (before == [] || !WordChar(before[|before| - 1])) && (after == [] || !WordChar(after[0]))
        ==> MentionsWord(before + words + after, phrase, true)
  {
    SameLettersInUpperCase(words, phrase);
    hide SameButCase;
    var text := before + words + after;
    var i := |before|;
    assert Upper(text)[i..i + |phrase|] == phrase by {
      forall k | 0 <= k < |phrase|
        ensures Upper(text)[i + k] == phrase[k]
      {
        assert text[i + k] == words[k];
        assert Upper(phrase)[k] == UpperChar(phrase[k]);
      }
    }
    assert OccursAt(Upper(text), phrase, i);
  }

  const ABBREVIATIONS: seq<string> := ["GPL", "AGPL", "LGPL"]
  const TITLES: seq<string> := ["GENERAL PUBLIC LICENSE", "LESSER GENERAL PUBLIC", "LIBRARY GENERAL PUBLIC"]

  /** A license that names the GPL family is never passed on its own, whatever surrounds the name and in whatever case
      it is written: an abbreviation where a word starts, a title anywhere. */
  lemma {:induction false} CopyleftNeverPasses(before: string, words: string, after: string, phrase: string)
    requires SameButCase(words, phrase)
    requires || phrase in TITLES
             || (phrase in ABBREVIATIONS && (before == [] || before[|before| - 1] !in WORD_CHARACTERS))
    ensures Classify(before + words + after) in {WeakCopyleft, StrongCopyleft}
    ensures phrase == "LGPL" ==> Classify(before + words + after) == WeakCopyleft
  {
    var text := before + words + after;
    UpperPhrases(phrase);
    SameLettersInUpperCase(words, phrase);
    if before != [] {
      WordCharIff(before[|before| - 1]);
    }
    hide WORD_CHARACTERS;
    StandingIsMentioned(before, words, after, phrase);
    assert !AllSpace(text) by {
      assert UpperChar(words[0]) == UpperChar(phrase[0]) == phrase[0];
      CaseKeepsClass(words[0], phrase[0]);
      assert text[|before|] == words[0];
      assert !IsSpace(text[|before|]);
    }
    hide Mentions, MentionsWord, AllSpace;
  }

  lemma {:induction false} UpperPhrases(phrase: string)
    requires phrase in TITLES || phrase in ABBREVIATIONS
    ensures Upper(phrase) == phrase && phrase != [] && !IsSpace(phrase[0])
  {
    assert forall i | 0 <= i < |phrase| :: !('a' <= phrase[i] <= 'z');
  }

  /** A word starts at a position, or could. */
  predicate StartsWord(text: string, i: nat)
    requires i <= |text|
  {
    i == 0 || !WordChar(text[i - 1])
  }

  /** The text has `GPL` at a position, in any case, where a word starts or behind an `A` or `L` with which one does. */
  predicate GplCounts(text: string, i: nat) {
    && i <= |text| && OccursAt(Upper(text), "GPL", i)
    && (StartsWord(text, i)
        || (i > 0 && (UpperChar(text[i - 1]) == 'A' || UpperChar(text[i - 1]) == 'L') && StartsWord(text, i - 1)))
  }

  predicate SaysTitle(text: string) {
    || Mentions(text, "GENERAL PUBLIC LICENSE") || Mentions(text, "LESSER GENERAL PUBLIC")
    || Mentions(text, "LIBRARY GENERAL PUBLIC")
  }

  /** The text names the GPL family: by a title, or by an abbreviation where a word starts. */
  ghost predicate NamesGplFamily(text: string) {
    SaysTitle(text) || exists i :: GplCounts(text, i)
  }

  lemma {:induction false} LetterBeforeGpl(u: string, letter: char, i: nat)
    requires i <= |u|
    ensures OccursAt(u, [letter] + "GPL", i) <==> i < |u| && u[i] == letter && OccursAt(u, "GPL", i + 1)
  {
    if i + 4 <= |u| {
      assert u[i..i + 4] == [u[i]] + u[i + 1..i + 4];
    }
  }

  lemma {:induction false} AbbreviationCounts(text: string, letter: char)
    requires letter == 'A' || letter == 'L'
    ensures MentionsWord(text, [letter] + "GPL", false)
        <==> exists i: nat ::
               i < |text| && UpperChar(text[i]) == letter && StartsWord(text, i) && GplCounts(text, i + 1)
  {
    hide OccursAt, WordChar;
    forall i: nat | i <= |text|
      ensures OccursAt(Upper(text), [letter] + "GPL", i)
          <==> i < |text| && UpperChar(text[i]) == letter && OccursAt(Upper(text), "GPL", i + 1)
    {
      LetterBeforeGpl(Upper(text), letter, i);
    }
  }

  lemma {:induction false} FamilyIsMentionedIff(text: string)
    ensures MentionsWord(text, "GPL", false) || MentionsWord(text, "AGPL", false) || MentionsWord(text, "LGPL", false)
        <==> exists i :: GplCounts(text, i)
  {
    AbbreviationCounts(text, 'A');
    AbbreviationCounts(text, 'L');
    assert ['A'] + "GPL" == "AGPL" && ['L'] + "GPL" == "LGPL";
    hide OccursAt, WordChar, Upper;
    if i: nat :| GplCounts(text, i) {
      assert StartsWord(text, i) ==> MentionsWord(text, "GPL", false);
      if !StartsWord(text, i) {
        assert i > 0;
        var j: nat := i - 1;
        assert StartsWord(text, j) && GplCounts(text, j + 1);
      }
    }
    if MentionsWord(text, "GPL", false) {
      var i: nat :| i <= |text| && OccursAt(Upper(text), "GPL", i) && (i == 0 || !WordChar(text[i - 1]));
      assert GplCounts(text, i);
    }
  }

  lemma {:induction false} MentionIsNotBlank(text: string, phrase: string)
    requires Mentions(text, phrase) && phrase != [] && 'A' <= phrase[0] <= 'Z'
    ensures !AllSpace(text)
  {
    var i :| 0 <= i <= |text| && OccursAt(Upper(text), phrase, i);
    OccurrenceAgrees(Upper(text), phrase, i, 0);
    assert UpperChar(text[i]) == phrase[0];
    assert !IsSpace(text[i]);
  }

  /** A license is classed as copyleft exactly when it has one of the family's titles, or a `GPL` where a word starts or
      behind an `A` or `L` with which one does. So within a longer word the abbreviation is not seen. The copyleft is
      weak exactly when a lesser or library title, or such an `L`, is among them. */
  lemma {:induction false} CopyleftIff(text: string)
    ensures Classify(text) in {WeakCopyleft, StrongCopyleft} <==> NamesGplFamily(text)
    ensures Classify(text) == WeakCopyleft
        <==> || Mentions(text, "LESSER GENERAL PUBLIC") || Mentions(text, "LIBRARY GENERAL PUBLIC")
             || exists i: nat ::
                  i < |text| && UpperChar(text[i]) == 'L' && StartsWord(text, i) && GplCounts(text, i + 1)
  {
    AbbreviationCounts(text, 'L');
    assert ['L'] + "GPL" == "LGPL";
    hide Mentions, MentionsWord, AllSpace, GplCounts;
    FamilyIsMentionedIff(text);
    if SaysWeak(text) || SaysStrong(text) {
      CopyleftIsNotBlank(text);
    }
  }

  lemma {:induction false} CopyleftIsNotBlank(text: string)
    requires SaysWeak(text) || SaysStrong(text)
    ensures !AllSpace(text)
  {
    hide AllSpace, Mentions, MentionsWord;
    SayingIsNotBlank(text, "LGPL");
    SayingIsNotBlank(text, "LESSER GENERAL PUBLIC");
    SayingIsNotBlank(text, "LIBRARY GENERAL PUBLIC");
    SayingIsNotBlank(text, "GPL");
    SayingIsNotBlank(text, "AGPL");
    SayingIsNotBlank(text, "GENERAL PUBLIC LICENSE");
  }

  lemma {:induction false} SayingIsNotBlank(text: string, phrase: string)
    requires phrase != [] && 'A' <= phrase[0] <= 'Z'
    ensures Mentions(text, phrase) || MentionsWord(text, phrase, false) ==> !AllSpace(text)
  {
    hide AllSpace, Mentions, MentionsWord;
    WordIsMentioned(text, phrase);
    if Mentions(text, phrase) {
      MentionIsNotBlank(text, phrase);
    }
  }

  lemma {:induction false} WordIsMentioned(text: string, phrase: string)
    ensures MentionsWord(text, phrase, false) ==> Mentions(text, phrase)
  {
  }

  /** A title of a file-level copyleft license, in any case, or an abbreviation of one as a whole word. */
  predicate NamesFileLevel(before: string, words: string, after: string, phrase: string) {
    && SameButCase(words, phrase)
    && (|| phrase in ["MOZILLA PUBLIC", "ECLIPSE PUBLIC"]
        || (&& phrase in ["MPL", "EPL", "CDDL"] && (before == [] || before[|before| - 1] !in WORD_CHARACTERS)
            && (after == [] || after[0] !in WORD_CHARACTERS)))
  }

  lemma {:induction false} FileLevelStands(before: string, words: string, after: string, phrase: string)
    requires NamesFileLevel(before, words, after, phrase) && !NamesGplFamily(before + words + after)
    ensures Classify(before + words + after) == FileLevelCopyleft
  {
    var text := before + words + after;
    if before != [] {
      WordCharIff(before[|before| - 1]);
    }
    if after != [] {
      WordCharIff(after[0]);
    }
    hide WORD_CHARACTERS, Mentions, MentionsWord, AllSpace, SaysWeak, SaysStrong, NamesGplFamily, SameButCase;
    CopyleftIff(text);
    FileLevelPhrases(phrase);
    StandingIsMentioned(before, words, after, phrase);
    MentionIsNotBlank(text, phrase);
  }

  lemma {:induction false} CaseOfOccurrence(text: string, phrase: string, i: nat)
    requires OccursAt(Upper(text), phrase, i) && Upper(phrase) == phrase
    ensures i + |phrase| <= |text| && text == text[..i] + text[i..i + |phrase|] + text[i + |phrase|..]
    ensures SameButCase(text[i..i + |phrase|], phrase)
  {
    var words := text[i..i + |phrase|];
    forall k | 0 <= k < |phrase|
      ensures LowerChar(words[k]) == LowerChar(phrase[k])
    {
      OccurrenceAgrees(Upper(text), phrase, i, k);
      assert UpperChar(words[k]) == phrase[k] == Upper(phrase)[k] == UpperChar(phrase[k]);
    }
    assert Lower(words) == Lower(phrase);
  }

  /** The phrase occurs at a position, and with no word character on either side if it is an abbreviation. */
  predicate FileLevelAt(text: string, phrase: string, i: nat) {
    && OccursAt(Upper(text), phrase, i) && i + |phrase| <= |text|
    && (phrase !in ["MOZILLA PUBLIC", "ECLIPSE PUBLIC"] ==>
          (i == 0 || !WordChar(text[i - 1])) && (i + |phrase| == |text| || !WordChar(text[i + |phrase|])))
  }

  lemma {:induction false} MentionIsAt(text: string, phrase: string) returns (i: nat)
    requires || (phrase in ["MOZILLA PUBLIC", "ECLIPSE PUBLIC"] && Mentions(text, phrase))
             || (phrase in ["MPL", "EPL", "CDDL"] && MentionsWord(text, phrase, true))
    ensures FileLevelAt(text, phrase, i) && i + |phrase| <= |text|
  {
    if phrase in ["MOZILLA PUBLIC", "ECLIPSE PUBLIC"] && Mentions(text, phrase) {
      i :| i <= |text| && OccursAt(Upper(text), phrase, i);
    } else {
      hide WordChar;
      i :| i <= |text| && OccursAt(Upper(text), phrase, i) && (i == 0 || !WordChar(text[i - 1]))
           && (i + |phrase| == |text| || !WordChar(text[i + |phrase|]));
    }
  }

  lemma {:induction false} MentionStands(text: string, phrase: string, i: nat)
    requires phrase in ["MOZILLA PUBLIC", "ECLIPSE PUBLIC"] || phrase in ["MPL", "EPL", "CDDL"]
    requires FileLevelAt(text, phrase, i)
    ensures text == text[..i] + text[i..i + |phrase|] + text[i + |phrase|..]
    ensures NamesFileLevel(text[..i], text[i..i + |phrase|], text[i + |phrase|..], phrase)
  {
    FileLevelPhrases(phrase);
    hide WORD_CHARACTERS, WordChar, SameButCase, OccursAt, Upper;
    CaseOfOccurrence(text, phrase, i);
    if i > 0 {
      WordCharIff(text[i - 1]);
    }
    if i + |phrase| < |text| {
      WordCharIff(text[i + |phrase|]);
    }
  }

  /** A license outside the GPL family is file-level copyleft exactly when it names such a license; otherwise it is
      permissive if it says anything, and unknown if not. */
  lemma {:induction false} FileLevelIff(text: string)
    requires !NamesGplFamily(text)
    ensures Classify(text) == FileLevelCopyleft
        <==> exists before, words, after, phrase ::
               text == before + words + after && NamesFileLevel(before, words, after, phrase)
    ensures Classify(text) == Unknown <==> AllSpace(text)
    ensures Classify(text) in {FileLevelCopyleft, Permissive, Unknown}
  {
    CopyleftIff(text);
    hide NamesFileLevel, NamesGplFamily, Mentions, MentionsWord, SaysWeak, SaysStrong, AllSpace, FileLevelAt;
    if Classify(text) == FileLevelCopyleft {
      var phrase := if MentionsWord(text, "MPL", true) then "MPL"
                    else if Mentions(text, "MOZILLA PUBLIC") then "MOZILLA PUBLIC"
                    else if MentionsWord(text, "EPL", true) then "EPL"
                    else if Mentions(text, "ECLIPSE PUBLIC") then "ECLIPSE PUBLIC" else "CDDL";
      var i := MentionIsAt(text, phrase);
      MentionStands(text, phrase, i);
      var before, words, after := text[..i], text[i..i + |phrase|], text[i + |phrase|..];
      assert text == before + words + after && NamesFileLevel(before, words, after, phrase);
    }
    if before, words, after, phrase :| text == before + words + after && NamesFileLevel(before, words, after, phrase) {
      FileLevelStands(before, words, after, phrase);
    }
  }

  lemma {:induction false} FileLevelPhrases(phrase: string)
    requires phrase in ["MOZILLA PUBLIC", "ECLIPSE PUBLIC", "MPL", "EPL", "CDDL"]
    ensures Upper(phrase) == phrase && phrase != [] && 'A' <= phrase[0] <= 'Z'
  {
    assert forall i | 0 <= i < |phrase| :: !('a' <= phrase[i] <= 'z');
  }

  /** What may occur in a word character and `GPL`: nothing of the phrases but `GPL`, after the character. */
  lemma {:induction false} OnlyGplOccurs(c: char, phrase: string, i: int)
    requires c != 'A' && c != 'L' && |phrase| >= 3
    requires |phrase| > 4 || phrase in ["GPL", "AGPL", "LGPL", "MPL", "EPL", "CDDL"]
    ensures OccursAt([c] + "GPL", phrase, i) ==> phrase == "GPL" && i == 1
  {
    var text := [c] + "GPL";
    if OccursAt(text, phrase, i) {
      OccurrenceAgrees(text, phrase, i, 0);
      OccurrenceAgrees(text, phrase, i, 1);
    }
  }

  lemma {:induction false} WordBeforeGplPasses(c: char)
    requires WordChar(c) && UpperChar(c) != 'A' && UpperChar(c) != 'L'
    ensures Classify([c] + "GPL") == Permissive
  {
    var text := [c] + "GPL";
    assert Upper(text) == [UpperChar(c)] + "GPL";
    assert !IsSpace(text[0]) && WordChar(text[0]);
    forall phrase: string, i | |phrase| > 4 || phrase in ["GPL", "AGPL", "LGPL", "MPL", "EPL", "CDDL"]
      ensures OccursAt(Upper(text), phrase, i) ==> phrase == "GPL" && i == 1
    {
      OnlyGplOccurs(UpperChar(c), phrase, i);
    }
    hide OccursAt, Upper;
  }

  /** So `NGPL`, and any other character of a word before `GPL`, is passed as permissive. */
  lemma {:induction false} GplInsideAWordPasses(c: char)
    requires c in WORD_CHARACTERS && c !in "AaLl"
    ensures Classify([c] + "GPL") == Permissive
  {
    assert "AaLl"[0] == 'A' && "AaLl"[1] == 'a' && "AaLl"[2] == 'L' && "AaLl"[3] == 'l';
    hide WORD_CHARACTERS, Classify;
    WordCharIff(c);
    WordBeforeGplPasses(c);
  }

  // ------------------------------------------------------------------ the gate

  datatype Ecosystem = Python | Npm

  datatype Package = Package(name: string, version: string, license: string, ecosystem: Ecosystem)

  /** A package the gate lets through: permissive, file-level copyleft, or copyleft of a known kind that
      is excluded from the bundle or allowlisted. An unknown license is never let through. */
  predicate Acceptable(p: Package, allowlist: set<string>, excluded: set<string>) {
    var category := Classify(p.license);
    || category == Permissive || category == FileLevelCopyleft
    || (category != Unknown && (p.name in excluded || p.name in allowlist))
  }

  /** What the gate asks of a package: that its license says something, and that a package whose license names the GPL
      family is named in a list. */
  ghost predicate PassesGate(p: Package, allowlist: set<string>, excluded: set<string>) {
    !AllSpace(p.license) && (NamesGplFamily(p.license) ==> p.name in allowlist || p.name in excluded)
  }

  lemma {:induction false} AcceptableIff(p: Package, allowlist: set<string>, excluded: set<string>)
    ensures Acceptable(p, allowlist, excluded) <==> PassesGate(p, allowlist, excluded)
  {
    CopyleftIff(p.license);
    hide SaysTitle, GplCounts, SaysWeak, SaysStrong, SaysFileLevel, AllSpace;
  }

  /** The packages that are not acceptable, in order. */
  function Unacceptable(packages: seq<Package>, allowlist: set<string>, excluded: set<string>): (problems: seq<Package>)
    ensures forall p :: p in problems <==> p in packages && !Acceptable(p, allowlist, excluded)
  {
    if packages == [] then []
    else
      var last := packages[|packages| - 1];
      assert packages == packages[..|packages| - 1] + [last];
      Unacceptable(packages[..|packages| - 1], allowlist, excluded)
      + if Acceptable(last, allowlist, excluded) then [] else [last]
  }

  /** `violations`: one problem for each package that is not acceptable, in order. The loop takes the
      categories in the order the script does. */
  method Violations(packages: seq<Package>, allowlist: set<string>, excluded: set<string>)
    returns (problems: seq<Package>)
    ensures problems == [] <==> forall i | 0 <= i < |packages| :: Acceptable(packages[i], allowlist, excluded)
    ensures problems == Unacceptable(packages, allowlist, excluded)
    ensures forall p :: p in problems <==> p in packages && !PassesGate(p, allowlist, excluded)
    ensures problems == [] <==> forall i | 0 <= i < |packages| :: PassesGate(packages[i], allowlist, excluded)
  {
    hide Classify, PassesGate;
    forall p
      ensures Acceptable(p, allowlist, excluded) <==> PassesGate(p, allowlist, excluded)
    {
      AcceptableIff(p, allowlist, excluded);
    }
    problems := [];
    for i := 0 to |packages|
      invariant problems == Unacceptable(packages[..i], allowlist, excluded)
    {
      assert packages[..i + 1][..i] == packages[..i];
      var p := packages[i];
      var category := Classify(p.license);
      if category == Permissive || category == FileLevelCopyleft {
        continue;
      }
      if category == Unknown {
        problems := problems + [p];
        continue;
      }
      if p.name in excluded {
        continue;
      }
      if p.name !in allowlist {
        problems := problems + [p];
      }
    }
    assert packages[..|packages|] == packages;
    assert forall i | 0 <= i < |packages| :: packages[i] in packages;
    assert problems != [] ==> problems[0] in problems;
  }

  /** What the record says of one ecosystem: the version of each name, the last one where a name is repeated. */
  function Known(recorded: seq<Package>, ecosystem: Ecosystem): map<string, string> {
    if recorded == [] then map[]
    else
      var last := recorded[|recorded| - 1];
      var before := Known(recorded[..|recorded| - 1], ecosystem);
      if last.ecosystem == ecosystem then before[last.name := last.version] else before
  }

  lemma {:induction false} KnownIsRecorded(recorded: seq<Package>, ecosystem: Ecosystem, name: string)
    ensures name in Known(recorded, ecosystem)
        <==> exists i | 0 <= i < |recorded| :: recorded[i].name == name && recorded[i].ecosystem == ecosystem
    ensures name in Known(recorded, ecosystem) ==>
              exists i | 0 <= i < |recorded| ::
                recorded[i].name == name && recorded[i].ecosystem == ecosystem
                && recorded[i].version == Known(recorded, ecosystem)[name]
                && forall j | i < j < |recorded| :: recorded[j].name != name || recorded[j].ecosystem != ecosystem
  {
    if recorded != [] {
      var init, last := recorded[..|recorded| - 1], recorded[|recorded| - 1];
      KnownIsRecorded(init, ecosystem, name);
      assert forall i | 0 <= i < |init| :: init[i] == recorded[i];
      hide Known;
      KnownGrows(recorded, ecosystem);
      if last.name == name && last.ecosystem == ecosystem {
        assert recorded[|init|] == last;
      }
    }
  }

  lemma {:induction false} KnownGrows(recorded: seq<Package>, ecosystem: Ecosystem)
    requires recorded != []
    ensures var before, last := Known(recorded[..|recorded| - 1], ecosystem), recorded[|recorded| - 1];
      Known(recorded, ecosystem) == if last.ecosystem == ecosystem then before[last.name := last.version] else before
  {
  }

  datatype Drift = NotRecorded(name: string) | Moved(name: string) | NoLongerLocked(name: string)

  ghost predicate IsDrift(known: map<string, string>, actual: map<string, string>, d: Drift) {
    match d
    case NotRecorded(n) => n in actual && n !in known
    case Moved(n) => n in actual && n in known && known[n] != actual[n]
    case NoLongerLocked(n) => n in known && n !in actual
  }

  /** One ecosystem's half of `membership_drift`: exactly the differences, so none when the maps agree. */
  method DriftOf(known: map<string, string>, actual: map<string, string>) returns (problems: seq<Drift>)
    ensures forall d :: d in problems <==> IsDrift(known, actual, d)
    ensures problems == [] <==> known == actual
  {
    problems := [];
    var todo := actual.Keys;
    while todo != {}
      invariant todo <= actual.Keys
      invariant forall d :: d in problems <==> IsDrift(known, actual, d) && !d.NoLongerLocked? && d.name !in todo
      decreases |todo|
    {
      var name :| name in todo;
      if name !in known {
        problems := problems + [NotRecorded(name)];
      } else if known[name] != actual[name] {
        problems := problems + [Moved(name)];
      }
      todo := todo - {name};
    }
    todo := known.Keys;
    while todo != {}
      invariant todo <= known.Keys
      invariant forall d :: d in problems <==> IsDrift(known, actual, d) && (d.NoLongerLocked? ==> d.name !in todo)
      decreases |todo|
    {
      var name :| name in todo;
      if name !in actual {
        problems := problems + [NoLongerLocked(name)];
      }
      todo := todo - {name};
    }
    NoDriftIff(known, actual);
    assert problems != [] ==> problems[0] in problems;
  }

  lemma {:induction false} NoDriftIff(known: map<string, string>, actual: map<string, string>)
    ensures (forall d :: !IsDrift(known, actual, d)) <==> known == actual
  {
    if forall d :: !IsDrift(known, actual, d) {
      forall n
        ensures n in known <==> n in actual
        ensures n in known && n in actual ==> known[n] == actual[n]
      {
        assert !IsDrift(known, actual, NotRecorded(n));
        assert !IsDrift(known, actual, Moved(n));
        assert !IsDrift(known, actual, NoLongerLocked(n));
      }
    }
  }

  /** How `--check` ends: an exit code, or a message that stops it. */
  datatype Ending = Exit(code: nat) | NoSidecar | Stopped(fault: WalkFault)

  /** The recorded packages are the locked ones at the locked versions, all of them acceptable, and the
      notices are what they render to. */
  ghost predicate Clean(lock: Lock, live: Live, npm: map<string, string>, recorded: seq<Package>,
                        notices: Option<string>,
                        render: seq<Package> -> string, allowlist: set<string>, excluded: set<string>)
  {
    && "swe-mux" in lock && "g2p-model" in lock["swe-mux"].groups
    && (forall n :: n in Known(recorded, Python) <==> Ships(lock, live, n))
    && (forall n | n in Known(recorded, Python) :: n in lock && Known(recorded, Python)[n] == lock[n].version)
    && Known(recorded, Npm) == npm
    && (forall i | 0 <= i < |recorded| :: PassesGate(recorded[i], allowlist, excluded))
    && notices == Some(render(recorded))
  }

  lemma {:induction false} CleanNeedsRoot(lock: Lock, live: Live, npm: map<string, string>, recorded: seq<Package>,
                                          notices: Option<string>, render: seq<Package> -> string,
                                          allowlist: set<string>, excluded: set<string>)
    ensures Clean(lock, live, npm, recorded, notices, render, allowlist, excluded)
        ==> "swe-mux" in lock && "g2p-model" in lock["swe-mux"].groups
            && forall n | Ships(lock, live, n) :: n in lock
  {
    hide PassesGate, Ships, Known;
  }

  /** A record is clean when it agrees with the closure and the npm lock, passes the gate and renders to the notices. */
  lemma {:induction false} CleanIff(lock: Lock, live: Live, npm: map<string, string>, recorded: seq<Package>,
                                    notices: Option<string>, render: seq<Package> -> string,
                                    allowlist: set<string>, excluded: set<string>, python: map<string, string>)
    requires "swe-mux" in lock && "g2p-model" in lock["swe-mux"].groups
    requires forall n :: n in python <==> Ships(lock, live, n)
    requires forall n | n in python :: n in lock && python[n] == lock[n].version
    ensures Clean(lock, live, npm, recorded, notices, render, allowlist, excluded)
        <==> (&& Known(recorded, Python) == python && Known(recorded, Npm) == npm
              && (forall i | 0 <= i < |recorded| :: PassesGate(recorded[i], allowlist, excluded))
              && notices == Some(render(recorded)))
  {
    hide PassesGate, Ships, Known;
  }

  /** `--check`: exit code 0 exactly on a clean record. */
  method Check(lock: Lock, live: Live, npm: map<string, string>, sidecar: Option<seq<Package>>, notices: Option<string>,
               render: seq<Package> -> string, allowlist: set<string>, excluded: set<string>) returns (e: Ending)
    ensures e == Exit(0)
        <==> sidecar.Some? && Clean(lock, live, npm, sidecar.value, notices, render, allowlist, excluded)
    ensures e.Exit? ==> e.code == 0 || e.code == 1
    ensures e.NoSidecar? <==> sidecar.None?
    ensures e.Stopped? <==>
              (&& sidecar.Some?
               && ("swe-mux" in lock && "g2p-model" in lock["swe-mux"].groups
                   ==> exists n :: Ships(lock, live, n) && n !in lock))
  {
    if ROOT_PACKAGE in lock {
      HasGroupsIff(lock[ROOT_PACKAGE]);
    }
    hide PassesGate, Ships, Distributed, Known, HasGroups, Clean;
    forall n | ROOT_PACKAGE in lock
      ensures Distributed(lock, live, n) <==> Ships(lock, live, n)
    {
      DistributedByChain(lock, live, n);
    }
    if sidecar.None? {
      return NoSidecar;
    }
    CleanNeedsRoot(lock, live, npm, sidecar.value, notices, render, allowlist, excluded);
    var recorded := sidecar.value;
    var python := PythonClosure(lock, live);
    if python.Err? {
      return Stopped(python.error);
    }
    var drift := DriftOf(Known(recorded, Python), python.value);
    var drift' := DriftOf(Known(recorded, Npm), npm);
    var offending := Violations(recorded, allowlist, excluded);
    CleanIff(lock, live, npm, recorded, notices, render, allowlist, excluded, python.value);
    if drift == [] && drift' == [] && offending == [] && notices == Some(render(recorded)) {
      e := Exit(0);
    } else {
      e := Exit(1);
    }
  }

  /** What exit code 0 means for a user: everything distributed is recorded, at the version locked, under
      a license the gate lets through. */
  lemma {:induction false} AuditIsSound(lock: Lock, live: Live, npm: map<string, string>, recorded: seq<Package>,
                                        notices: Option<string>,
                                        render: seq<Package> -> string, allowlist: set<string>, excluded: set<string>,
                                        name: string)
    requires Clean(lock, live, npm, recorded, notices, render, allowlist, excluded) && Ships(lock, live, name)
    ensures name in lock && exists p | p in recorded ::
              p.name == name && p.ecosystem == Python && p.version == lock[name].version
              && PassesGate(p, allowlist, excluded)
  {
    hide PassesGate, Ships;
    KnownIsRecorded(recorded, Python, name);
    var i :| 0 <= i < |recorded| && recorded[i].name == name && recorded[i].ecosystem == Python
          && recorded[i].version == Known(recorded, Python)[name];
    assert recorded[i] in recorded;
  }
}
