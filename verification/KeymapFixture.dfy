/** The translation patches of frontend/scripts/gen_keymap_fixture.py (`collect`), and the reader in
    frontend/src/demo/keymapPresentation.ts that puts them back. */
module KeymapFixture {
  import opened Outcomes
  import Text

  /** A JSON value, as Python holds it. Numbers, booleans and null are all `Atom`s here: `collect`
      never looks inside them. */
  datatype Json =
    | Leaf(text: string)
    | Atom(value: string)
    | Array(items: seq<Json>)
    | Object(fields: map<string, Json>)

  type Path = seq<string>

  datatype Patch = Patch(path: Path, value: string)

  /** Which index, if any, `key` is the numeral of. */
  function IndexNamed(key: string, n: nat): (i: Option<nat>)
    ensures i.Some? ==> i.value < n && Text.Decimal(i.value) == key
    ensures i.None? ==> forall k: nat | k < n :: Text.Decimal(k) != key
  {
    if n == 0 then None
    else if Text.Decimal(n - 1) == key then Some(n - 1)
    else IndexNamed(key, n - 1)
  }

  function Child(node: Json, key: string): (c: Option<Json>)
    ensures c.Some? ==> c.value < node
  {
    match node
    case Object(fields) => if key in fields then Some(fields[key]) else None
    case Array(items) =>
      (match IndexNamed(key, |items|) case Some(i) => Some(items[i]) case None => None)
    case _ => None
  }

  function At(node: Json, path: Path): Option<Json> {
    if path == [] then Some(node)
    else match Child(node, path[0])
      case Some(c) => At(c, path[1..])
      case None => None
  }

  /** One trip of the reader's loop: a value is assigned at a path that is there. */
  function Assign(node: Json, path: Path, value: string): Json
    decreases node
  {
    if path == [] then Leaf(value)
    else match node
      case Object(fields) =>
        if path[0] in fields then Object(fields[path[0] := Assign(fields[path[0]], path[1..], value)]) else node
      case Array(items) =>
        (match IndexNamed(path[0], |items|)
         case Some(i) => Array(items[i := Assign(items[i], path[1..], value)])
         case None => node)
      case _ => node
  }

  function ApplyPatches(node: Json, patches: seq<Patch>): Json
    decreases |patches|
  {
    if patches == [] then node
    else ApplyPatches(Assign(node, patches[0].path, patches[0].value), patches[1..])
  }

  /** Equal but for the texts at string leaves. */
  ghost predicate SameShape(s: Json, t: Json) {
    match s
    case Leaf(_) => t.Leaf?
    case Atom(_) => t == s
    case Array(items) =>
      t.Array? && |t.items| == |items| && forall i | 0 <= i < |items| :: SameShape(items[i], t.items[i])
    case Object(fields) =>
      t.Object? && t.fields.Keys == fields.Keys && forall k | k in fields :: SameShape(fields[k], t.fields[k])
  }

  /** `path` leads to a string leaf whose translation is another text, `value`. */
  ghost predicate Differs(s: Json, t: Json, path: Path, value: string) {
    var a := At(s, path);
    a.Some? && a.value.Leaf? && At(t, path) == Some(Leaf(value)) && a.value.text != value
  }

  // ------------------------------------------------------------------ collecting

  /** `added` holds exactly one patch for each differing leaf that `path` and then a key in `keys`
      leads to, with the leaf's full path and translation. */
  ghost predicate Records(added: seq<Patch>, s: Json, t: Json, path: Path, keys: iset<string>) {
    && (forall i | 0 <= i < |added| ::
          && |path| < |added[i].path| && added[i].path[..|path|] == path && added[i].path[|path|] in keys
          && Differs(s, t, added[i].path[|path|..], added[i].value))
    && (forall p, v | p != [] && p[0] in keys && Differs(s, t, p, v) :: Patch(path + p, v) in added)
    && (forall i, j | 0 <= i < j < |added| :: added[i].path != added[j].path)
  }

  /** The same, for every differing leaf below `path`. */
  ghost predicate RecordsAll(added: seq<Patch>, s: Json, t: Json, path: Path) {
    && (forall i | 0 <= i < |added| ::
          && |path| <= |added[i].path| && added[i].path[..|path|] == path
          && Differs(s, t, added[i].path[|path|..], added[i].value))
    && (forall p, v | Differs(s, t, p, v) :: Patch(path + p, v) in added)
    && (forall i, j | 0 <= i < j < |added| :: added[i].path != added[j].path)
  }

  lemma {:induction false} ChildPatch(p: Patch, s: Json, t: Json, path: Path, key: string)
    requires Child(s, key).Some? && Child(t, key).Some?
    requires |path| < |p.path| && p.path[..|path| + 1] == path + [key]
    requires Differs(Child(s, key).value, Child(t, key).value, p.path[|path| + 1..], p.value)
    ensures p.path[..|path|] == path && p.path[|path|] == key && Differs(s, t, p.path[|path|..], p.value)
  {
    assert p.path[..|path|] == p.path[..|path| + 1][..|path|] == path;
    assert p.path[|path|] == p.path[..|path| + 1][|path|] == key;
    assert p.path[|path|..][1..] == p.path[|path| + 1..];
  }

  lemma {:induction false} RecordChild(added: seq<Patch>, more: seq<Patch>, s: Json, t: Json, path: Path,
                                       keys: iset<string>, key: string)
    requires Records(added, s, t, path, keys) && key !in keys
    requires Child(s, key).Some? && Child(t, key).Some?
    requires RecordsAll(more, Child(s, key).value, Child(t, key).value, path + [key])
    ensures Records(added + more, s, t, path, keys + iset{key})
  {
    forall i | 0 <= i < |more|
      ensures |path| < |more[i].path| && more[i].path[..|path|] == path && more[i].path[|path|] == key
      ensures Differs(s, t, more[i].path[|path|..], more[i].value)
    {
      ChildPatch(more[i], s, t, path, key);
    }
    forall p, v | p != [] && p[0] in keys + iset{key} && Differs(s, t, p, v)
      ensures Patch(path + p, v) in added + more
    {
      if p[0] == key {
        assert Differs(Child(s, key).value, Child(t, key).value, p[1..], v);
        assert path + [key] + p[1..] == path + p;
      }
    }
  }

  lemma {:induction false} RecordedEverything(added: seq<Patch>, s: Json, t: Json, path: Path, keys: iset<string>)
    requires Records(added, s, t, path, keys) && !s.Leaf?
    requires forall k :: Child(s, k).Some? ==> k in keys
    ensures RecordsAll(added, s, t, path)
  {
  }

  class Collector {
    var patches: seq<Patch>

    constructor ()
      ensures patches == []
    {
      patches := [];
    }

    method Collect(source: Json, translated: Json, path: Path)
      requires SameShape(source, translated)
      modifies this
      ensures |patches| >= |old(patches)| && patches[..|old(patches)|] == old(patches)
      ensures RecordsAll(patches[|old(patches)|..], source, translated, path)
      decreases source, 1
    {
      match source
      case Object(_) => CollectFields(source, translated, path);
      case Array(_) => CollectItems(source, translated, path);
      case Leaf(text) =>
        ghost var before := patches;
        if text != translated.text {
          patches := patches + [Patch(path, translated.text)];
          assert patches[|before|..] == [Patch(path, translated.text)];
        }
        LeafRecorded(patches[|before|..], source, translated, path);
      case Atom(_) =>
    }

    /** The dictionary branch. Fields are visited in any order, so what holds here holds for the
        order Python keeps. */
    method CollectFields(source: Json, translated: Json, path: Path)
      requires SameShape(source, translated) && source.Object?
      modifies this
      ensures |patches| >= |old(patches)| && patches[..|old(patches)|] == old(patches)
      ensures RecordsAll(patches[|old(patches)|..], source, translated, path)
      decreases source, 0
    {
      ghost var before := patches;
      var todo := source.fields.Keys;
      ghost var done: iset<string> := iset{};
      while todo != {}
        invariant todo <= source.fields.Keys
        invariant forall k :: k in done <==> k in source.fields && k !in todo
        invariant |patches| >= |before| && patches[..|before|] == before
        invariant Records(patches[|before|..], source, translated, path, done)
        decreases |todo|
      {
        var key :| key in todo;
        ghost var held := patches;
        Collect(source.fields[key], translated.fields[key], path + [key]);
        Suffixes(before, held, patches);
        RecordChild(held[|before|..], patches[|held|..], source, translated, path, done, key);
        todo, done := todo - {key}, done + iset{key};
      }
      RecordedEverything(patches[|before|..], source, translated, path, done);
    }

    /** The list branch. */
    method CollectItems(source: Json, translated: Json, path: Path)
      requires SameShape(source, translated) && source.Array?
      modifies this
      ensures |patches| >= |old(patches)| && patches[..|old(patches)|] == old(patches)
      ensures RecordsAll(patches[|old(patches)|..], source, translated, path)
      decreases source, 0
    {
      ghost var before := patches;
      var index := 0;
      assert Numerals(0) == iset{};
      while index < |source.items|
        invariant 0 <= index <= |source.items|
        invariant |patches| >= |before| && patches[..|before|] == before
        invariant Records(patches[|before|..], source, translated, path, Numerals(index))
      {
        var key := Text.Decimal(index);
        ghost var held := patches;
        NextNumeral(index);
        ChildAtIndex(source.items, index);
        ChildAtIndex(translated.items, index);
        Collect(source.items[index], translated.items[index], path + [key]);
        Suffixes(before, held, patches);
        RecordChild(held[|before|..], patches[|held|..], source, translated, path, Numerals(index), key);
        index := index + 1;
      }
      RecordedEverything(patches[|before|..], source, translated, path, Numerals(index));
    }
  }

  ghost function Numerals(n: nat): iset<string> {
    iset i: nat | i < n :: Text.Decimal(i)
  }

  lemma {:induction false} NextNumeral(n: nat)
    ensures Text.Decimal(n) !in Numerals(n)
    ensures Numerals(n + 1) == Numerals(n) + iset{Text.Decimal(n)}
  {
    forall i: nat | i < n
      ensures Text.Decimal(i) != Text.Decimal(n)
    {
      if Text.Decimal(i) == Text.Decimal(n) {
        Text.DecimalIsInjective(i, n);
      }
    }
  }

  lemma {:induction false} Suffixes(before: seq<Patch>, held: seq<Patch>, now: seq<Patch>)
    requires |before| <= |held| <= |now| && held[..|before|] == before && now[..|held|] == held
    ensures now[..|before|] == before && now[|before|..] == held[|before|..] + now[|held|..]
  {
    assert now[..|before|] == now[..|held|][..|before|];
  }

  lemma {:induction false} ChildAtIndex(items: seq<Json>, i: nat)
    requires i < |items|
    ensures Child(Array(items), Text.Decimal(i)) == Some(items[i])
  {
    var j := IndexNamed(Text.Decimal(i), |items|);
    Text.DecimalIsInjective(i, j.value);
  }

  lemma {:induction false} LeafRecorded(added: seq<Patch>, s: Json, t: Json, path: Path)
    requires s.Leaf? && t.Leaf?
    requires added == if s.text != t.text then [Patch(path, t.text)] else []
    ensures RecordsAll(added, s, t, path)
  {
    forall p, v | Differs(s, t, p, v)
      ensures p == [] && v == t.text
    {
      assert p == [];
    }
    assert path + [] == path;
  }

  // ------------------------------------------------------------------ applying

  /** The paths below `key`, for the paths of `sel`. */
  function Below(sel: set<Path>, key: string): set<Path> {
    set p | p in sel && p != [] && p[0] == key :: p[1..]
  }

  /** `s` with the leaves at the paths of `sel` already translated. */
  function Overlay(s: Json, t: Json, sel: set<Path>): Json
    requires SameShape(s, t)
  {
    match s
    case Leaf(_) => if [] in sel then t else s
    case Atom(_) => s
    case Array(items) =>
      Array(seq(|items|, i requires 0 <= i < |items| => Overlay(items[i], t.items[i], Below(sel, Text.Decimal(i)))))
    case Object(fields) =>
      Object(map k | k in fields :: Overlay(fields[k], t.fields[k], Below(sel, k)))
  }

  lemma {:induction false} OverlayOfNothing(s: Json, t: Json)
    requires SameShape(s, t)
    ensures Overlay(s, t, {}) == s
  {
    match s
    case Array(items) =>
      forall i | 0 <= i < |items|
        ensures Overlay(items[i], t.items[i], Below({}, Text.Decimal(i))) == items[i]
      {
        assert Below({}, Text.Decimal(i)) == {};
        OverlayOfNothing(items[i], t.items[i]);
      }
    case Object(fields) =>
      forall k | k in fields
        ensures Overlay(fields[k], t.fields[k], Below({}, k)) == fields[k]
      {
        assert Below({}, k) == {};
        OverlayOfNothing(fields[k], t.fields[k]);
      }
    case _ =>
  }

  lemma {:induction false} DiffersBelow(s: Json, t: Json, key: string, p: Path, v: string)
    requires Child(s, key).Some? && Child(t, key).Some?
    ensures Differs(s, t, [key] + p, v) <==> Differs(Child(s, key).value, Child(t, key).value, p, v)
  {
    assert ([key] + p)[1..] == p;
  }

  ghost predicate CoversDifferences(s: Json, t: Json, sel: set<Path>) {
    forall p, v | Differs(s, t, p, v) :: p in sel
  }

  lemma {:induction false} CoversBelow(s: Json, t: Json, sel: set<Path>, key: string)
    requires CoversDifferences(s, t, sel) && Child(s, key).Some? && Child(t, key).Some?
    ensures CoversDifferences(Child(s, key).value, Child(t, key).value, Below(sel, key))
  {
    forall p, v | Differs(Child(s, key).value, Child(t, key).value, p, v)
      ensures p in Below(sel, key)
    {
      DiffersBelow(s, t, key, p, v);
      assert ([key] + p)[1..] == p && [key] + p in sel;
    }
  }

  lemma {:induction false} OverlayOfEverything(s: Json, t: Json, sel: set<Path>)
    requires SameShape(s, t) && CoversDifferences(s, t, sel)
    ensures Overlay(s, t, sel) == t
  {
    match s
    case Leaf(text) =>
      if text != t.text { assert Differs(s, t, [], t.text); }
    case Atom(_) =>
    case Array(items) =>
      forall i | 0 <= i < |items|
        ensures Overlay(items[i], t.items[i], Below(sel, Text.Decimal(i))) == t.items[i]
      {
        ChildAtIndex(items, i);
        ChildAtIndex(t.items, i);
        CoversBelow(s, t, sel, Text.Decimal(i));
        OverlayOfEverything(items[i], t.items[i], Below(sel, Text.Decimal(i)));
      }
    case Object(fields) =>
      forall k | k in fields
        ensures Overlay(fields[k], t.fields[k], Below(sel, k)) == t.fields[k]
      {
        CoversBelow(s, t, sel, k);
        OverlayOfEverything(fields[k], t.fields[k], Below(sel, k));
      }
  }

  lemma {:induction false} BelowAfterAdding(sel: set<Path>, path: Path, key: string)
    requires path != []
    ensures Below(sel + {path}, key) == if key == path[0] then Below(sel, key) + {path[1..]} else Below(sel, key)
  {
    if key == path[0] {
      assert Below(sel, key) + {path[1..]} <= Below(sel + {path}, key);
    }
  }

  /** Assigning one collected patch translates that leaf and nothing else. */
  lemma {:induction false} AssignTranslatesOneLeaf(s: Json, t: Json, sel: set<Path>, path: Path, value: string)
    requires SameShape(s, t) && Differs(s, t, path, value)
    ensures Assign(Overlay(s, t, sel), path, value) == Overlay(s, t, sel + {path})
  {
    if path != [] {
      var key := path[0];
      match s
      case Array(items) =>
        var i := IndexNamed(key, |items|).value;
        AssignTranslatesOneLeaf(items[i], t.items[i], Below(sel, key), path[1..], value);
        AssignInArray(s, t, sel, path, value, i);
      case Object(fields) =>
        AssignTranslatesOneLeaf(fields[key], t.fields[key], Below(sel, key), path[1..], value);
        AssignInObject(s, t, sel, path, value);
    }
  }

  lemma {:induction false} AssignInArray(s: Json, t: Json, sel: set<Path>, path: Path, value: string, i: nat)
    requires SameShape(s, t) && s.Array? && path != [] && IndexNamed(path[0], |s.items|) == Some(i)
    requires Assign(Overlay(s.items[i], t.items[i], Below(sel, path[0])), path[1..], value)
          == Overlay(s.items[i], t.items[i], Below(sel, path[0]) + {path[1..]})
    ensures Assign(Overlay(s, t, sel), path, value) == Overlay(s, t, sel + {path})
  {
    var before, after := Overlay(s, t, sel), Overlay(s, t, sel + {path});
    forall j | 0 <= j < |s.items|
      ensures after.items[j] == if j == i then Assign(before.items[i], path[1..], value) else before.items[j]
    {
      BelowAfterAdding(sel, path, Text.Decimal(j));
      if Text.Decimal(j) == path[0] { Text.DecimalIsInjective(i, j); }
    }
    assert after.items == before.items[i := Assign(before.items[i], path[1..], value)];
  }

  lemma {:induction false} AssignInObject(s: Json, t: Json, sel: set<Path>, path: Path, value: string)
    requires SameShape(s, t) && s.Object? && path != [] && path[0] in s.fields
    requires Assign(Overlay(s.fields[path[0]], t.fields[path[0]], Below(sel, path[0])), path[1..], value)
          == Overlay(s.fields[path[0]], t.fields[path[0]], Below(sel, path[0]) + {path[1..]})
    ensures Assign(Overlay(s, t, sel), path, value) == Overlay(s, t, sel + {path})
  {
    var before, after := Overlay(s, t, sel), Overlay(s, t, sel + {path});
    var key := path[0];
    forall k | k in s.fields
      ensures after.fields[k] == if k == key then Assign(before.fields[key], path[1..], value) else before.fields[k]
    {
      BelowAfterAdding(sel, path, k);
    }
    assert after.fields == before.fields[key := Assign(before.fields[key], path[1..], value)];
  }

  function Paths(patches: seq<Patch>): set<Path> {
    set i | 0 <= i < |patches| :: patches[i].path
  }

  lemma {:induction false} ApplyTranslatesLeaves(s: Json, t: Json, sel: set<Path>, patches: seq<Patch>)
    requires SameShape(s, t)
    requires forall i | 0 <= i < |patches| :: Differs(s, t, patches[i].path, patches[i].value)
    ensures ApplyPatches(Overlay(s, t, sel), patches) == Overlay(s, t, sel + Paths(patches))
    decreases |patches|
  {
    if patches == [] {
      assert sel + Paths(patches) == sel;
    } else {
      var p := patches[0];
      AssignTranslatesOneLeaf(s, t, sel, p.path, p.value);
      ApplyTranslatesLeaves(s, t, sel + {p.path}, patches[1..]);
      assert Paths(patches) == {p.path} + Paths(patches[1..]) by {
        assert forall i | 0 <= i < |patches| - 1 :: patches[1..][i] == patches[i + 1];
        assert patches == [p] + patches[1..];
      }
      assert sel + Paths(patches) == sel + {p.path} + Paths(patches[1..]);
    }
  }

  /** Applying the collected patches to the source, in any order, yields the translation. (The reader
      assigns to a key of its target, so the source itself is a dictionary or a list.) */
  lemma {:induction false} PatchesTranslate(source: Json, translated: Json, patches: seq<Patch>, reordered: seq<Patch>)
    requires SameShape(source, translated) && !source.Leaf? && RecordsAll(patches, source, translated, [])
    requires multiset(reordered) == multiset(patches)
    ensures ApplyPatches(source, reordered) == translated
  {
    forall i | 0 <= i < |reordered|
      ensures Differs(source, translated, reordered[i].path, reordered[i].value)
    {
      assert reordered[i] in multiset(patches);
      var j :| 0 <= j < |patches| && patches[j] == reordered[i];
      assert patches[j].path[0..] == patches[j].path;
    }
    OverlayOfNothing(source, translated);
    ApplyTranslatesLeaves(source, translated, {}, reordered);
    forall p, v | Differs(source, translated, p, v)
      ensures p in Paths(reordered)
    {
      assert [] + p == p;
      assert Patch(p, v) in multiset(patches);
      var j :| 0 <= j < |reordered| && reordered[j] == Patch(p, v);
    }
    assert {} + Paths(reordered) == Paths(reordered);
    OverlayOfEverything(source, translated, Paths(reordered));
  }

  lemma {:induction false} NotBelow(sel: set<Path>, path: Path)
    requires path !in sel && path != []
    ensures path[1..] !in Below(sel, path[0])
  {
    forall q | q in sel && q != [] && q[0] == path[0]
      ensures q[1..] != path[1..]
    {
      assert q == [q[0]] + q[1..] && path == [path[0]] + path[1..];
    }
  }

  lemma {:induction false} OverlayKeepsLeaf(s: Json, t: Json, sel: set<Path>, path: Path)
    requires SameShape(s, t) && path !in sel && At(s, path).Some? && At(s, path).value.Leaf?
    ensures At(Overlay(s, t, sel), path) == At(s, path)
  {
    if path != [] {
      var key := path[0];
      NotBelow(sel, path);
      match s
      case Array(items) =>
        var i := IndexNamed(key, |items|).value;
        OverlayKeepsLeaf(items[i], t.items[i], Below(sel, key), path[1..]);
      case Object(fields) =>
        OverlayKeepsLeaf(fields[key], t.fields[key], Below(sel, key), path[1..]);
    }
  }

  /** Each collected patch is needed: without it the others, in any order and however often, do not yield the
      translation. */
  lemma {:induction false} NoPatchIsSpare(source: Json, translated: Json, patches: seq<Patch>, others: seq<Patch>,
                                          patch: Patch)
    requires SameShape(source, translated) && RecordsAll(patches, source, translated, []) && patch in patches
    requires forall i | 0 <= i < |others| :: others[i] in patches && others[i] != patch
    ensures ApplyPatches(source, others) != translated
  {
    forall other | other in patches
      ensures Differs(source, translated, other.path, other.value) && (other.path == patch.path ==> other == patch)
    {
      var i :| 0 <= i < |patches| && patches[i] == other;
      var j :| 0 <= j < |patches| && patches[j] == patch;
      assert other.path[0..] == other.path;
      assert i < j || j < i || i == j;
    }
    OverlayOfNothing(source, translated);
    ApplyTranslatesLeaves(source, translated, {}, others);
    assert {} + Paths(others) == Paths(others) && patch.path !in Paths(others);
    OverlayKeepsLeaf(source, translated, Paths(others), patch.path);
  }

  /** No collected path is a prefix of another: a leaf has nothing below it. */
  lemma {:induction false} PathsArePrefixFree(source: Json, translated: Json, patches: seq<Patch>, i: nat, j: nat)
    requires RecordsAll(patches, source, translated, []) && i < |patches| && j < |patches| && i != j
    ensures !(patches[i].path <= patches[j].path)
  {
    var p, q := patches[i].path, patches[j].path;
    assert p[0..] == p && q[0..] == q;
    if p <= q {
      LeavesEndPaths(source, p, q);
    }
  }

  lemma {:induction false} LeavesEndPaths(node: Json, p: Path, q: Path)
    requires p <= q && At(node, p).Some? && At(node, p).value.Leaf? && At(node, q).Some?
    ensures p == q
  {
    if p != [] {
      LeavesEndPaths(Child(node, p[0]).value, p[1..], q[1..]);
    }
  }
}
