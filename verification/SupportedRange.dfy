/** The range of CPython versions that the refusal of the generated selector names
    (`_supported_python_range` in packaging/generate_voice_pins.py). */
module SupportedRange {
  import opened Outcomes
  import opened Text
  import opened WheelSelection

  /** A CPython version, major and minor. */
  type Version = (nat, nat)

  predicate VersionLe(a: Version, b: Version) {
    a.0 < b.0 || (a.0 == b.0 && a.1 <= b.1)
  }

  /** A tag that binds its wheel to one CPython version. */
  predicate Binds(tag: Tag) {
    StartsWith(tag.interpreter, "cp") && StartsWith(tag.abi, "cp")
  }

  /** Reading the version of a bare `cp` runs off the end of the string. */
  predicate Unreadable(tag: Tag) {
    Binds(tag) && |tag.interpreter| == 2
  }

  function BoundVersion(tag: Tag): Option<Version> {
    if Binds(tag) && |tag.interpreter| > 2 && AllDigits(tag.interpreter[2..3]) && AllDigits(tag.interpreter[3..])
    then Some((Number(tag.interpreter[2..3]), Number(tag.interpreter[3..])))
    else None
  }

  /** The tags that name a version: `cp`, a digit, a numeral that zeros may precede, and an ABI of CPython's own. */
  lemma {:induction false} BoundVersionIs(tag: Tag, major: nat, zeros: string, minor: nat)
    requires major < 10 && forall i | 0 <= i < |zeros| :: zeros[i] == '0'
    requires tag.interpreter == "cp" + (["0123456789"[major]] + (zeros + Decimal(minor)))
    ensures BoundVersion(tag) == if "cp" <= tag.abi then Some((major, minor)) else None
  {
    var digit := ["0123456789"[major]];
    var numeral := zeros + Decimal(minor);
    NumberOfDecimal(zeros, minor);
    hide Decimal;
    assert IsDigit("0123456789"[major]);
    assert AllDigits(digit) && AllDigits(numeral);
    assert tag.interpreter[2..3] == digit && tag.interpreter[3..] == numeral;
    assert digit[..0] == [] && Number(digit[..0]) == 0;
    assert Number(digit) == major;
  }

  lemma {:induction false} OtherTagsNameNoVersion(tag: Tag)
    requires "cp" <= tag.interpreter && |tag.interpreter| > 3
             ==> exists i | 2 <= i < |tag.interpreter| :: tag.interpreter[i] !in "0123456789"
    ensures BoundVersion(tag) == None
  {
    if "cp" <= tag.interpreter && |tag.interpreter| > 3 {
      var i :| 2 <= i < |tag.interpreter| && tag.interpreter[i] !in "0123456789";
      OnlyDigitsAreDigits(tag.interpreter[i]);
      if i == 2 {
        assert tag.interpreter[2..3][0] == tag.interpreter[i];
      } else {
        assert tag.interpreter[3..][i - 3] == tag.interpreter[i];
      }
    }
  }

  // ------------------------------------------------------------------ what the table says of a distribution

  /** The tags of a distribution's wheels. */
  ghost predicate Carries(wheels: seq<Wheel>, tagsOf: TagsOf, d: string, tag: Tag) {
    exists i | 0 <= i < |wheels| :: CarriedBy(wheels[i], tagsOf, d, tag)
  }

  predicate CarriedBy(wheel: Wheel, tagsOf: TagsOf, d: string, tag: Tag) {
    wheel.distribution == d && tagsOf(wheel.filename).Some? && tag in tagsOf(wheel.filename).value
  }

  type Facts = iset<(string, Tag)>

  ghost function FactsOf(wheels: seq<Wheel>, tagsOf: TagsOf): Facts {
    iset d, tag | Carries(wheels, tagsOf, d, tag) :: (d, tag)
  }

  /** Some wheel of the distribution loads whatever the version. */
  ghost predicate Free(facts: Facts, d: string) {
    exists tag :: (d, tag) in facts && !Binds(tag)
  }

  ghost predicate Offers(facts: Facts, d: string, v: Version) {
    exists tag :: (d, tag) in facts && BoundVersion(tag) == Some(v)
  }

  /** A distribution is free when a wheel of it has a tag whose interpreter or ABI is not CPython's. */
  lemma {:induction false} FreeIff(wheels: seq<Wheel>, tagsOf: TagsOf, d: string)
    ensures Free(FactsOf(wheels, tagsOf), d)
        <==> exists i, tag | 0 <= i < |wheels| && CarriedBy(wheels[i], tagsOf, d, tag) ::
               !("cp" <= tag.interpreter) || !("cp" <= tag.abi)
  {
    hide CarriedBy;
    var facts := FactsOf(wheels, tagsOf);
    if Free(facts, d) {
      var tag :| (d, tag) in facts && !Binds(tag);
      assert Carries(wheels, tagsOf, d, tag);
      var i :| 0 <= i < |wheels| && CarriedBy(wheels[i], tagsOf, d, tag);
      assert !("cp" <= tag.interpreter) || !("cp" <= tag.abi);
    }
    if i, tag :| 0 <= i < |wheels| && CarriedBy(wheels[i], tagsOf, d, tag)
                 && (!("cp" <= tag.interpreter) || !("cp" <= tag.abi)) {
      assert Carries(wheels, tagsOf, d, tag);
      assert (d, tag) in facts && !Binds(tag);
    }
  }

  /** All wheels of the distribution are bound to versions. */
  ghost predicate Constrained(facts: Facts, d: string) {
    (exists v :: Offers(facts, d, v)) && !Free(facts, d)
  }

  /** Every constrained distribution has a wheel for the version. */
  ghost predicate Common(facts: Facts, v: Version) {
    forall d | Constrained(facts, d) :: Offers(facts, d, v)
  }

  datatype Range = AnyVersion | NoVersion | Through(low: Version, high: Version)

  ghost predicate Describes(range: Range, facts: Facts) {
    match range
    case AnyVersion => forall d :: !Constrained(facts, d)
    case NoVersion => (exists d :: Constrained(facts, d)) && forall v :: !Common(facts, v)
    case Through(low, high) =>
      && (exists d :: Constrained(facts, d)) && Common(facts, low) && Common(facts, high)
      && forall v | Common(facts, v) :: VersionLe(low, v) && VersionLe(v, high)
  }

  // ------------------------------------------------------------------ the two loops

  type Bounds = map<string, set<Version>>

  ghost predicate Gathered(free: set<string>, bounds: Bounds, facts: Facts) {
    && (forall d :: d in free <==> Free(facts, d))
    && (forall d :: d in bounds <==> exists v :: Offers(facts, d, v))
    && forall d, v | d in bounds :: v in bounds[d] <==> Offers(facts, d, v)
  }

  lemma {:induction false} NextFact(free: set<string>, bounds: Bounds, facts: Facts, d: string, tag: Tag)
    requires Gathered(free, bounds, facts)
    ensures var after := facts + iset{(d, tag)};
      && (!Binds(tag) ==> Gathered(free + {d}, bounds, after))
      && (BoundVersion(tag).Some? ==>
            Gathered(free, bounds[d := (if d in bounds then bounds[d] else {}) + {BoundVersion(tag).value}], after))
      && (Binds(tag) && BoundVersion(tag).None? ==> Gathered(free, bounds, after))
  {
    var after := facts + iset{(d, tag)};
    assert BoundVersion(tag).Some? ==> Binds(tag);
    FreeGrows(facts, d, tag);
    OffersGrow(facts, d, tag);
    hide Binds, BoundVersion, Free, Offers, Gathered;
    if !Binds(tag) {
      NowFree(free, bounds, facts, after, d);
    }
    match BoundVersion(tag)
    case None => SameBounds(free, bounds, facts, after);
    case Some(v) => NowBound(free, bounds, facts, after, d, v);
  }

  lemma {:induction false} FreeGrows(facts: Facts, d: string, tag: Tag)
    ensures forall e :: Free(facts + iset{(d, tag)}, e) <==> Free(facts, e) || (e == d && !Binds(tag))
  {
    hide Binds;
    assert (d, tag) in facts + iset{(d, tag)};
  }

  lemma {:induction false} OffersGrow(facts: Facts, d: string, tag: Tag)
    ensures forall e, v :: Offers(facts + iset{(d, tag)}, e, v)
              <==> Offers(facts, e, v) || (e == d && BoundVersion(tag) == Some(v))
  {
    hide BoundVersion;
    assert (d, tag) in facts + iset{(d, tag)};
  }

  lemma {:induction false} NowFree(free: set<string>, bounds: Bounds, facts: Facts, after: Facts, d: string)
    requires Gathered(free, bounds, facts)
    requires forall e :: Free(after, e) <==> Free(facts, e) || e == d
    requires forall e, v :: Offers(after, e, v) <==> Offers(facts, e, v)
    ensures Gathered(free + {d}, bounds, after)
  {
    hide Free, Offers;
  }

  lemma {:induction false} SameBounds(free: set<string>, bounds: Bounds, facts: Facts, after: Facts)
    requires Gathered(free, bounds, facts)
    ensures (forall e :: Free(after, e) <==> Free(facts, e))
            && (forall e, v :: Offers(after, e, v) <==> Offers(facts, e, v))
        ==> Gathered(free, bounds, after)
  {
    hide Free, Offers;
  }

  lemma {:induction false} NowBound(free: set<string>, bounds: Bounds, facts: Facts, after: Facts, d: string,
                                  v: Version)
    requires Gathered(free, bounds, facts)
    requires forall e :: Free(after, e) <==> Free(facts, e)
    requires forall e, w :: Offers(after, e, w) <==> Offers(facts, e, w) || (e == d && w == v)
    ensures Gathered(free, bounds[d := (if d in bounds then bounds[d] else {}) + {v}], after)
  {
    hide Free, Offers;
    assert Offers(after, d, v);
  }

  lemma {:induction false} FactsGrow(wheels: seq<Wheel>, wheel: Wheel, tagsOf: TagsOf)
    ensures FactsOf(wheels + [wheel], tagsOf)
         == FactsOf(wheels, tagsOf)
            + (iset tag | CarriedBy(wheel, tagsOf, wheel.distribution, tag) :: (wheel.distribution, tag))
  {
    assert forall d, tag | CarriedBy(wheel, tagsOf, d, tag) :: d == wheel.distribution;
    hide CarriedBy;
    var all := wheels + [wheel];
    assert forall i | 0 <= i < |wheels| :: all[i] == wheels[i];
    assert all[|wheels|] == wheel;
    forall d, tag
      ensures Carries(all, tagsOf, d, tag) <==> Carries(wheels, tagsOf, d, tag) || CarriedBy(wheel, tagsOf, d, tag)
    {
      if CarriedBy(wheel, tagsOf, d, tag) {
        assert CarriedBy(all[|wheels|], tagsOf, d, tag);
      }
      if Carries(wheels, tagsOf, d, tag) {
        var i :| 0 <= i < |wheels| && CarriedBy(wheels[i], tagsOf, d, tag);
        assert CarriedBy(all[i], tagsOf, d, tag);
      }
    }
  }

  ghost function TagFacts(d: string, tags: seq<Tag>): Facts {
    iset tag | tag in tags :: (d, tag)
  }

  lemma {:induction false} TagFactsGrow(d: string, tags: seq<Tag>, tag: Tag)
    ensures TagFacts(d, tags + [tag]) == TagFacts(d, tags) + iset{(d, tag)}
  {
  }

  /** One wheel's tags. */
  method GatherTags(d: string, tags: seq<Tag>, free0: set<string>, bounds0: Bounds, ghost facts: Facts)
    returns (free: set<string>, bounds: Bounds, readable: bool)
    requires Gathered(free0, bounds0, facts)
    ensures readable <==> forall tag | tag in tags :: !Unreadable(tag)
    ensures readable ==> Gathered(free, bounds, facts + TagFacts(d, tags))
  {
    hide Gathered, Binds, AllDigits;
    free, bounds := free0, bounds0;
    assert facts + TagFacts(d, []) == facts;
    for j := 0 to |tags|
      invariant forall k | 0 <= k < j :: !Unreadable(tags[k])
      invariant Gathered(free, bounds, facts + TagFacts(d, tags[..j]))
    {
      var tag := tags[j];
      assert tags[..j + 1] == tags[..j] + [tag];
      TagFactsGrow(d, tags[..j], tag);
      assert facts + TagFacts(d, tags[..j + 1]) == facts + TagFacts(d, tags[..j]) + iset{(d, tag)};
      NextFact(free, bounds, facts + TagFacts(d, tags[..j]), d, tag);
      if !Binds(tag) {
        free := free + {d};
      } else if |tag.interpreter| == 2 {
        assert Unreadable(tag) && tag in tags;
        return free, bounds, false;
      } else {
        match BoundVersion(tag)
        case None =>
        case Some(v) => bounds := bounds[d := (if d in bounds then bounds[d] else {}) + {v}];
      }
    }
    assert tags[..|tags|] == tags;
    readable := true;
  }

  ghost predicate AllReadable(wheels: seq<Wheel>, tagsOf: TagsOf) {
    forall i, tag | 0 <= i < |wheels| && CarriedBy(wheels[i], tagsOf, wheels[i].distribution, tag) :: !Unreadable(tag)
  }

  method Gather(wheels: seq<Wheel>, tagsOf: TagsOf) returns (free: set<string>, bounds: Bounds, readable: bool)
    ensures readable <==> AllReadable(wheels, tagsOf)
    ensures readable ==> Gathered(free, bounds, FactsOf(wheels, tagsOf))
  {
    assert Gathered({}, map[], FactsOf([], tagsOf));
    hide Gathered, Unreadable, FactsOf;
    free, bounds := {}, map[];
    for i := 0 to |wheels|
      invariant AllReadable(wheels[..i], tagsOf)
      invariant Gathered(free, bounds, FactsOf(wheels[..i], tagsOf))
    {
      var wheel := wheels[i];
      assert wheels[..i + 1] == wheels[..i] + [wheel];
      FactsGrow(wheels[..i], wheel, tagsOf);
      match tagsOf(wheel.filename)
      case None =>
        assert FactsOf(wheels[..i + 1], tagsOf) == FactsOf(wheels[..i], tagsOf);
      case Some(tags) =>
        assert FactsOf(wheels[..i + 1], tagsOf) == FactsOf(wheels[..i], tagsOf) + TagFacts(wheel.distribution, tags);
        free, bounds, readable := GatherTags(wheel.distribution, tags, free, bounds, FactsOf(wheels[..i], tagsOf));
        if !readable {
          var tag :| tag in tags && Unreadable(tag);
          assert CarriedBy(wheels[i], tagsOf, wheels[i].distribution, tag);
          return free, bounds, false;
        }
    }
    assert wheels[..|wheels|] == wheels;
    readable := true;
  }

  /** The versions that every constrained distribution visited so far has. */
  ghost predicate CommonSoFar(common: Option<set<Version>>, visited: set<string>, free: set<string>, bounds: Bounds)
    requires visited <= bounds.Keys
  {
    match common
    case None => visited <= free
    case Some(c) =>
      !(visited <= free) && forall v :: v in c <==> forall d | d in visited && d !in free :: v in bounds[d]
  }

  method Intersect(free: set<string>, bounds: Bounds) returns (common: Option<set<Version>>)
    ensures CommonSoFar(common, bounds.Keys, free, bounds)
  {
    common := None;
    var left := bounds.Keys;
    while left != {}
      invariant left <= bounds.Keys
      invariant CommonSoFar(common, bounds.Keys - left, free, bounds)
      decreases |left|
    {
      var d :| d in left;
      ghost var visited := bounds.Keys - left;
      left := left - {d};
      assert bounds.Keys - left == visited + {d};
      if d in free {
        continue;
      }
      common := Some(match common
                     case None => bounds[d]
                     case Some(c) => c * bounds[d]);
    }
    assert bounds.Keys - left == bounds.Keys;
  }

  method Extremes(versions: set<Version>) returns (low: Version, high: Version)
    requires versions != {}
    ensures low in versions && high in versions
    ensures forall v | v in versions :: VersionLe(low, v) && VersionLe(v, high)
  {
    low :| low in versions;
    high := low;
    var left := versions - {low};
    while left != {}
      invariant left <= versions && low in versions && high in versions
      invariant forall v | v in versions && v !in left :: VersionLe(low, v) && VersionLe(v, high)
      decreases |left|
    {
      var v :| v in left;
      left := left - {v};
      if !VersionLe(low, v) {
        low := v;
      }
      if !VersionLe(v, high) {
        high := v;
      }
    }
  }

  /** `_supported_python_range`: the least and the greatest of the versions for which every distribution whose
      wheels are all bound to versions has one. */
  method SupportedPythonRange(wheels: seq<Wheel>, tagsOf: TagsOf) returns (range: Option<Range>)
    ensures range.Some? <==> AllReadable(wheels, tagsOf)
    ensures range.Some? ==> Describes(range.value, FactsOf(wheels, tagsOf))
  {
    hide FactsOf, Free, Offers, AllReadable;
    var free, bounds, readable := Gather(wheels, tagsOf);
    if !readable {
      return None;
    }
    ghost var facts := FactsOf(wheels, tagsOf);
    var common := Intersect(free, bounds);
    CommonMeans(common, free, bounds, facts);
    match common
    case None => return Some(AnyVersion);
    case Some(versions) =>
      if versions == {} {
        return Some(NoVersion);
      }
      var low, high := Extremes(versions);
      return Some(Through(low, high));
  }

  lemma {:induction false} CommonMeans(common: Option<set<Version>>, free: set<string>, bounds: Bounds, facts: Facts)
    requires Gathered(free, bounds, facts) && CommonSoFar(common, bounds.Keys, free, bounds)
    ensures common.None? <==> forall d :: !Constrained(facts, d)
    ensures common.Some? ==> forall v :: v in common.value <==> Common(facts, v)
  {
    hide Free, Offers;
    assert forall d :: Constrained(facts, d) <==> d in bounds && d !in free;
  }

  // ------------------------------------------------------------------ the range and the selector

  /** An interpreter's version: the one all its version-bound tags name. */
  predicate Runs(accepted: seq<Tag>, v: Version) {
    forall i | 0 <= i < |accepted| :: Binds(accepted[i]) ==> BoundVersion(accepted[i]) == Some(v)
  }

  /** An interpreter that the selector serves is never outside the range that its refusal would name. */
  lemma {:induction false} ServedInterpreterIsInRange(wheels: seq<Wheel>, tagsOf: TagsOf, accepted: seq<Tag>,
                                                      v: Version, range: Range)
    requires Runs(accepted, v) && Describes(range, FactsOf(wheels, tagsOf))
    requires forall i | 0 <= i < |wheels| :: Loadable(wheels, tagsOf, RanksOf(accepted), wheels[i].distribution)
    ensures match range
      case AnyVersion => true
      case NoVersion => false
      case Through(low, high) =>
        && (low.0 < v.0 || (low.0 == v.0 && low.1 <= v.1))
        && (v.0 < high.0 || (v.0 == high.0 && v.1 <= high.1))
  {
    var facts := FactsOf(wheels, tagsOf);
    hide Describes, FactsOf, Loadable, Offers, Free, Binds, BoundVersion;
    forall d | Constrained(facts, d)
      ensures Offers(facts, d, v)
    {
      ConstrainedHasWheel(wheels, tagsOf, d);
      LoadableOffers(wheels, tagsOf, accepted, d, v);
    }
    assert Common(facts, v);
    DescribedRangeHolds(range, facts, v);
  }

  lemma {:induction false} DescribedRangeHolds(range: Range, facts: Facts, v: Version)
    requires Describes(range, facts) && Common(facts, v)
    ensures range.AnyVersion? || (range.Through? && VersionLe(range.low, v) && VersionLe(v, range.high))
  {
    hide Common, Constrained;
  }

  lemma {:induction false} ConstrainedHasWheel(wheels: seq<Wheel>, tagsOf: TagsOf, d: string)
    requires Constrained(FactsOf(wheels, tagsOf), d)
    ensures exists i | 0 <= i < |wheels| :: wheels[i].distribution == d
  {
    var facts := FactsOf(wheels, tagsOf);
    var v :| Offers(facts, d, v);
    var tag :| (d, tag) in facts && BoundVersion(tag) == Some(v);
    assert Carries(wheels, tagsOf, d, tag);
  }

  lemma {:induction false} LoadableOffers(wheels: seq<Wheel>, tagsOf: TagsOf, accepted: seq<Tag>, d: string, v: Version)
    requires Runs(accepted, v) && Loadable(wheels, tagsOf, RanksOf(accepted), d)
    ensures Free(FactsOf(wheels, tagsOf), d) || Offers(FactsOf(wheels, tagsOf), d, v)
  {
    hide Binds, BoundVersion, RanksOf;
    var order := RanksOf(accepted);
    var i :| 0 <= i < |wheels| && wheels[i].distribution == d && Rank(wheels[i], tagsOf, order).Some?;
    var tags := tagsOf(wheels[i].filename).value;
    var k :| 0 <= k < |tags| && tags[k] in order;
    var tag := tags[k];
    assert tag in accepted;
    assert CarriedBy(wheels[i], tagsOf, d, tag);
    assert (d, tag) in FactsOf(wheels, tagsOf);
    assert Binds(tag) ==> BoundVersion(tag) == Some(v);
  }
}
