/** The pin table of packaging/generate_voice_pins.py: which wheels it keeps, which of them an
    interpreter selects, and the digest that identifies the table. */
module WheelSelection {
  import opened Outcomes
  import opened Text
  import opened LockGraph
  import Ordering

  /** A compatibility tag: interpreter, ABI, platform (PEP 425). */
  datatype Tag = Tag(interpreter: string, abi: string, platform: string)

  /** One row of the table. */
  datatype Wheel = Wheel(distribution: string, version: string, filename: string, url: string,
                         sha256: string, size: nat)

  /** The tags a wheel's file name declares, if the name can be parsed (PEP 427). */
  type TagsOf = string -> Option<seq<Tag>>

  // ------------------------------------------------------------------ the supported-platform filter

  const KEPT_PLATFORM_PREFIXES: seq<string> := ["any", "win_amd64", "win_arm64", "manylinux", "macosx"]
  const KEPT_PLATFORM_SUFFIXES: seq<string> := ["x86_64", "aarch64", "arm64", "universal2", "amd64", "any"]
  const MIN_MINOR: nat := 12
  const MAX_MINOR: nat := 14

  predicate StartsWith(s: string, prefix: string) { prefix <= s }

  predicate EndsWith(s: string, suffix: string) {
    |suffix| <= |s| && s[|s| - |suffix|..] == suffix
  }

  predicate KeepsPlatform(platform: string) {
    && (exists i | 0 <= i < |KEPT_PLATFORM_PREFIXES| :: StartsWith(platform, KEPT_PLATFORM_PREFIXES[i]))
    && (exists i | 0 <= i < |KEPT_PLATFORM_SUFFIXES| :: EndsWith(platform, KEPT_PLATFORM_SUFFIXES[i]))
  }

  predicate AllDigits(s: string) {
    s != [] && forall i | 0 <= i < |s| :: IsDigit(s[i])
  }

  function DigitValue(c: char): nat
    requires IsDigit(c)
  {
    c as int - '0' as int
  }

  /** `int(s)`, for a string of digits. */
  function Number(s: string): nat
    requires forall i | 0 <= i < |s| :: IsDigit(s[i])
  {
    if s == [] then 0 else Number(s[..|s| - 1]) * 10 + DigitValue(s[|s| - 1])
  }

  predicate KeepsInterpreter(interpreter: string, abi: string) {
    if StartsWith(interpreter, "py") then true
    else if !StartsWith(interpreter, "cp") then false
    else
      var digits := interpreter[2..];
      if !AllDigits(digits) then false
      else
        var minor := if |digits| > 1 then Number(digits[1..]) else 0;
        if abi == "abi3" then minor <= MAX_MINOR
        else if EndsWith(digits, "t") then false
        else MIN_MINOR <= minor <= MAX_MINOR
  }

  predicate KeepsTag(tag: Tag) {
    KeepsPlatform(tag.platform) && KeepsInterpreter(tag.interpreter, tag.abi)
  }

  predicate Keeps(filename: string, tagsOf: TagsOf) {
    var tags := tagsOf(filename);
    tags.Some? && exists i | 0 <= i < |tags.value| :: KeepsTag(tags.value[i])
  }

  /** The filter looks at the ABI only to recognize `abi3`: its test for a free-threaded build is on the
      interpreter, behind a test that every digit is one, and never decides. So `cp313-cp313t` is kept
      exactly when `cp313-cp313` is. */
  lemma {:induction false} FreeThreadingIsNotFiltered(interpreter: string, abi: string, abi': string)
    requires abi != "abi3" && abi' != "abi3"
    ensures KeepsInterpreter(interpreter, abi) <==> KeepsInterpreter(interpreter, abi')
    ensures StartsWith(interpreter, "cp") && AllDigits(interpreter[2..]) ==> !EndsWith(interpreter[2..], "t")
  {
    if StartsWith(interpreter, "cp") && AllDigits(interpreter[2..]) {
      var digits := interpreter[2..];
      assert digits[|digits| - 1..] == [digits[|digits| - 1]];
      assert IsDigit(digits[|digits| - 1]);
      assert "t"[0] == 't' && !IsDigit('t');
    }
  }

  lemma {:induction false} NumberOfConcat(zeros: string, s: string)
    requires forall i | 0 <= i < |zeros| :: zeros[i] == '0'
    requires forall i | 0 <= i < |s| :: IsDigit(s[i])
    ensures Number(zeros + s) == Number(s)
  {
    if s != [] {
      assert (zeros + s)[..|zeros + s| - 1] == zeros + s[..|s| - 1];
      NumberOfConcat(zeros, s[..|s| - 1]);
    } else if zeros != [] {
      assert zeros + s == zeros;
      NumberOfConcat(zeros[..|zeros| - 1], []);
      assert zeros[..|zeros| - 1] + [] == zeros[..|zeros| - 1];
    }
  }

  lemma {:induction false} NumberOfNumeral(n: nat)
    ensures Number(Decimal(n)) == n
  {
    if n < 10 {
      assert Decimal(n) == [Digit(n)] && Decimal(n)[..0] == [];
    } else {
      NumberOfNumeral(n / 10);
      assert Decimal(n)[..|Decimal(n)| - 1] == Decimal(n / 10);
    }
  }

  /** Reading a numeral back gives its number, whatever zeros stand before it. */
  lemma {:induction false} NumberOfDecimal(zeros: string, n: nat)
    requires forall i | 0 <= i < |zeros| :: zeros[i] == '0'
    ensures Number(zeros + Decimal(n)) == n
  {
    hide Number, Decimal;
    NumberOfConcat(zeros, Decimal(n));
    NumberOfNumeral(n);
  }

  lemma {:induction false} KeptByMinor(digits: string, abi: string)
    requires AllDigits(digits)
    ensures var minor := if |digits| > 1 then Number(digits[1..]) else 0;
      KeepsInterpreter("cp" + digits, abi) <==> minor <= 14 && (abi == "abi3" || 12 <= minor)
  {
    hide Number;
    var interpreter := "cp" + digits;
    assert interpreter[0] == 'c' && "py"[0] == 'p' && interpreter[..2] == "cp";
    assert interpreter[2..] == digits;
    assert IsDigit(digits[|digits| - 1]) && "t"[0] == 't';
    assert digits[|digits| - 1..][0] == digits[|digits| - 1];
  }

  /** Of the interpreters, `py` and anything after it is kept, and so is CPython 3.12 to 3.14, and with the stable ABI
      any minor version up to 14; the numeral may have zeros before it. */
  lemma {:induction false} KeptInterpreters(rest: string, major: nat, zeros: string, minor: nat, abi: string)
    requires major < 10 && forall i | 0 <= i < |zeros| :: zeros[i] == '0'
    ensures KeepsInterpreter("py" + rest, abi)
    ensures KeepsInterpreter("cp" + ["0123456789"[major]], abi) <==> abi == "abi3"
    ensures KeepsInterpreter("cp" + (["0123456789"[major]] + (zeros + Decimal(minor))), abi)
        <==> minor <= 14 && (abi == "abi3" || 12 <= minor)
  {
    hide Number, Decimal;
    assert StartsWith("py" + rest, "py");
    var digit := ["0123456789"[major]];
    var numeral := zeros + Decimal(minor);
    NumberOfDecimal(zeros, minor);
    assert IsDigit("0123456789"[major]);
    assert AllDigits(digit) && AllDigits(digit + numeral);
    assert (digit + numeral)[1..] == numeral;
    hide KeepsInterpreter;
    KeptByMinor(digit, abi);
    KeptByMinor(digit + numeral, abi);
  }

  /** No other interpreter is kept. */
  lemma {:induction false} OtherInterpretersAreDropped(interpreter: string, abi: string)
    requires !("py" <= interpreter)
    requires "cp" <= interpreter && |interpreter| > 2
             ==> exists i | 2 <= i < |interpreter| :: interpreter[i] !in "0123456789"
    ensures !KeepsInterpreter(interpreter, abi)
  {
    if "cp" <= interpreter && |interpreter| > 2 {
      var i :| 2 <= i < |interpreter| && interpreter[i] !in "0123456789";
      assert interpreter[2..][i - 2] == interpreter[i];
      OnlyDigitsAreDigits(interpreter[i]);
    }
  }

  /** A wheel is kept exactly when its name can be parsed and one of its tags has a kept interpreter and a platform
      that begins and ends in one of these ways. */
  lemma {:induction false} KeepsIff(filename: string, tagsOf: TagsOf)
    ensures Keeps(filename, tagsOf)
        <==> tagsOf(filename).Some? && exists tag | tag in tagsOf(filename).value ::
               && (exists prefix | prefix in ["any", "win_amd64", "win_arm64", "manylinux", "macosx"] ::
                     prefix <= tag.platform)
               && (exists suffix | suffix in ["x86_64", "aarch64", "arm64", "universal2", "amd64", "any"] ::
                     |suffix| <= |tag.platform| && tag.platform[|tag.platform| - |suffix|..] == suffix)
               && KeepsInterpreter(tag.interpreter, tag.abi)
  {
    hide KeepsInterpreter;
    var prefixes := ["any", "win_amd64", "win_arm64", "manylinux", "macosx"];
    var suffixes := ["x86_64", "aarch64", "arm64", "universal2", "amd64", "any"];
    forall platform: string
      ensures KeepsPlatform(platform)
          <==> (exists prefix | prefix in prefixes :: prefix <= platform)
               && exists suffix | suffix in suffixes :: EndsWith(platform, suffix)
    {
      PlatformsByMembership(platform, prefixes, suffixes);
    }
    if tagsOf(filename).Some? {
      var tags := tagsOf(filename).value;
      assert forall i | 0 <= i < |tags| :: tags[i] in tags;
    }
  }

  lemma {:induction false} PlatformsByMembership(platform: string, prefixes: seq<string>, suffixes: seq<string>)
    requires prefixes == KEPT_PLATFORM_PREFIXES && suffixes == KEPT_PLATFORM_SUFFIXES
    ensures KeepsPlatform(platform)
        <==> (exists prefix | prefix in prefixes :: prefix <= platform)
             && exists suffix | suffix in suffixes :: EndsWith(platform, suffix)
  {
    assert forall i | 0 <= i < |prefixes| :: prefixes[i] in prefixes;
    assert forall i | 0 <= i < |suffixes| :: suffixes[i] in suffixes;
  }

  /** The plain Linux platform, which Linux interpreters accept, is not kept; neither is any musl one. */
  lemma {:induction false} OnlyManylinuxIsKept(platform: string)
    requires StartsWith(platform, "linux_") || StartsWith(platform, "musllinux")
    ensures !KeepsPlatform(platform)
  {
    assert "linux_"[..2] == "li" && "musllinux"[..2] == "mu";
    assert platform[..2] == "li" || platform[..2] == "mu";
    PrefixesAgree(platform, "any");
    PrefixesAgree(platform, "win_amd64");
    PrefixesAgree(platform, "win_arm64");
    PrefixesAgree(platform, "manylinux");
    PrefixesAgree(platform, "macosx");
  }

  lemma {:induction false} PrefixesAgree(s: string, prefix: string)
    requires |s| >= 2 && |prefix| >= 2
    ensures StartsWith(s, prefix) ==> s[0] == prefix[0] && s[1] == prefix[1]
  {
  }

  // ------------------------------------------------------------------ selection

  /** An interpreter's accepted tags, best first; a tag listed twice keeps its last place. */
  type Ranks = map<Tag, nat>

  function RanksOf(accepted: seq<Tag>): (order: Ranks)
    ensures forall tag :: tag in order <==> tag in accepted
  {
    if accepted == [] then map[]
    else RanksOf(accepted[..|accepted| - 1])[accepted[|accepted| - 1] := |accepted| - 1]
  }

  /** The best rank among a wheel's tags. */
  function BestRank(tags: seq<Tag>, order: Ranks): (r: Option<nat>)
    ensures r.None? <==> forall i | 0 <= i < |tags| :: tags[i] !in order
    ensures r.Some? ==> exists i | 0 <= i < |tags| && tags[i] in order :: order[tags[i]] == r.value
    ensures r.Some? ==> forall i | 0 <= i < |tags| && tags[i] in order :: r.value <= order[tags[i]]
  {
    if tags == [] then None
    else
      var rest := BestRank(tags[..|tags| - 1], order);
      var last := tags[|tags| - 1];
      if last !in order then rest
      else if rest.None? || order[last] < rest.value then Some(order[last])
      else rest
  }

  function Rank(wheel: Wheel, tagsOf: TagsOf, order: Ranks): Option<nat> {
    var tags := tagsOf(wheel.filename);
    if tags.None? then None else BestRank(tags.value, order)
  }

  /** The wheel selected for a distribution: of the loadable ones, the least ranked, and of those the
      first in the table. */
  ghost predicate Selects(wheels: seq<Wheel>, tagsOf: TagsOf, order: Ranks, distribution: string, wheel: Wheel) {
    exists i | 0 <= i < |wheels| :: wheels[i] == wheel && SelectedAt(wheels, tagsOf, order, distribution, i)
  }

  ghost predicate SelectedAt(wheels: seq<Wheel>, tagsOf: TagsOf, order: Ranks, distribution: string, i: nat)
    requires i < |wheels|
  {
    && wheels[i].distribution == distribution && Rank(wheels[i], tagsOf, order).Some?
    && (forall j | 0 <= j < |wheels| && wheels[j].distribution == distribution
                  && Rank(wheels[j], tagsOf, order).Some? ::
          && Rank(wheels[i], tagsOf, order).value <= Rank(wheels[j], tagsOf, order).value
          && (j < i ==> Rank(wheels[i], tagsOf, order).value < Rank(wheels[j], tagsOf, order).value))
  }

  ghost predicate Loadable(wheels: seq<Wheel>, tagsOf: TagsOf, order: Ranks, distribution: string) {
    exists i | 0 <= i < |wheels| :: wheels[i].distribution == distribution && Rank(wheels[i], tagsOf, order).Some?
  }

  /** There is at most one selection, and there is one exactly when some wheel loads. */
  lemma {:induction false} SelectionIsUnique(wheels: seq<Wheel>, tagsOf: TagsOf, order: Ranks, d: string, w: Wheel,
                                             w': Wheel)
    requires Selects(wheels, tagsOf, order, d, w) && Selects(wheels, tagsOf, order, d, w')
    ensures w == w'
  {
    hide Rank;
    var i :| 0 <= i < |wheels| && wheels[i] == w && SelectedAt(wheels, tagsOf, order, d, i);
    var j :| 0 <= j < |wheels| && wheels[j] == w' && SelectedAt(wheels, tagsOf, order, d, j);
    assert i == j;
  }

  /** Where an interpreter that accepts these tags, best first, ranks one of them. */
  ghost predicate LastPlace(accepted: seq<Tag>, tag: Tag, k: nat) {
    k < |accepted| && accepted[k] == tag && forall j | k < j < |accepted| :: accepted[j] != tag
  }

  /** The best place of a wheel: that of one of its tags, none of which has a better. */
  ghost predicate BestPlace(wheel: Wheel, tagsOf: TagsOf, accepted: seq<Tag>, k: nat) {
    var tags := tagsOf(wheel.filename);
    && tags.Some?
    && (exists i | 0 <= i < |tags.value| :: LastPlace(accepted, tags.value[i], k))
    && forall i, j: nat | 0 <= i < |tags.value| && LastPlace(accepted, tags.value[i], j) :: k <= j
  }

  lemma {:induction false} LastPlaceGrows(init: seq<Tag>, last: Tag, tag: Tag, k: nat)
    ensures LastPlace(init + [last], tag, k)
        <==> if tag == last then k == |init| else LastPlace(init, tag, k)
  {
    var all := init + [last];
    assert all[|init|] == last && forall i | 0 <= i < |init| :: all[i] == init[i];
  }

  lemma {:induction false} RanksArePlaces(accepted: seq<Tag>, tag: Tag, k: nat)
    ensures tag in RanksOf(accepted) && RanksOf(accepted)[tag] == k <==> LastPlace(accepted, tag, k)
  {
    if accepted == [] {
      assert tag !in accepted;
    } else {
      hide LastPlace;
      var init, last := accepted[..|accepted| - 1], accepted[|accepted| - 1];
      RanksArePlaces(init, tag, k);
      assert accepted == init + [last];
      LastPlaceGrows(init, last, tag, k);
    }
  }

  lemma {:induction false} RankIsBestPlace(wheel: Wheel, tagsOf: TagsOf, accepted: seq<Tag>, k: nat)
    ensures Rank(wheel, tagsOf, RanksOf(accepted)) == Some(k) <==> BestPlace(wheel, tagsOf, accepted, k)
  {
    hide RanksOf, LastPlace;
    var tags, order := tagsOf(wheel.filename), RanksOf(accepted);
    if tags.Some? {
      var r := BestRank(tags.value, order);
      forall i, j: nat | 0 <= i < |tags.value|
        ensures LastPlace(accepted, tags.value[i], j) <==> tags.value[i] in order && order[tags.value[i]] == j
      {
        RanksArePlaces(accepted, tags.value[i], j);
      }
      if r.Some? {
        var i :| 0 <= i < |tags.value| && tags.value[i] in order && order[tags.value[i]] == r.value;
        assert LastPlace(accepted, tags.value[i], r.value);
        assert BestPlace(wheel, tagsOf, accepted, r.value);
      }
    }
  }

  /** Row `i` of a distribution has place `k`, no row of the distribution has a better one, and none before it as
      good. */
  ghost predicate FirstBest(wheels: seq<Wheel>, tagsOf: TagsOf, accepted: seq<Tag>, d: string, i: nat, k: nat) {
    && i < |wheels| && wheels[i].distribution == d && BestPlace(wheels[i], tagsOf, accepted, k)
    && forall j: nat, m: nat | j < |wheels| && wheels[j].distribution == d && BestPlace(wheels[j], tagsOf, accepted, m)
         :: if j < i then k < m else k <= m
  }

  /** What an interpreter that accepts these tags selects for a distribution, in terms of their places. */
  lemma {:induction false} SelectsIff(wheels: seq<Wheel>, tagsOf: TagsOf, accepted: seq<Tag>, d: string, w: Wheel)
    ensures Selects(wheels, tagsOf, RanksOf(accepted), d, w)
        <==> exists i: nat, k: nat | FirstBest(wheels, tagsOf, accepted, d, i, k) :: wheels[i] == w
  {
    hide Rank, RanksOf, BestPlace, FirstBest, SelectedAt;
    forall i: nat, k: nat
      ensures FirstBest(wheels, tagsOf, accepted, d, i, k)
          <==> i < |wheels| && SelectedAt(wheels, tagsOf, RanksOf(accepted), d, i)
               && Rank(wheels[i], tagsOf, RanksOf(accepted)) == Some(k)
    {
      SelectedIsFirstBest(wheels, tagsOf, accepted, d, i, k);
    }
    if Selects(wheels, tagsOf, RanksOf(accepted), d, w) {
      var i: nat :| i < |wheels| && wheels[i] == w && SelectedAt(wheels, tagsOf, RanksOf(accepted), d, i);
      SelectedLoads(wheels, tagsOf, RanksOf(accepted), d, i);
      assert FirstBest(wheels, tagsOf, accepted, d, i, Rank(wheels[i], tagsOf, RanksOf(accepted)).value);
    }
  }

  lemma {:induction false} SelectedLoads(wheels: seq<Wheel>, tagsOf: TagsOf, order: Ranks, d: string, i: nat)
    requires i < |wheels| && SelectedAt(wheels, tagsOf, order, d, i)
    ensures Rank(wheels[i], tagsOf, order).Some?
  {
    hide Rank;
  }

  lemma {:induction false} SelectedIsFirstBest(wheels: seq<Wheel>, tagsOf: TagsOf, accepted: seq<Tag>, d: string,
                                               i: nat, k: nat)
    ensures FirstBest(wheels, tagsOf, accepted, d, i, k)
        <==> i < |wheels| && SelectedAt(wheels, tagsOf, RanksOf(accepted), d, i)
             && Rank(wheels[i], tagsOf, RanksOf(accepted)) == Some(k)
  {
    hide Rank, RanksOf, BestPlace;
    forall j: nat, m: nat | j < |wheels|
      ensures BestPlace(wheels[j], tagsOf, accepted, m) <==> Rank(wheels[j], tagsOf, RanksOf(accepted)) == Some(m)
    {
      RankIsBestPlace(wheels[j], tagsOf, accepted, m);
    }
    if FirstBest(wheels, tagsOf, accepted, d, i, k) {
      assert Rank(wheels[i], tagsOf, RanksOf(accepted)) == Some(k);
      forall j | 0 <= j < |wheels| && wheels[j].distribution == d && Rank(wheels[j], tagsOf, RanksOf(accepted)).Some?
        ensures k <= Rank(wheels[j], tagsOf, RanksOf(accepted)).value
        ensures j < i ==> k < Rank(wheels[j], tagsOf, RanksOf(accepted)).value
      {
        assert BestPlace(wheels[j], tagsOf, accepted, Rank(wheels[j], tagsOf, RanksOf(accepted)).value);
      }
      assert SelectedAt(wheels, tagsOf, RanksOf(accepted), d, i);
    }
    if i < |wheels| && SelectedAt(wheels, tagsOf, RanksOf(accepted), d, i)
       && Rank(wheels[i], tagsOf, RanksOf(accepted)) == Some(k) {
      assert BestPlace(wheels[i], tagsOf, accepted, k);
      forall j: nat, m: nat | j < |wheels| && wheels[j].distribution == d && BestPlace(wheels[j], tagsOf, accepted, m)
        ensures if j < i then k < m else k <= m
      {
        assert Rank(wheels[j], tagsOf, RanksOf(accepted)) == Some(m);
      }
      assert FirstBest(wheels, tagsOf, accepted, d, i, k);
    }
  }

  function ByFilename(a: Wheel, b: Wheel): bool {
    Ordering.StringLe(a.filename, b.filename)
  }

  function Values(best: map<string, (nat, Wheel)>, keys: seq<string>): seq<Wheel>
    requires forall i | 0 <= i < |keys| :: keys[i] in best
  {
    seq(|keys|, i requires 0 <= i < |keys| => best[keys[i]].1)
  }

  /** What the table `best` holds after the first `n` rows. */
  ghost predicate BestSoFar(best: map<string, (nat, Wheel)>, wheels: seq<Wheel>, tagsOf: TagsOf, order: Ranks) {
    && (forall d :: d in best <==> Loadable(wheels, tagsOf, order, d))
    && (forall d | d in best :: Selects(wheels, tagsOf, order, d, best[d].1)
                                && Rank(best[d].1, tagsOf, order) == Some(best[d].0))
  }

  lemma {:induction false} LoadableGrows(wheels: seq<Wheel>, wheel: Wheel, tagsOf: TagsOf, order: Ranks, e: string)
    ensures Loadable(wheels + [wheel], tagsOf, order, e)
        <==> Loadable(wheels, tagsOf, order, e) || (e == wheel.distribution && Rank(wheel, tagsOf, order).Some?)
  {
    hide Rank;
    var all := wheels + [wheel];
    assert all[|wheels|] == wheel && forall i | 0 <= i < |wheels| :: all[i] == wheels[i];
  }

  lemma {:induction false} NextRow(best: map<string, (nat, Wheel)>, wheels: seq<Wheel>, wheel: Wheel, tagsOf: TagsOf,
                                   order: Ranks)
    requires BestSoFar(best, wheels, tagsOf, order)
    ensures var rank := Rank(wheel, tagsOf, order);
            var d := wheel.distribution;
            BestSoFar(if rank.Some? && (d !in best || rank.value < best[d].0) then best[d := (rank.value, wheel)]
                      else best,
                      wheels + [wheel], tagsOf, order)
  {
    hide Rank, Loadable, Selects;
    var rank, d := Rank(wheel, tagsOf, order), wheel.distribution;
    var all := wheels + [wheel];
    var taken := rank.Some? && (d !in best || rank.value < best[d].0);
    var next := if taken then best[d := (rank.value, wheel)] else best;
    forall e
      ensures Loadable(all, tagsOf, order, e) <==> Loadable(wheels, tagsOf, order, e) || (e == d && rank.Some?)
    {
      LoadableGrows(wheels, wheel, tagsOf, order, e);
    }
    forall e | e in next
      ensures Selects(all, tagsOf, order, e, next[e].1)
    {
      if taken && e == d {
        NewSelection(best, wheels, wheel, tagsOf, order);
      } else {
        OldSelection(best, wheels, wheel, tagsOf, order, e);
      }
    }
  }

  lemma {:induction false} NewSelection(best: map<string, (nat, Wheel)>, wheels: seq<Wheel>, wheel: Wheel,
                                        tagsOf: TagsOf, order: Ranks)
    requires BestSoFar(best, wheels, tagsOf, order) && Rank(wheel, tagsOf, order).Some?
    requires var d := wheel.distribution; d !in best || Rank(wheel, tagsOf, order).value < best[d].0
    ensures Selects(wheels + [wheel], tagsOf, order, wheel.distribution, wheel)
  {
    hide Rank;
    var all, d := wheels + [wheel], wheel.distribution;
    forall j | 0 <= j < |wheels| && wheels[j].distribution == d && Rank(wheels[j], tagsOf, order).Some?
      ensures Rank(wheel, tagsOf, order).value < Rank(wheels[j], tagsOf, order).value
    {
      assert Loadable(wheels, tagsOf, order, d);
      var i :| 0 <= i < |wheels| && wheels[i] == best[d].1 && SelectedAt(wheels, tagsOf, order, d, i);
    }
    assert all[|wheels|] == wheel && SelectedAt(all, tagsOf, order, d, |wheels|);
  }

  lemma {:induction false} OldSelection(best: map<string, (nat, Wheel)>, wheels: seq<Wheel>, wheel: Wheel,
                                        tagsOf: TagsOf,
                                        order: Ranks, e: string)
    requires BestSoFar(best, wheels, tagsOf, order) && e in best
    requires var rank := Rank(wheel, tagsOf, order); wheel.distribution == e && rank.Some? ==> rank.value >= best[e].0
    ensures Selects(wheels + [wheel], tagsOf, order, e, best[e].1)
  {
    hide Rank;
    var all := wheels + [wheel];
    var i :| 0 <= i < |wheels| && wheels[i] == best[e].1 && SelectedAt(wheels, tagsOf, order, e, i);
    assert forall j | 0 <= j < |wheels| :: all[j] == wheels[j];
    assert SelectedAt(all, tagsOf, order, e, i);
  }

  predicate OnePerDistribution(wheels: seq<Wheel>) {
    forall i, j | 0 <= i < j < |wheels| :: wheels[i].distribution != wheels[j].distribution
  }

  /** `wheels_for_this_interpreter`: refused, naming them, exactly when some distribution has no wheel this
      interpreter loads; otherwise the selection of every distribution in the table, once, by file name. */
  method WheelsForThisInterpreter(wheels: seq<Wheel>, distributions: set<string>, accepted: seq<Tag>, tagsOf: TagsOf)
    returns (r: Result<seq<Wheel>, set<string>>)
    ensures r.Err? <==> exists d | d in distributions :: !Loadable(wheels, tagsOf, RanksOf(accepted), d)
    ensures r.Err? ==> forall d
              :: d in r.error <==> (d in distributions && !Loadable(wheels, tagsOf, RanksOf(accepted), d))
    ensures r.Ok? ==> forall w :: w in r.value <==> Selects(wheels, tagsOf, RanksOf(accepted), w.distribution, w)
    ensures r.Ok? ==> forall i, j | 0 <= i < j < |r.value|
              :: && Ordering.StringLe(r.value[i].filename, r.value[j].filename)
                 && r.value[i].distribution != r.value[j].distribution
  {
    assert BestSoFar(map[], [], tagsOf, RanksOf(accepted));
    hide Rank, RanksOf, Loadable, Selects, Ordering.Sort, Ordering.StringLe, BestSoFar;
    var order := RanksOf(accepted);
    var best: map<string, (nat, Wheel)> := map[];
    for i := 0 to |wheels|
      invariant BestSoFar(best, wheels[..i], tagsOf, order)
    {
      var wheel := wheels[i];
      assert wheels[..i + 1] == wheels[..i] + [wheel];
      NextRow(best, wheels[..i], wheel, tagsOf, order);
      var rank := Rank(wheel, tagsOf, order);
      if rank.None? {
        continue;
      }
      if wheel.distribution !in best || rank.value < best[wheel.distribution].0 {
        best := best[wheel.distribution := (rank.value, wheel)];
      }
    }
    assert wheels[..|wheels|] == wheels;
    BestMeans(best, wheels, tagsOf, order);
    var missing := set d | d in distributions && d !in best;
    if missing != {} {
      assert exists d :: d in missing;
      return Err(missing);
    }
    assert forall d | d in distributions :: d !in missing;
    var sorted := SortedChoice(best);
    r := Ok(sorted);
  }

  lemma {:induction false} BestMeans(best: map<string, (nat, Wheel)>, wheels: seq<Wheel>, tagsOf: TagsOf, order: Ranks)
    requires BestSoFar(best, wheels, tagsOf, order)
    ensures forall d :: d in best <==> Loadable(wheels, tagsOf, order, d)
    ensures forall w: Wheel :: (w.distribution in best && best[w.distribution].1 == w)
                           <==> Selects(wheels, tagsOf, order, w.distribution, w)
    ensures forall d | d in best :: best[d].1.distribution == d
  {
    hide Rank;
    forall d | d in best
      ensures best[d].1.distribution == d
    {
      assert Selects(wheels, tagsOf, order, d, best[d].1);
    }
    forall w: Wheel | Selects(wheels, tagsOf, order, w.distribution, w)
      ensures w.distribution in best && best[w.distribution].1 == w
    {
      assert Loadable(wheels, tagsOf, order, w.distribution);
      SelectionIsUnique(wheels, tagsOf, order, w.distribution, w, best[w.distribution].1);
    }
  }

  lemma {:induction false} ByFilenameIsPreorder()
    ensures Ordering.TotalPreorder(ByFilename)
  {
    Ordering.StringLeIsPreorder();
  }

  /** The wheels of the table `best`. */
  method ChosenOf(best: map<string, (nat, Wheel)>) returns (chosen: seq<Wheel>)
    requires forall d | d in best :: best[d].1.distribution == d
    ensures forall w :: w in chosen <==> (w.distribution in best && best[w.distribution].1 == w)
    ensures OnePerDistribution(chosen)
  {
    chosen := [];
    var rest := best.Keys;
    while rest != {}
      invariant rest <= best.Keys && OnePerDistribution(chosen)
      invariant forall w
                :: w in chosen <==> (w.distribution in best && w.distribution !in rest && best[w.distribution].1 == w)
      decreases |rest|
    {
      var d :| d in rest;
      assert forall i | 0 <= i < |chosen| :: chosen[i] in chosen;
      chosen, rest := chosen + [best[d].1], rest - {d};
    }
  }

  method SortedChoice(best: map<string, (nat, Wheel)>) returns (sorted: seq<Wheel>)
    requires forall d | d in best :: best[d].1.distribution == d
    ensures forall w :: w in sorted <==> (w.distribution in best && best[w.distribution].1 == w)
    ensures Ordering.SortedBy(sorted, ByFilename) && OnePerDistribution(sorted)
  {
    hide Ordering.Sort, Ordering.StringLe;
    var chosen := ChosenOf(best);
    sorted := Ordering.Sort(chosen, ByFilename);
    ByFilenameIsPreorder();
    Ordering.SortSorts(chosen, ByFilename);
    Ordering.SortKeepsDistinct(chosen, ByFilename);
    forall i, j | 0 <= i < j < |sorted|
      ensures sorted[i].distribution != sorted[j].distribution
    {
      assert sorted[i] in sorted && sorted[j] in sorted && sorted[i] != sorted[j];
    }
  }

  // ------------------------------------------------------------------ filtering and selecting

  /** The rows the filter keeps. */
  function Kept(wheels: seq<Wheel>, tagsOf: TagsOf): seq<Wheel> {
    if wheels == [] then []
    else Kept(wheels[..|wheels| - 1], tagsOf)
         + if Keeps(wheels[|wheels| - 1].filename, tagsOf) then [wheels[|wheels| - 1]] else []
  }

  /** Where a kept row comes from, in order. */
  ghost function Origins(wheels: seq<Wheel>, tagsOf: TagsOf): seq<nat> {
    if wheels == [] then []
    else Origins(wheels[..|wheels| - 1], tagsOf)
         + if Keeps(wheels[|wheels| - 1].filename, tagsOf) then [|wheels| - 1] else []
  }

  ghost predicate AreOrigins(wheels: seq<Wheel>, tagsOf: TagsOf, kept: seq<Wheel>, from: seq<nat>) {
    && |from| == |kept|
    && (forall k | 0 <= k < |kept| :: from[k] < |wheels| && wheels[from[k]] == kept[k]
                                      && Keeps(kept[k].filename, tagsOf))
    && (forall j, k | 0 <= j < k < |kept| :: from[j] < from[k])
    && (forall i | 0 <= i < |wheels| && Keeps(wheels[i].filename, tagsOf) :: i in from)
  }

  lemma {:induction false} OriginsGrow(wheels: seq<Wheel>, last: Wheel, tagsOf: TagsOf, kept: seq<Wheel>,
                                       from: seq<nat>)
    requires AreOrigins(wheels, tagsOf, kept, from)
    ensures Keeps(last.filename, tagsOf) ==> AreOrigins(wheels + [last], tagsOf, kept + [last], from + [|wheels|])
    ensures !Keeps(last.filename, tagsOf) ==> AreOrigins(wheels + [last], tagsOf, kept + [], from + [])
  {
    hide Keeps;
    var all := wheels + [last];
    assert forall i | 0 <= i < |wheels| :: all[i] == wheels[i];
    assert kept + [] == kept && from + [] == from;
    assert forall i | i in from :: i in from + [|wheels|];
  }

  lemma {:induction false} OriginsOfKept(wheels: seq<Wheel>, tagsOf: TagsOf)
    ensures AreOrigins(wheels, tagsOf, Kept(wheels, tagsOf), Origins(wheels, tagsOf))
  {
    if wheels != [] {
      hide Keeps, AreOrigins;
      OriginsOfKept(wheels[..|wheels| - 1], tagsOf);
      OriginsGrow(wheels[..|wheels| - 1], wheels[|wheels| - 1], tagsOf, Kept(wheels[..|wheels| - 1], tagsOf),
                  Origins(wheels[..|wheels| - 1], tagsOf));
      assert wheels[..|wheels| - 1] + [wheels[|wheels| - 1]] == wheels;
    }
  }

  /** Selecting from the kept rows and from all rows agree on a distribution exactly when the wheel
      selected from all rows, if there is one, is kept. */
  lemma {:induction false} FilterPreservesSelectionIff(wheels: seq<Wheel>, tagsOf: TagsOf, order: Ranks, d: string)
    ensures (forall w :: Selects(Kept(wheels, tagsOf), tagsOf, order, d, w) <==> Selects(wheels, tagsOf, order, d, w))
        <==> (forall w | Selects(wheels, tagsOf, order, d, w) :: Keeps(w.filename, tagsOf))
  {
    hide Rank, Keeps;
    var kept := Kept(wheels, tagsOf);
    OriginsOfKept(wheels, tagsOf);
    if forall w | Selects(wheels, tagsOf, order, d, w) :: Keeps(w.filename, tagsOf) {
      forall w
        ensures Selects(kept, tagsOf, order, d, w) <==> Selects(wheels, tagsOf, order, d, w)
      {
        if Selects(wheels, tagsOf, order, d, w) {
          SelectionSurvives(wheels, tagsOf, order, d, w);
        }
        if Selects(kept, tagsOf, order, d, w) {
          var k :| 0 <= k < |kept| && kept[k] == w && SelectedAt(kept, tagsOf, order, d, k);
          var whole := SomeSelection(wheels, tagsOf, order, d, Origins(wheels, tagsOf)[k]);
          SelectionSurvives(wheels, tagsOf, order, d, whole);
          SelectionIsUnique(kept, tagsOf, order, d, w, whole);
        }
      }
    } else {
      var w :| Selects(wheels, tagsOf, order, d, w) && !Keeps(w.filename, tagsOf);
      assert !Selects(kept, tagsOf, order, d, w);
    }
  }

  /** A selected wheel that is kept is still the selection. */
  lemma {:induction false} SelectionSurvives(wheels: seq<Wheel>, tagsOf: TagsOf, order: Ranks, d: string, w: Wheel)
    requires Selects(wheels, tagsOf, order, d, w) && Keeps(w.filename, tagsOf)
    ensures Selects(Kept(wheels, tagsOf), tagsOf, order, d, w)
  {
    hide Rank, Keeps;
    OriginsOfKept(wheels, tagsOf);
    var kept, from := Kept(wheels, tagsOf), Origins(wheels, tagsOf);
    var i :| 0 <= i < |wheels| && wheels[i] == w && SelectedAt(wheels, tagsOf, order, d, i);
    var k :| 0 <= k < |from| && from[k] == i;
    forall j | 0 <= j < |kept| && kept[j].distribution == d && Rank(kept[j], tagsOf, order).Some?
      ensures Rank(w, tagsOf, order).value <= Rank(kept[j], tagsOf, order).value
      ensures j < k ==> Rank(w, tagsOf, order).value < Rank(kept[j], tagsOf, order).value
    {
      assert wheels[from[j]] == kept[j];
    }
    assert kept[k] == w && SelectedAt(kept, tagsOf, order, d, k);
  }

  /** A distribution with a loadable row has a selection. */
  lemma {:induction false} SomeSelection(wheels: seq<Wheel>, tagsOf: TagsOf, order: Ranks, d: string,
                                         i: nat) returns (w: Wheel)
    requires i < |wheels| && wheels[i].distribution == d && Rank(wheels[i], tagsOf, order).Some?
    ensures Selects(wheels, tagsOf, order, d, w)
    decreases Rank(wheels[i], tagsOf, order).value, i
  {
    hide Rank;
    if SelectedAt(wheels, tagsOf, order, d, i) {
      w := wheels[i];
    } else {
      var j :| 0 <= j < |wheels| && wheels[j].distribution == d && Rank(wheels[j], tagsOf, order).Some?
            && (Rank(wheels[j], tagsOf, order).value < Rank(wheels[i], tagsOf, order).value
                || (j < i && Rank(wheels[j], tagsOf, order).value <= Rank(wheels[i], tagsOf, order).value));
      w := SomeSelection(wheels, tagsOf, order, d, j);
    }
  }

  /** The condition every interpreter of a supported target is meant to meet: it accepts only tags the
      filter keeps. Then filtering changes no selection, on any table. */
  lemma {:induction false} SupportedInterpreterLosesNothing(wheels: seq<Wheel>, tagsOf: TagsOf, accepted: seq<Tag>,
                                                            d: string, w: Wheel)
    requires forall i | 0 <= i < |accepted| :: KeepsTag(accepted[i])
    ensures Selects(Kept(wheels, tagsOf), tagsOf, RanksOf(accepted), d, w)
        <==> Selects(wheels, tagsOf, RanksOf(accepted), d, w)
  {
    hide KeepsTag, RanksOf;
    var order := RanksOf(accepted);
    forall v | Selects(wheels, tagsOf, order, d, v)
      ensures Keeps(v.filename, tagsOf)
    {
      var tags := tagsOf(v.filename).value;
      var r := BestRank(tags, order);
      var i :| 0 <= i < |tags| && tags[i] in order && order[tags[i]] == r.value;
      assert tags[i] in accepted;
    }
    FilterPreservesSelectionIff(wheels, tagsOf, order, d);
  }

  /** And it is needed: an interpreter that accepts a tag the filter drops loses a wheel that carries
      only that tag. Linux interpreters accept `linux_x86_64`. */
  lemma {:induction false} UnsupportedTagLosesItsWheel(wheel: Wheel, tag: Tag, tagsOf: TagsOf, accepted: seq<Tag>)
    requires tag in accepted && !KeepsTag(tag) && tagsOf(wheel.filename) == Some([tag])
    ensures Selects([wheel], tagsOf, RanksOf(accepted), wheel.distribution, wheel)
    ensures !Loadable(Kept([wheel], tagsOf), tagsOf, RanksOf(accepted), wheel.distribution)
  {
    var order := RanksOf(accepted);
    assert [tag][0] in order;
    assert Rank(wheel, tagsOf, order).Some?;
    assert SelectedAt([wheel], tagsOf, order, wheel.distribution, 0);
    assert [wheel][..0] == [];
    assert Kept([wheel], tagsOf) == [];
  }

  // ------------------------------------------------------------------ the order of the table

  /** Rows are ordered by lower-cased distribution, then by file name. */
  predicate RowLe(a: Wheel, b: Wheel) {
    if Lower(a.distribution) == Lower(b.distribution) then Ordering.StringLe(a.filename, b.filename)
    else Ordering.StringLe(Lower(a.distribution), Lower(b.distribution))
  }

  lemma {:induction false} RowLeIsPreorder()
    ensures Ordering.TotalPreorder(RowLe)
  {
    hide Lower;
    Ordering.StringLeIsPreorder();
    forall a, b, c | RowLe(a, b) && RowLe(b, c)
      ensures RowLe(a, c)
    {
      if Lower(a.distribution) == Lower(c.distribution) && Lower(a.distribution) != Lower(b.distribution) {
        Ordering.StringLeIsAntisymmetric(Lower(a.distribution), Lower(b.distribution));
      }
    }
  }

  // ------------------------------------------------------------------ building the table

  /** Why `wheel_rows` stops: a name without an entry, a distribution whose wheels are all filtered out, a
      hash that is not SHA-256. */
  datatype TableFault = NoEntry(name: string) | NothingKept(name: string) | NotSha256(name: string)

  /** What follows the last slash of a URL. */
  function FileName(url: string): string {
    if url == [] || url[|url| - 1] == '/' then [] else FileName(url[..|url| - 1]) + [url[|url| - 1]]
  }

  lemma {:induction false} FileNameIsLast(head: string, name: string)
    requires Lacks(name, '/')
    ensures FileName(name) == name == FileName(head + "/" + name)
  {
    if name == [] {
      assert head + "/" + name == head + "/";
    } else {
      var init, last := name[..|name| - 1], name[|name| - 1];
      FileNameIsLast(head, init);
      assert name == init + [last];
      assert (head + "/" + name)[..|head + "/" + name| - 1] == head + "/" + init;
    }
  }

  const SHA256: string := "sha256:"

  /** A wheel as a row; only rows with a SHA-256 hash are ever written. */
  function RowOf(entry: Entry, wheel: LockWheel): Wheel {
    Wheel(entry.name, entry.version, FileName(wheel.url), wheel.url,
          if SHA256 <= wheel.hash then wheel.hash[|SHA256|..] else wheel.hash, wheel.size)
  }

  /** A row for each of the first `n` wheels of an entry. */
  function EntryRows(entry: Entry, n: nat): seq<Wheel>
    requires n <= |entry.wheels|
  {
    seq(n, i requires 0 <= i < n => RowOf(entry, entry.wheels[i]))
  }

  /** A row for every wheel the lock publishes for the named distributions. */
  function EveryRow(lock: Lock, names: seq<string>): seq<Wheel> {
    if names == [] then []
    else
      var name := names[|names| - 1];
      EveryRow(lock, names[..|names| - 1]) + if name in lock then EntryRows(lock[name], |lock[name].wheels|) else []
  }

  /** The filter keeps one of the first `n` wheels. */
  ghost predicate AnyKept(entry: Entry, tagsOf: TagsOf, n: nat)
    requires n <= |entry.wheels|
  {
    exists i | 0 <= i < n :: Keeps(FileName(entry.wheels[i].url), tagsOf)
  }

  /** Of the first `n` wheels, those the filter keeps are hashed with SHA-256. */
  ghost predicate KeptAreHashed(entry: Entry, tagsOf: TagsOf, n: nat)
    requires n <= |entry.wheels|
  {
    forall i | 0 <= i < n && Keeps(FileName(entry.wheels[i].url), tagsOf) :: SHA256 <= entry.wheels[i].hash
  }

  /** A distribution can be tabulated: it publishes no wheels, or the filter keeps some, and those are hashed with
      SHA-256. */
  ghost predicate Tabulable(entry: Entry, tagsOf: TagsOf) {
    (entry.wheels != [] ==> AnyKept(entry, tagsOf, |entry.wheels|)) && KeptAreHashed(entry, tagsOf, |entry.wheels|)
  }

  lemma {:induction false} NextWheel(entry: Entry, tagsOf: TagsOf, i: nat)
    requires i < |entry.wheels|
    ensures var wheel := entry.wheels[i];
      var kept := Keeps(FileName(wheel.url), tagsOf);
      && (AnyKept(entry, tagsOf, i + 1) <==> AnyKept(entry, tagsOf, i) || kept)
      && (KeptAreHashed(entry, tagsOf, i + 1) <==> KeptAreHashed(entry, tagsOf, i) && (kept ==> SHA256 <= wheel.hash))
      && (KeptAreHashed(entry, tagsOf, |entry.wheels|) ==> kept ==> SHA256 <= wheel.hash)
      && Kept(EntryRows(entry, i + 1), tagsOf)
         == if kept then Kept(EntryRows(entry, i), tagsOf) + [RowOf(entry, wheel)]
            else Kept(EntryRows(entry, i), tagsOf)
  {
    hide Keeps, Kept, FileName;
    assert EntryRows(entry, i + 1) == EntryRows(entry, i) + [RowOf(entry, entry.wheels[i])];
    KeptGrows(EntryRows(entry, i), RowOf(entry, entry.wheels[i]), tagsOf);
  }

  lemma {:induction false} KeptGrows(rows: seq<Wheel>, row: Wheel, tagsOf: TagsOf)
    ensures Kept(rows + [row], tagsOf)
         == if Keeps(row.filename, tagsOf) then Kept(rows, tagsOf) + [row] else Kept(rows, tagsOf)
  {
    hide Keeps;
    assert (rows + [row])[..|rows|] == rows;
  }

  lemma {:induction false} KeptOfConcat(a: seq<Wheel>, b: seq<Wheel>, tagsOf: TagsOf)
    ensures Kept(a + b, tagsOf) == Kept(a, tagsOf) + Kept(b, tagsOf)
    decreases |b|
  {
    hide Keeps;
    if b == [] {
      assert a + b == a;
    } else {
      var init, last := b[..|b| - 1], b[|b| - 1];
      hide Kept;
      KeptOfConcat(a, init, tagsOf);
      assert b == init + [last];
      Regroup(a, init, [last]);
      KeptGrows(a + init, last, tagsOf);
      KeptGrows(init, last, tagsOf);
      Regroup(Kept(a, tagsOf), Kept(init, tagsOf), [last]);
    }
  }

  /** Two distributions apart: the wheels of one are all filtered out, or one that is kept has another hash. */
  ghost predicate Stops(name: string, entry: Entry, tagsOf: TagsOf, fault: TableFault) {
    || (&& fault == NothingKept(name) && entry.wheels != []
        && forall i | 0 <= i < |entry.wheels| :: !Keeps(FileName(entry.wheels[i].url), tagsOf))
    || (&& fault == NotSha256(name)
        && exists i | 0 <= i < |entry.wheels| ::
             Keeps(FileName(entry.wheels[i].url), tagsOf) && !("sha256:" <= entry.wheels[i].hash))
  }

  /** The rows of one distribution: those the filter keeps, in the lock's order. */
  method RowsOf(name: string, entry: Entry, tagsOf: TagsOf) returns (r: Result<seq<Wheel>, TableFault>)
    ensures r.Ok? <==> Tabulable(entry, tagsOf)
    ensures r.Ok? ==> r.value == Kept(EntryRows(entry, |entry.wheels|), tagsOf)
    ensures r.Err? <==> exists fault :: Stops(name, entry, tagsOf, fault)
    ensures r.Err? ==> Stops(name, entry, tagsOf, r.error)
  {
    assert !AnyKept(entry, tagsOf, 0) && KeptAreHashed(entry, tagsOf, 0) && Kept(EntryRows(entry, 0), tagsOf) == [];
    StopsIff(name, entry, tagsOf);
    hide Keeps, Kept, FileName, AnyKept, KeptAreHashed, RowOf, Stops;
    if entry.wheels == [] {
      return Ok([]);
    }
    var rows: seq<Wheel> := [];
    var anyKept := false;
    for i := 0 to |entry.wheels|
      invariant anyKept == AnyKept(entry, tagsOf, i)
      invariant KeptAreHashed(entry, tagsOf, i)
      invariant rows == Kept(EntryRows(entry, i), tagsOf)
    {
      var wheel := entry.wheels[i];
      NextWheel(entry, tagsOf, i);
      if Keeps(FileName(wheel.url), tagsOf) {
        anyKept := true;
        if !(SHA256 <= wheel.hash) {
          return Err(NotSha256(name));
        }
        rows := rows + [RowOf(entry, wheel)];
      }
    }
    if !anyKept {
      return Err(NothingKept(name));
    }
    r := Ok(rows);
  }

  lemma {:induction false} StopsIff(name: string, entry: Entry, tagsOf: TagsOf)
    ensures Stops(name, entry, tagsOf, NothingKept(name))
        <==> entry.wheels != [] && !AnyKept(entry, tagsOf, |entry.wheels|)
    ensures Stops(name, entry, tagsOf, NotSha256(name)) <==> !KeptAreHashed(entry, tagsOf, |entry.wheels|)
    ensures forall fault | Stops(name, entry, tagsOf, fault) :: fault == NothingKept(name) || fault == NotSha256(name)
  {
    hide Keeps, FileName;
  }

  lemma {:induction false} NothingIsKept(tagsOf: TagsOf)
    ensures Kept([], tagsOf) == []
  {
  }

  /** The row of the `i`-th wheel of one of the named distributions, all its fields written out. */
  ghost predicate Publishes(lock: Lock, names: seq<string>, tagsOf: TagsOf, name: string, i: nat, row: Wheel) {
    && name in names && name in lock && i < |lock[name].wheels|
    && var wheel := lock[name].wheels[i];
    && Keeps(FileName(wheel.url), tagsOf)
    && row.distribution == lock[name].name && row.version == lock[name].version
    && row.filename == FileName(wheel.url) && row.url == wheel.url
    && wheel.hash == "sha256:" + row.sha256 && row.size == wheel.size
  }

  lemma {:induction false} RowIsPublished(lock: Lock, names: seq<string>, tagsOf: TagsOf, name: string, i: nat,
                                          row: Wheel)
    requires name in names && name in lock && Tabulable(lock[name], tagsOf) && i < |lock[name].wheels|
    ensures Publishes(lock, names, tagsOf, name, i, row)
        <==> Keeps(row.filename, tagsOf) && row == EntryRows(lock[name], |lock[name].wheels|)[i]
  {
    hide Keeps, FileName;
    var wheel := lock[name].wheels[i];
    if "sha256:" <= wheel.hash {
      assert "sha256:" + wheel.hash[7..] == wheel.hash;
      assert wheel.hash == "sha256:" + row.sha256 ==> wheel.hash[7..] == row.sha256;
    }
  }

  lemma {:induction false} EveryRowIff(lock: Lock, names: seq<string>, row: Wheel)
    requires forall i | 0 <= i < |names| :: names[i] in lock
    ensures row in EveryRow(lock, names)
        <==> exists name | name in names && name in lock :: row in EntryRows(lock[name], |lock[name].wheels|)
  {
    hide EntryRows;
    if names != [] {
      EveryRowIff(lock, names[..|names| - 1], row);
      assert forall name :: name in names <==> name in names[..|names| - 1] || name == names[|names| - 1];
    }
  }

  lemma {:induction false} KeptIff(rows: seq<Wheel>, tagsOf: TagsOf, row: Wheel)
    ensures row in Kept(rows, tagsOf) <==> row in rows && Keeps(row.filename, tagsOf)
  {
    hide Keeps;
    if rows != [] {
      KeptIff(rows[..|rows| - 1], tagsOf, row);
    }
  }

  /** What the table holds: the kept wheels of the named distributions. */
  lemma {:induction false} TableHoldsIff(lock: Lock, names: seq<string>, tagsOf: TagsOf, row: Wheel)
    requires forall i | 0 <= i < |names| :: names[i] in lock && Tabulable(lock[names[i]], tagsOf)
    ensures row in Kept(EveryRow(lock, names), tagsOf)
        <==> exists name, i: nat :: Publishes(lock, names, tagsOf, name, i, row)
  {
    hide Keeps, Kept, EveryRow, EntryRows, Tabulable, Publishes;
    KeptIff(EveryRow(lock, names), tagsOf, row);
    EveryRowIff(lock, names, row);
    if row in Kept(EveryRow(lock, names), tagsOf) {
      var name :| name in names && name in lock && row in EntryRows(lock[name], |lock[name].wheels|);
      var i :| 0 <= i < |EntryRows(lock[name], |lock[name].wheels|)|
        && EntryRows(lock[name], |lock[name].wheels|)[i] == row;
      RowsPerWheel(lock[name]);
      RowIsPublished(lock, names, tagsOf, name, i, row);
    }
    if name, i: nat :| Publishes(lock, names, tagsOf, name, i, row) {
      NamesItsWheel(lock, names, tagsOf, name, i, row);
      RowsPerWheel(lock[name]);
      RowIsPublished(lock, names, tagsOf, name, i, row);
    }
  }

  lemma {:induction false} RowsPerWheel(entry: Entry)
    ensures |EntryRows(entry, |entry.wheels|)| == |entry.wheels|
  {
  }

  lemma {:induction false} NamesItsWheel(lock: Lock, names: seq<string>, tagsOf: TagsOf, name: string, i: nat,
                                         row: Wheel)
    requires Publishes(lock, names, tagsOf, name, i, row)
    ensures name in names && name in lock && i < |lock[name].wheels|
  {
  }

  lemma {:induction false} TableIsOrdered(rows: seq<Wheel>)
    ensures forall i, j | 0 <= i < j < |Ordering.Sort(rows, RowLe)|
              :: var a, b := Ordering.Sort(rows, RowLe)[i], Ordering.Sort(rows, RowLe)[j];
                 && Ordering.StringLe(Lower(a.distribution), Lower(b.distribution))
                 && (Lower(a.distribution) == Lower(b.distribution) ==> Ordering.StringLe(a.filename, b.filename))
    ensures forall row :: row in Ordering.Sort(rows, RowLe) <==> row in rows
  {
    hide Lower, Ordering.Sort;
    RowLeIsPreorder();
    Ordering.SortSorts(rows, RowLe);
    var sorted := Ordering.Sort(rows, RowLe);
    forall i, j | 0 <= i < j < |sorted|
      ensures Ordering.StringLe(Lower(sorted[i].distribution), Lower(sorted[j].distribution))
    {
      assert RowLe(sorted[i], sorted[j]);
      Ordering.StringLeIsTotal(Lower(sorted[i].distribution), Lower(sorted[i].distribution));
    }
    forall row
      ensures row in sorted <==> row in rows
    {
      assert row in multiset(sorted) <==> row in multiset(rows);
    }
  }

  /** `wheel_rows`: the kept wheels of the named distributions, by lower-cased distribution and then by file name;
      refused exactly when a name has no entry or a distribution cannot be tabulated, and for the first such name. */
  method WheelRows(lock: Lock, names: seq<string>, tagsOf: TagsOf) returns (r: Result<seq<Wheel>, TableFault>)
    ensures r.Ok? <==> forall i | 0 <= i < |names| :: names[i] in lock && Tabulable(lock[names[i]], tagsOf)
    ensures r.Ok? ==> r.value == Ordering.Sort(Kept(EveryRow(lock, names), tagsOf), RowLe)
    ensures r.Ok? ==> forall i, j | 0 <= i < j < |r.value|
              :: var a, b := r.value[i], r.value[j];
                 && Ordering.StringLe(Lower(a.distribution), Lower(b.distribution))
                 && (Lower(a.distribution) == Lower(b.distribution) ==> Ordering.StringLe(a.filename, b.filename))
    ensures r.Ok? ==> forall row
              :: row in r.value <==> exists name, i: nat :: Publishes(lock, names, tagsOf, name, i, row)
    ensures r.Err? ==> exists i | 0 <= i < |names|
              :: && (forall j | 0 <= j < i :: names[j] in lock && Tabulable(lock[names[j]], tagsOf))
                 && (if names[i] in lock then Stops(names[i], lock[names[i]], tagsOf, r.error)
                     else r.error == NoEntry(names[i]))
  {
    hide Kept, Tabulable, EntryRows, RowLe, Ordering.Sort, Publishes, Stops, Lower, Ordering.StringLe;
    var rows: seq<Wheel> := [];
    NothingIsKept(tagsOf);
    for i := 0 to |names|
      invariant forall j | 0 <= j < i :: names[j] in lock && Tabulable(lock[names[j]], tagsOf)
      invariant rows == Kept(EveryRow(lock, names[..i]), tagsOf)
    {
      if names[i] !in lock {
        return Err(NoEntry(names[i]));
      }
      var more := RowsOf(names[i], lock[names[i]], tagsOf);
      if more.Err? {
        return Err(more.error);
      }
      assert names[..i + 1][..i] == names[..i];
      KeptOfConcat(EveryRow(lock, names[..i]), EntryRows(lock[names[i]], |lock[names[i]].wheels|), tagsOf);
      rows := rows + more.value;
    }
    assert names[..|names|] == names;
    TableIsOrdered(rows);
    forall row
      ensures row in rows <==> exists name, i: nat :: Publishes(lock, names, tagsOf, name, i, row)
    {
      TableHoldsIff(lock, names, tagsOf, row);
    }
    r := Ok(Ordering.Sort(rows, RowLe));
  }

  /** No two different rows share distribution and file name. */
  ghost predicate NoTwins(rows: seq<Wheel>) {
    forall a, b | a in rows && b in rows && Lower(a.distribution) == Lower(b.distribution) && a.filename == b.filename
      :: a == b
  }

  lemma {:induction false} TwinsAreTies(rows: seq<Wheel>)
    ensures NoTwins(rows) <==> Ordering.NoTies(multiset(rows), RowLe)
  {
    hide Lower, Ordering.StringLe;
    forall a, b
      ensures RowLe(a, b) && RowLe(b, a)
          <==> Lower(a.distribution) == Lower(b.distribution) && a.filename == b.filename
    {
      RowsTieIff(a, b);
    }
    hide RowLe;
    if NoTwins(rows) {
      forall a, b | a in multiset(rows) && b in multiset(rows) && RowLe(a, b) && RowLe(b, a)
        ensures a == b
      {
      }
    } else {
      var a, b :| a in rows && b in rows && Lower(a.distribution) == Lower(b.distribution)
                  && a.filename == b.filename && a != b;
      assert a in multiset(rows) && b in multiset(rows) && RowLe(a, b) && RowLe(b, a);
    }
  }

  lemma {:induction false} RowsTieIff(a: Wheel, b: Wheel)
    ensures RowLe(a, b) && RowLe(b, a)
        <==> Lower(a.distribution) == Lower(b.distribution) && a.filename == b.filename
  {
    hide Lower;
    RowLeIsPreorder();
    assert RowLe(a, a);
    if Lower(a.distribution) == Lower(b.distribution) {
      if RowLe(a, b) && RowLe(b, a) {
        Ordering.StringLeIsAntisymmetric(a.filename, b.filename);
      }
    } else if RowLe(a, b) && RowLe(b, a) {
      Ordering.StringLeIsAntisymmetric(Lower(a.distribution), Lower(b.distribution));
    }
  }

  /** The table, and so every selection from it, depends only on which rows there are, exactly when no two of them share
      distribution and file name. */
  lemma {:induction false} TableForgetsOrderIff(rows: seq<Wheel>)
    ensures (forall rows' | multiset(rows') == multiset(rows) ::
               Ordering.Sort(rows', RowLe) == Ordering.Sort(rows, RowLe))
        <==> NoTwins(rows)
  {
    hide RowLe, Ordering.Sort, NoTwins;
    TwinsAreTies(rows);
    RowLeIsPreorder();
    Ordering.SortForgetsOrderIff(rows, RowLe);
  }

  lemma {:induction false} KeptOfFirst(row: Wheel, rows: seq<Wheel>, tagsOf: TagsOf)
    ensures Kept([row] + rows, tagsOf)
         == if Keeps(row.filename, tagsOf) then [row] + Kept(rows, tagsOf) else Kept(rows, tagsOf)
  {
    hide Keeps, Kept;
    KeptOfConcat([row], rows, tagsOf);
    assert [] + [row] == [row];
    KeptGrows([], row, tagsOf);
    NothingIsKept(tagsOf);
    assert [] + Kept(rows, tagsOf) == Kept(rows, tagsOf);
  }

  lemma {:induction false} KeptAreRows(rows: seq<Wheel>, tagsOf: TagsOf)
    ensures forall row | row in Kept(rows, tagsOf) :: row in rows
  {
    hide Keeps;
    if rows != [] {
      KeptAreRows(rows[..|rows| - 1], tagsOf);
    }
  }

  /** A row is sorted in among the kept rows as it is among all. */
  lemma {:induction false} KeptOfInsert(row: Wheel, rows: seq<Wheel>, tagsOf: TagsOf)
    requires Ordering.SortedBy(rows, RowLe)
    ensures Kept(Ordering.Insert(row, rows, RowLe), tagsOf)
         == if Keeps(row.filename, tagsOf) then Ordering.Insert(row, Kept(rows, tagsOf), RowLe) else Kept(rows, tagsOf)
  {
    hide Keeps, Kept, RowLe;
    RowLeIsPreorder();
    if rows == [] || RowLe(row, rows[0]) {
      KeptOfFirst(row, rows, tagsOf);
      KeptAreRows(rows, tagsOf);
      var kept := Kept(rows, tagsOf);
      assert kept != [] ==> kept[0] in rows && RowLe(row, kept[0]);
    } else {
      var rest := rows[1..];
      KeptOfInsert(row, rest, tagsOf);
      assert rows == [rows[0]] + rest;
      KeptOfFirst(rows[0], rest, tagsOf);
      KeptOfFirst(rows[0], Ordering.Insert(row, rest, RowLe), tagsOf);
      assert ([rows[0]] + Kept(rest, tagsOf))[1..] == Kept(rest, tagsOf);
    }
  }

  /** Filtering and sorting commute. */
  lemma {:induction false} KeptOfSorted(rows: seq<Wheel>, tagsOf: TagsOf)
    ensures Ordering.Sort(Kept(rows, tagsOf), RowLe) == Kept(Ordering.Sort(rows, RowLe), tagsOf)
  {
    hide Keeps, Kept, RowLe;
    if rows == [] {
      NothingIsKept(tagsOf);
    } else {
      var first, rest := rows[0], rows[1..];
      RowLeIsPreorder();
      KeptOfSorted(rest, tagsOf);
      Ordering.SortSorts(rest, RowLe);
      KeptOfInsert(first, Ordering.Sort(rest, RowLe), tagsOf);
      assert rows == [first] + rest;
      KeptOfFirst(first, rest, tagsOf);
      assert ([first] + Kept(rest, tagsOf))[1..] == Kept(rest, tagsOf);
    }
  }

  /** An interpreter that accepts only tags of supported targets selects from the emitted table exactly what it would
      select from a table of every wheel in the lock. */
  lemma {:induction false} EmittedTableSelectsAsLock(lock: Lock, names: seq<string>, tagsOf: TagsOf, accepted: seq<Tag>,
                                                     d: string, w: Wheel)
    requires forall i | 0 <= i < |accepted| :: KeepsTag(accepted[i])
    ensures Selects(Ordering.Sort(Kept(EveryRow(lock, names), tagsOf), RowLe), tagsOf, RanksOf(accepted), d, w)
        <==> Selects(Ordering.Sort(EveryRow(lock, names), RowLe), tagsOf, RanksOf(accepted), d, w)
  {
    hide KeepsTag, Kept, Selects, RanksOf, Ordering.Sort;
    KeptOfSorted(EveryRow(lock, names), tagsOf);
    SupportedInterpreterLosesNothing(Ordering.Sort(EveryRow(lock, names), RowLe), tagsOf, accepted, d, w);
  }

  // ------------------------------------------------------------------ the digest

  /** One line of the digest's pre-image and its terminator. */
  function Line(s: string): string { s + "\n" }

  /** What the digest of a table hashes. */
  function PreImage(rows: seq<Wheel>): string {
    if rows == [] then []
    else Line(rows[0].filename) + (Line(rows[0].sha256) + (Line(Decimal(rows[0].size)) + PreImage(rows[1..])))
  }

  /** What a row adds to the pre-image, and where. */
  lemma {:induction false} PreImageOfNext(rows: seq<Wheel>, row: Wheel)
    ensures PreImage(rows + [row])
         == PreImage(rows) + (row.filename + "\n" + row.sha256 + "\n" + Decimal(row.size) + "\n")
  {
    if rows == [] {
      assert [] + [row] == [row] && [row][1..] == [];
      RegroupRow([], row, []);
      assert [] + (row.filename + "\n" + row.sha256 + "\n" + Decimal(row.size) + "\n") + []
          == row.filename + "\n" + row.sha256 + "\n" + Decimal(row.size) + "\n";
    } else {
      hide Line;
      assert (rows + [row])[1..] == rows[1..] + [row];
      PreImageOfNext(rows[1..], row);
      var added := row.filename + "\n" + row.sha256 + "\n" + Decimal(row.size) + "\n";
      Regroup(Line(Decimal(rows[0].size)), PreImage(rows[1..]), added);
      Regroup(Line(rows[0].sha256), Line(Decimal(rows[0].size)) + PreImage(rows[1..]), added);
      Regroup(Line(rows[0].filename), Line(rows[0].sha256) + (Line(Decimal(rows[0].size)) + PreImage(rows[1..])),
              added);
    }
  }

  /** `lock_digest` hands the pre-image to SHA-256 row by row. */
  method DigestInput(rows: seq<Wheel>) returns (input: string)
    ensures input == PreImage(rows)
  {
    input := [];
    for i := 0 to |rows|
      invariant input + PreImage(rows[i..]) == PreImage(rows)
    {
      var row := rows[i];
      assert rows[i..][1..] == rows[i + 1..];
      RegroupRow(input, row, PreImage(rows[i + 1..]));
      input := input + (row.filename + "\n" + row.sha256 + "\n" + Decimal(row.size) + "\n");
    }
    assert rows[|rows|..] == [];
    assert input + [] == input;
  }

  lemma {:induction false} RegroupRow(input: string, row: Wheel, rest: string)
    ensures input + (row.filename + "\n" + row.sha256 + "\n" + Decimal(row.size) + "\n") + rest
         == input + (Line(row.filename) + (Line(row.sha256) + (Line(Decimal(row.size)) + rest)))
  {
  }

  predicate SingleLine(s: string) { Lacks(s, '\n') }

  /** A line is read off the front in only one way. */
  lemma {:induction false} LineIsDecodable(a: string, rest: string, b: string, rest': string)
    requires SingleLine(a) && SingleLine(b) && Line(a) + rest == Line(b) + rest'
    ensures a == b && rest == rest'
  {
    var s := Line(a) + rest;
    assert s[|a|] == '\n' && s[|b|] == '\n';
    assert forall i | 0 <= i < |a| :: s[i] == a[i];
    assert forall i | 0 <= i < |b| :: s[i] == b[i];
    assert |a| == |b|;
    assert s[..|a|] == a && s[..|b|] == b;
    assert s[|a| + 1..] == rest && s[|b| + 1..] == rest';
  }

  /** Two rows pin the same bytes. */
  predicate SamePin(a: Wheel, b: Wheel) {
    a.filename == b.filename && a.sha256 == b.sha256 && a.size == b.size
  }

  predicate SamePins(a: seq<Wheel>, b: seq<Wheel>) {
    |a| == |b| && forall i | 0 <= i < |a| :: SamePin(a[i], b[i])
  }

  lemma {:induction false} DecimalIsSingleLine(n: nat)
    ensures SingleLine(Decimal(n))
  {
  }

  /** The pre-image changes exactly when some pinned file name, hash or size changes, or their order. */
  lemma {:induction false} PreImageIsDecodable(a: seq<Wheel>, b: seq<Wheel>)
    requires forall i | 0 <= i < |a| :: SingleLine(a[i].filename) && SingleLine(a[i].sha256)
    requires forall i | 0 <= i < |b| :: SingleLine(b[i].filename) && SingleLine(b[i].sha256)
    ensures PreImage(a) == PreImage(b) <==> SamePins(a, b)
    decreases |a|
  {
    hide SingleLine, Line, Decimal;
    if a != [] && b != [] {
      PreImageIsDecodable(a[1..], b[1..]);
      if PreImage(a) == PreImage(b) {
        var x, y := a[0], b[0];
        LineIsDecodable(x.filename, Line(x.sha256) + (Line(Decimal(x.size)) + PreImage(a[1..])),
                        y.filename, Line(y.sha256) + (Line(Decimal(y.size)) + PreImage(b[1..])));
        LineIsDecodable(x.sha256, Line(Decimal(x.size)) + PreImage(a[1..]),
                        y.sha256, Line(Decimal(y.size)) + PreImage(b[1..]));
        DecimalIsSingleLine(x.size);
        DecimalIsSingleLine(y.size);
        LineIsDecodable(Decimal(x.size), PreImage(a[1..]), Decimal(y.size), PreImage(b[1..]));
        DecimalIsInjective(x.size, y.size);
        assert forall i | 0 < i < |a| :: a[i] == a[1..][i - 1] && b[i] == b[1..][i - 1];
      }
      if SamePins(a, b) {
        assert SamePin(a[0], b[0]);
        assert SamePins(a[1..], b[1..]);
      }
    } else {
      PreImageOfRowIsNotEmpty(a);
      PreImageOfRowIsNotEmpty(b);
    }
  }

  lemma {:induction false} PreImageOfRowIsNotEmpty(rows: seq<Wheel>)
    ensures rows != [] ==> PreImage(rows) != []
  {
  }
}
