/** The changelog gates of packaging/verify_release_unit.py and the release body that
    packaging/release_notes.py writes from the same reading of the file. */
module ReleaseNotes {
  import opened Outcomes
  import opened Text
  import opened TextLines
  import opened Changelog

  const CHANGELOG := "CHANGELOG.md"
  const UNRELEASED := "Unreleased"

  // ------------------------------------------------------------------ release tags

  function AfterDigits(s: string): (rest: string)
    ensures |rest| <= |s| && (rest == [] || !IsDigit(rest[0]))
  {
    if s != [] && IsDigit(s[0]) then AfterDigits(s[1..]) else s
  }

  predicate AllDigits(s: string) {
    s != [] && AfterDigits(s) == []
  }

  predicate PreRelease(s: string) {
    s == [] || (s[0] in "ab" && AllDigits(s[1..])) || ("rc" <= s && AllDigits(s[2..]))
  }

  /** What follows one or more digits and a dot. */
  function AfterComponent(s: string): (rest: Option<string>)
    ensures rest.Some? ==> |rest.value| < |s|
  {
    var rest := AfterDigits(s);
    if |rest| < |s| && rest != [] && rest[0] == '.' then Some(rest[1..]) else None
  }

  /** `X.Y.Z`, with an optional `aN`, `bN` or `rcN`. */
  predicate IsVersion(s: string) {
    match AfterComponent(s)
    case None => false
    case Some(minor) =>
      match AfterComponent(minor)
      case None => false
      case Some(patch) => |AfterDigits(patch)| < |patch| && PreRelease(AfterDigits(patch))
  }

  /** The version a tag names; the pattern's `$` also matches before a final line feed. */
  function VersionOf(tag: string): (version: Option<string>)
    ensures version.Some? ==> IsVersion(version.value)
  {
    if tag == [] || tag[0] != 'v' then None
    else if IsVersion(tag[1..]) then Some(tag[1..])
    else if tag[|tag| - 1] == '\n' && |tag| > 1 && IsVersion(tag[1..|tag| - 1]) then Some(tag[1..|tag| - 1])
    else None
  }

  predicate VersionChar(c: char) {
    IsDigit(c) || c in ".abrc"
  }

  predicate VersionChars(s: string) {
    forall i | 0 <= i < |s| :: VersionChar(s[i])
  }

  lemma {:induction false} DigitsThen(s: string)
    ensures VersionChars(AfterDigits(s)) ==> VersionChars(s)
  {
    if s != [] && IsDigit(s[0]) {
      DigitsThen(s[1..]);
      assert s == [s[0]] + s[1..];
    }
  }

  lemma {:induction false} MarkThen(s: string, n: nat)
    requires n <= |s| && VersionChars(s[..n]) && VersionChars(s[n..])
    ensures VersionChars(s)
  {
    assert forall i | n <= i < |s| :: s[i] == s[n..][i - n];
    assert forall i | 0 <= i < n :: s[i] == s[..n][i];
  }

  lemma {:induction false} PreReleaseChars(s: string)
    requires PreRelease(s)
    ensures VersionChars(s)
  {
    if s != [] {
      DigitsThen(s[1..]);
      if s[0] in "ab" && AllDigits(s[1..]) {
        MarkThen(s, 1);
      } else {
        DigitsThen(s[2..]);
        MarkThen(s, 2);
      }
    }
  }

  lemma {:induction false} ComponentChars(s: string)
    requires AfterComponent(s).Some? && VersionChars(AfterComponent(s).value)
    ensures VersionChars(s)
  {
    var rest := AfterDigits(s);
    MarkThen(rest, 1);
    DigitsThen(s);
  }

  /** A version is written with digits, dots and the letters of `a`, `b` and `rc` only. */
  lemma {:induction false} VersionsAreInk(version: string)
    requires IsVersion(version)
    ensures VersionChars(version) && version != []
    ensures Lacks(version, ' ') && Lacks(version, ']') && NoSpace(version) && Unbroken(version)
  {
    hide AfterDigits, PreRelease;
    var minor := AfterComponent(version).value;
    var patch := AfterComponent(minor).value;
    PreReleaseChars(AfterDigits(patch));
    DigitsThen(patch);
    ComponentChars(minor);
    ComponentChars(version);
  }

  lemma {:induction false} AfterDigitsIs(digits: string, rest: string)
    requires (forall i | 0 <= i < |digits| :: IsDigit(digits[i])) && (rest == [] || !IsDigit(rest[0]))
    ensures AfterDigits(digits + rest) == rest
  {
    if digits == [] {
      assert digits + rest == rest;
    } else {
      assert (digits + rest)[1..] == digits[1..] + rest;
      AfterDigitsIs(digits[1..], rest);
    }
  }

  predicate IsNumeral(s: string) {
    s != [] && forall i | 0 <= i < |s| :: s[i] in "0123456789"
  }

  /** Three numerals with dots between them, and perhaps a pre-release mark with a numeral of its own. */
  predicate Spells(s: string, major: string, minor: string, patch: string, mark: string, number: string) {
    && s == major + ("." + (minor + ("." + (patch + (mark + number)))))
    && IsNumeral(major) && IsNumeral(minor) && IsNumeral(patch)
    && ((mark == "" && number == "") || (mark in ["a", "b", "rc"] && IsNumeral(number)))
  }

  lemma {:induction false} NumeralIff(s: string)
    ensures IsNumeral(s) <==> AllDigits(s)
  {
    if s != [] {
      OnlyDigitsAreDigits(s[0]);
      NumeralIff(s[1..]);
      assert forall i | 0 < i < |s| :: s[i] == s[1..][i - 1];
    }
  }

  lemma {:induction false} NumeralThen(digits: string, rest: string)
    requires IsNumeral(digits) && (rest == [] || rest[0] in ".abr")
    ensures AfterDigits(digits + rest) == rest
  {
    forall i | 0 <= i < |digits|
      ensures IsDigit(digits[i])
    {
      OnlyDigitsAreDigits(digits[i]);
    }
    AfterDigitsIs(digits, rest);
  }

  lemma {:induction false} DigitsBefore(s: string) returns (digits: string)
    ensures s == digits + AfterDigits(s) && (digits == [] || IsNumeral(digits))
  {
    digits := [];
    if s != [] && IsDigit(s[0]) {
      OnlyDigitsAreDigits(s[0]);
      var rest := DigitsBefore(s[1..]);
      hide IsDigit;
      assert s == [s[0]] + (rest + AfterDigits(s));
      Regroup([s[0]], rest, AfterDigits(s));
      digits := [s[0]] + rest;
    }
  }

  lemma {:induction false} ComponentIs(s: string, digits: string, rest: string)
    requires s == digits + ("." + rest) && IsNumeral(digits)
    ensures AfterComponent(s) == Some(rest)
  {
    NumeralThen(digits, "." + rest);
  }

  lemma {:induction false} ComponentSplits(s: string) returns (digits: string)
    requires AfterComponent(s).Some?
    ensures s == digits + ("." + AfterComponent(s).value) && IsNumeral(digits)
  {
    digits := DigitsBefore(s);
    var rest := AfterDigits(s);
    assert rest == [rest[0]] + rest[1..];
  }

  lemma {:induction false} PreReleaseIs(mark: string, number: string)
    requires (mark == "" && number == "") || (mark in ["a", "b", "rc"] && IsNumeral(number))
    ensures PreRelease(mark + number)
  {
    NumeralIff(number);
    assert (mark + number)[|mark|..] == number;
  }

  lemma {:induction false} PreReleaseSplits(s: string) returns (mark: string, number: string)
    requires PreRelease(s)
    ensures s == mark + number
    ensures (mark == "" && number == "") || (mark in ["a", "b", "rc"] && IsNumeral(number))
  {
    if s == [] {
      mark, number := "", "";
    } else {
      var n := if s[0] in "ab" && AllDigits(s[1..]) then 1 else 2;
      mark, number := s[..n], s[n..];
      NumeralIff(number);
      if n == 1 {
        assert mark == [s[0]] && (s[0] == 'a' || s[0] == 'b');
        assert mark == "a" || mark == "b";
      } else {
        assert mark == "rc";
      }
    }
  }

  lemma {:induction false} SpelledIsVersion(s: string, major: string, minor: string, patch: string, mark: string,
                                            number: string)
    requires Spells(s, major, minor, patch, mark, number)
    ensures IsVersion(s)
  {
    var suffix := mark + number;
    PreReleaseIs(mark, number);
    assert suffix == [] || suffix[0] == mark[0];
    hide PreRelease, AfterDigits, AfterComponent, IsNumeral;
    NumeralThen(patch, suffix);
    assert patch != [] by { NumeralIsNotEmpty(patch); }
    ComponentIs(minor + ("." + (patch + suffix)), minor, patch + suffix);
    ComponentIs(s, major, minor + ("." + (patch + suffix)));
  }

  lemma {:induction false} NumeralIsNotEmpty(s: string)
    requires IsNumeral(s)
    ensures s != []
  {
  }

  /** What a version is: three numerals, and perhaps `a`, `b` or `rc` and a fourth. */
  lemma {:induction false} IsVersionIff(s: string)
    ensures IsVersion(s)
        <==> exists major, minor, patch, mark, number :: Spells(s, major, minor, patch, mark, number)
  {
    if IsVersion(s) {
      var rest := AfterComponent(s).value;
      var last := AfterComponent(rest).value;
      hide PreRelease, AfterDigits, AfterComponent, IsNumeral;
      var major := ComponentSplits(s);
      var minor := ComponentSplits(rest);
      var patch := DigitsBefore(last);
      var mark, number := PreReleaseSplits(AfterDigits(last));
      assert Spells(s, major, minor, patch, mark, number);
    }
    if major, minor, patch, mark, number :| Spells(s, major, minor, patch, mark, number) {
      SpelledIsVersion(s, major, minor, patch, mark, number);
    }
  }

  /** A tag names a version exactly when it is `v` and the version, with at most a line feed after them. */
  lemma {:induction false} VersionOfIff(tag: string, version: string)
    ensures VersionOf(tag) == Some(version)
        <==> IsVersion(version) && (tag == "v" + version || tag == "v" + version + "\n")
  {
    hide IsVersion;
    if tag != [] && tag[0] == 'v' {
      assert tag == "v" + tag[1..];
      if IsVersion(tag[1..]) {
        VersionsAreInk(tag[1..]);
        assert VersionChar(tag[|tag| - 1]) && tag[|tag| - 1] != '\n';
      }
      if |tag| > 1 && tag[|tag| - 1] == '\n' {
        assert tag == "v" + tag[1..|tag| - 1] + "\n";
      }
      assert tag == "v" + version ==> tag[1..] == version;
      assert tag == "v" + version + "\n" ==> tag[1..|tag| - 1] == version && tag[|tag| - 1] == '\n';
    }
    if IsVersion(version) {
      VersionsAreInk(version);
    }
  }

  /** Every numbered release has a tag, and the tag names it. */
  lemma {:induction false} ReleaseTagIsRead(major: nat, minor: nat, patch: nat)
    ensures var version := Decimal(major) + ("." + (Decimal(minor) + ("." + Decimal(patch))));
      VersionOf("v" + version) == Some(version)
  {
    hide Decimal;
    var third := Decimal(patch);
    var second := Decimal(minor) + ("." + third);
    var version := Decimal(major) + ("." + second);
    assert third + [] == third;
    AfterDigitsIs(third, []);
    AfterDigitsIs(Decimal(minor), "." + third);
    AfterDigitsIs(Decimal(major), "." + second);
    assert ("." + third)[1..] == third && ("." + second)[1..] == second;
    assert ("v" + version)[1..] == version;
  }

  // ------------------------------------------------------------------ the validator's two changelog checks

  datatype Stage = Release | Development

  /** What `changelog-entry` finds. */
  datatype EntryVerdict = Unreadable | NoEntry | EmptyEntry | StillUnreleased | Written(pending: bool)

  function PendingNotes(text: string): string {
    match Lookup(Sections(text), UNRELEASED)
    case Some(section) => NotesBody(section)
    case None => NotesBody("")
  }

  function CheckEntry(changelog: Option<string>, version: string, stage: Stage): EntryVerdict {
    match changelog
    case None => Unreadable
    case Some(text) =>
      match SectionFor(Sections(text), version)
      case None => NoEntry
      case Some(body) =>
        if NotesBody(body) == [] then EmptyEntry
        else if PendingNotes(text) != [] && stage == Release then StillUnreleased
        else Written(PendingNotes(text) != [])
  }

  /** Some line of a section is neither blank nor a link reference. */
  ghost predicate Says(section: string) {
    exists i | 0 <= i < |Lines(section)| :: !AllSpace(Lines(section)[i]) && ReferenceOn(Lines(section)[i]) == None
  }

  /** The verdict on an entry: whether the version has a section, whether it says something, and, for a release only,
      that nothing is said under `Unreleased` any more. */
  lemma {:induction false} EntryVerdictIff(text: string, version: string, stage: Stage)
    ensures CheckEntry(None, version, stage) == Unreadable
    ensures var verdict := CheckEntry(Some(text), version, stage);
      var section, unreleased := SectionFor(Sections(text), version), Lookup(Sections(text), "Unreleased");
      var left := unreleased.Some? && Says(unreleased.value);
      && (verdict == NoEntry <==> section == None)
      && (verdict == EmptyEntry <==> section.Some? && !Says(section.value))
      && (verdict == StillUnreleased <==> section.Some? && Says(section.value) && stage == Release && left)
      && (verdict == Written(true) <==> section.Some? && Says(section.value) && stage == Development && left)
      && (verdict == Written(false) <==> section.Some? && Says(section.value) && !left)
  {
    hide Sections, SectionFor, Lookup, NotesBody, Says;
    PublishedIff("");
    NothingIsSaid();
    var section, unreleased := SectionFor(Sections(text), version), Lookup(Sections(text), "Unreleased");
    if section.Some? {
      PublishedIff(section.value);
    }
    if unreleased.Some? {
      PublishedIff(unreleased.value);
    }
  }

  lemma {:induction false} PublishedIff(section: string)
    ensures NotesBody(section) != [] <==> Says(section)
  {
    hide NotesBody, Lines, AllSpace, ReferenceOn;
    NotesBodyIsEmptyIff(section);
  }

  lemma {:induction false} NothingIsSaid()
    ensures !Says("")
  {
  }

  predicate Contains(s: string, pat: string) {
    Find(s, pat, 0) != -1
  }

  /** Whether the address of a release's reference names its tag. */
  predicate NamesTag(url: string, version: string) {
    Contains(url, "/v" + version)
  }

  /** `changelog-links`. */
  predicate CheckLinks(changelog: Option<string>, version: string) {
    match changelog
    case None => false
    case Some(text) =>
      var release, unreleased := LinkFor(Lines(text), version), LinkFor(Lines(text), UNRELEASED);
      && release.Some? && NamesTag(release.value, version)
      && unreleased.Some? && Contains(unreleased.value, "v" + version + "...HEAD")
  }

  lemma {:induction false} ContainsIff(s: string, pat: string)
    ensures Contains(s, pat) <==> exists i :: OccursAt(s, pat, i)
  {
    hide OccursAt;
    FindIsFirst(s, pat, 0);
    OccurrencesAreAt(s, pat);
  }

  lemma {:induction false} OccurrencesAreAt(s: string, pat: string)
    ensures forall i | OccursAt(s, pat, i) :: i >= 0
  {
  }

  /** The last reference to a name holds a text. */
  ghost predicate LastLinkHolds(lines: seq<string>, name: string, pat: string) {
    exists url, k: nat | LastReference(lines, name, url, k) :: exists i :: OccursAt(url, pat, i)
  }

  /** The link check passes exactly when the version's last reference names its tag after a slash, and the last
      reference of `Unreleased` compares from that tag. */
  lemma {:induction false} CheckLinksIff(text: string, version: string)
    ensures !CheckLinks(None, version)
    ensures CheckLinks(Some(text), version)
        <==> LastLinkHolds(Lines(text), version, "/v" + version)
             && LastLinkHolds(Lines(text), "Unreleased", "v" + version + "...HEAD")
  {
    hide Lines, LinkFor, Contains, LastLinkHolds;
    LinkContains(Lines(text), version, "/v" + version);
    LinkContains(Lines(text), "Unreleased", "v" + version + "...HEAD");
  }

  lemma {:induction false} LinkContains(lines: seq<string>, name: string, pat: string)
    ensures LinkFor(lines, name).Some? && Contains(LinkFor(lines, name).value, pat)
        <==> LastLinkHolds(lines, name, pat)
  {
    hide LinkFor, Contains, OccursAt, LastReference;
    if LinkFor(lines, name).Some? {
      var url := LinkFor(lines, name).value;
      LinkForIsLast(lines, name, url);
      ContainsIff(url, pat);
    }
    if url, k: nat :| LastReference(lines, name, url, k) && exists i :: OccursAt(url, pat, i) {
      LinkForIsLast(lines, name, url);
    }
  }

  // ------------------------------------------------------------------ the release body

  datatype NotesError = BadTag | NoSection | NothingToPublish | NoReference | WrongReference

  predicate EndsWith(s: string, suffix: string) {
    |suffix| <= |s| && s[|s| - |suffix|..] == suffix
  }

  function ReleaseSuffix(tag: string): string {
    "/releases/tag/" + tag
  }

  /** `repository_url`. */
  function RepositoryUrl(text: string, version: string, tag: string): Result<string, NotesError> {
    match LinkFor(Lines(text), version)
    case None => Err(NoReference)
    case Some(url) =>
      if EndsWith(url, ReleaseSuffix(tag)) then Ok(url[..|url| - |ReleaseSuffix(tag)|]) else Err(WrongReference)
  }

  function Footer(repository: string, tag: string): string {
    "**Full changelog**: " + repository + "/blob/" + tag + "/" + CHANGELOG
  }

  /** `build`. */
  function Build(text: string, tag: string): Result<string, NotesError> {
    match VersionOf(tag)
    case None => Err(BadTag)
    case Some(version) =>
      match SectionFor(Sections(text), version)
      case None => Err(NoSection)
      case Some(section) =>
        var body := NotesBody(section);
        if body == [] then Err(NothingToPublish)
        else
          match RepositoryUrl(text, version, tag)
          case Err(e) => Err(e)
          case Ok(repository) => Ok(body + "\n\n" + Footer(repository, tag) + "\n")
  }

  lemma {:induction false} FooterIs(tag: string)
    ensures ReleaseSuffix(tag) == "/releases/tag/" + tag
    ensures forall repository
              :: Footer(repository, tag) == "**Full changelog**: " + repository + "/blob/" + tag + "/CHANGELOG.md"
  {
  }

  /** Why no notes are built, in this order: the tag is none, the validator's entry check fails during development,
      the version has no reference, the reference is to another page. */
  lemma {:induction false} BuildFailsIff(text: string, tag: string)
    ensures Build(text, tag) == Err(BadTag) <==> VersionOf(tag) == None
    ensures VersionOf(tag).Some? ==>
      var verdict := CheckEntry(Some(text), VersionOf(tag).value, Development);
      var link := LinkFor(Lines(text), VersionOf(tag).value);
      && (Build(text, tag) == Err(NoSection) <==> verdict == NoEntry)
      && (Build(text, tag) == Err(NothingToPublish) <==> verdict == EmptyEntry)
      && (Build(text, tag) == Err(NoReference) <==> verdict.Written? && link == None)
      && (Build(text, tag) == Err(WrongReference)
          <==> verdict.Written? && link.Some? && !EndsWith(link.value, "/releases/tag/" + tag))
  {
    FooterIs(tag);
    hide Sections, Lines, LinkFor, SectionFor, NotesBody, PendingNotes, VersionOf, Footer, ReleaseSuffix, EndsWith;
  }

  lemma {:induction false} SuffixIsTheEnd(s: string, suffix: string)
    ensures EndsWith(s, suffix) ==> s == s[..|s| - |suffix|] + suffix
  {
  }

  lemma {:induction false} ContainsAt(s: string, pat: string, i: nat)
    requires OccursAt(s, pat, i)
    ensures Contains(s, pat)
  {
    FindIsFirst(s, pat, 0);
  }

  /** Notes are produced exactly when the tag is a tag, the validator's entry check would pass during development
      on the same section, and the version's reference ends with the tag's release page. What is published is
      then that section and a link into the repository of that reference. */
  lemma {:induction false} BuildSucceedsIff(text: string, tag: string)
    ensures Build(text, tag).Ok?
        <==> (&& VersionOf(tag).Some?
              && CheckEntry(Some(text), VersionOf(tag).value, Development).Written?
              && LinkFor(Lines(text), VersionOf(tag).value).Some?
              && EndsWith(LinkFor(Lines(text), VersionOf(tag).value).value, "/releases/tag/" + tag))
    ensures Build(text, tag).Ok?
        ==> exists section, repository ::
              && SectionFor(Sections(text), VersionOf(tag).value) == Some(section) && NotesBody(section) != []
              && LinkFor(Lines(text), VersionOf(tag).value) == Some(repository + ("/releases/tag/" + tag))
              && Build(text, tag).value
                 == NotesBody(section) + "\n\n"
                    + ("**Full changelog**: " + repository + "/blob/" + tag + "/CHANGELOG.md") + "\n"
  {
    FooterIs(tag);
    hide Sections, Lines, LinkFor, SectionFor, NotesBody, IsVersion, Footer, ReleaseSuffix, EndsWith;
    if Build(text, tag).Ok? {
      var version := VersionOf(tag).value;
      var url := LinkFor(Lines(text), version).value;
      SuffixIsTheEnd(url, ReleaseSuffix(tag));
      var section := SectionFor(Sections(text), version).value;
      var repository := RepositoryUrl(text, version, tag).value;
      assert LinkFor(Lines(text), version) == Some(repository + ReleaseSuffix(tag));
    }
  }

  /** A tag with a final line feed gets past the pattern, but never as far as a release body. */
  lemma {:induction false} BuiltTagIsCanonical(text: string, tag: string)
    requires Build(text, tag).Ok?
    ensures tag == "v" + VersionOf(tag).value
  {
    hide Sections, SectionFor, NotesBody, IsVersion, Lines, LinkFor;
    var version := VersionOf(tag).value;
    var url := LinkFor(Lines(text), version).value;
    assert tag[|tag| - 1] == ReleaseSuffix(tag)[|ReleaseSuffix(tag)| - 1] == url[|url| - 1];
    assert !IsSpace(url[|url| - 1]);
    assert tag == [tag[0]] + tag[1..];
  }

  /** A release body implies the release half of the link check. */
  lemma {:induction false} BuiltReferenceNamesTag(text: string, tag: string)
    requires Build(text, tag).Ok?
    ensures NamesTag(LinkFor(Lines(text), VersionOf(tag).value).value, VersionOf(tag).value)
  {
    hide Build, CheckEntry, VersionOf, Sections, SectionFor, NotesBody, Lines, LinkFor, Contains,
         EndsWith, ReleaseSuffix, Footer;
    FooterIs(tag);
    BuiltTagIsCanonical(text, tag);
    BuildSucceedsIff(text, tag);
    var version := VersionOf(tag).value;
    SuffixNamesTag(version);
    EndingOccurs(LinkFor(Lines(text), version).value, ReleaseSuffix(tag), 13);
  }

  lemma {:induction false} SuffixNamesTag(version: string)
    ensures |ReleaseSuffix("v" + version)| >= 13 && ReleaseSuffix("v" + version)[13..] == "/v" + version
  {
    assert ReleaseSuffix("v" + version) == "/releases/tag" + ("/v" + version);
  }

  lemma {:induction false} EndingOccurs(s: string, suffix: string, n: nat)
    requires EndsWith(s, suffix) && n <= |suffix|
    ensures Contains(s, suffix[n..])
  {
    var at := |s| - |suffix| + n;
    assert s[at..at + |suffix[n..]|] == s[|s| - |suffix|..][n..];
    ContainsAt(s, suffix[n..], at);
  }

  // ------------------------------------------------------------------ the checks are weaker than the build

  function HeadingLine(version: string): string {
    "## [" + version + "]"
  }

  function ReferenceLine(name: string, url: string): string {
    "[" + name + "]: " + url
  }

  function LongerTagUrl(repository: string, version: string, digit: char): string {
    repository + "/releases/tag/v" + version + [digit]
  }

  function CompareUrl(repository: string, version: string): string {
    repository + "/compare/v" + version + "...HEAD"
  }

  /** A changelog of one section. */
  function OneSection(heading: string, body: seq<string>): Document {
    Document([], [Block(heading, body)])
  }

  /** A changelog whose only reference for the version points at a longer tag. */
  function Misdirected(version: string, note: string, repository: string, digit: char): Document {
    OneSection(HeadingLine(version), [note, ReferenceLine(version, LongerTagUrl(repository, version, digit)),
                                      ReferenceLine(UNRELEASED, CompareUrl(repository, version))])
  }

  lemma {:induction false} LongerTag(version: string, repository: string, digit: char)
    ensures NamesTag(LongerTagUrl(repository, version, digit), version)
    ensures !EndsWith(LongerTagUrl(repository, version, digit), ReleaseSuffix("v" + version))
  {
    var url := LongerTagUrl(repository, version, digit);
    assert url[|repository| + 13..|repository| + 13 + |"/v" + version|] == "/v" + version;
    ContainsAt(url, "/v" + version, |repository| + 13);
    var suffix := ReleaseSuffix("v" + version);
    assert url[|url| - |suffix|..][0] == url[|repository| + 1] == 'r';
    assert suffix[0] == '/';
  }

  lemma {:induction false} ComparesFrom(version: string, repository: string)
    ensures Contains(CompareUrl(repository, version), "v" + version + "...HEAD")
  {
    var url := CompareUrl(repository, version);
    assert url[|repository| + 9..|url|] == "v" + version + "...HEAD";
    ContainsAt(url, "v" + version + "...HEAD", |repository| + 9);
  }

  /** A line of text that is neither blank nor markup. */
  predicate PlainNote(note: string) {
    Unbroken(note) && !AllSpace(note) && !IsHeading(note) && ReferenceOn(note).None? && Lacks(note, '<')
  }

  /** Characters that an address or a version is written with. */
  predicate Ink(s: string) {
    forall i | 0 <= i < |s| :: !IsSpace(s[i]) && s[i] != '<'
  }

  lemma {:induction false} InkOfConcat(a: string, b: string)
    ensures Ink(a) && Ink(b) ==> Ink(a + b)
  {
  }

  lemma {:induction false} InkIsPlain(s: string)
    ensures Ink(s) ==> NoSpace(s) && Unbroken(s) && Lacks(s, '<')
  {
  }

  lemma {:induction false} UrlsAreInk(repository: string, version: string, digit: char)
    requires Ink(repository) && Ink(version) && IsDigit(digit)
    ensures Ink(LongerTagUrl(repository, version, digit)) && Ink(CompareUrl(repository, version))
  {
    assert Ink("/releases/tag/v") && Ink([digit]) && Ink("/compare/v") && Ink("...HEAD");
    hide Ink;
    InkOfConcat(repository, "/releases/tag/v");
    InkOfConcat(repository + "/releases/tag/v", version);
    InkOfConcat(repository + "/releases/tag/v" + version, [digit]);
    InkOfConcat(repository, "/compare/v");
    InkOfConcat(repository + "/compare/v", version);
    InkOfConcat(repository + "/compare/v" + version, "...HEAD");
  }

  lemma {:induction false} NoCommentIn(s: string)
    requires Lacks(s, '<')
    ensures Find(s, "<!--", 0) == -1
  {
    FindIsFirst(s, "<!--", 0);
    if Find(s, "<!--", 0) != -1 {
      OccurrenceAgrees(s, "<!--", Find(s, "<!--", 0), 0);
    }
  }

  /** A line that prints as it is and opens no comment. */
  predicate PlainLine(line: string) {
    Unbroken(line) && Find(line, "<!--", 0) == -1
  }

  lemma {:induction false} ReferenceLineIsRead(name: string, url: string)
    requires name != [] && Ink(name) && Lacks(name, ']') && url != [] && Ink(url)
    ensures var line := ReferenceLine(name, url);
      PlainLine(line) && !IsHeading(line) && ReferenceOn(line) == Some(Reference(name, url)) && line != []
  {
    InkIsPlain(name);
    InkIsPlain(url);
    var line := ReferenceLine(name, url);
    hide ReferenceOn, Find;
    PrintedReferenceIsRead(name, url);
    assert line[0] == '[';
    NoCommentIn(line);
  }

  lemma {:induction false} HeadingLineIsRead(version: string)
    requires version != [] && Ink(version) && Lacks(version, ']')
    ensures PlainLine(HeadingLine(version)) && HeadingLabel(HeadingLine(version)) == Some(version)
  {
    InkIsPlain(version);
    hide HeadingLabel, Find;
    PrintedHeadingIsRead(version, "");
    assert HeadingLine(version) + "" == HeadingLine(version);
    NoCommentIn(HeadingLine(version));
  }

  lemma {:induction false} VersionIsInk(version: string)
    requires IsVersion(version)
    ensures Ink(version) && version != [] && Lacks(version, ']') && version != UNRELEASED
  {
    hide IsVersion;
    VersionsAreInk(version);
    assert VersionChar(version[0]);
  }

  predicate PlainBody(body: seq<string>) {
    forall i | 0 <= i < |body| :: PlainLine(body[i]) && !IsHeading(body[i])
  }

  /** A changelog of one section reads back as that section. */
  lemma {:induction false} OneSectionIsRead(heading: string, version: string, body: seq<string>)
    requires PlainLine(heading) && HeadingLabel(heading) == Some(version) && PlainBody(body)
    ensures var d := OneSection(heading, body);
      && DocumentLines(d) == [heading] + body
      && Lines(Terminated(DocumentLines(d))) == [heading] + body
      && Sections(Terminated(DocumentLines(d))) == [Section(version, Join(body))]
  {
    var d := OneSection(heading, body);
    hide HeadingLabel, Find, Sections, Join, Terminated, Lines, TabulateOnto;
    assert BlockLines(d.blocks[1..]) == [];
    assert DocumentLines(d) == [heading] + body;
    LinesOfTerminated(DocumentLines(d));
    PrintedChangelogIsRead(d);
    assert Entries(d.blocks) == [Section(NameOf(d.blocks[0]), Join(body))];
  }

  lemma {:induction false} OneNoteIsPublished(note: string, body: seq<string>)
    requires PlainNote(note) && AllUnbroken([note] + body) && body != [] && body[|body| - 1] != []
    ensures NotesBody(Join([note] + body)) != []
  {
    var lines := [note] + body;
    hide Lines, Join, NotesBody, ReferenceOn, AllSpace, Unbroken;
    LinesOfJoin(lines);
    NotesBodyIsEmptyIff(Join(lines));
    assert lines[0] == note;
  }

  lemma {:induction false} NothingIsPending(text: string, section: Section)
    requires Sections(text) == [section] && section.name != UNRELEASED
    ensures PendingNotes(text) == []
  {
    hide Sections, NotesBody;
    NotesBodyIsEmptyIff("");
    assert Lookup([section][1..], UNRELEASED) == None;
  }

  lemma {:induction false} CheckAndBuild(text: string, version: string, section: string, url: string)
    requires IsVersion(version) && Sections(text) == [Section(version, section)]
    requires NotesBody(section) != [] && PendingNotes(text) == []
    requires LinkFor(Lines(text), version) == Some(url) && !EndsWith(url, ReleaseSuffix("v" + version))
    ensures forall stage :: CheckEntry(Some(text), version, stage) == Written(false)
    ensures Build(text, "v" + version) == Err(WrongReference)
  {
    assert SectionFor([Section(version, section)], version) == Some(section);
    hide IsVersion, Sections, SectionFor, NotesBody, PendingNotes, LinkFor, Lines, EndsWith, ReleaseSuffix;
    assert ("v" + version)[1..] == version;
  }

  lemma {:induction false} TwoLinks(heading: string, note: string, reference: string, pending: string,
                                    version: string, url: string, compare: string)
    requires ReferenceOn(reference) == Some(Reference(version, url)) && version != UNRELEASED
    requires ReferenceOn(pending) == Some(Reference(UNRELEASED, compare))
    ensures LinkFor([heading] + [note, reference, pending], version) == Some(url)
    ensures LinkFor([heading] + [note, reference, pending], UNRELEASED) == Some(compare)
  {
    hide ReferenceOn;
    var lines := [heading] + [note, reference, pending];
    assert lines[..|lines| - 1][2] == reference && lines[|lines| - 1] == pending;
  }

  lemma {:induction false} ThreeLinesArePlain(a: string, b: string, c: string)
    requires PlainLine(a) && !IsHeading(a) && PlainLine(b) && !IsHeading(b) && PlainLine(c) && !IsHeading(c)
    ensures PlainBody([a, b, c])
  {
    hide PlainLine, IsHeading;
  }

  /** A changelog of one section that ends with two references, the first of them to a longer tag. */
  lemma {:induction false} ChecksDisagree(heading: string, note: string, reference: string, pending: string,
                                          version: string, url: string, compare: string)
    requires IsVersion(version) && version != UNRELEASED && PlainNote(note)
    requires PlainLine(heading) && HeadingLabel(heading) == Some(version)
    requires PlainLine(reference) && !IsHeading(reference) && ReferenceOn(reference) == Some(Reference(version, url))
    requires PlainLine(pending) && !IsHeading(pending) && ReferenceOn(pending) == Some(Reference(UNRELEASED, compare))
    requires pending != [] && !EndsWith(url, ReleaseSuffix("v" + version))
    ensures var text := Terminated(DocumentLines(OneSection(heading, [note, reference, pending])));
      && (forall stage :: CheckEntry(Some(text), version, stage) == Written(false))
      && LinkFor(Lines(text), version) == Some(url) && LinkFor(Lines(text), UNRELEASED) == Some(compare)
      && Build(text, "v" + version) == Err(WrongReference)
  {
    var body := [note, reference, pending];
    var text := Terminated(DocumentLines(OneSection(heading, body)));
    hide *;
    NoteIsPlain(note);
    ThreeLinesArePlain(note, reference, pending);
    OneSectionIsRead(heading, version, body);
    NoteAndReferences(note, reference, pending);
    NothingIsPending(text, Section(version, Join(body)));
    TwoLinks(heading, note, reference, pending, version, url, compare);
    CheckAndBuild(text, version, Join(body), url);
  }

  lemma {:induction false} NoteAndReferences(note: string, reference: string, pending: string)
    requires PlainNote(note) && PlainLine(reference) && PlainLine(pending) && pending != []
    ensures NotesBody(Join([note, reference, pending])) != []
  {
    hide NotesBody, Join, AllSpace, IsHeading, ReferenceOn, Find;
    assert [note] + [reference, pending] == [note, reference, pending];
    OneNoteIsPublished(note, [reference, pending]);
  }

  /** The validator accepts a reference to a longer tag at either stage, and no release body can be built:
      the substring test of the link check is weaker than the ending that the builder needs. */
  lemma {:induction false} ChecksPassAndBuildFails(version: string, note: string, repository: string, digit: char)
    requires IsVersion(version) && PlainNote(note) && Ink(repository) && IsDigit(digit)
    ensures var text := Terminated(DocumentLines(Misdirected(version, note, repository, digit)));
      && (forall stage :: CheckEntry(Some(text), version, stage) == Written(false))
      && CheckLinks(Some(text), version)
      && Build(text, "v" + version) == Err(WrongReference)
  {
    var url, compare := LongerTagUrl(repository, version, digit), CompareUrl(repository, version);
    assert url != [] && compare != [] && Ink(UNRELEASED) && Lacks(UNRELEASED, ']');
    hide IsVersion, Ink, LongerTagUrl, CompareUrl, HeadingLine, ReferenceLine, Terminated, DocumentLines, PlainNote,
         ReferenceOn, HeadingLabel, Find, Lines, LinkFor, EndsWith, Contains, CheckEntry, Build, PlainLine, IsHeading,
         IsDigit, OneSection, Lacks, ReleaseSuffix;
    VersionIsInk(version);
    UrlsAreInk(repository, version, digit);
    LongerTag(version, repository, digit);
    ComparesFrom(version, repository);
    HeadingLineIsRead(version);
    ReferenceLineIsRead(version, url);
    ReferenceLineIsRead(UNRELEASED, compare);
    ChecksDisagree(HeadingLine(version), note, ReferenceLine(version, url), ReferenceLine(UNRELEASED, compare),
                   version, url, compare);
  }

  lemma {:induction false} NoteIsPlain(note: string)
    requires PlainNote(note)
    ensures PlainLine(note) && !IsHeading(note)
  {
    NoCommentIn(note);
  }

}
