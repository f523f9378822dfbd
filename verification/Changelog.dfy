/** The reader of CHANGELOG.md that the release validator and the release-notes generator share
    (packaging/verify_release_unit.py). */
module Changelog {
  import opened Outcomes
  import opened Text
  import opened TextLines

  // ------------------------------------------------------------------ the lines the reader tells apart

  /** A text without its HTML comments; a comment that is not closed stays. */
  function StripComments(s: string): string
    decreases |s|
  {
    var opening := Find(s, "<!--", 0);
    if opening == -1 then s
    else
      var closing := Find(s, "-->", opening + 4);
      if closing == -1 then s else s[..opening] + StripComments(s[closing + 3..])
  }

  /** What stands before the first `]`, if there is one and it is not at the start. */
  function Bracketed(s: string): (name: Option<string>)
    ensures name.Some? ==> name.value != [] && |name.value| < |s|
  {
    var inside := Before(s, ']');
    if inside == [] || |inside| == |s| then None else Some(inside)
  }

  /** The label of a section heading. */
  function HeadingLabel(line: string): Option<string> {
    if "##" <= line then
      var rest := LStrip(line[2..]);
      if |rest| < |line[2..]| && rest != [] && rest[0] == '[' then Bracketed(rest[1..]) else None
    else None
  }

  predicate IsHeading(line: string) {
    HeadingLabel(line).Some?
  }

  datatype Reference = Reference(name: string, url: string)

  /** The link reference on a line, if that is what the line holds. */
  function ReferenceOn(line: string): (r: Option<Reference>)
    ensures r.Some? ==> r.value.url != [] && NoSpace(r.value.url)
  {
    var s := Strip(line);
    if s == [] || s[0] != '[' || Bracketed(s[1..]).None? then None
    else
      var name := Bracketed(s[1..]).value;
      var after := s[1 + |name|..];
      if "]:" <= after then
        var url := LStrip(after[2..]);
        if url != [] && NoSpace(url) then Some(Reference(name, url)) else None
      else None
  }

  lemma {:induction false} BeforeSplits(s: string, c: char)
    ensures var b := Before(s, c); Lacks(b, c) && |b| <= |s| && s[..|b|] == b && (|b| < |s| ==> s[|b|] == c)
  {
    if s != [] && s[0] != c {
      BeforeSplits(s[1..], c);
      var b := Before(s[1..], c);
      assert s[..1 + |b|] == [s[0]] + s[1..][..|b|];
    }
  }

  lemma {:induction false} LabelLacksBracket(line: string)
    ensures IsHeading(line) ==> Lacks(HeadingLabel(line).value, ']')
  {
    if IsHeading(line) {
      BeforeSplits(LStrip(line[2..])[1..], ']');
    }
  }

  lemma {:induction false} BracketedIs(name: string, rest: string)
    requires name != [] && Lacks(name, ']') && "]" <= rest
    ensures Bracketed(name + rest) == Some(name)
  {
    BeforeIs(name, ']', rest);
  }

  /** A printed heading reads back as its label, whatever follows the bracket. */
  lemma {:induction false} PrintedHeadingIsRead(name: string, rest: string)
    requires name != [] && Lacks(name, ']')
    ensures HeadingLabel("## [" + name + "]" + rest) == Some(name)
  {
    var line := "## [" + name + "]" + rest;
    var tail := "[" + name + "]" + rest;
    assert line[..2] == "##" && line[2..] == " " + tail;
    LStripDrops(" ", tail);
    assert tail[1..] == name + ("]" + rest);
    BracketedIs(name, "]" + rest);
  }

  /** Two hashes, whitespace, and a label in brackets, from the first character of the line. */
  ghost predicate IsHeadingOf(line: string, space: string, name: string, rest: string) {
    && line == "##" + (space + ("[" + (name + ("]" + rest))))
    && space != [] && AllSpace(space) && name != [] && Lacks(name, ']')
  }

  lemma {:induction false} BracketedSplits(s: string, name: string)
    requires Bracketed(s) == Some(name)
    ensures s == name + ("]" + s[|name| + 1..]) && Lacks(name, ']') && name != []
  {
    BeforeSplits(s, ']');
    assert s == s[..|name|] + ([s[|name|]] + s[|name| + 1..]);
  }

  lemma {:induction false} HeadingIs(line: string, space: string, name: string, rest: string)
    requires IsHeadingOf(line, space, name, rest)
    ensures HeadingLabel(line) == Some(name)
  {
    var tail := "[" + (name + ("]" + rest));
    assert line[..2] == "##" && line[2..] == space + tail;
    LStripDrops(space, tail);
    assert tail[1..] == name + ("]" + rest);
    BracketedIs(name, "]" + rest);
  }

  /** A line is the heading of a section exactly when it is written so, and its label is what the brackets hold. */
  lemma {:induction false} HeadingLabelIff(line: string, name: string)
    ensures HeadingLabel(line) == Some(name) <==> exists space, rest :: IsHeadingOf(line, space, name, rest)
  {
    if HeadingLabel(line) == Some(name) {
      var tail := LStrip(line[2..]);
      var space := LStripCuts(line[2..]);
      BracketedSplits(tail[1..], name);
      var rest := tail[1..][|name| + 1..];
      assert line == "##" + line[2..];
      assert tail == "[" + tail[1..];
      assert IsHeadingOf(line, space, name, rest);
    }
    if space, rest :| IsHeadingOf(line, space, name, rest) {
      HeadingIs(line, space, name, rest);
    }
  }

  /** A name in brackets and a colon, then an address without whitespace, and whitespace anywhere else. */
  ghost predicate IsReferenceTo(line: string, before: string, name: string, space: string, url: string, after: string) {
    && line == before + ("[" + (name + ("]:" + (space + url)))) + after
    && AllSpace(before) && AllSpace(space) && AllSpace(after)
    && name != [] && Lacks(name, ']') && url != [] && NoSpace(url)
  }

  lemma {:induction false} StrippedReferenceIs(line: string, name: string, space: string, url: string)
    requires Strip(line) == "[" + (name + ("]:" + (space + url)))
    requires AllSpace(space) && name != [] && Lacks(name, ']') && url != [] && NoSpace(url)
    ensures ReferenceOn(line) == Some(Reference(name, url))
  {
    hide Strip, Bracketed, LStrip;
    var tail := "]:" + (space + url);
    var middle := "[" + (name + tail);
    assert middle[1..] == name + tail && tail[..1] == "]";
    BracketedIs(name, tail);
    assert middle[1 + |name|..] == tail;
    assert tail[2..] == space + url;
    LStripDrops(space, url);
  }

  lemma {:induction false} ReferenceIs(line: string, before: string, name: string, space: string, url: string,
                                       after: string)
    requires IsReferenceTo(line, before, name, space, url, after)
    ensures ReferenceOn(line) == Some(Reference(name, url))
  {
    hide Strip, ReferenceOn;
    var middle := "[" + (name + ("]:" + (space + url)));
    assert middle[|middle| - 1] == url[|url| - 1] && middle[0] == '[';
    StripIs(line, before, middle, after);
    StrippedReferenceIs(line, name, space, url);
  }

  lemma {:induction false} ReferenceParts(middle: string, name: string, url: string) returns (space: string)
    requires middle != [] && middle[0] == '[' && Bracketed(middle[1..]) == Some(name)
    requires "]:" <= middle[1 + |name|..] && url == LStrip(middle[1 + |name|..][2..])
    ensures middle == "[" + (name + ("]:" + (space + url))) && AllSpace(space) && name != [] && Lacks(name, ']')
  {
    BracketedSplits(middle[1..], name);
    var tail := middle[1 + |name|..];
    space := LStripCuts(tail[2..]);
    hide Bracketed, LStrip;
    assert tail == tail[..2] + tail[2..] == "]:" + (space + url);
    assert middle[1..] == name + tail by {
      assert middle[1..][|name|..] == tail;
    }
    assert middle == [middle[0]] + middle[1..];
  }

  /** A line is a link reference exactly when it is written so. */
  lemma {:induction false} ReferenceOnIff(line: string, name: string, url: string)
    ensures ReferenceOn(line) == Some(Reference(name, url))
        <==> exists before, space, after :: IsReferenceTo(line, before, name, space, url, after)
  {
    if ReferenceOn(line) == Some(Reference(name, url)) {
      var middle := Strip(line);
      StripIff(line, middle);
      var before, after :| IsStripped(line, before, middle, after);
      hide Strip, AllSpace, NoSpace, Bracketed, LStrip;
      var space := ReferenceParts(middle, name, url);
      assert IsReferenceTo(line, before, name, space, url, after);
    }
    if before, space, after :| IsReferenceTo(line, before, name, space, url, after) {
      ReferenceIs(line, before, name, space, url, after);
    }
  }

  lemma {:induction false} StripOfInk(s: string)
    requires s != [] && !IsSpace(s[0]) && !IsSpace(s[|s| - 1])
    ensures Strip(s) == s
  {
  }

  /** A printed link reference reads back as its name and address. */
  lemma {:induction false} PrintedReferenceIsRead(name: string, url: string)
    requires name != [] && Lacks(name, ']') && url != [] && NoSpace(url)
    ensures ReferenceOn("[" + name + "]: " + url) == Some(Reference(name, url))
  {
    var line := "[" + name + "]: " + url;
    assert line[|line| - 1] == url[|url| - 1];
    StripOfInk(line);
    assert line[1..] == name + ("]: " + url);
    BracketedIs(name, "]: " + url);
    assert line[1 + |name|..] == "]: " + url;
    assert ("]: " + url)[..2] == "]:" && ("]: " + url)[2..] == " " + url;
    LStripDrops(" ", url);
  }

  // ------------------------------------------------------------------ sections as a partition of the lines

  datatype Block = Block(heading: string, body: seq<string>)

  datatype Document = Document(preamble: seq<string>, blocks: seq<Block>)

  predicate NoHeading(lines: seq<string>) {
    forall i | 0 <= i < |lines| :: !IsHeading(lines[i])
  }

  predicate WellFormed(d: Document) {
    && NoHeading(d.preamble)
    && forall i | 0 <= i < |d.blocks| :: IsHeading(d.blocks[i].heading) && NoHeading(d.blocks[i].body)
  }

  function BlockLines(blocks: seq<Block>): seq<string> {
    if blocks == [] then [] else [blocks[0].heading] + blocks[0].body + BlockLines(blocks[1..])
  }

  function DocumentLines(d: Document): seq<string> {
    d.preamble + BlockLines(d.blocks)
  }

  /** The lines before the first heading, and for every heading the lines up to the next. */
  function Parse(lines: seq<string>): Document {
    if lines == [] then Document([], [])
    else
      var rest := Parse(lines[1..]);
      if IsHeading(lines[0]) then Document([], [Block(lines[0], rest.preamble)] + rest.blocks)
      else Document([lines[0]] + rest.preamble, rest.blocks)
  }

  lemma {:induction false} ParseIsAReading(lines: seq<string>)
    ensures WellFormed(Parse(lines)) && DocumentLines(Parse(lines)) == lines
  {
    if lines != [] {
      ParseIsAReading(lines[1..]);
      ReadingGrows(lines[0], Parse(lines[1..]));
      assert [lines[0]] + lines[1..] == lines;
    }
  }

  lemma {:induction false} ReadingGrows(line: string, rest: Document)
    requires WellFormed(rest)
    ensures var d := if IsHeading(line) then Document([], [Block(line, rest.preamble)] + rest.blocks)
                     else Document([line] + rest.preamble, rest.blocks);
      WellFormed(d) && DocumentLines(d) == [line] + DocumentLines(rest)
  {
    hide HeadingLabel;
    if IsHeading(line) {
      assert ([Block(line, rest.preamble)] + rest.blocks)[1..] == rest.blocks;
    }
    Regroup([line], rest.preamble, BlockLines(rest.blocks));
    NothingBefore([line] + rest.preamble + BlockLines(rest.blocks), []);
  }

  lemma {:induction false} ParseOfLines(d: Document)
    requires WellFormed(d)
    ensures Parse(DocumentLines(d)) == d
    decreases |d.blocks|, |d.preamble|
  {
    hide HeadingLabel;
    var lines := DocumentLines(d);
    if d.preamble != [] {
      assert lines[1..] == d.preamble[1..] + BlockLines(d.blocks);
      ParseOfLines(Document(d.preamble[1..], d.blocks));
    } else if d.blocks != [] {
      var b := d.blocks[0];
      assert lines[1..] == b.body + BlockLines(d.blocks[1..]);
      ParseOfLines(Document(b.body, d.blocks[1..]));
      assert [Block(b.heading, b.body)] + d.blocks[1..] == d.blocks;
    }
  }

  /** Every line falls in the preamble or in exactly one section, in exactly one way. */
  lemma {:induction false} ParseIsTheOnlyReading(lines: seq<string>, d: Document)
    ensures WellFormed(d) && DocumentLines(d) == lines <==> d == Parse(lines)
  {
    hide WellFormed, DocumentLines, Parse;
    ParseIsAReading(lines);
    if WellFormed(d) {
      ParseOfLines(d);
    }
  }

  // ------------------------------------------------------------------ the table of sections

  datatype Section = Section(name: string, body: string)

  /** A dictionary in insertion order: assigning to a key that is there keeps its place. */
  function Put(table: seq<Section>, name: string, body: string): seq<Section> {
    if table == [] then [Section(name, body)]
    else if table[0].name == name then [Section(name, body)] + table[1..]
    else [table[0]] + Put(table[1..], name, body)
  }

  function Lookup(table: seq<Section>, name: string): Option<string> {
    if table == [] then None
    else if table[0].name == name then Some(table[0].body)
    else Lookup(table[1..], name)
  }

  /** The label of a heading. */
  function NameOf(b: Block): string {
    match HeadingLabel(b.heading)
    case Some(name) => name
    case None => ""
  }

  function TabulateOnto(table: seq<Section>, blocks: seq<Block>): seq<Section>
    decreases |blocks|
  {
    if blocks == [] then table
    else TabulateOnto(Put(table, NameOf(blocks[0]), Join(blocks[0].body)), blocks[1..])
  }

  function Sections(text: string): seq<Section> {
    TabulateOnto([], Parse(Lines(StripComments(text))).blocks)
  }

  /** The blocks of a document whose first `|body|` lines after `heading` have been read. */
  function Pending(heading: string, body: seq<string>, lines: seq<string>): seq<Block> {
    [Block(heading, body + Parse(lines).preamble)] + Parse(lines).blocks
  }

  lemma {:induction false} PendingStep(heading: string, body: seq<string>, lines: seq<string>)
    requires lines != []
    ensures IsHeading(lines[0]) ==> Parse(lines).blocks == Pending(lines[0], [], lines[1..])
    ensures IsHeading(lines[0])
        ==> Pending(heading, body, lines) == [Block(heading, body)] + Pending(lines[0], [], lines[1..])
    ensures !IsHeading(lines[0]) ==> Pending(heading, body, lines) == Pending(heading, body + [lines[0]], lines[1..])
  {
    hide HeadingLabel;
    var rest := Parse(lines[1..]);
    NothingBefore(rest.preamble, []);
    assert body + [] == body;
    Regroup(body, [lines[0]], rest.preamble);
  }

  lemma {:induction false} TabulateFirst(table: seq<Section>, b: Block, blocks: seq<Block>)
    ensures TabulateOnto(table, [b] + blocks) == TabulateOnto(Put(table, NameOf(b), Join(b.body)), blocks)
  {
    assert ([b] + blocks)[1..] == blocks;
  }

  lemma {:induction false} PendingEnds(heading: string, body: seq<string>)
    ensures Pending(heading, body, []) == [Block(heading, body)]
  {
    assert body + [] == body;
  }

  /** `changelog_sections`: the sections of a text, by label, in the order the labels first occur. */
  method ChangelogSections(text: string) returns (sections: seq<Section>)
    ensures sections == Sections(text)
  {
    hide StripComments, Lines, HeadingLabel, Put, TabulateOnto, Pending, Join;
    var lines := Lines(StripComments(text));
    var name, body := None, [];
    ghost var heading := "";
    sections := [];
    assert lines[0..] == lines;
    for i := 0 to |lines|
      invariant name.None? ==> sections == [] && Parse(lines[i..]).blocks == Parse(lines).blocks
      invariant name.Some? ==> HeadingLabel(heading) == name
      invariant name.Some? ==> TabulateOnto(sections, Pending(heading, body, lines[i..])) == Sections(text)
    {
      assert lines[i..][1..] == lines[i + 1..];
      PendingStep(heading, body, lines[i..]);
      TabulateFirst(sections, Block(heading, body), Pending(lines[i], [], lines[i + 1..]));
      match HeadingLabel(lines[i])
      case Some(next) =>
        if name.Some? {
          sections := Put(sections, name.value, Join(body));
        }
        name, body, heading := Some(next), [], lines[i];
      case None =>
        if name.Some? {
          body := body + [lines[i]];
        }
    }
    PendingEnds(heading, body);
    TabulateFirst(sections, Block(heading, body), []);
    assert [Block(heading, body)] + [] == [Block(heading, body)];
    TabulateNothing(Put(sections, NameOf(Block(heading, body)), Join(body)));
    TabulateNothing([]);
    if name.Some? {
      sections := Put(sections, name.value, Join(body));
    }
  }

  lemma {:induction false} TabulateNothing(table: seq<Section>)
    ensures TabulateOnto(table, []) == table
  {
  }

  function Names(table: seq<Section>): set<string> {
    set i | 0 <= i < |table| :: table[i].name
  }

  predicate DistinctNames(blocks: seq<Block>) {
    forall i, j | 0 <= i < j < |blocks| :: NameOf(blocks[i]) != NameOf(blocks[j])
  }

  predicate NoneIn(blocks: seq<Block>, names: set<string>) {
    forall i | 0 <= i < |blocks| :: NameOf(blocks[i]) !in names
  }

  function Entries(blocks: seq<Block>): seq<Section> {
    seq(|blocks|, i requires 0 <= i < |blocks| => Section(NameOf(blocks[i]), Join(blocks[i].body)))
  }

  lemma {:induction false} PutAdds(table: seq<Section>, name: string, body: string)
    ensures Names(Put(table, name, body)) == Names(table) + {name}
    ensures |Put(table, name, body)| == |table| + (if name in Names(table) then 0 else 1)
    ensures name !in Names(table) ==> Put(table, name, body) == table + [Section(name, body)]
  {
    if table != [] {
      var rest := table[1..];
      NamesOfFirst(table[0], rest);
      assert [table[0]] + rest == table;
      if table[0].name == name {
        NamesOfFirst(Section(name, body), rest);
      } else {
        PutAdds(rest, name, body);
        NamesOfFirst(table[0], Put(rest, name, body));
        Regroup([table[0]], rest, [Section(name, body)]);
      }
    } else {
      NamesOfFirst(Section(name, body), []);
      assert [Section(name, body)] + [] == [Section(name, body)];
      assert table + [Section(name, body)] == [Section(name, body)];
      assert Names([]) == {};
    }
  }

  lemma {:induction false} NamesOfFirst(s: Section, rest: seq<Section>)
    ensures Names([s] + rest) == {s.name} + Names(rest)
  {
    var all := [s] + rest;
    forall n | n in {s.name} + Names(rest)
      ensures n in Names(all)
    {
      if n == s.name {
        assert all[0].name == n;
      } else {
        var i :| 0 <= i < |rest| && rest[i].name == n;
        assert all[i + 1].name == n;
      }
    }
    forall n | n in Names(all)
      ensures n in {s.name} + Names(rest)
    {
      var i :| 0 <= i < |all| && all[i].name == n;
      if i > 0 {
        assert rest[i - 1].name == n;
      }
    }
  }

  lemma {:induction false} EntriesOfFirst(blocks: seq<Block>)
    requires blocks != []
    ensures Entries(blocks) == [Section(NameOf(blocks[0]), Join(blocks[0].body))] + Entries(blocks[1..])
  {
  }

  lemma {:induction false} TableGrows(table: seq<Section>, blocks: seq<Block>)
    ensures |TabulateOnto(table, blocks)| <= |table| + |blocks|
    ensures |TabulateOnto(table, blocks)| == |table| + |blocks|
        <==> DistinctNames(blocks) && NoneIn(blocks, Names(table))
    ensures DistinctNames(blocks) && NoneIn(blocks, Names(table))
        ==> TabulateOnto(table, blocks) == table + Entries(blocks)
    decreases |blocks|
  {
    hide Join, HeadingLabel, NameOf, Put, Names;
    if blocks == [] {
      assert table + Entries(blocks) == table;
    } else {
      var name, body := NameOf(blocks[0]), Join(blocks[0].body);
      PutAdds(table, name, body);
      TableGrows(Put(table, name, body), blocks[1..]);
      FreshFirst(blocks, Names(table));
      EntriesOfFirst(blocks);
      Regroup(table, [Section(name, body)], Entries(blocks[1..]));
    }
  }

  lemma {:induction false} FreshFirst(blocks: seq<Block>, names: set<string>)
    requires blocks != []
    ensures DistinctNames(blocks) && NoneIn(blocks, names)
        <==> NameOf(blocks[0]) !in names && DistinctNames(blocks[1..])
             && NoneIn(blocks[1..], names + {NameOf(blocks[0])})
  {
    hide NameOf;
    var rest := blocks[1..];
    assert forall i | 0 < i < |blocks| :: blocks[i] == rest[i - 1];
    if DistinctNames(blocks) && NoneIn(blocks, names) {
      assert forall i | 0 <= i < |rest| :: rest[i] == blocks[i + 1];
    }
  }

  /** The table keeps every section exactly when no label is used twice; it is then the list of sections. */
  lemma {:induction false} TableKeepsAllIff(blocks: seq<Block>)
    ensures |TabulateOnto([], blocks)| == |blocks| <==> DistinctNames(blocks)
    ensures DistinctNames(blocks) ==> TabulateOnto([], blocks) == Entries(blocks)
  {
    TableGrows([], blocks);
    NothingBefore(Entries(blocks), []);
  }

  function LastBody(blocks: seq<Block>, name: string): Option<string> {
    if blocks == [] then None
    else if NameOf(blocks[|blocks| - 1]) == name then Some(Join(blocks[|blocks| - 1].body))
    else LastBody(blocks[..|blocks| - 1], name)
  }

  lemma {:induction false} LookupAfterPut(table: seq<Section>, name: string, body: string, key: string)
    ensures Lookup(Put(table, name, body), key) == if key == name then Some(body) else Lookup(table, key)
  {
    if table != [] && table[0].name != name {
      LookupAfterPut(table[1..], name, body, key);
      assert ([table[0]] + Put(table[1..], name, body))[1..] == Put(table[1..], name, body);
    } else if table != [] {
      assert ([Section(name, body)] + table[1..])[1..] == table[1..];
    }
  }

  lemma {:induction false} TabulateLast(table: seq<Section>, blocks: seq<Block>)
    requires blocks != []
    ensures var b := blocks[|blocks| - 1];
      TabulateOnto(table, blocks) == Put(TabulateOnto(table, blocks[..|blocks| - 1]), NameOf(b), Join(b.body))
    decreases |blocks|
  {
    hide Put, NameOf, Join;
    if |blocks| > 1 {
      var name, body := NameOf(blocks[0]), Join(blocks[0].body);
      TabulateLast(Put(table, name, body), blocks[1..]);
      assert blocks[..|blocks| - 1][1..] == blocks[1..][..|blocks| - 2];
    }
  }

  /** Of several sections with one label, the table holds the last. */
  lemma {:induction false} TableHoldsTheLast(blocks: seq<Block>, name: string)
    ensures Lookup(TabulateOnto([], blocks), name) == LastBody(blocks, name)
    decreases |blocks|
  {
    hide NameOf, Join, Put;
    if blocks != [] {
      var last := blocks[|blocks| - 1];
      TabulateLast([], blocks);
      TableHoldsTheLast(blocks[..|blocks| - 1], name);
      LookupAfterPut(TabulateOnto([], blocks[..|blocks| - 1]), NameOf(last), Join(last.body), name);
    }
  }

  /** The last of the sections with a label. */
  ghost predicate LastLabelled(blocks: seq<Block>, name: string, k: nat) {
    k < |blocks| && NameOf(blocks[k]) == name && forall j | k < j < |blocks| :: NameOf(blocks[j]) != name
  }

  lemma {:induction false} LastBodyIs(blocks: seq<Block>, name: string, k: nat)
    requires LastLabelled(blocks, name, k)
    ensures LastBody(blocks, name) == Some(Join(blocks[k].body))
  {
    hide NameOf, Join;
    if k < |blocks| - 1 {
      LastBodyIs(blocks[..|blocks| - 1], name, k);
    }
  }

  /** The labels in use, each once, as they are first used. */
  function Labels(blocks: seq<Block>): seq<string> {
    if blocks == [] then []
    else
      var before, name := Labels(blocks[..|blocks| - 1]), NameOf(blocks[|blocks| - 1]);
      if name in before then before else before + [name]
  }

  lemma {:induction false} LabelsAreUsed(blocks: seq<Block>, name: string)
    ensures name in Labels(blocks) <==> exists k | 0 <= k < |blocks| :: NameOf(blocks[k]) == name
  {
    hide NameOf;
    if blocks != [] {
      var init := blocks[..|blocks| - 1];
      LabelsAreUsed(init, name);
      assert forall k | 0 <= k < |init| :: init[k] == blocks[k];
    }
  }

  function NamesInOrder(table: seq<Section>): seq<string> {
    seq(|table|, i requires 0 <= i < |table| => table[i].name)
  }

  lemma {:induction false} PutInOrder(table: seq<Section>, name: string, body: string)
    ensures NamesInOrder(Put(table, name, body))
         == if name in NamesInOrder(table) then NamesInOrder(table) else NamesInOrder(table) + [name]
  {
    if table != [] {
      var first, rest := table[0], table[1..];
      assert NamesInOrder(table) == [first.name] + NamesInOrder(rest);
      if first.name == name {
        assert NamesInOrder(Put(table, name, body)) == [name] + NamesInOrder(rest);
      } else {
        PutInOrder(rest, name, body);
        assert NamesInOrder(Put(table, name, body)) == [first.name] + NamesInOrder(Put(rest, name, body));
      }
    }
  }

  /** The table has one section for each label, in the order the labels are first used, and holds under each the body
      of the last section so labelled. */
  lemma {:induction false} TableIsInFirstUse(blocks: seq<Block>)
    ensures NamesInOrder(TabulateOnto([], blocks)) == Labels(blocks)
    ensures forall name, k: nat | LastLabelled(blocks, name, k)
              :: Lookup(TabulateOnto([], blocks), name) == Some(Join(blocks[k].body))
  {
    hide NameOf, Join, Put;
    forall name, k: nat | LastLabelled(blocks, name, k)
      ensures Lookup(TabulateOnto([], blocks), name) == Some(Join(blocks[k].body))
    {
      TableHoldsTheLast(blocks, name);
      LastBodyIs(blocks, name, k);
    }
    if blocks != [] {
      var init, last := blocks[..|blocks| - 1], blocks[|blocks| - 1];
      TableIsInFirstUse(init);
      TabulateLast([], blocks);
      PutInOrder(TabulateOnto([], init), NameOf(last), Join(last.body));
    }
  }

  // ------------------------------------------------------------------ a printed changelog reads back

  lemma {:induction false} NotInTerminated(lines: seq<string>, pat: string, i: nat)
    requires pat != [] && Lacks(pat, '\n') && forall j | 0 <= j < |lines| :: Find(lines[j], pat, 0) == -1
    ensures !OccursAt(Terminated(lines), pat, i)
  {
    if lines != [] {
      var line, rest, s := lines[0], Terminated(lines[1..]), Terminated(lines);
      assert s[..|line|] == line && s[|line| + 1..] == rest;
      if i > |line| {
        NotInTerminated(lines[1..], pat, i - |line| - 1);
        if i + |pat| <= |s| {
          assert s[i..i + |pat|] == s[|line| + 1..][i - |line| - 1..i - |line| - 1 + |pat|];
        }
      } else if i + |pat| <= |line| {
        FindIsFirst(line, pat, 0);
        assert !OccursAt(line, pat, i);
        assert s[i..i + |pat|] == s[..|line|][i..i + |pat|];
      } else if i + |pat| <= |s| {
        assert s[i..i + |pat|][|line| - i] == s[|line|] == '\n';
      }
    }
  }

  lemma {:induction false} NothingToStrip(lines: seq<string>)
    requires forall j | 0 <= j < |lines| :: Find(lines[j], "<!--", 0) == -1
    ensures StripComments(Terminated(lines)) == Terminated(lines)
  {
    var s := Terminated(lines);
    FindIsFirst(s, "<!--", 0);
    forall i | 0 <= i
      ensures !OccursAt(s, "<!--", i)
    {
      NotInTerminated(lines, "<!--", i);
    }
  }

  /** A document that prints as lines and opens no comment. */
  predicate Printable(d: Document) {
    && WellFormed(d)
    && AllUnbroken(DocumentLines(d))
    && forall j | 0 <= j < |DocumentLines(d)| :: Find(DocumentLines(d)[j], "<!--", 0) == -1
  }

  /** Reading a printed changelog returns its sections: all of them, in order, when no label is used twice. */
  lemma {:induction false} PrintedChangelogIsRead(d: Document)
    requires Printable(d)
    ensures Sections(Terminated(DocumentLines(d))) == TabulateOnto([], d.blocks)
    ensures DistinctNames(d.blocks) ==> Sections(Terminated(DocumentLines(d))) == Entries(d.blocks)
  {
    hide WellFormed, DocumentLines, Lines, Terminated, TabulateOnto, Entries, StripComments;
    NothingToStrip(DocumentLines(d));
    LinesOfTerminated(DocumentLines(d));
    ParseOfLines(d);
    TableKeepsAllIff(d.blocks);
  }

  // ------------------------------------------------------------------ finding a version's section

  /** Whether a section answers for a version. */
  predicate Answers(name: string, version: string) {
    name == version || version + " " <= name || version + "]" <= name
  }

  /** `section_for`: the first section that answers for the version. */
  function SectionFor(table: seq<Section>, version: string): Option<string> {
    if table == [] then None
    else if Answers(table[0].name, version) then Some(table[0].body)
    else SectionFor(table[1..], version)
  }

  lemma {:induction false} NextAfter(s: string, mark: string, whole: string)
    requires |mark| == 1
    ensures s + mark <= whole ==> |s| < |whole| && whole[|s|] == mark[0]
  {
    if s + mark <= whole {
      assert (s + mark)[|s|] == whole[|s|];
    }
  }

  /** A section answers for the version its label opens with, and no other: the third test never fires. */
  lemma {:induction false} AnswersIff(name: string, version: string)
    requires Lacks(name, ']') && Lacks(version, ' ')
    ensures Answers(name, version) <==> Before(name, ' ') == version
  {
    BeforeSplits(name, ' ');
    if Answers(name, version) {
      if name == version {
        assert name == version + [];
        BeforeIs(version, ' ', []);
      } else {
        var rest := name[|version|..];
        assert name == version + rest;
        NextAfter(version, "]", name);
        NextAfter(version, " ", name);
        BeforeIs(version, ' ', rest);
      }
    }
  }

  lemma {:induction false} TableLabelsLackBracket(table: seq<Section>, blocks: seq<Block>)
    requires forall s | s in table :: Lacks(s.name, ']')
    ensures forall s | s in TabulateOnto(table, blocks) :: Lacks(s.name, ']')
    decreases |blocks|
  {
    if blocks != [] {
      LabelLacksBracket(blocks[0].heading);
      var next := Put(table, NameOf(blocks[0]), Join(blocks[0].body));
      PutNames(table, NameOf(blocks[0]), Join(blocks[0].body));
      TableLabelsLackBracket(next, blocks[1..]);
    }
  }

  lemma {:induction false} PutNames(table: seq<Section>, name: string, body: string)
    ensures forall s | s in Put(table, name, body) :: s in table || s.name == name
  {
    if table != [] && table[0].name != name {
      PutNames(table[1..], name, body);
    }
  }

  /** Position `i` holds the first section whose label opens with the version. */
  ghost predicate FirstFor(table: seq<Section>, version: string, i: int) {
    && 0 <= i < |table| && Before(table[i].name, ' ') == version
    && forall j | 0 <= j < i :: Before(table[j].name, ' ') != version
  }

  lemma {:induction false} SectionForSearch(table: seq<Section>, version: string)
    requires Lacks(version, ' ') && forall s | s in table :: Lacks(s.name, ']')
    ensures SectionFor(table, version).None? <==> forall j | 0 <= j < |table| :: Before(table[j].name, ' ') != version
    ensures forall i | FirstFor(table, version, i) :: SectionFor(table, version) == Some(table[i].body)
  {
    if table != [] {
      var rest := table[1..];
      AnswersIff(table[0].name, version);
      SectionForSearch(rest, version);
      assert forall j | 0 < j < |table| :: table[j] == rest[j - 1];
      forall i | FirstFor(table, version, i)
        ensures SectionFor(table, version) == Some(table[i].body)
      {
        if i > 0 {
          assert forall j | 0 <= j < i - 1 :: rest[j] == table[j + 1];
          assert FirstFor(rest, version, i - 1);
        }
      }
    }
  }

  /** The section found for a version in a changelog is the first whose label opens with it; there is none
      exactly when no label does; and one label never opens with two versions. */
  lemma {:induction false} SectionForIsFirst(text: string, version: string)
    requires Lacks(version, ' ')
    ensures SectionFor(Sections(text), version).None?
        <==> forall j | 0 <= j < |Sections(text)| :: Before(Sections(text)[j].name, ' ') != version
    ensures forall i | FirstFor(Sections(text), version, i)
              :: SectionFor(Sections(text), version) == Some(Sections(text)[i].body)
    ensures forall s, other | s in Sections(text) && Answers(s.name, version) && Answers(s.name, other)
                              && Lacks(other, ' ')
              :: other == version
  {
    var table := Sections(text);
    TableLabelsLackBracket([], Parse(Lines(StripComments(text))).blocks);
    hide Sections, SectionFor, Answers;
    SectionForSearch(table, version);
    forall s, other | s in table && Answers(s.name, version) && Answers(s.name, other) && Lacks(other, ' ')
      ensures other == version
    {
      AnswersIff(s.name, version);
      AnswersIff(s.name, other);
    }
  }

  // ------------------------------------------------------------------ link references

  /** The address of the last reference to `name`. */
  function LinkFor(lines: seq<string>, name: string): (url: Option<string>)
    ensures url.Some? ==> NoSpace(url.value)
  {
    if lines == [] then None
    else
      match ReferenceOn(lines[|lines| - 1])
      case Some(r) => if r.name == name then Some(r.url) else LinkFor(lines[..|lines| - 1], name)
      case None => LinkFor(lines[..|lines| - 1], name)
  }

  /** The last line that refers to `name`. */
  ghost predicate LastReference(lines: seq<string>, name: string, url: string, k: nat) {
    && k < |lines| && ReferenceOn(lines[k]) == Some(Reference(name, url))
    && forall j, other | k < j < |lines| :: ReferenceOn(lines[j]) != Some(Reference(name, other))
  }

  lemma {:induction false} LinkForIsLast(lines: seq<string>, name: string, url: string)
    ensures LinkFor(lines, name) == Some(url) <==> exists k: nat :: LastReference(lines, name, url, k)
  {
    hide ReferenceOn;
    if lines != [] {
      var init, last := lines[..|lines| - 1], |lines| - 1;
      LinkForIsLast(init, name, url);
      if ReferenceOn(lines[last]).Some? && ReferenceOn(lines[last]).value.name == name {
        var other := ReferenceOn(lines[last]).value.url;
        assert ReferenceOn(lines[last]) == Some(Reference(name, other));
        assert other == url ==> LastReference(lines, name, url, last);
        assert forall k: nat | LastReference(lines, name, url, k) :: k == last;
      } else {
        forall k: nat
          ensures LastReference(lines, name, url, k) <==> LastReference(init, name, url, k)
        {
          assert forall j | 0 <= j < last :: init[j] == lines[j];
        }
      }
    }
  }

  /** `changelog_links`: a later reference replaces an earlier one. Unlike the sections, it reads the text with
      its comments. */
  method ChangelogLinks(text: string) returns (references: map<string, string>)
    ensures forall name :: name in references <==> LinkFor(Lines(text), name).Some?
    ensures forall name | name in references :: LinkFor(Lines(text), name) == Some(references[name])
  {
    hide ReferenceOn, Lines;
    var lines := Lines(text);
    references := map[];
    for i := 0 to |lines|
      invariant forall name :: name in references <==> LinkFor(lines[..i], name).Some?
      invariant forall name | name in references :: LinkFor(lines[..i], name) == Some(references[name])
    {
      assert lines[..i + 1][..i] == lines[..i];
      match ReferenceOn(lines[i])
      case Some(r) => references := references[r.name := r.url];
      case None =>
    }
    assert lines[..|lines|] == lines;
  }

  /** A `<!--` and, four or more characters on, a `-->`. */
  ghost predicate HasComment(s: string) {
    exists i, j :: OccursAt(s, "<!--", i) && i + 4 <= j && OccursAt(s, "-->", j)
  }

  lemma {:induction false} StripShortens(s: string)
    ensures |StripComments(s)| <= |s|
    decreases |s|
  {
    var opening := Find(s, "<!--", 0);
    if opening != -1 {
      var closing := Find(s, "-->", opening + 4);
      if closing != -1 {
        StripShortens(s[closing + 3..]);
      }
    }
  }

  /** Stripping comments changes a text exactly when it holds one: an opening that is never closed, or closed before
      its own end, stays. */
  lemma {:induction false} NothingIsStrippedIff(s: string)
    ensures StripComments(s) == s <==> !HasComment(s)
  {
    hide OccursAt;
    FindIsFirst(s, "<!--", 0);
    var opening := Find(s, "<!--", 0);
    if opening != -1 {
      FindIsFirst(s, "-->", opening + 4);
      var closing := Find(s, "-->", opening + 4);
      if closing != -1 {
        StripShortens(s[closing + 3..]);
        assert OccursAt(s, "<!--", opening) && OccursAt(s, "-->", closing);
      }
    }
    OccurrencesAreInside(s);
  }

  lemma {:induction false} OccurrencesAreInside(s: string)
    ensures forall i | OccursAt(s, "<!--", i) :: 0 <= i
  {
  }

  /** On a text without comments, the section reader and the link reader read the same text: every name has one
      address, and every line is in the preamble or in a section. */
  lemma {:induction false} ReadersAgreeWithoutComments(text: string, name: string)
    requires !HasComment(text)
    ensures LinkFor(Lines(text), name) == LinkFor(Lines(StripComments(text)), name)
    ensures DocumentLines(Parse(Lines(StripComments(text)))) == Lines(text)
  {
    hide HasComment, StripComments, LinkFor, Lines, Parse, DocumentLines, WellFormed;
    NothingIsStrippedIff(text);
    ParseIsAReading(Lines(text));
  }

  /** A pattern that does not occur before the end of `s`, nor across it. */
  ghost predicate FirstAtEnd(s: string, pat: string) {
    forall i | 0 <= i < |s| :: !OccursAt(s + pat, pat, i)
  }

  lemma {:induction false} FindAfter(head: string, s: string, pat: string, rest: string)
    requires FirstAtEnd(s, pat)
    ensures Find(head + (s + (pat + rest)), pat, |head|) == |head| + |s|
  {
    var all, at := head + (s + (pat + rest)), |head| + |s|;
    assert all[at..at + |pat|] == pat;
    forall i | |head| <= i < at
      ensures !OccursAt(all, pat, i)
    {
      var k := i - |head|;
      assert !OccursAt(s + pat, pat, k);
      assert all[i..i + |pat|] == (s + pat)[k..k + |pat|];
    }
    FindSkips(all, pat, |head|, at);
    FindHere(all, pat, at);
  }

  /** The first comment is cut out, up to the first closing after its opening, and what follows is read in the same
      way. */
  lemma {:induction false} CommentsAreCut(before: string, inside: string, after: string)
    requires FirstAtEnd(before, "<!--") && FirstAtEnd(inside, "-->")
    ensures StripComments(before + ("<!--" + (inside + ("-->" + after)))) == before + StripComments(after)
  {
    hide Find, OccursAt, FirstAtEnd;
    var rest := inside + ("-->" + after);
    var s := before + ("<!--" + rest);
    assert s == [] + s && s == (before + "<!--") + rest;
    FindAfter([], before, "<!--", rest);
    FindAfter(before + "<!--", inside, "-->", after);
    assert s[..|before|] == before && s[|before| + 4 + |inside| + 3..] == after;
  }

  function CommentedOut(line: string): string {
    "<!--" + ("\n" + (line + ("\n" + "-->")))
  }

  lemma {:induction false} CommentIsStripped(line: string)
    requires Lacks(line, '>')
    ensures StripComments(CommentedOut(line)) == []
  {
    var inside := "\n" + (line + "\n");
    NothingClosesBefore(inside);
    assert FirstAtEnd("", "<!--") && Find("", "<!--", 0) == -1;
    hide FirstAtEnd, Find;
    CommentsAreCut("", inside, "");
    assert "-->" + "" == "-->" && inside + "-->" == "\n" + (line + ("\n" + "-->"));
    NothingBefore(CommentedOut(line), []);
  }

  lemma {:induction false} NothingClosesBefore(inside: string)
    requires Lacks(inside, '>')
    ensures FirstAtEnd(inside, "-->")
  {
    forall i | 0 <= i < |inside|
      ensures !OccursAt(inside + "-->", "-->", i)
    {
      if OccursAt(inside + "-->", "-->", i) {
        OccurrenceAgrees(inside + "-->", "-->", i, 2);
      }
    }
  }

  /** The two readers of the file differ on comments: a commented reference is no part of any section, yet it is
      the address that the link check and the release footer use. */
  lemma {:induction false} CommentedReferenceCounts(name: string, url: string)
    requires name != [] && Lacks(name, ']') && url != [] && NoSpace(url)
    requires Unbroken(name) && Lacks(name, '>') && Lacks(url, '>')
    ensures var text := CommentedOut("[" + name + "]: " + url);
      StripComments(text) == [] && Sections(text) == [] && LinkFor(Lines(text), name) == Some(url)
  {
    var line := "[" + name + "]: " + url;
    var text := CommentedOut(line);
    PrintedReferenceIsRead(name, url);
    PrintedReferenceIsUnbroken(name, url);
    assert Lines([]) == [] && (StripComments(text) == [] ==> Sections(text) == []);
    hide *;
    CommentIsStripped(line);
    LinesOfComment(line);
    LinkInside(line, Reference(name, url));
  }

  lemma {:induction false} PrintedReferenceIsUnbroken(name: string, url: string)
    requires Unbroken(name) && NoSpace(url)
    ensures Unbroken("[" + name + "]: " + url)
    ensures Lacks(name, '>') && Lacks(url, '>') ==> Lacks("[" + name + "]: " + url, '>')
  {
    assert forall i | 0 <= i < |url| :: IsBreak(url[i]) ==> IsSpace(url[i]);
  }

  lemma {:induction false} LinesOfComment(line: string)
    requires Unbroken(line)
    ensures Lines(CommentedOut(line)) == ["<!--", line, "-->"]
  {
    hide Lines;
    Regroup("<!--", "\n", line + ("\n" + "-->"));
    FirstLine("<!--", line + ("\n" + "-->"));
    Regroup(line, "\n", "-->");
    FirstLine(line, "-->");
    OnlyLine("-->");
  }

  lemma {:induction false} LinkInside(line: string, r: Reference)
    requires ReferenceOn(line) == Some(r)
    ensures LinkFor(["<!--", line, "-->"], r.name) == Some(r.url)
  {
    StripOfInk("-->");
    assert ReferenceOn("-->").None?;
    hide ReferenceOn;
    var lines := ["<!--", line, "-->"];
    assert lines[..2][1] == line;
  }

  // ------------------------------------------------------------------ what a section publishes

  /** The lines that are not link references. */
  function Kept(lines: seq<string>): seq<string> {
    if lines == [] then []
    else (if ReferenceOn(lines[0]).None? then [lines[0]] else []) + Kept(lines[1..])
  }

  /** `notes_body`. */
  function NotesBody(section: string): string {
    Strip(Join(Kept(Lines(section))))
  }

  /** The lines kept are those that are no references, in their order. */
  lemma {:induction false} KeptOfMore(lines: seq<string>, line: string)
    ensures Kept(lines + [line]) == if ReferenceOn(line).Some? then Kept(lines) else Kept(lines) + [line]
  {
    hide ReferenceOn;
    if lines == [] {
      assert lines + [line] == [line] && [line][1..] == [];
    } else {
      assert (lines + [line])[1..] == lines[1..] + [line];
      KeptOfMore(lines[1..], line);
      Regroup(if ReferenceOn(lines[0]).None? then [lines[0]] else [], Kept(lines[1..]), [line]);
    }
  }

  predicate NoReference(lines: seq<string>) {
    forall i | 0 <= i < |lines| :: ReferenceOn(lines[i]).None?
  }

  lemma {:induction false} KeptHasNoReference(lines: seq<string>)
    requires AllUnbroken(lines)
    ensures NoReference(Kept(lines)) && AllUnbroken(Kept(lines))
  {
    hide ReferenceOn;
    if lines != [] {
      KeptHasNoReference(lines[1..]);
    }
  }

  lemma {:induction false} KeepsAll(lines: seq<string>)
    requires NoReference(lines)
    ensures Kept(lines) == lines
  {
    hide ReferenceOn;
    if lines != [] {
      KeepsAll(lines[1..]);
    }
  }

  lemma {:induction false} SameStripSameReference(a: string, b: string)
    requires Strip(a) == Strip(b)
    ensures ReferenceOn(a) == ReferenceOn(b)
  {
  }

  lemma {:induction false} TrimmedKeepsNone(lines: seq<string>)
    requires NoReference(lines) && AllUnbroken(lines)
    ensures NoReference(Trimmed(lines)) && AllUnbroken(Trimmed(lines))
  {
    hide ReferenceOn, Strip, Trimmed, Unbroken;
    forall k | 0 <= k < |Trimmed(lines)|
      ensures ReferenceOn(Trimmed(lines)[k]).None? && Unbroken(Trimmed(lines)[k])
    {
      TrimmedComesFrom(lines, k);
      var line := Trimmed(lines)[k];
      var i :| 0 <= i < |lines| && Strip(line) == Strip(lines[i]) && (Unbroken(lines[i]) ==> Unbroken(line));
      SameStripSameReference(line, lines[i]);
    }
  }

  /** Publishing what is published changes nothing. */
  lemma {:induction false} NotesBodyIsIdempotent(section: string)
    ensures NotesBody(NotesBody(section)) == NotesBody(section)
  {
    hide Lines, Kept, Strip, Join, AllUnbroken, NoReference, TrimHead, TrimTail;
    var kept := Kept(Lines(section));
    LinesAreUnbroken(section);
    KeptHasNoReference(Lines(section));
    StripOfJoin(kept);
    TrimmedKeepsNone(kept);
    LinesOfJoin(Trimmed(kept));
    KeepsAll(Trimmed(kept));
    StripIsIdempotent(Join(kept));
  }

  /** What is published is what stands between whitespace in the lines kept. */
  lemma {:induction false} NotesBodyIsStripped(section: string)
    ensures exists before, after :: IsStripped(Join(Kept(Lines(section))), before, NotesBody(section), after)
  {
    hide Lines, Kept, Join, Strip, IsStripped;
    StripIff(Join(Kept(Lines(section))), NotesBody(section));
  }

  predicate SaysNothing(lines: seq<string>) {
    forall i | 0 <= i < |lines| :: AllSpace(lines[i]) || ReferenceOn(lines[i]).Some?
  }

  lemma {:induction false} KeptIsBlankIff(lines: seq<string>)
    ensures AllBlank(Kept(lines)) <==> SaysNothing(lines)
  {
    hide ReferenceOn, AllSpace;
    if lines != [] {
      var rest := Kept(lines[1..]);
      KeptIsBlankIff(lines[1..]);
      assert forall i | 0 < i < |lines| :: lines[i] == lines[1..][i - 1];
      if ReferenceOn(lines[0]).None? {
        assert Kept(lines) == [lines[0]] + rest;
        assert forall i | 0 <= i < |rest| :: Kept(lines)[i + 1] == rest[i];
        assert Kept(lines)[0] == lines[0];
      } else {
        assert Kept(lines) == rest;
      }
    }
  }

  /** A section publishes nothing exactly when each of its lines is blank or a link reference. */
  lemma {:induction false} NotesBodyIsEmptyIff(section: string)
    ensures NotesBody(section) == []
        <==> SaysNothing(Lines(section))
  {
    hide Lines, Kept, Strip, Join, Trimmed, SaysNothing, AllBlank;
    StripOfJoin(Kept(Lines(section)));
    TrimmedIsEmptyIff(Kept(Lines(section)));
    KeptIsBlankIff(Lines(section));
  }
}
