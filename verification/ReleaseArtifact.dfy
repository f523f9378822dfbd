/** The hand-written HTML scanner of packaging/verify_release_artifact.py and the check that an
    index.html names only files its wheel carries. */
module ReleaseArtifact {
  import opened Outcomes
  import opened Text
  import Ordering

  type Attributes = map<string, string>

  // ------------------------------------------------------------------ the scanner

  /** What one turn of `_attributes` finds in what is left of a tag: nothing more, an attribute it
      skips, or an attribute (with an empty name when there is none). */
  datatype Reading = End | Skipped(rest: string) | Found(name: string, value: string, rest: string)

  function ReadAttribute(rest: string): (r: Reading)
    ensures !r.End? ==> |r.rest| < |rest|
  {
    var equals := Find(rest, "=", 0);
    if equals == -1 then End
    else ReadValue(Lower(LastWord(rest[..equals])), LStrip(rest[equals + 1..]))
  }

  function ReadValue(name: string, remainder: string): (r: Reading)
    ensures !r.End? ==> |r.rest| <= |remainder|
  {
    if remainder == [] || (remainder[0] != '"' && remainder[0] != '\'') then Skipped(remainder)
    else
      var close := Find(remainder, [remainder[0]], 1);
      if close == -1 then End else Found(name, remainder[1..close], remainder[close + 1..])
  }

  function Keep(found: Attributes, name: string, value: string): Attributes {
    if name != [] then found[name := value] else found
  }

  /** The attribute map of what is left of a tag, added to those found so far. */
  function AttributesOf(rest: string, found: Attributes): Attributes
    decreases |rest|
  {
    match ReadAttribute(rest)
    case End => found
    case Skipped(rest') => AttributesOf(rest', found)
    case Found(name, value, rest') => AttributesOf(rest', Keep(found, name, value))
  }

  method ScanAttributes(tag: string) returns (result: Attributes)
    ensures result == AttributesOf(tag, map[])
  {
    result := map[];
    var rest := tag;
    while true
      invariant AttributesOf(rest, result) == AttributesOf(tag, map[])
      decreases |rest|
    {
      ghost var reading := ReadAttribute(rest);
      var equals := Find(rest, "=", 0);
      if equals == -1 {
        break;
      }
      var name := Lower(LastWord(rest[..equals]));
      var remainder := LStrip(rest[equals + 1..]);
      assert reading == ReadValue(name, remainder);
      if remainder == [] || (remainder[0] != '"' && remainder[0] != '\'') {
        assert reading == Skipped(remainder);
        rest := remainder;
        continue;
      }
      var close := Find(remainder, [remainder[0]], 1);
      if close == -1 {
        break;
      }
      assert reading == Found(name, remainder[1..close], remainder[close + 1..]);
      if name != [] {
        result := result[name := remainder[1..close]];
      }
      rest := remainder[close + 1..];
    }
  }

  /** The names the scanner is asked for: `script`, `link`, `meta`. */
  predicate TagName(name: string) {
    name != [] && NoSpace(name) && Lacks(name, '<') && Lacks(name, '>') && Lacks(name, '/') && Lower(name) == name
  }

  predicate Boundary(c: char) {
    c == ' ' || c == '\t' || c == '\n' || c == '\r' || c == '>' || c == '/'
  }

  /** Where the tag that starts at `start` ends: past its name, because a name holds no `>`. */
  lemma {:induction false} TagEndsAfterName(html: string, name: string, from: nat, start: nat)
    requires TagName(name) && Find(Lower(html), "<" + name, from) == start
    ensures var end := Find(html, ">", start); end == -1 || start + 1 + |name| <= end < |html|
  {
    FindIsFirst(Lower(html), "<" + name, from);
    var end := Find(html, ">", start);
    FindIsFirst(html, ">", start);
    CharOccurs(html, '>', end);
    forall k | start <= k < start + 1 + |name|
      ensures html[k] != '>'
    {
      OccurrenceAgrees(Lower(html), "<" + name, start, k - start);
    }
  }

  /** The next tag whose name starts with `name`: where its name ends, and where the tag does. */
  datatype Sighting = NoTag | TagAt(after: nat, end: nat)

  function NextTag(html: string, name: string, from: nat): (r: Sighting)
    requires TagName(name)
    ensures r.TagAt? ==> from < r.after <= r.end < |html|
  {
    var start := Find(Lower(html), "<" + name, from);
    if start == -1 then NoTag
    else
      TagEndsAfterName(html, name, from, start);
      var end := Find(html, ">", start);
      if end == -1 then NoTag else TagAt(start + 1 + |name|, end)
  }

  /** Where the tags found lie: for each, the text from after its name to its `>`. */
  datatype Ranges = Nil | Cons(after: nat, end: nat, rest: Ranges)

  /** A tag is kept when its name ends where `name` does, unlike `<metadata`. */
  function Prepend(kept: bool, after: nat, end: nat, rest: Ranges): Ranges {
    if kept then Cons(after, end, rest) else rest
  }

  /** The tags called `name`, from position `from` on. */
  function TagRanges(html: string, name: string, from: nat): Ranges
    requires TagName(name)
    decreases |html| - from
  {
    match NextTag(html, name, from)
    case NoTag => Nil
    case TagAt(after, end) => Prepend(Boundary(html[after]), after, end, TagRanges(html, name, end))
  }

  /** Python's `s[i:j]`, for `i` and `j` that are not negative. */
  function Slice(s: string, i: nat, j: nat): string {
    if i <= j <= |s| then s[i..j] else if i <= |s| < j then s[i..] else []
  }

  function Maps(html: string, ranges: Ranges): seq<Attributes> {
    match ranges
    case Nil => []
    case Cons(after, end, rest) => [AttributesOf(Slice(html, after, end), map[])] + Maps(html, rest)
  }

  /** The attribute maps of the tags called `name`. */
  function TagsOf(html: string, name: string): seq<Attributes>
    requires TagName(name)
  {
    Maps(html, TagRanges(html, name, 0))
  }

  lemma {:induction false} NextTagIs(html: string, name: string, from: nat, start: nat, end: nat)
    requires TagName(name) && Find(Lower(html), "<" + name, from) == start && Find(html, ">", start) == end
    ensures start + 1 + |name| <= end < |html| && NextTag(html, name, from) == TagAt(start + 1 + |name|, end)
  {
    TagEndsAfterName(html, name, from, start);
  }

  lemma {:induction false} TagRangesContinue(html: string, name: string, from: nat, after: nat, end: nat)
    requires TagName(name) && NextTag(html, name, from) == TagAt(after, end)
    ensures TagRanges(html, name, from) == Prepend(Boundary(html[after]), after, end, TagRanges(html, name, end))
  {
  }

  /** What is found at a tag goes before what is found after it. */
  lemma {:induction false} MapsPrepend(html: string, found: seq<Attributes>, kept: bool, after: nat, end: nat,
                                       rest: Ranges)
    ensures found + Maps(html, Prepend(kept, after, end, rest))
         == (if kept then found + [AttributesOf(Slice(html, after, end), map[])] else found) + Maps(html, rest)
  {
    if kept {
      Regroup(found, [AttributesOf(Slice(html, after, end), map[])], Maps(html, rest));
    }
  }

  method ScanTags(html: string, name: string) returns (found: seq<Attributes>)
    requires TagName(name)
    ensures found == TagsOf(html, name)
  {
    found := [];
    var lowered := Lower(html);
    var needle := "<" + name;
    var start := Find(lowered, needle, 0);
    ghost var from := 0;
    while start != -1
      invariant 0 <= from <= |html| && start == Find(lowered, needle, from)
      invariant found + Maps(html, TagRanges(html, name, from)) == TagsOf(html, name)
      decreases |html| - from
    {
      var end := Find(html, ">", start);
      if end == -1 {
        break;
      }
      NextTagIs(html, name, from, start, end);
      var after := start + |needle|;
      TagRangesContinue(html, name, from, after, end);
      MapsPrepend(html, found, Boundary(html[after]), after, end, TagRanges(html, name, end));
      if Boundary(html[after]) {
        var attributes := ScanAttributes(html[after..end]);
        found := found + [attributes];
      }
      start := Find(lowered, needle, end);
      from := end;
    }
    assert NextTag(html, name, from) == NoTag;
  }

  // ------------------------------------------------------------------ documents, printed

  datatype Attribute =
    | Quoted(before: string, name: string, mid: string, after: string, quote: char, value: string)
    | Loose(before: string, name: string, mid: string, after: string, value: string)
    | Bare(before: string, name: string)

  datatype Piece =
    | Run(text: string)
    | Tag(closing: bool, name: string, attributes: seq<Attribute>, tail: string)

  function PrintAttribute(a: Attribute): string {
    match a
    case Quoted(before, name, mid, after, quote, value) =>
      before + name + mid + "=" + after + [quote] + value + [quote]
    case Loose(before, name, mid, after, value) => before + name + mid + "=" + after + value
    case Bare(before, name) => before + name
  }

  function PrintAttributes(attributes: seq<Attribute>): string {
    if attributes == [] then [] else PrintAttribute(attributes[0]) + PrintAttributes(attributes[1..])
  }

  /** What follows the name of a tag. */
  function Body(piece: Piece): string
    requires piece.Tag?
  {
    PrintAttributes(piece.attributes) + piece.tail
  }

  function PrintPiece(piece: Piece): string {
    match piece
    case Run(text) => text
    case Tag(closing, name, _, _) => "<" + (if closing then "/" else "") + name + Body(piece) + ">"
  }

  function Print(pieces: seq<Piece>): string {
    if pieces == [] then [] else PrintPiece(pieces[0]) + Print(pieces[1..])
  }

  predicate NoMarkup(s: string) { Lacks(s, '<') && Lacks(s, '>') }

  predicate AttributeName(name: string) {
    name != [] && NoSpace(name) && Lacks(name, '=') && NoMarkup(name)
  }

  /** An attribute set off by whitespace; a quoted value holds neither its own quote nor `<` nor `>`, and one without
      quotes no `=` either. */
  predicate ValidAttribute(a: Attribute) {
    && a.before != [] && AllSpace(a.before) && AttributeName(a.name)
    && (a.Quoted? ==>
          && AllSpace(a.mid) && AllSpace(a.after)
          && (a.quote == '"' || a.quote == '\'') && Lacks(a.value, a.quote) && NoMarkup(a.value))
    && (a.Loose? ==>
          && AllSpace(a.mid) && AllSpace(a.after) && Lacks(a.value, '=') && NoMarkup(a.value)
          && a.value != [] && !IsSpace(a.value[0]) && a.value[0] != '"' && a.value[0] != '\'')
  }

  predicate ValidPiece(piece: Piece) {
    match piece
    case Run(text) => Lacks(text, '<')
    case Tag(_, name, attributes, tail) =>
      && name != [] && NoSpace(name) && NoMarkup(name) && Lacks(name, '/')
      && (forall i | 0 <= i < |attributes| :: ValidAttribute(attributes[i]))
      && NoMarkup(tail) && Lacks(tail, '=') && (tail == [] || IsSpace(tail[0]) || tail[0] == '/')
  }

  /** The map an attribute list denotes: names in lower case, the last of a name winning, attributes
      without a quoted value left out. */
  function Denoted(attributes: seq<Attribute>, found: Attributes): Attributes {
    if attributes == [] then found
    else
      var a := attributes[0];
      Denoted(attributes[1..], if a.Quoted? then found[Lower(a.name) := a.value] else found)
  }

  predicate Named(piece: Piece, name: string) {
    piece.Tag? && !piece.closing && Lower(piece.name) == name
  }

  /** The tag's name is followed by a character the scanner ends a name at. */
  predicate Separated(piece: Piece)
    requires piece.Tag?
  {
    Body(piece) == [] || Body(piece)[0] in " \t\n\r/"
  }

  /** The tags of a document that are called `name` and separated. */
  function TagsNamed(pieces: seq<Piece>, name: string): (tags: seq<Piece>)
    ensures forall i | 0 <= i < |tags| :: tags[i] in pieces && Named(tags[i], name) && Separated(tags[i])
  {
    if pieces == [] then []
    else (if Named(pieces[0], name) && Separated(pieces[0]) then [pieces[0]] else []) + TagsNamed(pieces[1..], name)
  }

  function Denotations(tags: seq<Piece>): seq<Attributes>
    requires forall i | 0 <= i < |tags| :: tags[i].Tag?
  {
    seq(|tags|, i requires 0 <= i < |tags| => Denoted(tags[i].attributes, map[]))
  }

  // ------------------------------------------------------------------ the scanner undoes the printer

  lemma {:induction false} PrintedAttributesHaveNoMarkup(attributes: seq<Attribute>)
    requires forall i | 0 <= i < |attributes| :: ValidAttribute(attributes[i])
    ensures NoMarkup(PrintAttributes(attributes))
    ensures attributes != [] ==> PrintAttributes(attributes) != [] && IsSpace(PrintAttributes(attributes)[0])
  {
    if attributes != [] {
      PrintedAttributesHaveNoMarkup(attributes[1..]);
      PrintedAttributeHasNoMarkup(attributes[0]);
    }
  }

  lemma {:induction false} PrintedAttributeHasNoMarkup(a: Attribute)
    requires ValidAttribute(a)
    ensures NoMarkup(PrintAttribute(a)) && PrintAttribute(a) != [] && IsSpace(PrintAttribute(a)[0])
  {
    SpaceHasNoMarkup(a.before);
    assert IsSpace(a.before[0]);
    if !a.Bare? {
      SpaceHasNoMarkup(a.mid);
      SpaceHasNoMarkup(a.after);
    }
  }

  lemma {:induction false} SpaceHasNoMarkup(s: string)
    requires AllSpace(s)
    ensures NoMarkup(s) && Lacks(s, '=')
  {
    forall i | 0 <= i < |s|
      ensures s[i] != '<' && s[i] != '>' && s[i] != '='
    {
      assert IsSpace(s[i]);
    }
  }

  lemma {:induction false} QuotedValueIsRead(name: string, quote: char, value: string, rest: string)
    requires (quote == '"' || quote == '\'') && Lacks(value, quote)
    ensures ReadValue(name, [quote] + value + [quote] + rest) == Found(name, value, rest)
  {
    var quoted := [quote] + value + [quote] + rest;
    FindChar(quoted, quote, 1, 1 + |value|);
    assert quoted[1..1 + |value|] == value;
    assert quoted[1 + |value| + 1..] == rest;
  }

  /** A name, an equals sign and a value are split at the equals sign. */
  lemma {:induction false} NameIsRead(junk: string, name: string, mid: string, after: string, quoted: string)
    requires Lacks(junk, '=') && (junk == [] || IsSpace(junk[|junk| - 1]))
    requires AttributeName(name) && AllSpace(mid) && AllSpace(after) && quoted != [] && !IsSpace(quoted[0])
    ensures ReadAttribute(junk + name + mid + ("=" + (after + quoted))) == ReadValue(Lower(name), quoted)
  {
    var head := junk + name + mid;
    var s := head + ("=" + (after + quoted));
    SpaceHasNoMarkup(mid);
    FindChar(s, '=', 0, |head|);
    assert s[..|head|] == head;
    LastWordIs(junk, name, mid);
    assert s[|head| + 1..] == after + quoted;
    LStripDrops(after, quoted);
  }

  lemma {:induction false} QuotedShape(junk: string, a: Attribute, rest: string)
    requires a.Quoted?
    ensures junk + PrintAttribute(a) + rest
         == (junk + a.before) + a.name + a.mid + ("=" + (a.after + ([a.quote] + a.value + [a.quote] + rest)))
  {
  }

  /** One quoted attribute is read off the front, whatever valueless attributes came before it. */
  lemma {:induction false} QuotedIsRead(junk: string, a: Attribute, rest: string)
    requires ValidAttribute(a) && a.Quoted? && Lacks(junk, '=')
    ensures ReadAttribute(junk + PrintAttribute(a) + rest) == Found(Lower(a.name), a.value, rest)
  {
    QuotedShape(junk, a, rest);
    SpaceHasNoMarkup(a.before);
    NameIsRead(junk + a.before, a.name, a.mid, a.after, [a.quote] + a.value + [a.quote] + rest);
    QuotedValueIsRead(Lower(a.name), a.quote, a.value, rest);
  }

  lemma {:induction false} LooseShape(junk: string, a: Attribute, rest: string)
    requires a.Loose?
    ensures junk + PrintAttribute(a) + rest
         == (junk + a.before) + a.name + a.mid + ("=" + (a.after + (a.value + rest)))
  {
  }

  /** A value without quotes is stepped over: what follows its equals sign is read on. */
  lemma {:induction false} LooseIsSkipped(junk: string, a: Attribute, rest: string)
    requires ValidAttribute(a) && a.Loose? && Lacks(junk, '=')
    ensures ReadAttribute(junk + PrintAttribute(a) + rest) == Skipped(a.value + rest)
  {
    LooseShape(junk, a, rest);
    SpaceHasNoMarkup(a.before);
    assert (a.value + rest)[0] == a.value[0];
    NameIsRead(junk + a.before, a.name, a.mid, a.after, a.value + rest);
  }

  /** A quote that is never closed ends the reading; a quoted value without a name is dropped. */
  lemma {:induction false} OddValuesAreDropped(junk: string, quote: char, value: string, rest: string,
                                               found: Attributes)
    requires Lacks(junk, '=') && (quote == '"' || quote == '\'') && Lacks(value, quote)
    ensures AttributesOf(junk + ("=" + ([] + ([quote] + value))), found) == found
    ensures AllSpace(junk) ==>
              AttributesOf(junk + ("=" + ([] + ([quote] + value + [quote] + rest))), found) == AttributesOf(rest, found)
  {
    SplitAtEquals(junk, [quote] + value);
    FindCharFails([quote] + value, quote, 1);
    SplitAtEquals(junk, [quote] + value + [quote] + rest);
    QuotedValueIsRead(Lower(LastWord(junk)), quote, value, rest);
    if AllSpace(junk) {
      BlankHasNoWord(junk);
    }
  }

  lemma {:induction false} BlankHasNoWord(s: string)
    requires AllSpace(s)
    ensures LastWord(s) == []
  {
    if s != [] {
      assert IsSpace(s[|s| - 1]);
      BlankHasNoWord(s[..|s| - 1]);
    }
  }

  lemma {:induction false} SplitAtEquals(junk: string, quoted: string)
    requires Lacks(junk, '=') && quoted != [] && !IsSpace(quoted[0])
    ensures ReadAttribute(junk + ("=" + ([] + quoted))) == ReadValue(Lower(LastWord(junk)), quoted)
  {
    var s := junk + ("=" + ([] + quoted));
    FindChar(s, '=', 0, |junk|);
    assert s[..|junk|] == junk && s[|junk| + 1..] == [] + quoted;
    LStripDrops([], quoted);
  }

  lemma {:induction false} FirstAttributeShape(junk: string, attributes: seq<Attribute>, tail: string)
    requires attributes != []
    ensures junk + PrintAttributes(attributes) + tail
         == junk + PrintAttribute(attributes[0]) + (PrintAttributes(attributes[1..]) + tail)
    ensures junk + PrintAttributes(attributes) + tail
         == (junk + PrintAttribute(attributes[0])) + PrintAttributes(attributes[1..]) + tail
  {
    RegroupInner(junk, PrintAttribute(attributes[0]), PrintAttributes(attributes[1..]), tail);
  }

  lemma {:induction false} QuotedStep(junk: string, attributes: seq<Attribute>, tail: string, found: Attributes)
    requires attributes != [] && ValidAttribute(attributes[0]) && attributes[0].Quoted? && Lacks(junk, '=')
    ensures AttributesOf(junk + PrintAttributes(attributes) + tail, found)
         == AttributesOf([] + PrintAttributes(attributes[1..]) + tail,
                         found[Lower(attributes[0].name) := attributes[0].value])
  {
    var rest := PrintAttributes(attributes[1..]) + tail;
    FirstAttributeShape(junk, attributes, tail);
    QuotedIsRead(junk, attributes[0], rest);
    NothingBefore(PrintAttributes(attributes[1..]), tail);
    assert Lower(attributes[0].name) != [];
    hide PrintAttributes, ReadAttribute, ValidAttribute;
  }

  lemma {:induction false} LooseStep(junk: string, attributes: seq<Attribute>, tail: string, found: Attributes)
    requires attributes != [] && ValidAttribute(attributes[0]) && attributes[0].Loose? && Lacks(junk, '=')
    ensures AttributesOf(junk + PrintAttributes(attributes) + tail, found)
         == AttributesOf(attributes[0].value + PrintAttributes(attributes[1..]) + tail, found)
  {
    hide AttributesOf, PrintAttributes, PrintAttribute, ReadAttribute;
    var value, rest := attributes[0].value, PrintAttributes(attributes[1..]) + tail;
    FirstAttributeShape(junk, attributes, tail);
    LooseIsSkipped(junk, attributes[0], rest);
    hide ValidAttribute;
    SkippedStep(junk + PrintAttribute(attributes[0]) + rest, value + rest, found);
    assert value + PrintAttributes(attributes[1..]) + tail == value + rest;
  }

  lemma {:induction false} SkippedStep(s: string, rest: string, found: Attributes)
    requires ReadAttribute(s) == Skipped(rest)
    ensures AttributesOf(s, found) == AttributesOf(rest, found)
  {
  }

  lemma {:induction false} AttributesAreRead(junk: string, attributes: seq<Attribute>, tail: string, found: Attributes)
    requires Lacks(junk, '=') && Lacks(tail, '=')
    requires forall i | 0 <= i < |attributes| :: ValidAttribute(attributes[i])
    ensures AttributesOf(junk + PrintAttributes(attributes) + tail, found) == Denoted(attributes, found)
    decreases |attributes|
  {
    if attributes == [] {
      FindCharFails(junk + PrintAttributes(attributes) + tail, '=', 0);
    } else {
      var a, rest := attributes[0], attributes[1..];
      if a.Quoted? {
        QuotedStep(junk, attributes, tail, found);
        AttributesAreRead([], rest, tail, found[Lower(a.name) := a.value]);
      } else if a.Loose? {
        LooseStep(junk, attributes, tail, found);
        AttributesAreRead(a.value, rest, tail, found);
      } else {
        FirstAttributeShape(junk, attributes, tail);
        SpaceHasNoMarkup(a.before);
        AttributesAreRead(junk + PrintAttribute(a), rest, tail, found);
      }
      hide AttributesOf, PrintAttributes;
    }
  }

  lemma {:induction false} NoTagStartsWithout(html: string, name: string, from: nat, to: nat)
    requires TagName(name) && from <= to <= |html| && forall i | from <= i < to :: html[i] != '<'
    ensures NextTag(html, name, from) == NextTag(html, name, to)
    ensures TagRanges(html, name, from) == TagRanges(html, name, to)
  {
    var lowered, needle := Lower(html), "<" + name;
    forall i | from <= i < to
      ensures !OccursAt(lowered, needle, i)
    {
      if OccursAt(lowered, needle, i) {
        OccurrenceAgrees(lowered, needle, i, 0);
      }
    }
    FindSkips(lowered, needle, from, to);
  }

  /** The characters of a printed tag: `<`, its inside without markup, `>`. */
  function Inside(piece: Piece): string
    requires piece.Tag?
  {
    (if piece.closing then "/" else "") + (piece.name + Body(piece))
  }

  lemma {:induction false} InsideHasNoMarkup(piece: Piece)
    requires piece.Tag? && ValidPiece(piece)
    ensures NoMarkup(Inside(piece))
  {
    PrintedAttributesHaveNoMarkup(piece.attributes);
    hide NoMarkup, PrintAttributes;
    NoMarkupOfConcat(PrintAttributes(piece.attributes), piece.tail);
    NoMarkupOfConcat(piece.name, Body(piece));
    SlashIsNoMarkup();
    NoMarkupOfConcat(if piece.closing then "/" else "", piece.name + Body(piece));
  }

  lemma {:induction false} NoMarkupOfConcat(a: string, b: string)
    requires NoMarkup(a) && NoMarkup(b)
    ensures NoMarkup(a + b)
  {
  }

  lemma {:induction false} SlashIsNoMarkup()
    ensures NoMarkup("/") && NoMarkup("")
  {
  }

  lemma {:induction false} BodyHasNoMarkup(piece: Piece)
    requires piece.Tag? && ValidPiece(piece)
    ensures NoMarkup(Body(piece))
  {
    PrintedAttributesHaveNoMarkup(piece.attributes);
    hide PrintAttributes;
    NoMarkupOfConcat(PrintAttributes(piece.attributes), piece.tail);
  }

  lemma {:induction false} BodyStartsAfterName(piece: Piece)
    requires piece.Tag? && ValidPiece(piece)
    ensures var c := (Body(piece) + ">")[0]; IsSpace(c) || c == '/' || c == '>'
  {
    PrintedAttributesHaveNoMarkup(piece.attributes);
  }

  /** `<`, a text, and `>` stand at position `k`. */
  ghost predicate Brackets(html: string, text: string, k: nat) {
    && k + |text| + 2 <= |html|
    && html[k] == '<' && html[k + 1 + |text|] == '>'
    && html[k + 1..k + 1 + |text|] == text
  }

  lemma {:induction false} BracketsStand(before: string, text: string, after: string)
    ensures Brackets(before + ("<" + text + ">") + after, text, |before|)
  {
  }

  lemma {:induction false} PieceIsBracketed(piece: Piece)
    requires piece.Tag?
    ensures PrintPiece(piece) == "<" + Inside(piece) + ">"
  {
    var slash := if piece.closing then "/" else "";
    RegroupTag(slash, piece.name, Body(piece));
  }

  lemma {:induction false} RegroupTag(slash: string, name: string, body: string)
    ensures "<" + slash + name + body + ">" == "<" + (slash + (name + body)) + ">"
  {
  }

  /** A name that is followed by whitespace, `/` or `>` is read whole. */
  lemma {:induction false} NamesHaveOneLength(word: string, body: string, name: string)
    requires NoSpace(word) && NoMarkup(word) && Lacks(word, '/') && TagName(name)
    requires body != [] && (IsSpace(body[0]) || body[0] == '/' || body[0] == '>')
    requires |name| < |word + body| && Boundary((word + body)[|name|])
    requires forall j | 0 <= j < |name| :: LowerChar((word + body)[j]) == name[j]
    ensures |word| == |name|
  {
    forall j | 0 <= j < |word|
      ensures !Boundary(word[j])
    {
      assert !IsSpace(word[j]);
    }
    forall j | 0 <= j < |name|
      ensures !IsSpace(name[j]) && name[j] != '/' && name[j] != '>'
    {
    }
    assert (word + body)[|word|] == body[0];
  }

  /** A tag with this inside is called `name`, and the name ends at a boundary. */
  predicate HasName(inside: string, name: string) {
    |name| <= |inside| && Lower(inside[..|name|]) == name && Boundary((inside + ">")[|name|])
  }

  predicate Counts(piece: Piece, name: string) {
    Named(piece, name) && Separated(piece)
  }

  /** The inside of a printed tag has the name asked for exactly when the tag does and the name ends
      there. */
  lemma {:induction false} InsideOfPrintedTag(piece: Piece, name: string)
    requires piece.Tag? && ValidPiece(piece) && TagName(name)
    ensures HasName(Inside(piece), name) <==> Counts(piece, name)
    ensures Counts(piece, name) ==> |name| <= |Inside(piece)| && Inside(piece)[|name|..] == Body(piece)
  {
    BodyStartsAfterName(piece);
    if piece.closing {
      ClosingTagHasNoName(piece.name + Body(piece), name);
    } else {
      assert "" + (piece.name + Body(piece)) == piece.name + Body(piece);
      BodyHasNoMarkup(piece);
      NameIsReadWhole(piece.name, Body(piece), name);
    }
  }

  lemma {:induction false} ClosingTagHasNoName(rest: string, name: string)
    requires TagName(name)
    ensures !HasName("/" + rest, name)
  {
    var inside := "/" + rest;
    assert |name| <= |inside| ==> Lower(inside[..|name|])[0] == LowerChar(inside[0]) == '/';
  }

  lemma {:induction false} NameIsReadWhole(word: string, body: string, name: string)
    requires NoSpace(word) && NoMarkup(word) && Lacks(word, '/') && TagName(name)
    requires var c := (body + ">")[0]; IsSpace(c) || c == '/' || c == '>'
    requires Lacks(body, '>')
    ensures HasName(word + body, name) <==> Lower(word) == name && (body == [] || body[0] in " \t\n\r/")
    ensures HasName(word + body, name) ==> (word + body)[|name|..] == body
  {
    var inside := word + body;
    assert Boundary((body + ">")[0]) <==> body == [] || body[0] in " \t\n\r/";
    if HasName(inside, name) {
      forall j | 0 <= j < |name|
        ensures LowerChar((word + (body + ">"))[j]) == name[j]
      {
        assert Lower(inside[..|name|])[j] == LowerChar(inside[j]);
      }
      assert inside + ">" == word + (body + ">");
      NamesHaveOneLength(word, body + ">", name);
      assert inside[..|name|] == word && inside[|name|..] == body;
    } else if Lower(word) == name {
      assert inside[..|name|] == word;
      assert (inside + ">")[|name|] == (body + ">")[0];
    }
  }

  /** A sighting of `name` at a bracketed text is kept when the text has that name. */
  lemma {:induction false} SightedTag(html: string, text: string, k: nat, name: string)
    requires TagName(name) && Brackets(html, text, k) && |name| <= |text|
    requires OccursAt(Lower(html), "<" + name, k)
    ensures Boundary(html[k + 1 + |name|]) <==> HasName(text, name)
  {
    var after, last := k + 1 + |name|, k + 1 + |text|;
    forall j | 0 <= j < |name|
      ensures LowerChar(text[j]) == name[j]
    {
      OccurrenceAgrees(Lower(html), "<" + name, k, 1 + j);
      assert html[k + 1..last][j] == html[k + 1 + j];
    }
    assert Lower(text[..|name|]) == name;
    assert html[after] == (text + ">")[|name|] by {
      assert |name| < |text| ==> html[k + 1..last][|name|] == html[after];
    }
  }

  lemma {:induction false} UnsightedTag(html: string, text: string, k: nat, name: string)
    requires Brackets(html, text, k)
    ensures HasName(text, name) ==> OccursAt(Lower(html), "<" + name, k)
  {
    if HasName(text, name) {
      var lowered := Lower(html);
      forall j | 0 <= j < |name|
        ensures lowered[k + 1 + j] == name[j]
      {
        assert html[k + 1..k + 1 + |text|][j] == html[k + 1 + j];
        assert Lower(text[..|name|])[j] == LowerChar(text[j]);
      }
      assert lowered[k..k + 1 + |name|] == "<" + name;
    }
  }

  lemma {:induction false} TagIsClosed(html: string, text: string, k: nat)
    requires Brackets(html, text, k) && NoMarkup(text)
    ensures forall i | k < i < k + 1 + |text| :: html[i] != '<'
    ensures Find(html, ">", k) == k + 1 + |text|
  {
    var last := k + 1 + |text|;
    forall i | k < i < last
      ensures html[i] != '<' && html[i] != '>'
    {
      assert html[i] == html[k + 1..last][i - k - 1];
    }
    FindChar(html, '>', k, last);
  }

  lemma {:induction false} SightedTagIsScanned(html: string, name: string, k: nat, last: nat, has: bool)
    requires TagName(name) && OccursAt(Lower(html), "<" + name, k) && Find(html, ">", k) == last
    requires k + 1 + |name| < |html| && (Boundary(html[k + 1 + |name|]) <==> has)
    ensures TagRanges(html, name, k) == Prepend(has, k + 1 + |name|, last, TagRanges(html, name, last))
  {
    NextTagIs(html, name, k, k, last);
    TagRangesContinue(html, name, k, k + 1 + |name|, last);
  }

  /** A bracketed text is found when it has the name asked for, and the scan goes on after it. */
  lemma {:induction false} BracketedTagIsScanned(html: string, text: string, k: nat, name: string)
    requires TagName(name) && NoMarkup(text) && Brackets(html, text, k)
    ensures TagRanges(html, name, k)
         == Prepend(HasName(text, name), k + 1 + |name|, k + 1 + |text|, TagRanges(html, name, k + 1 + |text|))
  {
    hide Brackets, TagName, NoMarkup, HasName, OccursAt, TagRanges, NextTag, Boundary, Find;
    TagIsClosed(html, text, k);
    if OccursAt(Lower(html), "<" + name, k) {
      FindHere(Lower(html), "<" + name, k);
      NextTagIs(html, name, k, k, k + 1 + |text|);
      SightedTag(html, text, k, name);
      SightedTagIsScanned(html, name, k, k + 1 + |text|, HasName(text, name));
    } else {
      UnsightedTag(html, text, k, name);
      NotSighted(html, name, k, k + 1 + |text|);
    }
  }

  lemma {:induction false} NotSighted(html: string, name: string, k: nat, last: nat)
    requires TagName(name) && k < last <= |html| && !OccursAt(Lower(html), "<" + name, k)
    requires forall i | k < i < last :: html[i] != '<'
    ensures TagRanges(html, name, k) == TagRanges(html, name, last)
  {
    FindSkips(Lower(html), "<" + name, k, k + 1);
    assert NextTag(html, name, k) == NextTag(html, name, k + 1);
    NoTagStartsWithout(html, name, k + 1, last);
  }

  /** A piece stands in the document at position `k`. */
  ghost predicate StandsAt(html: string, piece: Piece, k: nat) {
    match piece
    case Run(text) => k + |text| <= |html| && forall i | k <= i < k + |text| :: html[i] != '<'
    case Tag(_, _, _, _) => Brackets(html, Inside(piece), k)
  }

  /** The pieces stand one after the other, from position `k`; what follows them closes no tag. */
  ghost predicate LaidOut(html: string, pieces: seq<Piece>, k: nat)
    decreases |pieces|
  {
    if pieces == [] then k <= |html| && forall i | k <= i < |html| :: html[i] != '>'
    else StandsAt(html, pieces[0], k) && LaidOut(html, pieces[1..], k + Width(pieces[0]))
  }

  function Width(piece: Piece): nat {
    match piece
    case Run(text) => |text|
    case Tag(_, _, _, _) => |Inside(piece)| + 2
  }

  lemma {:induction false} PieceStands(before: string, piece: Piece, after: string)
    requires ValidPiece(piece)
    ensures StandsAt(before + PrintPiece(piece) + after, piece, |before|)
    ensures |PrintPiece(piece)| == Width(piece)
  {
    if piece.Tag? {
      PieceIsBracketed(piece);
      BracketsStand(before, Inside(piece), after);
    }
  }

  lemma {:induction false} PrintIsLaidOut(html: string, before: string, pieces: seq<Piece>, after: string)
    requires html == before + (Print(pieces) + after) && forall i | 0 <= i < |pieces| :: ValidPiece(pieces[i])
    requires Lacks(after, '>')
    ensures LaidOut(html, pieces, |before|)
    decreases |pieces|
  {
    hide *;
    if pieces == [] {
      NothingIsLaidOut(before, after);
    } else {
      PrintOfFirst(pieces);
      var first, rest := PrintPiece(pieces[0]), Print(pieces[1..]);
      Regroup(first, rest, after);
      Regroup(before, first, rest + after);
      PieceStands(before, pieces[0], rest + after);
      assert |before + first| == |before| + |first|;
      PrintIsLaidOut(html, before + first, pieces[1..], after);
      FirstIsLaidOut(html, pieces, |before|);
    }
  }

  lemma {:induction false} NothingIsLaidOut(before: string, after: string)
    requires Lacks(after, '>')
    ensures LaidOut(before + (Print([]) + after), [], |before|)
  {
    assert Print([]) + after == after;
  }

  lemma {:induction false} PrintOfFirst(pieces: seq<Piece>)
    requires pieces != []
    ensures Print(pieces) == PrintPiece(pieces[0]) + Print(pieces[1..])
  {
  }

  lemma {:induction false} FirstIsLaidOut(html: string, pieces: seq<Piece>, k: nat)
    requires pieces != []
    ensures LaidOut(html, pieces, k)
        <==> StandsAt(html, pieces[0], k) && LaidOut(html, pieces[1..], k + Width(pieces[0]))
  {
  }

  lemma {:induction false} RunIsScanned(html: string, text: string, k: nat, name: string)
    requires TagName(name) && StandsAt(html, Run(text), k)
    ensures TagRanges(html, name, k) == TagRanges(html, name, k + |text|)
  {
    hide TagName, TagRanges;
    NoTagStartsWithout(html, name, k, k + |text|);
  }

  /** How far the `>` of a tag is from its `<`. */
  function TagLength(piece: Piece): nat {
    match piece
    case Run(_) => 0
    case Tag(_, _, _, _) => 1 + |Inside(piece)|
  }

  /** Where the tags that count lie in a document laid out from position `k`. */
  function PieceRanges(pieces: seq<Piece>, name: string, k: nat): Ranges
    decreases |pieces|
  {
    if pieces == [] then Nil
    else Prepend(Counts(pieces[0], name), k + 1 + |name|, k + TagLength(pieces[0]),
                 PieceRanges(pieces[1..], name, k + Width(pieces[0])))
  }

  lemma {:induction false} PieceIsScanned(html: string, piece: Piece, k: nat, name: string)
    requires TagName(name) && ValidPiece(piece) && StandsAt(html, piece, k)
    ensures TagRanges(html, name, k)
         == Prepend(Counts(piece, name), k + 1 + |name|, k + TagLength(piece), TagRanges(html, name, k + Width(piece)))
  {
    hide Brackets, TagName, NoMarkup, HasName, Inside, TagRanges, NextTag, Body;
    if piece.Run? {
      RunIsScanned(html, piece.text, k, name);
    } else {
      InsideHasNoMarkup(piece);
      InsideOfPrintedTag(piece, name);
      BracketedTagIsScanned(html, Inside(piece), k, name);
      TagEndIsNoStart(html, Inside(piece), k, name);
    }
  }

  lemma {:induction false} TagEndIsNoStart(html: string, text: string, k: nat, name: string)
    requires TagName(name) && Brackets(html, text, k)
    ensures TagRanges(html, name, k + 1 + |text|) == TagRanges(html, name, k + 2 + |text|)
  {
    NoTagStartsWithout(html, name, k + 1 + |text|, k + 2 + |text|);
  }

  lemma {:induction false} LayoutIsScanned(html: string, pieces: seq<Piece>, k: nat, name: string)
    requires TagName(name) && (forall i | 0 <= i < |pieces| :: ValidPiece(pieces[i])) && LaidOut(html, pieces, k)
    ensures TagRanges(html, name, k) == PieceRanges(pieces, name, k)
    decreases |pieces|
  {
    hide TagRanges, StandsAt, TagName, Prepend, Counts, ValidPiece, Width, TagLength, PieceRanges;
    if pieces == [] {
      NothingBeyond(html, k, name);
    } else {
      hide LaidOut;
      FirstIsLaidOut(html, pieces, k);
      LayoutIsScanned(html, pieces[1..], k + Width(pieces[0]), name);
      RangesOfFirst(pieces, k, name);
      PieceIsScanned(html, pieces[0], k, name);
    }
  }

  lemma {:induction false} NothingBeyond(html: string, k: nat, name: string)
    requires TagName(name) && k <= |html| && forall i | k <= i < |html| :: html[i] != '>'
    ensures TagRanges(html, name, k) == Nil == PieceRanges([], name, k)
  {
    var start := Find(Lower(html), "<" + name, k);
    if start != -1 {
      FindCharFails(html, '>', start);
    }
    assert NextTag(html, name, k) == NoTag;
  }

  lemma {:induction false} TagTextIsBody(html: string, piece: Piece, k: nat, name: string)
    requires TagName(name) && ValidPiece(piece) && StandsAt(html, piece, k) && Counts(piece, name)
    ensures Slice(html, k + 1 + |name|, k + TagLength(piece)) == Body(piece)
  {
    InsideOfPrintedTag(piece, name);
    var last := k + 1 + |Inside(piece)|;
    assert html[k + 1 + |name|..last] == html[k + 1..last][|name|..];
  }

  function Contribution(piece: Piece, name: string): seq<Attributes> {
    if Counts(piece, name) then [Denoted(piece.attributes, map[])] else []
  }

  lemma {:induction false} TagDenotes(html: string, piece: Piece, k: nat, name: string, rest: Ranges)
    requires TagName(name) && ValidPiece(piece) && StandsAt(html, piece, k)
    ensures Maps(html, Prepend(Counts(piece, name), k + 1 + |name|, k + TagLength(piece), rest))
         == Contribution(piece, name) + Maps(html, rest)
  {
    hide Maps, Prepend, TagLength, StandsAt, ValidPiece, Separated, Denoted, AttributesOf, Body, TagName;
    MapsPrepend(html, [], Counts(piece, name), k + 1 + |name|, k + TagLength(piece), rest);
    NothingBefore(Maps(html, Prepend(Counts(piece, name), k + 1 + |name|, k + TagLength(piece), rest)), []);
    if Counts(piece, name) {
      TagTextIsBody(html, piece, k, name);
      BodyIsRead(piece);
    }
  }

  lemma {:induction false} RangesOfFirst(pieces: seq<Piece>, k: nat, name: string)
    requires pieces != []
    ensures PieceRanges(pieces, name, k)
         == Prepend(Counts(pieces[0], name), k + 1 + |name|, k + TagLength(pieces[0]),
                    PieceRanges(pieces[1..], name, k + Width(pieces[0])))
  {
  }

  lemma {:induction false} FirstDenotes(html: string, pieces: seq<Piece>, k: nat, name: string)
    requires TagName(name) && pieces != [] && ValidPiece(pieces[0]) && StandsAt(html, pieces[0], k)
    requires Maps(html, PieceRanges(pieces[1..], name, k + Width(pieces[0])))
             == Denotations(TagsNamed(pieces[1..], name))
    ensures Maps(html, PieceRanges(pieces, name, k)) == Denotations(TagsNamed(pieces, name))
  {
    hide Maps, TagName, ValidPiece, StandsAt, Denotations, TagsNamed, Width, PieceRanges, Prepend, Counts, TagLength,
         Contribution;
    var rest := PieceRanges(pieces[1..], name, k + Width(pieces[0]));
    RangesOfFirst(pieces, k, name);
    DenotationsOfFirst(pieces, name);
    TagDenotes(html, pieces[0], k, name, rest);
    SameHeadSameWhole(Maps(html, PieceRanges(pieces, name, k)), Contribution(pieces[0], name),
          Maps(html, rest), Denotations(TagsNamed(pieces[1..], name)), Denotations(TagsNamed(pieces, name)));
  }

  lemma {:induction false} LayoutDenotes(html: string, pieces: seq<Piece>, k: nat, name: string)
    requires TagName(name) && (forall i | 0 <= i < |pieces| :: ValidPiece(pieces[i])) && LaidOut(html, pieces, k)
    ensures Maps(html, PieceRanges(pieces, name, k)) == Denotations(TagsNamed(pieces, name))
    decreases |pieces|
  {
    if pieces != [] {
      hide Maps, TagName, ValidPiece, StandsAt, Denotations, TagsNamed, Width, PieceRanges, LaidOut;
      FirstIsLaidOut(html, pieces, k);
      LayoutDenotes(html, pieces[1..], k + Width(pieces[0]), name);
      FirstDenotes(html, pieces, k, name);
    }
  }

  lemma {:induction false} DenotationsOfConcat(a: seq<Piece>, b: seq<Piece>)
    requires forall i | 0 <= i < |a| :: a[i].Tag?
    requires forall i | 0 <= i < |b| :: b[i].Tag?
    ensures forall i | 0 <= i < |a + b| :: (a + b)[i].Tag?
    ensures Denotations(a + b) == Denotations(a) + Denotations(b)
  {
    hide Denoted;
  }

  lemma {:induction false} DenotationsOfFirst(pieces: seq<Piece>, name: string)
    requires pieces != []
    ensures Denotations(TagsNamed(pieces, name))
         == Contribution(pieces[0], name) + Denotations(TagsNamed(pieces[1..], name))
  {
    hide Denoted, Separated;
    var first := if Counts(pieces[0], name) then [pieces[0]] else [];
    assert TagsNamed(pieces, name) == first + TagsNamed(pieces[1..], name);
    assert Denotations(first) == Contribution(pieces[0], name);
    hide Denotations, TagsNamed, Contribution;
    DenotationsOfConcat(first, TagsNamed(pieces[1..], name));
  }

  /** Scanning a printed document returns the attribute maps of the tags with that name, in order. What follows it and
      closes no tag, as a tag that is cut off, adds nothing. */
  lemma {:induction false} ScannerUndoesPrinter(pieces: seq<Piece>, after: string, name: string)
    requires TagName(name) && (forall i | 0 <= i < |pieces| :: ValidPiece(pieces[i])) && Lacks(after, '>')
    ensures TagsOf(Print(pieces) + after, name) == Denotations(TagsNamed(pieces, name))
    ensures after == [] ==> Print(pieces) + after == Print(pieces)
  {
    var html := Print(pieces) + after;
    NothingBefore(html, []);
    PrintIsLaidOut(html, [], pieces, after);
    LayoutIsScanned(html, pieces, 0, name);
    LayoutDenotes(html, pieces, 0, name);
  }

  lemma {:induction false} BodyIsRead(tag: Piece)
    requires tag.Tag? && ValidPiece(tag)
    ensures AttributesOf(Body(tag), map[]) == Denoted(tag.attributes, map[])
  {
    AttributesAreRead([], tag.attributes, tag.tail, map[]);
    NothingBefore(PrintAttributes(tag.attributes), tag.tail);
  }

  /** Of the quoted attributes with a name, in any case, the last one's value is denoted; no other attribute counts. */
  predicate IsLastNamed(attributes: seq<Attribute>, j: int, key: string) {
    && 0 <= j < |attributes| && attributes[j].Quoted? && Lower(attributes[j].name) == key
    && forall k | j < k < |attributes| :: !(attributes[k].Quoted? && Lower(attributes[k].name) == key)
  }

  lemma {:induction false} LastNamedIsDenoted(attributes: seq<Attribute>, found: Attributes, key: string)
    ensures forall j | IsLastNamed(attributes, j, key) ::
              key in Denoted(attributes, found) && Denoted(attributes, found)[key] == attributes[j].value
    ensures (forall j :: !IsLastNamed(attributes, j, key)) ==>
              (key in Denoted(attributes, found) <==> key in found)
              && (key in found ==> Denoted(attributes, found)[key] == found[key])
    ensures key in Denoted(attributes, found) <==> key in found || exists j :: IsLastNamed(attributes, j, key)
    decreases |attributes|
  {
    hide Lower;
    if attributes != [] {
      var a, rest := attributes[0], attributes[1..];
      var found' := if a.Quoted? then found[Lower(a.name) := a.value] else found;
      LastNamedIsDenoted(rest, found', key);
      assert forall j | 0 < j < |attributes| :: attributes[j] == rest[j - 1];
      forall j
        ensures j > 0 ==> (IsLastNamed(attributes, j, key) <==> IsLastNamed(rest, j - 1, key))
      {
        LastNamedShifts(attributes, j, key);
      }
      if j :| IsLastNamed(rest, j, key) {
        assert IsLastNamed(attributes, j + 1, key);
      } else if a.Quoted? && Lower(a.name) == key {
        NoneNamed(rest, key);
        assert IsLastNamed(attributes, 0, key);
      }
    }
  }

  lemma {:induction false} LastNamedShifts(attributes: seq<Attribute>, j: int, key: string)
    requires attributes != []
    ensures j > 0 ==> (IsLastNamed(attributes, j, key) <==> IsLastNamed(attributes[1..], j - 1, key))
  {
    hide Lower;
    var rest := attributes[1..];
    assert forall k | 0 < k < |attributes| :: attributes[k] == rest[k - 1];
    if j > 0 && IsLastNamed(attributes, j, key) {
      forall k | j - 1 < k < |rest|
        ensures !(rest[k].Quoted? && Lower(rest[k].name) == key)
      {
        assert rest[k] == attributes[k + 1];
      }
    }
  }

  lemma {:induction false} NoneNamed(attributes: seq<Attribute>, key: string)
    requires forall j :: !IsLastNamed(attributes, j, key)
    ensures forall k | 0 <= k < |attributes| :: !(attributes[k].Quoted? && Lower(attributes[k].name) == key)
  {
    hide Lower;
    if attributes != [] {
      var init, last := attributes[..|attributes| - 1], |attributes| - 1;
      assert !IsLastNamed(attributes, last, key);
      forall j
        ensures !IsLastNamed(init, j, key)
      {
        assert forall k | 0 <= k < |init| :: init[k] == attributes[k];
        assert IsLastNamed(init, j, key) ==> IsLastNamed(attributes, j, key);
      }
      NoneNamed(init, key);
    }
  }

  /** Scanning a printed document for a name returns, in order, the maps of exactly those tags. */
  lemma {:induction false} ScannedTagsAre(pieces: seq<Piece>, name: string) returns (from: seq<nat>)
    requires TagName(name) && forall i | 0 <= i < |pieces| :: ValidPiece(pieces[i])
    ensures |TagsOf(Print(pieces), name)| == |from|
    ensures forall j, k | 0 <= j < k < |from| :: from[j] < from[k]
    ensures forall k | 0 <= k < |from| ::
              && from[k] < |pieces| && pieces[from[k]].Tag?
              && TagsOf(Print(pieces), name)[k] == Denoted(pieces[from[k]].attributes, map[])
    ensures forall i | 0 <= i < |pieces| ::
              i in from
              <==> (&& pieces[i].Tag? && !pieces[i].closing && Lower(pieces[i].name) == name
                    && (Body(pieces[i]) == [] || Body(pieces[i])[0] in " \t\n\r/"))
  {
    hide TagsOf, Print, TagName, ValidPiece, TagsNamed;
    ScannerUndoesPrinter(pieces, [], name);
    from := PlacesOf(pieces, name);
  }

  /** Where the tags that count stand. */
  lemma {:induction false} PlacesOf(pieces: seq<Piece>, name: string) returns (from: seq<nat>)
    ensures ArePlaces(from, pieces, TagsNamed(pieces, name))
    ensures forall i | 0 <= i < |pieces| :: i in from <==> Counts(pieces[i], name)
  {
    hide Counts, TagsNamed, ArePlaces;
    if pieces == [] {
      from := [];
      NoTagsOfNone(name);
    } else {
      var rest := PlacesOf(pieces[1..], name);
      var first: seq<nat> := if Counts(pieces[0], name) then [0] else [];
      from := first + Later(rest);
      TagsOfFirst(pieces, name);
      PlacesGrow(rest, pieces, TagsNamed(pieces[1..], name), Counts(pieces[0], name));
      forall i | 0 <= i < |pieces|
        ensures i in from <==> Counts(pieces[i], name)
      {
        LaterHolds(rest, i);
        assert i > 0 ==> pieces[i] == pieces[1..][i - 1];
      }
    }
  }

  /** The places, in order, where some of the pieces stand. */
  ghost predicate ArePlaces(from: seq<nat>, pieces: seq<Piece>, some: seq<Piece>) {
    && |from| == |some| && (forall j, k | 0 <= j < k < |from| :: from[j] < from[k])
    && forall k | 0 <= k < |from| :: from[k] < |pieces| && pieces[from[k]] == some[k]
  }

  lemma {:induction false} PlacesGrow(rest: seq<nat>, pieces: seq<Piece>, some: seq<Piece>, first: bool)
    requires pieces != [] && ArePlaces(rest, pieces[1..], some)
    ensures first ==> ArePlaces([0] + Later(rest), pieces, [pieces[0]] + some)
    ensures !first ==> ArePlaces([] + Later(rest), pieces, [] + some)
  {
    var later := Later(rest);
    forall k | 0 <= k < |rest|
      ensures later[k] < |pieces| && pieces[later[k]] == some[k]
    {
      assert pieces[rest[k] + 1] == pieces[1..][rest[k]];
    }
    assert ArePlaces(later, pieces, some);
    assert [] + later == later && [] + some == some;
    hide ArePlaces;
    PlaceFirst(later, pieces, some);
  }

  lemma {:induction false} PlaceFirst(later: seq<nat>, pieces: seq<Piece>, some: seq<Piece>)
    requires pieces != [] && ArePlaces(later, pieces, some) && forall k | 0 <= k < |later| :: later[k] > 0
    ensures ArePlaces([0] + later, pieces, [pieces[0]] + some)
  {
    var from, all := [0] + later, [pieces[0]] + some;
    assert forall k | 0 < k < |from| :: from[k] == later[k - 1] && all[k] == some[k - 1];
  }

  /** The same places, one further on. */
  function Later(places: seq<nat>): (later: seq<nat>)
    ensures |later| == |places| && forall k | 0 <= k < |places| :: later[k] == places[k] + 1
  {
    seq(|places|, k requires 0 <= k < |places| => places[k] + 1)
  }

  lemma {:induction false} LaterHolds(places: seq<nat>, i: nat)
    ensures i in Later(places) <==> i > 0 && i - 1 in places
  {
    if i > 0 && i - 1 in places {
      var k :| 0 <= k < |places| && places[k] == i - 1;
      assert Later(places)[k] == i;
    }
  }

  lemma {:induction false} NoTagsOfNone(name: string)
    ensures TagsNamed([], name) == [] && ArePlaces([], [], [])
  {
  }

  lemma {:induction false} TagsOfFirst(pieces: seq<Piece>, name: string)
    requires pieces != []
    ensures TagsNamed(pieces, name)
         == (if Counts(pieces[0], name) then [pieces[0]] else []) + TagsNamed(pieces[1..], name)
  {
  }

  /** Every tag called `name`, whatever follows the name. */
  function AllTagsNamed(pieces: seq<Piece>, name: string): (tags: seq<Piece>)
    ensures forall i | 0 <= i < |tags| :: tags[i].Tag?
  {
    if pieces == [] then []
    else (if Named(pieces[0], name) then [pieces[0]] else []) + AllTagsNamed(pieces[1..], name)
  }

  lemma {:induction false} SeparatedTagsAreAllIff(pieces: seq<Piece>, name: string)
    ensures |TagsNamed(pieces, name)| <= |AllTagsNamed(pieces, name)|
    ensures |TagsNamed(pieces, name)| == |AllTagsNamed(pieces, name)|
        <==> forall i | 0 <= i < |pieces| && Named(pieces[i], name) :: Separated(pieces[i])
    ensures |TagsNamed(pieces, name)| == |AllTagsNamed(pieces, name)|
        ==> TagsNamed(pieces, name) == AllTagsNamed(pieces, name)
  {
    if pieces != [] {
      hide Named, Separated;
      SeparatedTagsAreAllIff(pieces[1..], name);
      assert forall i | 0 < i < |pieces| :: pieces[i] == pieces[1..][i - 1];
    }
  }

  /** Scanning a printed document returns all the tags of that name exactly when each of their names is followed by
      `>`, `/`, a space, a tab or a line end. HTML ends a tag's name at a form feed as well. */
  lemma {:induction false} ScannerSeesAllIff(pieces: seq<Piece>, name: string)
    requires TagName(name) && forall i | 0 <= i < |pieces| :: ValidPiece(pieces[i])
    ensures |TagsOf(Print(pieces), name)| <= |AllTagsNamed(pieces, name)|
    ensures TagsOf(Print(pieces), name) == Denotations(AllTagsNamed(pieces, name))
        <==> forall i | 0 <= i < |pieces| && Named(pieces[i], name) ::
               Body(pieces[i]) == [] || Body(pieces[i])[0] in " \t\n\r/"
  {
    hide TagsOf, Print, TagName, ValidPiece, TagsNamed, AllTagsNamed, Denoted, Named, Body;
    ScannerUndoesPrinter(pieces, [], name);
    SeparatedTagsAreAllIff(pieces, name);
    assert |Denotations(AllTagsNamed(pieces, name))| == |AllTagsNamed(pieces, name)|;
  }

  /** A script whose name is ended by a form feed. */
  function FormFed(value: string): Piece {
    Tag(false, "script", [Quoted("\U{0C}", "src", "", "", '"', value)], "")
  }

  /** The scanner does not see it, whatever it refers to. */
  lemma {:induction false} FormFeedHidesScript(value: string)
    requires Lacks(value, '"') && NoMarkup(value)
    ensures TagName("script") && AllTagsNamed([FormFed(value)], "script") == [FormFed(value)]
    ensures TagsOf(Print([FormFed(value)]), "script") == []
  {
    TagNames();
    var piece := FormFed(value);
    assert ValidPiece(piece) by {
      assert ValidAttribute(piece.attributes[0]);
    }
    assert Lower("script") == "script";
    assert PrintAttributes(piece.attributes)[0] == PrintAttribute(piece.attributes[0])[0] == '\U{0C}';
    assert Named(piece, "script") && !Separated(piece);
    assert TagsNamed([piece], "script") == TagsNamed([], "script");
    hide TagsOf, Print, ValidPiece;
    ScannerUndoesPrinter([piece], [], "script");
  }

  // ------------------------------------------------------------------ the assets a document refers to

  /** The asset a reference points at: what follows the last `assets/`, up to a query or fragment, if that
      `assets/` starts a path segment. */
  function AssetName(value: string): Option<string> {
    var marker := FindLast(value, "assets/", |value|);
    if marker == -1 || (marker > 0 && value[marker - 1] != '/') then None
    else
      var name := Before(Before(value[marker + 7..], '?'), '#');
      if name == [] then None else Some(name)
  }

  function ValueOf(attributes: Attributes, key: string): string {
    if key in attributes then attributes[key] else []
  }

  const REFERENCES: seq<string> := ["src", "href"]

  /** One of the tag's first `keys` references points at the asset `name`. */
  predicate TagRefers(tag: Attributes, keys: nat, name: string)
    requires keys <= 2
  {
    exists k | 0 <= k < keys :: AssetName(ValueOf(tag, REFERENCES[k])) == Some(name)
  }

  predicate Refers(tags: seq<Attributes>, name: string) {
    exists i | 0 <= i < |tags| :: TagRefers(tags[i], 2, name)
  }

  ghost predicate Distinct(s: seq<string>) {
    forall i, j | 0 <= i < j < |s| :: s[i] != s[j]
  }

  /** The `src`, then the `href`, of one tag. */
  method AddAssetsOf(tag: Attributes, before: seq<string>) returns (found: seq<string>)
    requires Distinct(before)
    ensures Distinct(found) && forall name :: name in found <==> (name in before || TagRefers(tag, 2, name))
  {
    found := before;
    for r := 0 to 2
      invariant Distinct(found) && forall name :: name in found <==> (name in before || TagRefers(tag, r, name))
    {
      hide AssetName, ValueOf;
      var name := AssetName(ValueOf(tag, REFERENCES[r]));
      if name.Some? && name.value !in found {
        found := found + [name.value];
      }
    }
  }

  method AddAssets(tags: seq<Attributes>, before: seq<string>) returns (found: seq<string>)
    requires Distinct(before)
    ensures Distinct(found) && forall name :: name in found <==> (name in before || Refers(tags, name))
  {
    hide TagRefers, Distinct;
    found := before;
    for t := 0 to |tags|
      invariant Distinct(found) && forall name :: name in found <==> (name in before || Refers(tags[..t], name))
    {
      assert forall name :: Refers(tags[..t + 1], name)
                            <==> (Refers(tags[..t], name) || TagRefers(tags[t], 2, name)) by {
        assert tags[..t + 1] == tags[..t] + [tags[t]];
        assert forall name :: TagRefers(tags[t], 2, name) ==> TagRefers(tags[..t + 1][t], 2, name);
        assert forall i | 0 <= i < t :: tags[..t + 1][i] == tags[..t][i];
      }
      found := AddAssetsOf(tags[t], found);
    }
    assert tags[..|tags|] == tags;
  }

  lemma {:induction false} TagNames()
    ensures TagName("script") && TagName("link") && TagName("meta")
  {
  }

  function Scripts(html: string): seq<Attributes> { TagNames(); TagsOf(html, "script") }

  function Links(html: string): seq<Attributes> { TagNames(); TagsOf(html, "link") }

  function Metas(html: string): seq<Attributes> { TagNames(); TagsOf(html, "meta") }

  /** Some `script` or `link` of the document points at the asset `name`. */
  predicate RefersTo(html: string, name: string) {
    Refers(Scripts(html), name) || Refers(Links(html), name)
  }

  /** The assets are exactly those some `script` or `link` refers to, each once, in order. */
  method ReferencedAssets(html: string) returns (found: seq<string>)
    ensures forall name :: name in found <==> RefersTo(html, name)
    ensures forall i, j | 0 <= i < j < |found| :: Ordering.StringLe(found[i], found[j]) && found[i] != found[j]
  {
    hide TagName, TagsOf, Refers, Ordering.Sort, Ordering.StringLe;
    TagNames();
    var scripts := ScanTags(html, "script");
    var unsorted := AddAssets(scripts, []);
    var links := ScanTags(html, "link");
    unsorted := AddAssets(links, unsorted);
    found := Ordering.Sort(unsorted, Ordering.StringLe);
    Ordering.StringLeIsPreorder();
    Ordering.SortSorts(unsorted, Ordering.StringLe);
    Ordering.SortKeepsDistinct(unsorted, Ordering.StringLe);
  }

  /** The piece is a tag of that name, and its own `src` or `href` points at the asset. */
  predicate PieceRefers(piece: Piece, name: string, asset: string) {
    Counts(piece, name) && TagRefers(Denoted(piece.attributes, map[]), 2, asset)
  }

  lemma {:induction false} TagsNamedReferIff(pieces: seq<Piece>, name: string, asset: string)
    ensures Refers(Denotations(TagsNamed(pieces, name)), asset)
        <==> exists i | 0 <= i < |pieces| :: PieceRefers(pieces[i], name, asset)
  {
    if pieces == [] {
      assert Denotations(TagsNamed(pieces, name)) == [];
    } else {
      var rest := Denotations(TagsNamed(pieces[1..], name));
      TagsNamedReferIff(pieces[1..], name, asset);
      DenotationsOfFirst(pieces, name);
      ContributionRefersIff(pieces[0], name, asset);
      hide Denotations, TagsNamed, PieceRefers, Contribution;
      RefersOfConcat(Contribution(pieces[0], name), rest, asset);
      assert forall i | 0 < i < |pieces| :: pieces[i] == pieces[1..][i - 1];
    }
  }

  lemma {:induction false} ContributionRefersIff(piece: Piece, name: string, asset: string)
    ensures Refers(Contribution(piece, name), asset) <==> PieceRefers(piece, name, asset)
  {
    hide TagRefers, Denoted, Counts;
    if Counts(piece, name) {
      assert Refers(Contribution(piece, name), asset) <==> TagRefers(Contribution(piece, name)[0], 2, asset);
    }
  }

  lemma {:induction false} RefersOfConcat(a: seq<Attributes>, b: seq<Attributes>, asset: string)
    ensures Refers(a + b, asset) <==> Refers(a, asset) || Refers(b, asset)
  {
    hide TagRefers;
    assert forall i | 0 <= i < |a| :: (a + b)[i] == a[i];
    assert forall i | 0 <= i < |b| :: (a + b)[|a| + i] == b[i];
  }

  /** The attribute is the last quoted `src`, or the last quoted `href`, of its tag, and points at the asset. */
  ghost predicate PointsBy(attributes: seq<Attribute>, j: int, asset: string) {
    && (IsLastNamed(attributes, j, "src") || IsLastNamed(attributes, j, "href"))
    && AssetName(attributes[j].value) == Some(asset)
  }

  lemma {:induction false} DenotedRefersIff(attributes: seq<Attribute>, asset: string)
    ensures TagRefers(Denoted(attributes, map[]), 2, asset) <==> exists j :: PointsBy(attributes, j, asset)
  {
    hide Denoted, AssetName, Lower;
    assert forall j | IsLastNamed(attributes, j, "src") || IsLastNamed(attributes, j, "href") ::
             0 <= j < |attributes| && attributes[j].Quoted?;
    hide IsLastNamed;
    var tag := Denoted(attributes, map[]);
    assert REFERENCES[0] == "src" && REFERENCES[1] == "href";
    assert TagRefers(tag, 2, asset)
        <==> AssetName(ValueOf(tag, "src")) == Some(asset) || AssetName(ValueOf(tag, "href")) == Some(asset);
    KeyPointsIff(attributes, "src", asset);
    KeyPointsIff(attributes, "href", asset);
    if j :| IsLastNamed(attributes, j, "src") && AssetName(attributes[j].value) == Some(asset) {
      assert PointsBy(attributes, j, asset);
    }
    if j :| IsLastNamed(attributes, j, "href") && AssetName(attributes[j].value) == Some(asset) {
      assert PointsBy(attributes, j, asset);
    }
  }

  lemma {:induction false} KeyPointsIff(attributes: seq<Attribute>, key: string, asset: string)
    ensures AssetName(ValueOf(Denoted(attributes, map[]), key)) == Some(asset)
        <==> exists j :: IsLastNamed(attributes, j, key) && AssetName(attributes[j].value) == Some(asset)
  {
    hide Denoted, AssetName;
    NothingIsNoAsset(asset);
    LastNamedIsDenoted(attributes, map[], key);
    if j :| IsLastNamed(attributes, j, key) {
      assert forall k | IsLastNamed(attributes, k, key) :: k == j;
    }
  }

  lemma {:induction false} NothingIsNoAsset(asset: string)
    ensures AssetName([]) != Some(asset)
  {
    FindLastIsLast([], "assets/", 0);
  }

  /** A printed document refers to an asset exactly when one of its `script` or `link` tags does, by the last `src` or
      `href` printed in it. Of the tags it counts the opening ones, in any case, whose name is followed by the end of
      the tag, a space, a tab, a line end or a slash. */
  lemma {:induction false} PrintedReferencesAreFound(pieces: seq<Piece>, asset: string)
    requires forall i | 0 <= i < |pieces| :: ValidPiece(pieces[i])
    ensures RefersTo(Print(pieces), asset)
        <==> exists i, j | 0 <= i < |pieces| && pieces[i].Tag? && PointsBy(pieces[i].attributes, j, asset) ::
               && !pieces[i].closing && (Lower(pieces[i].name) == "script" || Lower(pieces[i].name) == "link")
               && (Body(pieces[i]) == [] || Body(pieces[i])[0] in " \t\n\r/")
  {
    hide TagsOf, Print, TagName, ValidPiece, TagsNamed, Denotations, Refers, PieceRefers, Body, PointsBy;
    TagNames();
    ScannerUndoesPrinter(pieces, [], "script");
    ScannerUndoesPrinter(pieces, [], "link");
    TagsNamedReferIff(pieces, "script", asset);
    TagsNamedReferIff(pieces, "link", asset);
    forall i | 0 <= i < |pieces|
      ensures PieceRefers(pieces[i], "script", asset) || PieceRefers(pieces[i], "link", asset)
          <==> (&& pieces[i].Tag? && (exists j :: PointsBy(pieces[i].attributes, j, asset)) && !pieces[i].closing
                && (Lower(pieces[i].name) == "script" || Lower(pieces[i].name) == "link")
                && (Body(pieces[i]) == [] || Body(pieces[i])[0] in " \t\n\r/"))
    {
      PieceRefersIff(pieces[i], "script", asset);
      PieceRefersIff(pieces[i], "link", asset);
    }
  }

  lemma {:induction false} PieceRefersIff(piece: Piece, name: string, asset: string)
    ensures PieceRefers(piece, name, asset)
        <==> (&& piece.Tag? && (exists j :: PointsBy(piece.attributes, j, asset)) && !piece.closing
              && Lower(piece.name) == name && (Body(piece) == [] || Body(piece)[0] in " \t\n\r/"))
  {
    hide TagRefers, PointsBy, Denoted, Body;
    if piece.Tag? {
      DenotedRefersIff(piece.attributes, asset);
    }
  }

  /** A base: nothing, or a path that ends in `/`. */
  predicate Base(base: string) {
    base == [] || base[|base| - 1] == '/'
  }

  /** Whatever base precedes `assets/`, and whatever query or fragment follows, the name is read back, as
      long as no other `assets/` occurs after it. */
  lemma {:induction false} AssetIsReadWhateverTheBase(base: string, name: string, query: string)
    requires Base(base) && name != [] && Lacks(name, '?') && Lacks(name, '#')
    requires query == [] || query[0] == '?' || (query[0] == '#' && Lacks(query, '?'))
    requires forall i | |base| < i :: !OccursAt(base + "assets/" + name + query, "assets/", i)
    ensures AssetName(base + "assets/" + name + query) == Some(name)
  {
    var value := base + "assets/" + name + query;
    MarkerStands(base, "assets/", name, query);
    hide OccursAt, FindLast, Before;
    FindLastAt(value, "assets/", |value|, |base|);
    NameIsCutOff(name, query);
  }

  lemma {:induction false} MarkerStands(base: string, marker: string, name: string, query: string)
    ensures var value := base + marker + name + query;
            && OccursAt(value, marker, |base|)
            && value[|base| + |marker|..] == name + query
            && (|base| > 0 ==> value[|base| - 1] == base[|base| - 1])
  {
    var value := base + marker + name + query;
    assert value == base + (marker + (name + query));
    assert value[|base|..|base| + |marker|] == marker;
  }

  lemma {:induction false} NameIsCutOff(name: string, query: string)
    requires Lacks(name, '?') && Lacks(name, '#')
    requires query == [] || query[0] == '?' || (query[0] == '#' && Lacks(query, '?'))
    ensures Before(Before(name + query, '?'), '#') == name
  {
    assert name + [] == name;
    if query != [] && query[0] == '#' {
      BeforeIs(name + query, '?', []);
      assert name + query + [] == name + query;
      BeforeIs(name, '#', query);
    } else {
      BeforeIs(name, '?', query);
      BeforeIs(name, '#', []);
    }
  }

  /** The last `assets/` of a reference is at a position. */
  ghost predicate LastMarkerAt(value: string, at: int) {
    OccursAt(value, "assets/", at) && forall i | at < i :: !OccursAt(value, "assets/", i)
  }

  /** A reference points at an asset exactly when its last `assets/` starts a path segment and the asset's name stands
      after it, up to the first `?` or `#`. Every other reference, as to an icon, points at none. */
  lemma {:induction false} AssetNameIff(value: string, asset: string)
    ensures AssetName(value) == Some(asset)
        <==> exists at | LastMarkerAt(value, at) ::
               && (at == 0 || value[at - 1] == '/')
               && asset != [] && Lacks(asset, '?') && Lacks(asset, '#') && asset <= value[at + 7..]
               && (at + 7 + |asset| == |value| || value[at + 7 + |asset|] in "?#")
  {
    FindLastIsLast(value, "assets/", |value|);
    var marker := FindLast(value, "assets/", |value|);
    assert forall i | i > |value| :: !OccursAt(value, "assets/", i);
    assert marker != -1 ==> LastMarkerAt(value, marker);
    assert forall at | LastMarkerAt(value, at) :: at == marker;
    if marker != -1 {
      CutOffIff(value[marker + 7..], asset);
      hide OccursAt, FindLast, Before, LastMarkerAt;
    } else {
      assert forall at :: !LastMarkerAt(value, at);
    }
  }

  lemma {:induction false} CutOffIff(rest: string, name: string)
    ensures Before(Before(rest, '?'), '#') == name
        <==> (&& Lacks(name, '?') && Lacks(name, '#') && name <= rest
              && (|name| == |rest| || rest[|name|] in "?#"))
  {
    if rest == [] {
    } else if rest[0] in "?#" {
    } else {
      var tail := rest[1..];
      assert Before(Before(rest, '?'), '#') == [rest[0]] + Before(Before(tail, '?'), '#') by {
        assert Before(rest, '?') == [rest[0]] + Before(tail, '?');
        assert ([rest[0]] + Before(tail, '?'))[1..] == Before(tail, '?');
      }
      if name != [] {
        CutOffIff(tail, name[1..]);
        assert name == [name[0]] + name[1..];
      }
    }
  }

  /** A later `assets/`, as in `assets/assets/x.js`, is where the name is read from. So the name is read back exactly
      when there is none - or when the last one, in the query, happens to be followed by the same name. */
  lemma {:induction false} AssetIsReadIff(base: string, name: string, query: string)
    requires Base(base) && name != [] && Lacks(name, '?') && Lacks(name, '#')
    requires query == [] || query[0] == '?' || (query[0] == '#' && Lacks(query, '?'))
    ensures var value := base + "assets/" + name + query;
      AssetName(value) == Some(name)
      <==> (forall i | |base| < i :: !OccursAt(value, "assets/", i))
           || exists at | |base| + 7 + |name| < at <= |value| - 7 ::
                LastMarkerAt(value, at) && value[at - 1] == '/' && Before(Before(value[at + 7..], '?'), '#') == name
    ensures query == [] ==>
      var value := base + "assets/" + name;
      AssetName(value) == Some(name) <==> forall i | |base| < i :: !OccursAt(value, "assets/", i)
  {
    var value := base + "assets/" + name + query;
    assert query == [] ==> value == base + "assets/" + name;
    if forall i | |base| < i :: !OccursAt(value, "assets/", i) {
      AssetIsReadWhateverTheBase(base, name, query);
    } else {
      var i :| |base| < i && OccursAt(value, "assets/", i);
      FindLastIsLast(value, "assets/", |value|);
      var marker := FindLast(value, "assets/", |value|);
      hide OccursAt, FindLast, Before;
      LastMarkerDecides(base, name, query, marker);
    }
  }

  lemma {:induction false} LastMarkerDecides(base: string, name: string, query: string, marker: int)
    requires name != [] && Lacks(name, '?') && Lacks(name, '#')
    requires query == [] || query[0] == '?' || (query[0] == '#' && Lacks(query, '?'))
    requires var value := base + "assets/" + name + query;
      |base| < marker == FindLast(value, "assets/", |value|) && LastMarkerAt(value, marker)
    ensures var value := base + "assets/" + name + query;
      AssetName(value) == Some(name)
      <==> exists at | |base| + 7 + |name| < at <= |value| - 7 ::
             LastMarkerAt(value, at) && value[at - 1] == '/' && Before(Before(value[at + 7..], '?'), '#') == name
  {
    var value := base + "assets/" + name + query;
    assert marker <= |value| - 7;
    assert forall at | LastMarkerAt(value, at) :: at == marker;
    if marker <= |base| + 7 + |name| {
      NameIsNotReadInside(base, name, query, marker);
    }
    hide OccursAt, FindLast, Before, LastMarkerAt;
  }

  /** What follows a marker inside the name is shorter than the name. */
  lemma {:induction false} NameIsNotReadInside(base: string, name: string, query: string, marker: int)
    requires name != [] && Lacks(name, '?') && Lacks(name, '#')
    requires query == [] || query[0] == '?' || (query[0] == '#' && Lacks(query, '?'))
    requires |base| < marker <= |base| + 7 + |name|
    requires OccursAt(base + "assets/" + name + query, "assets/", marker)
    ensures Before(Before((base + "assets/" + name + query)[marker + 7..], '?'), '#') != name
  {
    var value := base + "assets/" + name + query;
    var stop := |base| + 7 + |name|;
    MarkerHasNoQuery(value, marker);
    assert query != [] ==> |value| > stop && value[stop] == query[0];
    assert marker + 7 <= stop;
    var inner := name[marker - |base|..];
    assert value[marker + 7..] == inner + query;
    NameIsCutOff(inner, query);
  }

  lemma {:induction false} MarkerHasNoQuery(value: string, marker: int)
    requires OccursAt(value, "assets/", marker)
    ensures forall j | marker <= j < marker + 7 :: value[j] != '?' && value[j] != '#'
  {
    forall j | marker <= j < marker + 7
      ensures value[j] != '?' && value[j] != '#'
    {
      OccurrenceAgrees(value, "assets/", marker, j - marker);
    }
  }

  lemma {:induction false} BeforeIsNoLonger(s: string, c: char)
    ensures |Before(s, c)| <= |s|
  {
  }

  // ------------------------------------------------------------------ the verdict

  const UI_BUILD_META := "ui-build"
  const ASSET_PREFIX := "swe_mux/static/assets/"

  /** The content of the first `meta` tag that is called `ui-build`, unless it is empty. */
  function BuildId(metas: seq<Attributes>): Option<string> {
    if metas == [] then None
    else if ValueOf(metas[0], "name") == UI_BUILD_META then
      (var content := ValueOf(metas[0], "content"); if content == [] then None else Some(content))
    else BuildId(metas[1..])
  }

  /** Tag `k` is the first that is called `ui-build`, and its content is `id`. */
  ghost predicate FirstBuildAt(metas: seq<Attributes>, k: int, id: string) {
    && 0 <= k < |metas| && ValueOf(metas[k], "name") == "ui-build" && ValueOf(metas[k], "content") == id
    && forall j | 0 <= j < k :: ValueOf(metas[j], "name") != "ui-build"
  }

  /** The build's identity is the content of the first tag that is called `ui-build`, unless it is empty. */
  lemma {:induction false} BuildIdIff(metas: seq<Attributes>, id: string)
    ensures BuildId(metas) == Some(id) <==> id != [] && exists k :: FirstBuildAt(metas, k, id)
  {
    hide ValueOf;
    if metas != [] {
      var rest := metas[1..];
      BuildIdIff(rest, id);
      assert forall k | 0 < k < |metas| :: metas[k] == rest[k - 1];
      if ValueOf(metas[0], "name") != "ui-build" {
        if k :| FirstBuildAt(rest, k, id) {
          assert FirstBuildAt(metas, k + 1, id);
        }
        if k :| FirstBuildAt(metas, k, id) {
          forall j | 0 <= j < k - 1
            ensures ValueOf(rest[j], "name") != "ui-build"
          {
            assert rest[j] == metas[j + 1];
          }
          assert FirstBuildAt(rest, k - 1, id);
        }
      } else {
        assert forall k | FirstBuildAt(metas, k, id) :: k == 0;
        assert ValueOf(metas[0], "content") == id ==> FirstBuildAt(metas, 0, id);
      }
    }
  }

  /** The referenced assets that the wheel lacks, in order. */
  method MissingOf(referenced: seq<string>, names: seq<string>) returns (missing: seq<string>)
    requires Ordering.SortedBy(referenced, Ordering.StringLe) && Distinct(referenced)
    ensures forall name :: name in missing <==> (name in referenced && ASSET_PREFIX + name !in names)
    ensures Ordering.SortedBy(missing, Ordering.StringLe) && Distinct(missing)
  {
    hide Ordering.StringLe;
    missing := [];
    for i := 0 to |referenced|
      invariant forall name :: name in missing <==> (name in referenced[..i] && ASSET_PREFIX + name !in names)
      invariant forall k | 0 <= k < |missing| :: missing[k] in referenced[..i]
      invariant Ordering.SortedBy(missing, Ordering.StringLe) && Distinct(missing)
    {
      if ASSET_PREFIX + referenced[i] !in names {
        missing := missing + [referenced[i]];
      }
    }
    assert referenced[..|referenced|] == referenced;
  }

  datatype Verdict = NoIndex | NoReferences | Missing(names: seq<string>) | NoIdentity | Consistent(identity: string)

  /** The check passes exactly when the index is there, refers to at least one asset, refers to none the
      wheel lacks, and carries a build identity. Otherwise it names the first of these that fails. */
  method CheckFrontendConsistency(index: Option<string>, names: seq<string>) returns (v: Verdict)
    ensures v.NoIndex? <==> index.None?
    ensures v.NoReferences? <==> index.Some? && forall name :: !RefersTo(index.value, name)
    ensures v.Missing? <==>
              index.Some? && exists name :: RefersTo(index.value, name) && "swe_mux/static/assets/" + name !in names
    ensures v.Missing? ==>
              && (forall name :: name in v.names
                    <==> (RefersTo(index.value, name) && "swe_mux/static/assets/" + name !in names))
              && forall i, j | 0 <= i < j < |v.names| ::
                   Ordering.StringLe(v.names[i], v.names[j]) && v.names[i] != v.names[j]
    ensures v.Consistent? <==>
              (&& index.Some?
               && (exists name :: RefersTo(index.value, name))
               && (forall name | RefersTo(index.value, name) :: "swe_mux/static/assets/" + name in names)
               && BuildId(Metas(index.value)).Some?)
    ensures v.Consistent? ==> BuildId(Metas(index.value)) == Some(v.identity)
  {
    hide RefersTo, BuildId, TagsOf, TagName, Ordering.StringLe;
    if index.None? {
      return NoIndex;
    }
    var referenced := ReferencedAssets(index.value);
    if referenced == [] {
      return NoReferences;
    }
    assert referenced[0] in referenced;
    var missing := MissingOf(referenced, names);
    if missing != [] {
      assert missing[0] in missing;
      return Missing(missing);
    }
    TagNames();
    var metas := ScanTags(index.value, "meta");
    var identity := BuildId(metas);
    v := if identity.None? then NoIdentity else Consistent(identity.value);
  }
}
