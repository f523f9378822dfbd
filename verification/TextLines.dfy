/** Python's lines of text: `splitlines`, joining, and stripping at both ends. */
module TextLines {
  import opened Text

  // ------------------------------------------------------------------ splitting and joining

  /** The characters `str.splitlines` ends a line at. */
  predicate IsBreak(c: char) {
    || '\n' <= c <= '\r' || '\U{1C}' <= c <= '\U{1E}' || c == '\U{85}' || c == '\U{2028}' || c == '\U{2029}'
  }

  predicate Unbroken(line: string) {
    forall i | 0 <= i < |line| :: !IsBreak(line[i])
  }

  predicate AllUnbroken(lines: seq<string>) {
    forall i | 0 <= i < |lines| :: Unbroken(lines[i])
  }

  function LineEnd(s: string): (end: nat)
    ensures end <= |s| && Unbroken(s[..end]) && (end < |s| ==> IsBreak(s[end]))
  {
    if s == [] || IsBreak(s[0]) then 0
    else
      var rest := LineEnd(s[1..]);
      assert s[..1 + rest] == [s[0]] + s[1..][..rest];
      1 + rest
  }

  /** Where the next line starts: a carriage return and a line feed end a line together. */
  function NextLine(s: string): (next: nat)
    ensures next <= |s| && (s != [] ==> next > 0)
  {
    var end := LineEnd(s);
    if end == |s| then end
    else if s[end] == '\r' && end + 1 < |s| && s[end + 1] == '\n' then end + 2
    else end + 1
  }

  /** `s.splitlines()`. */
  function Lines(s: string): (lines: seq<string>)
    decreases |s|
  {
    if s == [] then [] else [s[..LineEnd(s)]] + Lines(s[NextLine(s)..])
  }

  /** `"\n".join(lines)`. */
  function Join(lines: seq<string>): string {
    if lines == [] then []
    else if |lines| == 1 then lines[0]
    else lines[0] + "\n" + Join(lines[1..])
  }

  /** The text of a file with these lines. */
  function Terminated(lines: seq<string>): string {
    if lines == [] then [] else lines[0] + "\n" + Terminated(lines[1..])
  }

  lemma {:induction false} LinesAreUnbroken(s: string)
    ensures AllUnbroken(Lines(s))
    decreases |s|
  {
    if s != [] {
      LinesAreUnbroken(s[NextLine(s)..]);
    }
  }

  lemma {:induction false} LineEndIs(line: string, rest: string)
    requires Unbroken(line) && (rest == [] || IsBreak(rest[0]))
    ensures LineEnd(line + rest) == |line|
  {
    if line == [] {
      assert line + rest == rest;
    } else {
      assert (line + rest)[1..] == line[1..] + rest;
      LineEndIs(line[1..], rest);
    }
  }

  lemma {:induction false} FirstLine(line: string, rest: string)
    requires Unbroken(line)
    ensures Lines(line + "\n" + rest) == [line] + Lines(rest)
  {
    var s := line + "\n" + rest;
    assert s == line + ("\n" + rest);
    LineEndIs(line, "\n" + rest);
    assert s[..|line|] == line && s[|line| + 1..] == rest;
  }

  /** What ends a line: one of ten characters, a carriage return and a line feed together counting as one. */
  predicate IsEnding(ending: string, rest: string) {
    || ending == "\r\n"
    || (|ending| == 1 && ending[0] in "\n\U{B}\U{C}\r\U{1C}\U{1D}\U{1E}\U{85}\U{2028}\U{2029}"
        && !(ending == "\r" && "\n" <= rest))
  }

  lemma {:induction false} BreakIff(c: char)
    ensures IsBreak(c) <==> c in "\n\U{B}\U{C}\r\U{1C}\U{1D}\U{1E}\U{85}\U{2028}\U{2029}"
  {
    var s := "\n\U{B}\U{C}\r\U{1C}\U{1D}\U{1E}\U{85}\U{2028}\U{2029}";
    assert s[1] == '\U{B}' && s[2] == '\U{C}' && s[5] == '\U{1D}';
  }

  /** Each line is read up to its own ending, whichever that is. */
  lemma {:induction false} LinesOfEnded(line: string, ending: string, rest: string)
    requires Unbroken(line) && IsEnding(ending, rest)
    ensures Lines(line + ending + rest) == [line] + Lines(rest)
  {
    var s := line + ending + rest;
    assert s == line + (ending + rest);
    BreakIff(ending[0]);
    LineEndIs(line, ending + rest);
    assert s[..|line|] == line && s[|line| + |ending|..] == rest;
    assert |s| > |line| + 1 ==> s[|line| + 1] == (if |ending| == 2 then ending[1] else rest[0]);
    assert rest != [] && rest[0] == '\n' ==> "\n" <= rest;
  }

  lemma {:induction false} OnlyLine(line: string)
    requires Unbroken(line) && line != []
    ensures Lines(line) == [line]
  {
    assert line + [] == line;
    LineEndIs(line, []);
    assert line[..|line|] == line;
  }

  lemma {:induction false} JoinOfMore(lines: seq<string>, last: string)
    requires lines != []
    ensures Join(lines + [last]) == Join(lines) + "\n" + last
  {
    var more := lines + [last];
    if |lines| > 1 {
      assert more[1..] == lines[1..] + [last];
      JoinOfMore(lines[1..], last);
      var head, rest := lines[0] + "\n", Join(lines[1..]);
      Regroup(head, rest + "\n", last);
      Regroup(head, rest, "\n");
    } else {
      assert more[1..] == [last];
    }
  }

  lemma {:induction false} LinesOfJoin(lines: seq<string>)
    requires AllUnbroken(lines) && (lines == [] || lines[|lines| - 1] != [])
    ensures Lines(Join(lines)) == lines
  {
    if |lines| == 1 {
      OnlyLine(lines[0]);
      assert lines == [lines[0]];
    } else if lines != [] {
      LinesOfJoin(lines[1..]);
      LinesOfJoinGrow(lines[0], lines[1..]);
      assert [lines[0]] + lines[1..] == lines;
    }
  }

  lemma {:induction false} LinesOfJoinGrow(line: string, rest: seq<string>)
    requires Unbroken(line) && rest != []
    ensures Lines(Join([line] + rest)) == [line] + Lines(Join(rest))
  {
    assert ([line] + rest)[1..] == rest;
    FirstLine(line, Join(rest));
  }

  lemma {:induction false} LinesOfTerminated(lines: seq<string>)
    requires AllUnbroken(lines)
    ensures Lines(Terminated(lines)) == lines
  {
    if lines != [] {
      FirstLine(lines[0], Terminated(lines[1..]));
      LinesOfTerminated(lines[1..]);
    }
  }

  // ------------------------------------------------------------------ stripping

  /** `s.rstrip()`. */
  function RStrip(s: string): (r: string)
    ensures |r| <= |s| && (r == [] || !IsSpace(r[|r| - 1]))
  {
    if s != [] && IsSpace(s[|s| - 1]) then RStrip(s[..|s| - 1]) else s
  }

  /** `s.strip()`. */
  function Strip(s: string): string {
    RStrip(LStrip(s))
  }

  lemma {:induction false} LStripOfConcat(a: string, b: string)
    ensures LStrip(a + b) == if LStrip(a) == [] then LStrip(b) else LStrip(a) + b
  {
    if a == [] {
      assert a + b == b;
    } else {
      assert (a + b)[1..] == a[1..] + b;
      LStripOfConcat(a[1..], b);
    }
  }

  lemma {:induction false} RStripOfConcat(a: string, b: string)
    ensures RStrip(a + b) == if RStrip(b) == [] then RStrip(a) else a + RStrip(b)
  {
    if b == [] {
      assert a + b == a;
    } else {
      assert (a + b)[..|a + b| - 1] == a + b[..|b| - 1];
      RStripOfConcat(a, b[..|b| - 1]);
    }
  }

  /** What is left is what stands between whitespace, and neither begins nor ends with any. */
  ghost predicate IsStripped(s: string, before: string, middle: string, after: string) {
    && s == before + middle + after && AllSpace(before) && AllSpace(after)
    && (middle != [] ==> !IsSpace(middle[0]) && !IsSpace(middle[|middle| - 1]))
  }

  lemma {:induction false} RStripDrops(s: string, space: string)
    requires AllSpace(space) && (s == [] || !IsSpace(s[|s| - 1]))
    ensures RStrip(s + space) == s
  {
    if space == [] {
      assert s + space == s;
    } else {
      assert (s + space)[..|s + space| - 1] == s + space[..|space| - 1];
      RStripDrops(s, space[..|space| - 1]);
    }
  }

  lemma {:induction false} StripIs(s: string, before: string, middle: string, after: string)
    requires IsStripped(s, before, middle, after)
    ensures Strip(s) == middle
  {
    if middle == [] {
      assert s == before + after + [] && AllSpace(before + after);
      LStripDrops(before + after, []);
    } else {
      Regroup(before, middle, after);
      LStripDrops(before, middle + after);
      RStripDrops(middle, after);
    }
  }

  lemma {:induction false} LStripCuts(s: string) returns (before: string)
    ensures AllSpace(before) && s == before + LStrip(s)
  {
    if s != [] && IsSpace(s[0]) {
      var rest := LStripCuts(s[1..]);
      before := [s[0]] + rest;
    } else {
      before := [];
    }
  }

  lemma {:induction false} RStripCuts(s: string) returns (after: string)
    ensures AllSpace(after) && s == RStrip(s) + after
    ensures RStrip(s) != [] ==> RStrip(s)[0] == s[0]
  {
    if s != [] && IsSpace(s[|s| - 1]) {
      var rest := RStripCuts(s[..|s| - 1]);
      after := rest + [s[|s| - 1]];
    } else {
      after := [];
    }
  }

  lemma {:induction false} StripIff(s: string, middle: string)
    ensures Strip(s) == middle <==> exists before, after :: IsStripped(s, before, middle, after)
  {
    if Strip(s) == middle {
      var before := LStripCuts(s);
      var after := RStripCuts(LStrip(s));
      Regroup(before, middle, after);
      assert IsStripped(s, before, middle, after);
    }
    if before, after :| IsStripped(s, before, middle, after) {
      StripIs(s, before, middle, after);
    }
  }

  /** The two ends are stripped independently. */
  lemma {:induction false} StripsCommute(s: string)
    ensures LStrip(RStrip(s)) == RStrip(LStrip(s))
  {
    if s != [] {
      assert s == [s[0]] + s[1..];
      RStripOfConcat([s[0]], s[1..]);
      if IsSpace(s[0]) {
        StripsCommute(s[1..]);
        assert ([s[0]] + RStrip(s[1..]))[1..] == RStrip(s[1..]);
      }
    }
  }

  lemma {:induction false} StripIsIdempotent(s: string)
    ensures Strip(Strip(s)) == Strip(s)
  {
    StripsCommute(LStrip(s));
  }

  lemma {:induction false} StripIgnoresEnds(s: string)
    ensures Strip(LStrip(s)) == Strip(RStrip(s)) == Strip(s)
  {
    StripsCommute(s);
  }

  lemma {:induction false} StripIsEmptyIff(s: string)
    ensures LStrip(s) == [] <==> AllSpace(s)
    ensures RStrip(s) == [] <==> AllSpace(s)
  {
    if s != [] {
      StripIsEmptyIff(s[1..]);
      assert s == [s[0]] + s[1..];
      RStripOfConcat([s[0]], s[1..]);
      assert AllSpace(s) <==> IsSpace(s[0]) && AllSpace(s[1..]);
    }
  }

  // ------------------------------------------------------------------ stripping a text, line by line

  /** The lines left when a text is stripped on the left. */
  function TrimHead(lines: seq<string>): seq<string> {
    if lines == [] then []
    else if LStrip(lines[0]) == [] then TrimHead(lines[1..])
    else [LStrip(lines[0])] + lines[1..]
  }

  /** The lines left when a text is stripped on the right. */
  function TrimTail(lines: seq<string>): (trimmed: seq<string>)
    ensures trimmed == [] || trimmed[|trimmed| - 1] != []
  {
    if lines == [] then []
    else
      var rest := TrimTail(lines[1..]);
      if rest != [] then [lines[0]] + rest
      else if RStrip(lines[0]) == [] then []
      else [RStrip(lines[0])]
  }

  lemma {:induction false} LStripOfJoin(lines: seq<string>)
    ensures LStrip(Join(lines)) == Join(TrimHead(lines))
  {
    if |lines| > 1 {
      var rest := Join(lines[1..]);
      LStripOfConcat("\n", rest);
      LStripOfConcat(lines[0], "\n" + rest);
      Regroup(lines[0], "\n", rest);
      if LStrip(lines[0]) == [] {
        LStripOfJoin(lines[1..]);
      } else {
        Regroup(LStrip(lines[0]), "\n", rest);
        assert ([LStrip(lines[0])] + lines[1..])[1..] == lines[1..];
      }
    } else if |lines| == 1 {
      assert TrimHead(lines[1..]) == [];
    }
  }

  lemma {:induction false} RStripOfJoin(lines: seq<string>)
    ensures RStrip(Join(lines)) == Join(TrimTail(lines))
    ensures Join(TrimTail(lines)) == [] <==> TrimTail(lines) == []
  {
    if |lines| > 1 {
      var rest, trimmed := Join(lines[1..]), TrimTail(lines[1..]);
      RStripOfConcat("\n", rest);
      RStripOfConcat(lines[0], "\n" + rest);
      Regroup(lines[0], "\n", rest);
      RStripOfJoin(lines[1..]);
      if trimmed != [] {
        Regroup(lines[0], "\n", RStrip(rest));
        assert ([lines[0]] + trimmed)[1..] == trimmed;
      }
    } else if |lines| == 1 {
      assert TrimTail(lines[1..]) == [];
    }
  }

  function Trimmed(lines: seq<string>): seq<string> {
    TrimTail(TrimHead(lines))
  }

  lemma {:induction false} StripOfJoin(lines: seq<string>)
    ensures Strip(Join(lines)) == Join(Trimmed(lines))
    ensures Strip(Join(lines)) == [] <==> Trimmed(lines) == []
  {
    LStripOfJoin(lines);
    RStripOfJoin(TrimHead(lines));
  }

  /** Which lines a trimmed line can come from. */
  ghost predicate ComesFrom(line: string, lines: seq<string>) {
    exists i :: 0 <= i < |lines| && Strip(line) == Strip(lines[i]) && (Unbroken(lines[i]) ==> Unbroken(line))
  }

  lemma {:induction false} LStripKeepsUnbroken(s: string)
    ensures Unbroken(s) ==> Unbroken(LStrip(s))
  {
    if s != [] && IsSpace(s[0]) {
      LStripKeepsUnbroken(s[1..]);
    }
  }

  lemma {:induction false} RStripKeepsUnbroken(s: string)
    ensures Unbroken(s) ==> Unbroken(RStrip(s))
  {
    if s != [] && IsSpace(s[|s| - 1]) {
      RStripKeepsUnbroken(s[..|s| - 1]);
    }
  }

  lemma {:induction false} TrimHeadComesFrom(lines: seq<string>, k: nat)
    requires k < |TrimHead(lines)|
    ensures ComesFrom(TrimHead(lines)[k], lines)
  {
    hide Strip, Unbroken;
    if LStrip(lines[0]) == [] {
      TrimHeadComesFrom(lines[1..], k);
      ComesFromRest(TrimHead(lines)[k], lines);
    } else {
      StripIgnoresEnds(lines[0]);
      LStripKeepsUnbroken(lines[0]);
      assert TrimHead(lines)[k] == if k == 0 then LStrip(lines[0]) else lines[k];
    }
  }

  lemma {:induction false} ComesFromRest(line: string, lines: seq<string>)
    requires lines != [] && ComesFrom(line, lines[1..])
    ensures ComesFrom(line, lines)
  {
    hide Strip, Unbroken;
    var i :| 0 <= i < |lines[1..]| && Strip(line) == Strip(lines[1..][i])
               && (Unbroken(lines[1..][i]) ==> Unbroken(line));
    assert lines[1..][i] == lines[i + 1];
  }

  lemma {:induction false} TrimTailComesFrom(lines: seq<string>, k: nat)
    requires k < |TrimTail(lines)|
    ensures ComesFrom(TrimTail(lines)[k], lines)
  {
    hide Strip, Unbroken;
    if TrimTail(lines[1..]) == [] {
      StripIgnoresEnds(lines[0]);
      RStripKeepsUnbroken(lines[0]);
    } else if k > 0 {
      TrimTailComesFrom(lines[1..], k - 1);
      ComesFromRest(TrimTail(lines)[k], lines);
    }
  }

  /** A trimmed line is a line of the text, up to whitespace at its ends. */
  lemma {:induction false} TrimmedComesFrom(lines: seq<string>, k: nat)
    requires k < |Trimmed(lines)|
    ensures ComesFrom(Trimmed(lines)[k], lines)
  {
    hide Strip, Unbroken;
    var head := TrimHead(lines);
    TrimTailComesFrom(head, k);
    var i :| 0 <= i < |head| && Strip(Trimmed(lines)[k]) == Strip(head[i])
             && (Unbroken(head[i]) ==> Unbroken(Trimmed(lines)[k]));
    TrimHeadComesFrom(lines, i);
  }

  predicate AllBlank(lines: seq<string>) {
    forall i | 0 <= i < |lines| :: AllSpace(lines[i])
  }

  /** Nothing is left exactly when every line is blank. */
  lemma {:induction false} TrimmedIsEmptyIff(lines: seq<string>)
    ensures Trimmed(lines) == [] <==> AllBlank(lines)
  {
    if lines != [] {
      StripIsEmptyIff(lines[0]);
      if LStrip(lines[0]) == [] {
        TrimmedIsEmptyIff(lines[1..]);
        assert forall i | 0 < i < |lines| :: lines[i] == lines[1..][i - 1];
      } else {
        var first := LStrip(lines[0]);
        StripIsEmptyIff(first);
        assert !IsSpace(first[0]);
        assert ([first] + lines[1..])[0] == first;
      }
    }
  }
}
