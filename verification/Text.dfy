/** Python's string operations, on sequences of characters. */
module Text {

  // ------------------------------------------------------------------ decimal numerals

  predicate IsDigit(c: char) { '0' <= c <= '9' }

  lemma {:induction false} OnlyDigitsAreDigits(c: char)
    ensures IsDigit(c) <==> c in "0123456789"
  {
    if IsDigit(c) {
      assert "0123456789"[c as int - '0' as int] == c;
    }
  }

  function Digit(d: nat): (c: char)
    requires d < 10
    ensures IsDigit(c)
  {
    ['0', '1', '2', '3', '4', '5', '6', '7', '8', '9'][d]
  }

  lemma {:induction false} DigitsDiffer(d: nat, e: nat)
    requires d < 10 && e < 10 && Digit(d) == Digit(e)
    ensures d == e
  {
  }

  /** `str(n)`. */
  function Decimal(n: nat): (s: string)
    ensures s != [] && forall i | 0 <= i < |s| :: IsDigit(s[i])
  {
    if n < 10 then [Digit(n)] else Decimal(n / 10) + [Digit(n % 10)]
  }

  lemma {:induction false} DecimalIsInjective(m: nat, n: nat)
    requires Decimal(m) == Decimal(n)
    ensures m == n
  {
    var s := Decimal(m);
    var init := s[..|s| - 1];
    if m < 10 && n < 10 {
      DigitsDiffer(m, n);
    } else if m >= 10 && n >= 10 {
      assert init == Decimal(m / 10) == Decimal(n / 10);
      DecimalIsInjective(m / 10, n / 10);
      DigitsDiffer(m % 10, n % 10);
    }
  }

  /** Tens, hundreds and so on: a further digit multiplies what stands before it by ten. */
  lemma {:induction false} DecimalIsPositional(n: nat, d: nat)
    requires d < 10
    ensures Decimal(10 * n + d) == (if n == 0 then [] else Decimal(n)) + ["0123456789"[d]]
    ensures Decimal(10 * n + d)[0] == '0' ==> n == 0 && d == 0
  {
    assert (10 * n + d) / 10 == n && (10 * n + d) % 10 == d;
    assert [] + [Digit(d)] == [Digit(d)];
    if n > 0 {
      DecimalIsPositional(n / 10, n % 10);
      assert Decimal(10 * n + d)[0] == Decimal(n)[0];
    }
  }

  // ------------------------------------------------------------------ character classes

  /** What `str.split()` and `str.strip()` treat as whitespace. */
  predicate IsSpace(c: char) {
    || '\t' <= c <= '\r' || '\U{1C}' <= c <= ' ' || c == '\U{85}' || c == '\U{A0}' || c == '\U{1680}'
    || '\U{2000}' <= c <= '\U{200A}' || c == '\U{2028}' || c == '\U{2029}' || c == '\U{202F}' || c == '\U{205F}'
    || c == '\U{3000}'
  }

  /** The twenty-nine of them. */
  lemma {:induction false} SpaceIff(c: char)
    ensures IsSpace(c)
        <==> c in "\t\n\U{B}\U{C}\r\U{1C}\U{1D}\U{1E}\U{1F} \U{85}\U{A0}\U{1680}\U{2000}\U{2001}\U{2002}"
                  + "\U{2003}\U{2004}\U{2005}\U{2006}\U{2007}\U{2008}\U{2009}\U{200A}\U{2028}\U{2029}"
                  + "\U{202F}\U{205F}\U{3000}"
  {
    var low := "\t\n\U{B}\U{C}\r\U{1C}\U{1D}\U{1E}\U{1F} \U{85}\U{A0}\U{1680}\U{2000}\U{2001}\U{2002}";
    var mid := "\U{2003}\U{2004}\U{2005}\U{2006}\U{2007}\U{2008}\U{2009}\U{200A}\U{2028}\U{2029}";
    var high := "\U{202F}\U{205F}\U{3000}";
    assert c in low + mid + high <==> c in low || c in mid || c in high;
  }

  predicate AllSpace(s: string) {
    forall i {:trigger IsSpace(s[i])} | 0 <= i < |s| :: IsSpace(s[i])
  }

  predicate NoSpace(s: string) {
    forall i {:trigger IsSpace(s[i])} | 0 <= i < |s| :: !IsSpace(s[i])
  }

  predicate Lacks(s: string, c: char) {
    forall i | 0 <= i < |s| :: s[i] != c
  }

  /** ASCII lower case. */
  function LowerChar(c: char): char {
    if 'A' <= c <= 'Z' then (c as int + 32) as char else c
  }

  function Lower(s: string): (l: string)
    ensures |l| == |s| && forall i | 0 <= i < |s| :: l[i] == LowerChar(s[i])
  {
    seq(|s|, i requires 0 <= i < |s| => LowerChar(s[i]))
  }

  const CAPITALS: string := "ABCDEFGHIJKLMNOPQRSTUVWXYZ"
  const SMALL_LETTERS: string := "abcdefghijklmnopqrstuvwxyz"

  /** Twenty-six characters that follow one another, from `first` on. */
  lemma {:induction false} LettersFollow(letters: string, first: char, c: char)
    requires |letters| == 26 && first as int + 26 < 0x80
    requires forall i | 0 <= i < 26 :: letters[i] as int == first as int + i
    ensures c in letters <==> first as int <= c as int < first as int + 26
  {
    if first as int <= c as int < first as int + 26 {
      assert letters[c as int - first as int] == c;
    }
  }

  lemma {:induction false} CapitalsFollow()
    ensures |CAPITALS| == 26 && forall i | 0 <= i < 26 :: CAPITALS[i] as int == 'A' as int + i
  {
  }

  lemma {:induction false} SmallLettersFollow()
    ensures |SMALL_LETTERS| == 26 && forall i | 0 <= i < 26 :: SMALL_LETTERS[i] as int == 'a' as int + i
  {
  }

  lemma {:induction false} LettersAre(c: char)
    ensures |CAPITALS| == |SMALL_LETTERS| == 26
    ensures forall i | 0 <= i < 26 :: CAPITALS[i] as int == 'A' as int + i && SMALL_LETTERS[i] as int == 'a' as int + i
    ensures c in CAPITALS <==> 'A' <= c <= 'Z'
    ensures c in SMALL_LETTERS <==> 'a' <= c <= 'z'
  {
    hide CAPITALS, SMALL_LETTERS;
    CapitalsFollow();
    SmallLettersFollow();
    LettersFollow(CAPITALS, 'A', c);
    LettersFollow(SMALL_LETTERS, 'a', c);
  }

  /** Each capital goes to its small letter, and everything else stays. */
  lemma {:induction false} LowerSwapsLetters(c: char)
    ensures |CAPITALS| == |SMALL_LETTERS| == 26
    ensures forall i | 0 <= i < 26 :: LowerChar(CAPITALS[i]) == SMALL_LETTERS[i]
    ensures c !in CAPITALS ==> LowerChar(c) == c
  {
    LettersAre(c);
    hide CAPITALS, SMALL_LETTERS;
  }

  // ------------------------------------------------------------------ searching

  predicate OccursAt(s: string, pat: string, i: int) {
    0 <= i <= i + |pat| <= |s| && s[i..i + |pat|] == pat
  }

  /** `s.find(pat, from)`. */
  function Find(s: string, pat: string, from: nat): (r: int)
    ensures r == -1 || from <= r <= r + |pat| <= |s|
    decreases |s| - from
  {
    if from + |pat| > |s| then -1
    else if OccursAt(s, pat, from) then from
    else Find(s, pat, from + 1)
  }

  /** `find` returns the first occurrence, if there is one. */
  lemma {:induction false} FindIsFirst(s: string, pat: string, from: nat)
    ensures var r := Find(s, pat, from); r != -1 ==> OccursAt(s, pat, r)
    ensures var r := Find(s, pat, from); forall i | from <= i && (r == -1 || i < r) :: !OccursAt(s, pat, i)
    decreases |s| - from
  {
    if from + |pat| <= |s| && !OccursAt(s, pat, from) {
      FindIsFirst(s, pat, from + 1);
    }
  }

  lemma {:induction false} FindHere(s: string, pat: string, from: nat)
    requires OccursAt(s, pat, from)
    ensures Find(s, pat, from) == from
  {
  }

  /** An occurrence agrees with its pattern, character by character. */
  lemma {:induction false} OccurrenceAgrees(s: string, pat: string, i: int, k: int)
    requires OccursAt(s, pat, i) && 0 <= k < |pat|
    ensures s[i + k] == pat[k]
  {
    assert s[i..i + |pat|][k] == s[i + k];
  }

  lemma {:induction false} CharOccurs(s: string, c: char, i: int)
    ensures OccursAt(s, [c], i) <==> 0 <= i < |s| && s[i] == c
  {
    if 0 <= i < |s| {
      assert s[i..i + 1] == [s[i]];
      assert [s[i]][0] == s[i];
    }
  }

  /** Where a single character first occurs. */
  lemma {:induction false} FindChar(s: string, c: char, from: nat, k: nat)
    requires from <= k < |s| && s[k] == c && forall i | from <= i < k :: s[i] != c
    ensures Find(s, [c], from) == k
  {
    FindIsFirst(s, [c], from);
    CharOccurs(s, c, k);
    CharOccurs(s, c, Find(s, [c], from));
  }

  lemma {:induction false} FindCharFails(s: string, c: char, from: nat)
    requires forall i | from <= i < |s| :: s[i] != c
    ensures Find(s, [c], from) == -1
  {
    FindIsFirst(s, [c], from);
    CharOccurs(s, c, Find(s, [c], from));
  }

  /** Searching may start at the first place where the pattern can begin. */
  lemma {:induction false} FindSkips(s: string, pat: string, from: nat, to: nat)
    requires from <= to && forall i | from <= i < to :: !OccursAt(s, pat, i)
    ensures Find(s, pat, from) == Find(s, pat, to)
  {
    FindIsFirst(s, pat, from);
    FindIsFirst(s, pat, to);
  }

  /** `s.rfind(pat)`, looking no further than position `last`. */
  function FindLast(s: string, pat: string, last: int): (r: int)
    ensures r == -1 || 0 <= r <= r + |pat| <= |s|
    decreases last + 1
  {
    if last < 0 then -1
    else if OccursAt(s, pat, last) then last
    else FindLast(s, pat, last - 1)
  }

  lemma {:induction false} FindLastIsLast(s: string, pat: string, last: int)
    ensures var r := FindLast(s, pat, last); r != -1 ==> OccursAt(s, pat, r) && r <= last
    ensures forall i | FindLast(s, pat, last) < i <= last :: !OccursAt(s, pat, i)
    decreases last + 1
  {
    if last >= 0 && !OccursAt(s, pat, last) {
      FindLastIsLast(s, pat, last - 1);
    }
  }

  lemma {:induction false} FindLastAt(s: string, pat: string, last: int, k: nat)
    requires k <= last && OccursAt(s, pat, k) && forall i | k < i :: !OccursAt(s, pat, i)
    ensures FindLast(s, pat, last) == k
  {
    FindLastIsLast(s, pat, last);
  }

  /** `s.split(c, 1)[0]`. */
  function Before(s: string, c: char): (r: string)
    ensures |r| <= |s|
  {
    if s == [] || s[0] == c then [] else [s[0]] + Before(s[1..], c)
  }

  lemma {:induction false} BeforeIs(s: string, c: char, rest: string)
    requires Lacks(s, c) && (rest == [] || rest[0] == c)
    ensures Before(s + rest, c) == s
  {
    if s == [] {
      assert s + rest == rest;
    } else {
      assert (s + rest)[1..] == s[1..] + rest;
      BeforeIs(s[1..], c, rest);
    }
  }

  // ------------------------------------------------------------------ stripping and words

  /** `s.lstrip()`. */
  function LStrip(s: string): (r: string)
    ensures |r| <= |s| && (r == [] || !IsSpace(r[0]))
  {
    if s != [] && IsSpace(s[0]) then LStrip(s[1..]) else s
  }

  lemma {:induction false} LStripDrops(space: string, s: string)
    requires AllSpace(space) && (s == [] || !IsSpace(s[0]))
    ensures LStrip(space + s) == s
  {
    if space == [] {
      assert space + s == s;
    } else {
      assert (space + s)[1..] == space[1..] + s;
      LStripDrops(space[1..], s);
    }
  }

  /** The word that `s` ends with, or nothing. */
  function WordEnding(s: string): string {
    if s == [] || IsSpace(s[|s| - 1]) then [] else WordEnding(s[..|s| - 1]) + [s[|s| - 1]]
  }

  /** `s.split()[-1]`, or the empty string when there are no words. */
  function LastWord(s: string): string {
    if s == [] then []
    else if IsSpace(s[|s| - 1]) then LastWord(s[..|s| - 1])
    else WordEnding(s)
  }

  lemma {:induction false} WordAfterSpace(head: string, word: string)
    requires NoSpace(word) && (head == [] || IsSpace(head[|head| - 1]))
    ensures WordEnding(head + word) == word
  {
    if word == [] {
      assert head + word == head;
    } else {
      assert (head + word)[..|head + word| - 1] == head + word[..|word| - 1];
      WordAfterSpace(head, word[..|word| - 1]);
      assert word[..|word| - 1] + [word[|word| - 1]] == word;
    }
  }

  lemma {:induction false} LastWordIs(head: string, word: string, space: string)
    requires word != [] && NoSpace(word) && AllSpace(space) && (head == [] || IsSpace(head[|head| - 1]))
    ensures LastWord(head + word + space) == word
  {
    if space == [] {
      assert head + word + space == head + word;
      WordAfterSpace(head, word);
    } else {
      var s := head + word + space;
      assert s[..|s| - 1] == head + word + space[..|space| - 1];
      LastWordIs(head, word, space[..|space| - 1]);
    }
  }

  // ------------------------------------------------------------------ concatenation

  lemma {:induction false} Regroup<T>(a: seq<T>, b: seq<T>, c: seq<T>)
    ensures (a + b) + c == a + (b + c)
  {
  }

  lemma {:induction false} RegroupInner<T>(a: seq<T>, b: seq<T>, c: seq<T>, d: seq<T>)
    ensures a + (b + c) + d == (a + b) + c + d == a + b + (c + d)
  {
  }

  lemma {:induction false} NothingBefore<T>(a: seq<T>, b: seq<T>)
    ensures [] + a == a
    ensures [] + a + b == a + b
  {
  }

  lemma {:induction false} SameHeadSameWhole<T>(a: seq<T>, x: seq<T>, b: seq<T>, c: seq<T>, d: seq<T>)
    requires a == x + b && b == c && d == x + c
    ensures a == d
  {
  }
}
