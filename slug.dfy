/**
 * The text helpers of the PokeAPI client module: turning API slugs such as
 * `very-soft` or `VERY_SOFT` into labels ("Very Soft"), picking a member of an
 * enum, and building a CamelCase lobby slug from five enum picks.
 *
 * Strings are sequences of Unicode characters. JavaScript's `\w` and `\s`
 * character classes are modelled exactly; upper/lower-case mapping is modelled
 * for ASCII letters only.
 */
module Slug {
  import opened Optional

  // ---------------------------------------------------------------------------
  // Character classes

  predicate IsAsciiUpper(c: char) { 'A' <= c <= 'Z' }

  predicate IsAsciiLower(c: char) { 'a' <= c <= 'z' }

  predicate IsDigit(c: char) { '0' <= c <= '9' }

  /** JavaScript's `\w`: ASCII letters, digits and the underscore. */
  predicate IsWordChar(c: char) {
    IsAsciiUpper(c) || IsAsciiLower(c) || IsDigit(c) || c == '_'
  }

  /** JavaScript's `\s`: the WhiteSpace and LineTerminator code points of ECMAScript. */
  predicate IsSpace(c: char) {
    c == '\t' || c == '\n' || c == '\U{B}' || c == '\U{C}' || c == '\r' || c == ' '
    || c == '\U{A0}' || c == '\U{1680}' || ('\U{2000}' <= c <= '\U{200A}')
    || c == '\U{2028}' || c == '\U{2029}' || c == '\U{202F}' || c == '\U{205F}'
    || c == '\U{3000}' || c == '\U{FEFF}'
  }

  /** `-` and `_`, the characters the first replace of `unSlugify` turns into spaces. */
  predicate IsSeparator(c: char) { c == '-' || c == '_' }

  /** `toUpperCase` restricted to ASCII. */
  function ToUpper(c: char): (u: char)
    ensures IsAsciiLower(c) ==> IsAsciiUpper(u) && u as int == c as int - 32
    ensures !IsAsciiLower(c) ==> u == c
  {
    if IsAsciiLower(c) then (c as int - 32) as char else c
  }

  /** `toLowerCase` restricted to ASCII. */
  function ToLower(c: char): (l: char)
    ensures IsAsciiUpper(c) ==> IsAsciiLower(l) && l as int == c as int + 32
    ensures !IsAsciiUpper(c) ==> l == c
  {
    if IsAsciiUpper(c) then (c as int + 32) as char else c
  }

  /** Case mapping changes neither the `\w` nor the `\s` class of a character. */
  lemma CaseKeepsClass(c: char)
    ensures IsWordChar(ToUpper(c)) == IsWordChar(c) && IsSpace(ToUpper(c)) == IsSpace(c)
    ensures IsWordChar(ToLower(c)) == IsWordChar(c) && IsSpace(ToLower(c)) == IsSpace(c)
    ensures IsSeparator(ToUpper(c)) == IsSeparator(c) && IsSeparator(ToLower(c)) == IsSeparator(c)
    ensures ToUpper(ToUpper(c)) == ToUpper(c) && ToLower(ToLower(c)) == ToLower(c)
    ensures ToLower(ToUpper(c)) == ToLower(c)
  {
  }

  // ---------------------------------------------------------------------------
  // unSlugify

  /** The first step of unSlugify: every hyphen and underscore becomes a space. */
  function ReplaceSeparators(s: string): string {
    seq(|s|, i requires 0 <= i < |s| => if IsSeparator(s[i]) then ' ' else s[i])
  }

  function LowerAll(s: string): string {
    seq(|s|, i requires 0 <= i < |s| => ToLower(s[i]))
  }

  /** The length of the longest prefix of `s` free of whitespace (what `\S*` consumes). */
  function RunLength(s: string): (n: nat)
    ensures n <= |s|
    ensures forall j :: 0 <= j < n ==> !IsSpace(s[j])
    ensures n < |s| ==> IsSpace(s[n])
  {
    if s == [] || IsSpace(s[0]) then 0 else 1 + RunLength(s[1..])
  }

  /**
   * The second step of unSlugify, a global title-casing replace. Scanning left
   * to right, a match starts at the next word character and runs to the next
   * whitespace; its first character is upper-cased and the rest lower-cased.
   * Characters before a match are skipped unchanged.
   */
  function TitleWords(s: string): string
    decreases |s|
  {
    if s == [] then []
    else if IsWordChar(s[0]) then
      var n := RunLength(s);
      [ToUpper(s[0])] + LowerAll(s[1..n]) + TitleWords(s[n..])
    else
      [s[0]] + TitleWords(s[1..])
  }

  /** unSlugify: separators to spaces, then title-case every word. */
  function UnSlugify(name: string): string {
    TitleWords(ReplaceSeparators(name))
  }

  // ---------------------------------------------------------------------------
  // A pointwise reference definition of TitleWords

  /**
   * True when a word character occurs in `t[..i]` after the last whitespace
   * before `i`, i.e. when position `i` lies inside a match that started earlier.
   */
  function InRun(t: string, i: nat): bool
    requires i <= |t|
    decreases i
  {
    if i == 0 then false
    else if IsSpace(t[i - 1]) then false
    else InRun(t, i - 1) || IsWordChar(t[i - 1])
  }

  /** Position `i` is the first character of a word (a match of `\w\S*`). */
  predicate WordHead(t: string, i: nat)
    requires i < |t|
  {
    IsWordChar(t[i]) && !InRun(t, i)
  }

  /** Position `i` belongs to a word but is not its first character. */
  predicate WordTail(t: string, i: nat)
    requires i < |t|
  {
    !IsSpace(t[i]) && InRun(t, i)
  }

  /** What title-casing makes of character `c`, given whether a match started earlier in its run. */
  function CaseAt(c: char, inRun: bool): char {
    if IsWordChar(c) && !inRun then ToUpper(c)
    else if !IsSpace(c) && inRun then ToLower(c)
    else c
  }

  /** What title-casing leaves at position `i`. */
  function ExpectedAt(t: string, i: nat): char
    requires i < |t|
  {
    CaseAt(t[i], InRun(t, i))
  }

  /** Inside a match that starts at 0, every later position of the run is in the run. */
  lemma {:induction false} InRunWithinRun(t: string, i: nat)
    requires |t| > 0 && IsWordChar(t[0])
    requires 1 <= i <= RunLength(t)
    ensures InRun(t, i)
  {
    if i > 1 {
      InRunWithinRun(t, i - 1);
    }
  }

  /**
   * Dropping a prefix of `k` characters does not change whether a later
   * position is in a run, provided the cut is at a run boundary: either
   * nothing of a word precedes position `k`, or `t[k]` is whitespace.
   */
  lemma {:induction false} InRunShift(t: string, k: nat, j: nat)
    requires k + j <= |t|
    requires !InRun(t, k) || (k < |t| && IsSpace(t[k]) && j >= 1)
    ensures InRun(t, k + j) == InRun(t[k..], j)
    decreases j
  {
    if j == 0 {
    } else if j == 1 {
      if !IsSpace(t[k]) {
        assert !InRun(t, k);
      }
    } else {
      InRunShift(t, k, j - 1);
      assert t[k..][j - 1] == t[k + j - 1];
    }
  }

  /** Position `i` of `t` title-cases like position `i - k` of `t[k..]` at a run boundary `k`. */
  lemma ExpectedShift(t: string, k: nat, i: nat)
    requires k <= i < |t|
    requires !InRun(t, k) || IsSpace(t[k])
    ensures ExpectedAt(t, i) == ExpectedAt(t[k..], i - k)
  {
    assert t[k..][i - k] == t[i];
    if i > k || !InRun(t, k) {
      InRunShift(t, k, i - k);
      assert k + (i - k) == i;
    } else {
      assert CaseAt(t[i], InRun(t, i)) == t[i] == CaseAt(t[i], InRun(t[k..], 0));
    }
  }

  /** Whether position `i` is in a run depends only on the characters before it. */
  lemma {:induction false} InRunPrefix(t: string, k: nat, i: nat)
    requires i <= k <= |t|
    ensures InRun(t, i) == InRun(t[..k], i)
    decreases i
  {
    if i > 0 {
      InRunPrefix(t, k, i - 1);
    }
  }

  /** Strings with the same character classes everywhere have the same runs. */
  lemma {:induction false} InRunSameClasses(a: string, b: string, i: nat)
    requires |a| == |b| && i <= |a|
    requires forall k :: 0 <= k < |a| ==> IsSpace(a[k]) == IsSpace(b[k]) && IsWordChar(a[k]) == IsWordChar(b[k])
    ensures InRun(a, i) == InRun(b, i)
    decreases i
  {
    if i > 0 {
      InRunSameClasses(a, b, i - 1);
    }
  }

  /** The pointwise agreement of TitleWords with ExpectedAt, for all of `t`. */
  predicate AgreesPointwise(t: string) {
    |TitleWords(t)| == |t| && forall i :: 0 <= i < |t| ==> TitleWords(t)[i] == ExpectedAt(t, i)
  }

  /** The step of TitleWordsAt for a string that starts with a word character. */
  lemma WordStep(t: string)
    requires |t| > 0 && IsWordChar(t[0])
    requires AgreesPointwise(t[RunLength(t)..])
    ensures AgreesPointwise(t)
  {
    WordUnfold(t);
    forall i | 0 <= i < |t|
      ensures TitleWords(t)[i] == ExpectedAt(t, i)
    {
      WordStepAt(t, i);
    }
  }

  /** A string that starts with a word character title-cases its first match, then the rest. */
  lemma WordUnfold(t: string)
    requires |t| > 0 && IsWordChar(t[0])
    ensures TitleWords(t) == [ToUpper(t[0])] + LowerAll(t[1..RunLength(t)]) + TitleWords(t[RunLength(t)..])
    ensures |[ToUpper(t[0])] + LowerAll(t[1..RunLength(t)])| == RunLength(t)
  {
  }

  /** One position of WordStep. */
  lemma WordStepAt(t: string, i: nat)
    requires |t| > 0 && IsWordChar(t[0])
    requires AgreesPointwise(t[RunLength(t)..])
    requires i < |t|
    ensures TitleWords(t)[i] == ExpectedAt(t, i)
  {
    var n := RunLength(t);
    var head := [ToUpper(t[0])] + LowerAll(t[1..n]);
    WordUnfold(t);
    if i < n {
      WordHeadAt(t, i);
      assert TitleWords(t)[i] == head[i];
    } else {
      ExpectedShift(t, n, i);
      assert TitleWords(t)[i] == TitleWords(t[n..])[i - n];
    }
  }

  /** Within the first match of a string, the first character is raised and the rest lowered. */
  lemma WordHeadAt(t: string, i: nat)
    requires |t| > 0 && IsWordChar(t[0])
    requires i < RunLength(t)
    ensures ([ToUpper(t[0])] + LowerAll(t[1..RunLength(t)]))[i] == ExpectedAt(t, i)
  {
    if i > 0 {
      InRunWithinRun(t, i);
    }
  }

  /** The step of TitleWordsAt for a string that starts with a character other than a word character. */
  lemma SkipStep(t: string)
    requires |t| > 0 && !IsWordChar(t[0])
    requires AgreesPointwise(t[1..])
    ensures AgreesPointwise(t)
  {
    var r := TitleWords(t);
    assert !InRun(t, 1);
    forall i | 0 <= i < |t|
      ensures r[i] == ExpectedAt(t, i)
    {
      if i > 0 {
        ExpectedShift(t, 1, i);
      }
    }
  }

  /** TitleWords preserves length and agrees with the pointwise reference definition. */
  lemma {:induction false} TitleWordsAt(t: string)
    ensures |TitleWords(t)| == |t|
    ensures forall i :: 0 <= i < |t| ==> TitleWords(t)[i] == ExpectedAt(t, i)
    decreases |t|
  {
    if t == [] {
    } else if IsWordChar(t[0]) {
      TitleWordsAt(t[RunLength(t)..]);
      WordStep(t);
    } else {
      TitleWordsAt(t[1..]);
      SkipStep(t);
    }
  }

  // ---------------------------------------------------------------------------
  // Properties of unSlugify

  /** Whether each word starts upper-case and continues lower-case. */
  predicate WellCased(r: string) {
    forall i :: 0 <= i < |r| ==>
      (WordHead(r, i) ==> !IsAsciiLower(r[i])) && (WordTail(r, i) ==> !IsAsciiUpper(r[i]))
  }

  /**
   * unSlugify keeps the length; every `-` and `_` becomes a space at the same
   * position; whitespace stays where it was; every other character is kept up
   * to ASCII case; and no `-` or `_` survives.
   */
  lemma UnSlugifyPositions(s: string)
    ensures |UnSlugify(s)| == |s|
    ensures forall i :: 0 <= i < |s| ==> IsSeparator(s[i]) ==> UnSlugify(s)[i] == ' '
    ensures forall i :: 0 <= i < |s| ==> IsSpace(s[i]) ==> UnSlugify(s)[i] == s[i]
    ensures forall i :: 0 <= i < |s| ==> !IsSeparator(s[i]) ==> ToLower(UnSlugify(s)[i]) == ToLower(s[i])
    ensures forall i :: 0 <= i < |s| ==> !IsSeparator(UnSlugify(s)[i])
  {
    var t := ReplaceSeparators(s);
    TitleWordsAt(t);
    forall i | 0 <= i < |s|
      ensures !IsSeparator(s[i]) ==> ToLower(UnSlugify(s)[i]) == ToLower(s[i])
      ensures !IsSeparator(UnSlugify(s)[i])
    {
      CaseKeepsClass(t[i]);
    }
  }

  /** Title-cased text has the same whitespace and word characters as its input. */
  lemma TitleWordsSameClasses(t: string)
    ensures |TitleWords(t)| == |t|
    ensures forall k :: 0 <= k < |t| ==>
      IsSpace(TitleWords(t)[k]) == IsSpace(t[k]) && IsWordChar(TitleWords(t)[k]) == IsWordChar(t[k])
  {
    TitleWordsAt(t);
    forall k | 0 <= k < |t|
      ensures IsSpace(TitleWords(t)[k]) == IsSpace(t[k]) && IsWordChar(TitleWords(t)[k]) == IsWordChar(t[k])
    {
      CaseKeepsClass(t[k]);
    }
  }

  /** In unSlugify's output every word starts upper-case and continues lower-case. */
  lemma UnSlugifyWellCased(s: string)
    ensures WellCased(UnSlugify(s))
  {
    var t := ReplaceSeparators(s);
    var r := UnSlugify(s);
    TitleWordsAt(t);
    TitleWordsSameClasses(t);
    forall i | 0 <= i < |r|
      ensures (WordHead(r, i) ==> !IsAsciiLower(r[i])) && (WordTail(r, i) ==> !IsAsciiUpper(r[i]))
    {
      InRunSameClasses(r, t, i);
    }
  }

  /** Title-casing twice is title-casing once. */
  lemma TitleWordsIdempotent(t: string)
    ensures TitleWords(TitleWords(t)) == TitleWords(t)
  {
    var r := TitleWords(t);
    TitleWordsAt(t);
    TitleWordsAt(r);
    TitleWordsSameClasses(t);
    forall i | 0 <= i < |r|
      ensures TitleWords(r)[i] == r[i]
    {
      InRunSameClasses(r, t, i);
      CaseKeepsClass(t[i]);
    }
  }

  /** `unSlugify(unSlugify(s)) == unSlugify(s)` */
  lemma UnSlugifyIdempotent(s: string)
    ensures UnSlugify(UnSlugify(s)) == UnSlugify(s)
  {
    var r := UnSlugify(s);
    UnSlugifyPositions(s);
    assert ReplaceSeparators(r) == r;
    TitleWordsIdempotent(ReplaceSeparators(s));
  }

  /** A whitespace character splits title-casing into two independent halves. */
  lemma TitleWordsSplit(a: string, c: char, b: string)
    requires IsSpace(c)
    ensures TitleWords(a + [c] + b) == TitleWords(a) + [c] + TitleWords(b)
  {
    var t := a + [c] + b;
    var k := |a|;
    TitleWordsAt(t);
    TitleWordsAt(a);
    TitleWordsAt(b);
    var lhs := TitleWords(t);
    var rhs := TitleWords(a) + [c] + TitleWords(b);
    assert t[..k] == a;
    assert t[k + 1..] == b;
    forall i | 0 <= i < |t|
      ensures lhs[i] == rhs[i]
    {
      if i < k {
        InRunPrefix(t, k, i);
      } else if i > k {
        ExpectedShift(t, k, i);
        ExpectedShift(t[k..], 1, i - k);
        assert t[k..][1..] == b;
        assert !InRun(t[k..], 1);
      }
    }
  }

  /** Joining with `-` before unSlugify is joining the labels with a space after it. */
  lemma UnSlugifyJoin(a: string, b: string)
    ensures UnSlugify(a + "-" + b) == UnSlugify(a) + " " + UnSlugify(b)
  {
    assert ReplaceSeparators(a + "-" + b) == ReplaceSeparators(a) + [' '] + ReplaceSeparators(b);
    TitleWordsSplit(ReplaceSeparators(a), ' ', ReplaceSeparators(b));
  }

  // ---------------------------------------------------------------------------
  // pickRandomFromEnum

  /**
   * One entry of `Object.values(e)` for a TypeScript enum: a member name (the
   * reverse mapping of a numeric enum, or a string enum's value) or a number.
   */
  datatype EnumValue = Name(name: string) | Number(n: int)

  /** The enum's values that are strings, in the order the values are listed. */
  function StringMembers(values: seq<EnumValue>): (r: seq<string>)
    ensures |r| <= |values|
    ensures forall x :: x in r <==> Name(x) in values
  {
    if values == [] then []
    else
      var rest := StringMembers(values[1..]);
      assert values == [values[0]] + values[1..];
      if values[0].Name? then [values[0].name] + rest else rest
  }

  /** The filter keeps a lone name and drops a lone number. */
  lemma StringMembersSingle(x: string, n: int)
    ensures StringMembers([Name(x)]) == [x]
    ensures StringMembers([Number(n)]) == []
  {
    assert [Name(x)][1..] == [];
    assert [Number(n)][1..] == [];
  }

  /** The filter distributes over concatenation, so it keeps the order and the repetitions of the values. */
  lemma {:induction false} StringMembersConcat(a: seq<EnumValue>, b: seq<EnumValue>)
    ensures StringMembers(a + b) == StringMembers(a) + StringMembers(b)
    decreases |a|
  {
    if a == [] {
      assert a + b == b;
    } else {
      assert (a + b)[0] == a[0];
      assert (a + b)[1..] == a[1..] + b;
      StringMembersConcat(a[1..], b);
    }
  }

  /**
   * pickRandomFromEnum, with the random index it draws given as `index`; an
   * index past the end reads an undefined value.
   */
  function PickFromEnum(values: seq<EnumValue>, index: nat): (r: Option<string>)
    ensures r.Some? <==> index < |StringMembers(values)|
    ensures r.Some? ==> Name(r.value) in values && r.value == StringMembers(values)[index]
  {
    var names := StringMembers(values);
    if index < |names| then Some(names[index]) else None
  }

  // ---------------------------------------------------------------------------
  // generateRandomSlug

  /** The five enum picks, named by the enum each is drawn from. */
  datatype SlugPicks = SlugPicks(habitat: string, softness: string, flavor: string, contest: string, berry: string)

  /** The final step of generateRandomSlug: every whitespace character is deleted, the rest kept in order. */
  function RemoveSpaces(s: string): (r: string)
    ensures |r| <= |s|
    ensures forall i :: 0 <= i < |r| ==> !IsSpace(r[i])
  {
    if s == [] then []
    else if IsSpace(s[0]) then RemoveSpaces(s[1..])
    else [s[0]] + RemoveSpaces(s[1..])
  }

  /**
   * RemoveSpaces deletes whitespace and nothing else: every character it keeps
   * comes from the input, an input without whitespace comes back unchanged,
   * and a lone whitespace character comes back empty.
   */
  lemma {:induction false} RemoveSpacesDeletesOnlySpaces(s: string)
    ensures forall c :: c in RemoveSpaces(s) ==> c in s
    ensures (forall i :: 0 <= i < |s| ==> !IsSpace(s[i])) ==> RemoveSpaces(s) == s
    ensures |s| == 1 && IsSpace(s[0]) ==> RemoveSpaces(s) == []
    decreases |s|
  {
    if s != [] {
      RemoveSpacesDeletesOnlySpaces(s[1..]);
      assert forall c :: c in s[1..] ==> c in s;
      if forall i :: 0 <= i < |s| ==> !IsSpace(s[i]) {
        assert forall i :: 0 <= i < |s[1..]| ==> !IsSpace(s[1..][i]);
        assert s == [s[0]] + s[1..];
      }
    }
  }

  lemma {:induction false} RemoveSpacesConcat(a: string, b: string)
    ensures RemoveSpaces(a + b) == RemoveSpaces(a) + RemoveSpaces(b)
    decreases |a|
  {
    if a != [] {
      assert (a + b)[1..] == a[1..] + b;
      RemoveSpacesConcat(a[1..], b);
    } else {
      assert a + b == b;
    }
  }

  /** generateRandomSlug, with its five picks given: the picks joined by hyphens, labelled, whitespace deleted. */
  function GenerateSlug(p: SlugPicks): string {
    RemoveSpaces(UnSlugify(Hyphenate([p.softness, p.flavor, p.contest, p.habitat, p.berry])))
  }

  /** The parts joined left to right with `-` between neighbours. */
  function Hyphenate(parts: seq<string>): string {
    if parts == [] then "" else if |parts| == 1 then parts[0]
    else Hyphenate(parts[..|parts| - 1]) + "-" + parts[|parts| - 1]
  }

  /** Joining the five picks gives the hyphenated template of generateRandomSlug. */
  lemma HyphenateFive(a: string, b: string, c: string, d: string, e: string)
    ensures Hyphenate([a, b, c, d, e]) == a + "-" + b + "-" + c + "-" + d + "-" + e
  {
    assert [a, b, c, d, e][..4] == [a, b, c, d];
    assert [a, b, c, d][..3] == [a, b, c];
    assert [a, b, c][..2] == [a, b];
    assert [a, b][..1] == [a];
    assert Hyphenate([a, b]) == a + "-" + b;
    assert Hyphenate([a, b, c]) == a + "-" + b + "-" + c;
    assert Hyphenate([a, b, c, d]) == a + "-" + b + "-" + c + "-" + d;
  }

  /** The label of one pick as it appears in a slug. */
  function SlugPart(part: string): string {
    RemoveSpaces(UnSlugify(part))
  }

  /** A generated slug has no whitespace, no `-` and no `_`. */
  lemma GenerateSlugClean(p: SlugPicks)
    ensures forall i :: 0 <= i < |GenerateSlug(p)| ==> !IsSpace(GenerateSlug(p)[i]) && !IsSeparator(GenerateSlug(p)[i])
  {
    var joined := p.softness + "-" + p.flavor + "-" + p.contest + "-" + p.habitat + "-" + p.berry;
    HyphenateFive(p.softness, p.flavor, p.contest, p.habitat, p.berry);
    UnSlugifyPositions(joined);
    RemoveSpacesDeletesOnlySpaces(UnSlugify(joined));
    var r := GenerateSlug(p);
    forall i | 0 <= i < |r|
      ensures !IsSeparator(r[i])
    {
      assert r[i] in r;
      var j :| 0 <= j < |UnSlugify(joined)| && UnSlugify(joined)[j] == r[i];
    }
  }

  /**
   * A generated slug is the labels of the picks, whitespace removed, in the
   * order softness, flavor, contest, habitat, berry (not the order in which
   * the picks are drawn).
   */
  lemma GenerateSlugParts(p: SlugPicks)
    ensures GenerateSlug(p)
      == SlugPart(p.softness) + SlugPart(p.flavor) + SlugPart(p.contest) + SlugPart(p.habitat) + SlugPart(p.berry)
  {
    var s2 := p.softness + "-" + p.flavor;
    var s3 := s2 + "-" + p.contest;
    var s4 := s3 + "-" + p.habitat;
    var s5 := s4 + "-" + p.berry;
    HyphenateFive(p.softness, p.flavor, p.contest, p.habitat, p.berry);
    JoinedPart(p.softness, p.flavor);
    JoinedPart(s2, p.contest);
    JoinedPart(s3, p.habitat);
    JoinedPart(s4, p.berry);
  }

  /** Removing the whitespace of `unSlugify(a + "-" + b)` is concatenating the two parts. */
  lemma JoinedPart(a: string, b: string)
    ensures SlugPart(a + "-" + b) == SlugPart(a) + SlugPart(b)
  {
    UnSlugifyJoin(a, b);
    RemoveSpacesDeletesOnlySpaces(" ");
    RemoveSpacesConcat(UnSlugify(a) + " ", UnSlugify(b));
    RemoveSpacesConcat(UnSlugify(a), " ");
  }
}
