/**
 * The regular-expression steps of `Event#parse_title_tags` and
 * `Event#parse_stats` in build/html.rb, each as a function on strings. A
 * title is of the form `T3 - [Alps, Hiking] Peak Name [12 km, 800m gain]`:
 * an optional grade, leading tag groups, the title, a trailing stats block.
 */
module Title {
  import opened Optional
  import opened Text

  // ---------------------------------------------------------------------
  // Step 1: the grade, `^(T\d)\s*-\s*(.+)$`

  /** The dash of a grade prefix at index `k`: `T<digit>`, spaces, `-`, and at least one more character. */
  predicate GradeDashAt(s: string, k: int) {
    |s| >= 2 && s[0] == 'T' && IsDigit(s[1]) && 2 <= k < |s| - 1 && SpacesIn(s, 2, k) && s[k] == '-'
  }

  /** The match of `^(T\d)\s*-\s*(.+)$`: the grade and the text the second group captures. */
  function GradeMatch(s: string): (r: Option<(string, string)>)
  {
    if |s| >= 2 && s[0] == 'T' && IsDigit(s[1]) then
      var k := SkipSpaces(s, 2);
      if k < |s| - 1 && s[k] == '-' then Some((s[..2], AfterSpaces(s[k + 1..]))) else None
    else None
  }

  /**
   * A title has a grade exactly when it starts with `T<digit>`, optional
   * spaces, `-` and at least one more character; the grade is then
   * `T<digit>`, and parsing goes on with what follows the dash, less its
   * leading spaces (keeping one character).
   */
  lemma GradeMatchIff(s: string)
    ensures GradeMatch(s).Some? <==> exists k :: GradeDashAt(s, k)
    ensures forall k :: GradeDashAt(s, k) ==>
      GradeMatch(s) == Some((s[..2], AfterSpaces(s[k + 1..])))
  {
    if GradeMatch(s).Some? {
      assert GradeDashAt(s, SkipSpaces(s, 2));
    }
  }

  // ---------------------------------------------------------------------
  // Step 2: leading tag groups, `^\[(.+?)\]\s*(.+)$` repeatedly

  /**
   * The match of `^\[(.+?)\]\s*(.+)$`: the bracket contents (the lazy group
   * takes at least one character and stops at the first `]` after it that
   * leaves something behind) and the remainder.
   */
  function LeadingGroup(s: string): (r: Option<(string, string)>)
    ensures r.Some? ==> |r.value.1| < |s|
  {
    if |s| >= 3 && s[0] == '[' then
      var j := 2 + IndexOf(s[2..], ']');
      if j < |s| - 1 then Some((s[1..j], AfterSpaces(s[j + 1..]))) else None
    else None
  }

  /**
   * A leading `[c]` group followed by a non-empty `r` is peeled off: `c` is
   * everything up to the first `]` that comes after its first character,
   * and the remainder is `r` less its leading spaces, keeping at least one
   * character, so `[Alps]` and three spaces leave a single space.
   */
  lemma LeadingGroupPeel(c: string, r: string)
    requires c != [] && forall k :: 1 <= k < |c| ==> c[k] != ']'
    requires r != []
    ensures LeadingGroup("[" + c + "]" + r) == Some((c, AfterSpaces(r)))
  {
    var s := "[" + c + "]" + r;
    IndexOfAt(s[2..], ']', |c| - 1);
    assert s[1..|c| + 1] == c;
    assert s[|c| + 2..] == r;
  }

  /** A group followed only by spaces is still peeled, with the last space left as the remainder. */
  lemma LeadingGroupSpacesOnly(c: string, w: string)
    requires c != [] && forall k :: 1 <= k < |c| ==> c[k] != ']'
    requires w != [] && AllSpaces(w)
    ensures LeadingGroup("[" + c + "]" + w) == Some((c, [w[|w| - 1]]))
  {
    LeadingGroupPeel(c, w);
    AfterSpacesAllSpaces(w);
  }

  /** A residual that is one bracket group and nothing else is not stripped. */
  lemma LeadingGroupBare(c: string)
    requires forall k :: 1 <= k < |c| ==> c[k] != ']'
    ensures LeadingGroup("[" + c + "]").None?
  {
    var s := "[" + c + "]";
    if |s| >= 3 {
      IndexOfAt(s[2..], ']', |c| - 1);
    }
  }

  /** The `while` loop over leading groups: the tags in order of appearance and the residual. */
  function LeadingTags(s: string): (r: (seq<string>, string))
    ensures |r.1| <= |s|
    decreases |s|
  {
    match LeadingGroup(s)
    case Some((contents, rest)) =>
      var (tags, residual) := LeadingTags(rest);
      (Split(contents) + tags, residual)
    case None => ([], s)
  }

  /** One turn of the loop: a group's pieces come before the tags of what follows it; with no group, nothing is collected. */
  lemma LeadingTagsStep(s: string)
    ensures LeadingGroup(s).None? ==> LeadingTags(s) == ([], s)
    ensures LeadingGroup(s).Some? ==> var (contents, rest) := LeadingGroup(s).value;
      LeadingTags(s) == (Split(contents) + LeadingTags(rest).0, LeadingTags(rest).1)
  {
  }

  /** The loop stops only on a residual with no leading group left to peel. */
  lemma {:induction false} LeadingTagsResidual(s: string)
    ensures LeadingGroup(LeadingTags(s).1).None?
    decreases |s|
  {
    match LeadingGroup(s)
    case Some((contents, rest)) => LeadingTagsResidual(rest);
    case None =>
  }

  /**
   * Peeling `[c]` appends the comma-separated pieces of `c`, in order, before
   * the tags of the remainder.
   */
  lemma LeadingTagsPeel(c: string, r: string)
    requires c != [] && forall k :: 1 <= k < |c| ==> c[k] != ']'
    requires r != []
    ensures LeadingTags("[" + c + "]" + r) == (Split(c) + LeadingTags(AfterSpaces(r)).0, LeadingTags(AfterSpaces(r)).1)
  {
    LeadingGroupPeel(c, r);
  }

  // ---------------------------------------------------------------------
  // Step 3: the trailing stats block, `^(.*\S)\s*\[(.+?)\]$`

  /**
   * Index `b` can be the `[` of the stats block: the text ends in `]`, at
   * least one character lies between them, and something other than spaces
   * lies before `b`.
   */
  predicate OpensStats(s: string, b: int) {
    0 <= b && b + 2 < |s| && s[b] == '[' && s[|s| - 1] == ']' && HasNonSpace(s[..b])
  }

  /** The largest `b < hi` that can open the stats block. */
  function LastOpen(s: string, hi: nat): (r: Option<nat>)
    requires hi <= |s|
    ensures r.Some? ==> r.value < hi && OpensStats(s, r.value) && forall b :: r.value < b < hi ==> !OpensStats(s, b)
    ensures r.None? ==> forall b :: 0 <= b < hi ==> !OpensStats(s, b)
  {
    if hi == 0 then None else if OpensStats(s, hi - 1) then Some(hi - 1) else LastOpen(s, hi - 1)
  }

  /**
   * The match of `^(.*\S)\s*\[(.+?)\]$`: the title before the block, with
   * its trailing spaces removed, and the block's contents.
   */
  function TrailingStats(s: string): (r: Option<(string, string)>)
  {
    match LastOpen(s, |s|)
    case Some(b) => Some((TrimEnd(s[..b]), s[b + 1..|s| - 1]))
    case None => None
  }

  /**
   * The block is there exactly when some `[` can open it; the greedy `.*`
   * makes it start at the last such `[`. The title is what comes before,
   * without its trailing spaces, and is not empty.
   */
  lemma TrailingStatsMatch(s: string)
    ensures TrailingStats(s).None? <==> forall b :: !OpensStats(s, b)
    ensures TrailingStats(s).Some? ==>
      var (title, stats) := TrailingStats(s).value;
      var b := |s| - 2 - |stats|;
      && OpensStats(s, b) && (forall b' :: b < b' ==> !OpensStats(s, b'))
      && 0 < |title| <= b && !IsSpace(title[|title| - 1])
      && s == title + s[|title|..b] + "[" + stats + "]" && SpacesIn(s, |title|, b)
  {
    match LastOpen(s, |s|)
    case Some(b) =>
      var title := TrimEnd(s[..b]);
      var stats := s[b + 1..|s| - 1];
      assert title != [] by {
        var i :| 0 <= i < b && !IsSpace(s[..b][i]);
      }
      assert s == title + s[|title|..b] + "[" + stats + "]";
    case None =>
  }

  // ---------------------------------------------------------------------
  // The whole title

  /** What `parse_title_tags` extracts before classifying the tags. */
  datatype Parsed = Parsed(grade: Option<string>, title: string, tags: seq<string>, stats: Option<string>)

  /** The text left after the grade step. */
  function AfterGrade(raw: string): string {
    match GradeMatch(raw)
    case Some((_, rest)) => rest
    case None => raw
  }

  /** Steps 1 to 3 of `parse_title_tags`, in order, each on the residual the previous one leaves. */
  function ParseTitle(raw: string): Parsed {
    var grade := match GradeMatch(raw) case Some((g, _)) => Some(g) case None => None;
    var (tags, residual) := LeadingTags(AfterGrade(raw));
    match TrailingStats(residual)
    case Some((title, stats)) => Parsed(grade, title, tags, Some(stats))
    case None => Parsed(grade, residual, tags, None)
  }

  /** A title with no grade and no brackets comes back unchanged, with no tags and no stats. */
  lemma PlainTitleUnchanged(raw: string)
    requires forall k :: !GradeDashAt(raw, k)
    requires '[' !in raw
    ensures ParseTitle(raw) == Parsed(None, raw, [], None)
  {
    GradeMatchIff(raw);
    assert raw == [] || raw[0] != '[';
  }

  // ---------------------------------------------------------------------
  // Step 4: `parse_stats`

  /** The `k`-th character of `p` from the end, lower-cased; `k` = 0 is the last one. */
  function Back(p: string, k: nat): char
    requires k < |p|
  {
    LowerChar(p[|p| - 1 - k])
  }

  /** `^(.+[^a-z] km)$` with the `i` flag: a character, a non-letter, a space and `km` in any case. */
  predicate IsDistance(piece: string) {
    |piece| >= 5 && !IsLetter(piece[|piece| - 4]) && piece[|piece| - 3] == ' '
    && Back(piece, 1) == 'k' && Back(piece, 0) == 'm'
  }

  /** The words `asc(ent|\.)?|gain` that end an ascent stat, in lower case. */
  predicate IsAscentWord(w: string) {
    w == "asc" || w == "asc." || w == "ascent" || w == "gain"
  }

  /** The length of the word of `IsAscentWord` that ends `p`, in any case, or 0. */
  function AscentWordLength(p: string): (n: nat)
    ensures n <= |p|
  {
    if |p| >= 6 && Back(p, 5) == 'a' && Back(p, 4) == 's' && Back(p, 3) == 'c'
       && Back(p, 2) == 'e' && Back(p, 1) == 'n' && Back(p, 0) == 't' then 6
    else if |p| >= 4 && Back(p, 3) == 'a' && Back(p, 2) == 's' && Back(p, 1) == 'c' && Back(p, 0) == '.' then 4
    else if |p| >= 4 && Back(p, 3) == 'g' && Back(p, 2) == 'a' && Back(p, 1) == 'i' && Back(p, 0) == 'n' then 4
    else if |p| >= 3 && Back(p, 2) == 'a' && Back(p, 1) == 's' && Back(p, 0) == 'c' then 3
    else 0
  }

  /** `(.+[^a-z])m` with the `i` flag: a character, a non-letter and `m` in any case. */
  predicate IsMeasure(g: string) {
    |g| >= 3 && LowerChar(g[|g| - 1]) == 'm' && !IsLetter(g[|g| - 2])
  }

  /**
   * The match of `^((.+[^a-z])m)\s+(asc(ent|\.)?|gain)$` with the `i` flag:
   * what the first group captures, the measure without the word.
   */
  function AscentMeasure(piece: string): (r: Option<string>)
    ensures r.Some? ==> IsMeasure(r.value) && |r.value| < |piece| && piece[..|r.value|] == r.value
  {
    var n := AscentWordLength(piece);
    if n == 0 then None
    else
      var j := SkipSpacesBack(piece, |piece| - n);
      if j < |piece| - n && IsMeasure(piece[..j]) then Some(piece[..j]) else None
  }

  /** A string `Lower` maps to a word of `IsAscentWord`, read from the end. */
  lemma AscentWordBack(p: string, word: string)
    requires EndsWith(p, word) && IsAscentWord(Lower(word))
    ensures forall i :: 0 <= i < |word| ==> Back(p, i) == Lower(word)[|word| - 1 - i]
  {
    forall i | 0 <= i < |word| ensures Back(p, i) == Lower(word)[|word| - 1 - i] {
      assert p[|p| - 1 - i] == p[|p| - |word|..][|word| - 1 - i];
    }
  }

  /** `AscentWordLength` finds the ascent word a piece ends with. */
  lemma AscentWordLengthOf(p: string, word: string)
    requires EndsWith(p, word) && IsAscentWord(Lower(word))
    ensures AscentWordLength(p) == |word|
  {
    var wl := Lower(word);
    if wl == "ascent" {
      BackAscent(p, word);
    } else if wl == "asc." {
      BackAscDot(p, word);
    } else if wl == "gain" {
      BackGain(p, word);
    } else {
      BackAsc(p, word);
    }
  }

  lemma BackAscent(p: string, word: string)
    requires EndsWith(p, word) && Lower(word) == "ascent"
    ensures AscentWordLength(p) == 6
  {
    AscentWordBack(p, word);
    assert Back(p, 0) == 't' && Back(p, 1) == 'n' && Back(p, 2) == 'e';
    assert Back(p, 3) == 'c' && Back(p, 4) == 's' && Back(p, 5) == 'a';
  }

  lemma BackAscDot(p: string, word: string)
    requires EndsWith(p, word) && Lower(word) == "asc."
    ensures AscentWordLength(p) == 4
  {
    AscentWordBack(p, word);
    assert Back(p, 0) == '.' && Back(p, 1) == 'c' && Back(p, 2) == 's' && Back(p, 3) == 'a';
  }

  lemma BackGain(p: string, word: string)
    requires EndsWith(p, word) && Lower(word) == "gain"
    ensures AscentWordLength(p) == 4
  {
    AscentWordBack(p, word);
    assert Back(p, 0) == 'n' && Back(p, 1) == 'i' && Back(p, 2) == 'a' && Back(p, 3) == 'g';
  }

  lemma BackAsc(p: string, word: string)
    requires EndsWith(p, word) && Lower(word) == "asc"
    ensures AscentWordLength(p) == 3
  {
    AscentWordBack(p, word);
    assert Back(p, 0) == 'c' && Back(p, 1) == 's' && Back(p, 2) == 'a';
  }

  /** Every measure, spaces and ascent word put together is recognised, and the measure is what is kept. */
  lemma AscentMeasureComplete(g: string, w: string, word: string)
    requires IsMeasure(g) && w != [] && AllSpaces(w) && IsAscentWord(Lower(word))
    ensures AscentMeasure(g + w + word) == Some(g)
  {
    var p := g + w + word;
    assert p[|p| - |word|..] == word;
    AscentWordLengthOf(p, word);
    assert p[..|g|] == g;
    assert forall i :: |g| <= i < |p| - |word| ==> p[i] == w[i - |g|];
  }

  /** What `AscentMeasure` accepts is a measure, at least one space and an ascent word. */
  lemma AscentMeasureSound(piece: string)
    requires AscentMeasure(piece).Some?
    ensures var g := AscentMeasure(piece).value; var n := AscentWordLength(piece);
      && |g| < |piece| - n && piece[..|g|] == g && SpacesIn(piece, |g|, |piece| - n)
      && IsAscentWord(Lower(piece[|piece| - n..]))
  {
    var g := AscentMeasure(piece).value;
    var n := AscentWordLength(piece);
    var tail := piece[|piece| - n..];
    var lt := Lower(tail);
    assert forall i :: 0 <= i < n ==> lt[i] == Back(piece, n - 1 - i);
    if n == 6 {
      assert lt == "ascent";
    } else if n == 3 {
      assert lt == "asc";
    } else if Back(piece, 0) == '.' {
      assert lt == "asc.";
    } else {
      assert lt == "gain";
    }
  }

  /** How one comma-separated piece of a stats block is read. */
  datatype Stat = Distance(distance: string) | Ascent(ascent: string) | Unrecognised

  /** The `if`/`elsif`/`else` of `parse_stats` on one piece: distance first, then ascent. */
  function StatOf(piece: string): Stat {
    if IsDistance(piece) then Distance(Lower(Strip(piece)))
    else match AscentMeasure(piece)
      case Some(g) => Ascent(Lower(Strip(g)))
      case None => Unrecognised
  }

  /** Each piece read on its own. */
  function StatsOfPieces(pieces: seq<string>): (r: seq<Stat>)
    ensures |r| == |pieces| && forall i :: 0 <= i < |pieces| ==> r[i] == StatOf(pieces[i])
  {
    seq(|pieces|, i requires 0 <= i < |pieces| => StatOf(pieces[i]))
  }

  /** The known distance and ascent after one more stat. */
  function StepStat(distance: Option<string>, ascent: Option<string>, stat: Stat): (Option<string>, Option<string>) {
    match stat
    case Distance(d) => (Some(d), ascent)
    case Ascent(a) => (distance, Some(a))
    case Unrecognised => (distance, ascent)
  }

  /** The `each` loop of `parse_stats`, left to right, from the current distance and ascent. */
  function ApplyStats(stats: seq<Stat>, distance: Option<string>, ascent: Option<string>): (Option<string>, Option<string>)
    decreases |stats|
  {
    if stats == [] then (distance, ascent)
    else
      var (d, a) := StepStat(distance, ascent, stats[0]);
      ApplyStats(stats[1..], d, a)
  }

  /** One turn of the `each` loop, from index `i`. */
  lemma ApplyStatsStep(stats: seq<Stat>, i: nat, distance: Option<string>, ascent: Option<string>)
    requires i < |stats|
    ensures ApplyStats(stats[i..], distance, ascent) ==
      var (d, a) := StepStat(distance, ascent, stats[i]); ApplyStats(stats[i + 1..], d, a)
  {
    assert stats[i..][1..] == stats[i + 1..];
  }

  /** The value of the last distance among `stats`. */
  function LastDistance(stats: seq<Stat>): Option<string> {
    if stats == [] then None
    else match stats[|stats| - 1]
      case Distance(d) => Some(d)
      case _ => LastDistance(stats[..|stats| - 1])
  }

  /** The value of the last ascent among `stats`. */
  function LastAscent(stats: seq<Stat>): Option<string> {
    if stats == [] then None
    else match stats[|stats| - 1]
      case Ascent(a) => Some(a)
      case _ => LastAscent(stats[..|stats| - 1])
  }

  /** `LastDistance` is the distance after which no other distance comes. */
  lemma {:induction false} LastDistanceIs(stats: seq<Stat>)
    ensures LastDistance(stats).None? ==> forall i :: 0 <= i < |stats| ==> !stats[i].Distance?
    ensures LastDistance(stats).Some? ==>
      exists i :: 0 <= i < |stats| && stats[i] == Distance(LastDistance(stats).value)
        && (forall j :: i < j < |stats| ==> !stats[j].Distance?)
  {
    if stats != [] {
      var init := stats[..|stats| - 1];
      LastDistanceIs(init);
      if !stats[|stats| - 1].Distance? {
        assert forall i :: 0 <= i < |init| ==> init[i] == stats[i];
      }
    }
  }

  /** `LastAscent` is the ascent after which no other ascent comes. */
  lemma {:induction false} LastAscentIs(stats: seq<Stat>)
    ensures LastAscent(stats).None? ==> forall i :: 0 <= i < |stats| ==> !stats[i].Ascent?
    ensures LastAscent(stats).Some? ==>
      exists i :: 0 <= i < |stats| && stats[i] == Ascent(LastAscent(stats).value)
        && (forall j :: i < j < |stats| ==> !stats[j].Ascent?)
  {
    if stats != [] {
      var init := stats[..|stats| - 1];
      LastAscentIs(init);
      if !stats[|stats| - 1].Ascent? {
        assert forall i :: 0 <= i < |init| ==> init[i] == stats[i];
      }
    }
  }

  lemma {:induction false} ApplyStatsSnoc(stats: seq<Stat>, stat: Stat, distance: Option<string>, ascent: Option<string>)
    ensures ApplyStats(stats + [stat], distance, ascent) ==
      var (d, a) := ApplyStats(stats, distance, ascent); StepStat(d, a, stat)
    decreases |stats|
  {
    if stats != [] {
      var (d, a) := StepStat(distance, ascent, stats[0]);
      assert (stats + [stat])[1..] == stats[1..] + [stat];
      ApplyStatsSnoc(stats[1..], stat, d, a);
    }
  }

  /**
   * Later pieces overwrite earlier ones and unrecognised pieces change
   * nothing: the result is the last distance and the last ascent read, or
   * the values from before when there are none.
   */
  lemma {:induction false} ApplyStatsLastWins(stats: seq<Stat>, distance: Option<string>, ascent: Option<string>)
    ensures ApplyStats(stats, distance, ascent) == (LastDistance(stats).Or(distance), LastAscent(stats).Or(ascent))
    decreases |stats|
  {
    if stats != [] {
      var init := stats[..|stats| - 1];
      assert stats == init + [stats[|stats| - 1]];
      ApplyStatsSnoc(init, stats[|stats| - 1], distance, ascent);
      ApplyStatsLastWins(init, distance, ascent);
    }
  }

  /** `parse_stats` on a stats block: its pieces split on commas, read and applied in order. */
  function StatsOf(block: string, distance: Option<string>, ascent: Option<string>): (Option<string>, Option<string>) {
    ApplyStats(StatsOfPieces(Split(block)), distance, ascent)
  }
}
