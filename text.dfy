/** An optional value: Ruby's and JavaScript's nil/null as a Dafny datatype. */
module Optional {
  datatype Option<+T> = None | Some(value: T) {
    /** The value, or `default` when there is none. */
    function GetOr(default: T): T {
      match this
      case Some(v) => v
      case None => default
    }

    /** This value when there is one, otherwise `other`. */
    function Or(other: Option<T>): Option<T> {
      if Some? then this else other
    }
  }
}

/**
 * Character classes and the small string operations that the regular
 * expressions of the build scripts are made of. Strings are sequences of
 * Unicode scalar values, as in Ruby's UTF-8 strings.
 */
module Text {

  /** Ruby's `\s`: space, tab, line feed, vertical tab, form feed, carriage return. */
  predicate IsSpace(c: char) {
    c == ' ' || c == '\t' || c == '\n' || c == '\U{B}' || c == '\U{C}' || c == '\r'
  }

  /** The characters `String#strip` removes: `\s` and the null character. */
  predicate IsStripSpace(c: char) {
    IsSpace(c) || c == '\0'
  }

  /** `\d`: an ASCII digit. */
  predicate IsDigit(c: char) {
    '0' <= c <= '9'
  }

  /** An ASCII letter, what `[a-z]` matches under the `i` flag. */
  predicate IsLetter(c: char) {
    'a' <= c <= 'z' || 'A' <= c <= 'Z'
  }

  predicate AllSpaces(s: string) {
    forall i :: 0 <= i < |s| ==> IsSpace(s[i])
  }

  /** `s[lo..hi]` lies within `s` and holds only spaces. */
  predicate SpacesIn(s: string, lo: int, hi: int) {
    0 <= lo <= hi <= |s| && forall i :: lo <= i < hi ==> IsSpace(s[i])
  }

  predicate HasNonSpace(s: string) {
    exists i :: 0 <= i < |s| && !IsSpace(s[i])
  }

  predicate EndsWith(s: string, suffix: string) {
    |suffix| <= |s| && s[|s| - |suffix|..] == suffix
  }

  /** Whether `t` occurs in `s` as a contiguous piece. */
  predicate Contains(s: string, t: string)
    decreases |s|
  {
    |t| <= |s| && (s[..|t|] == t || Contains(s[1..], t))
  }

  /** A piece found at any index is contained. */
  lemma {:induction false} ContainsAt(s: string, t: string, i: nat)
    requires i + |t| <= |s| && s[i..i + |t|] == t
    ensures Contains(s, t)
    decreases i
  {
    if i > 0 {
      assert s[1..][i - 1..i - 1 + |t|] == s[i..i + |t|];
      ContainsAt(s[1..], t, i - 1);
    }
  }

  /** ASCII `downcase` of one character: `A` to `Z` become `a` to `z`, anything else is kept. */
  function LowerChar(c: char): (d: char)
    ensures 'A' <= c <= 'Z' ==> 'a' <= d <= 'z' && d as int == c as int + 32
    ensures !('A' <= c <= 'Z') ==> d == c
    ensures IsLetter(c) ==> 'a' <= d <= 'z'
  {
    if 'A' <= c <= 'Z' then (c as int + 32) as char else c
  }

  /** `String#downcase`, on ASCII letters. */
  function Lower(s: string): (r: string)
    ensures |r| == |s|
    ensures forall i :: 0 <= i < |s| ==> r[i] == LowerChar(s[i])
  {
    if s == [] then [] else [LowerChar(s[0])] + Lower(s[1..])
  }

  /** `s` without its leading spaces. */
  function TrimStart(s: string): (r: string)
    ensures |r| <= |s| && r == s[|s| - |r|..]
    ensures SpacesIn(s, 0, |s| - |r|)
    ensures r == [] || !IsSpace(r[0])
  {
    if s != [] && IsSpace(s[0]) then TrimStart(s[1..]) else s
  }

  /** Where `TrimStart` stops: at the first character that is not a space. */
  lemma TrimStartAt(s: string, j: nat)
    requires SpacesIn(s, 0, j) && (j == |s| || !IsSpace(s[j]))
    ensures TrimStart(s) == s[j..]
  {
    if j > 0 {
      TrimStartAt(s[1..], j - 1);
    }
  }

  /** `s` without its trailing spaces. */
  function TrimEnd(s: string): (r: string)
    ensures |r| <= |s| && r == s[..|r|]
    ensures SpacesIn(s, |r|, |s|)
    ensures r == [] || !IsSpace(r[|r| - 1])
  {
    if s != [] && IsSpace(s[|s| - 1]) then TrimEnd(s[..|s| - 1]) else s
  }

  /** The first index at or after `i` that does not hold a space, or `|s|`. */
  function SkipSpaces(s: string, i: nat): (j: nat)
    requires i <= |s|
    ensures i <= j <= |s| && SpacesIn(s, i, j) && (j == |s| || !IsSpace(s[j]))
    decreases |s| - i
  {
    if i < |s| && IsSpace(s[i]) then SkipSpaces(s, i + 1) else i
  }

  /** The smallest index `j <= hi` such that only spaces lie between `j` and `hi`. */
  function SkipSpacesBack(s: string, hi: nat): (j: nat)
    requires hi <= |s|
    ensures j <= hi && SpacesIn(s, j, hi) && (j == 0 || !IsSpace(s[j - 1]))
  {
    if hi > 0 && IsSpace(s[hi - 1]) then SkipSpacesBack(s, hi - 1) else hi
  }

  /** `s` without the leading characters `String#strip` removes. */
  function StripStart(s: string): (r: string)
    ensures |r| <= |s| && r == s[|s| - |r|..]
    ensures forall i :: 0 <= i < |s| - |r| ==> IsStripSpace(s[i])
    ensures r == [] || !IsStripSpace(r[0])
  {
    if s != [] && IsStripSpace(s[0]) then StripStart(s[1..]) else s
  }

  /** `s` without the trailing characters `String#strip` removes. */
  function StripEnd(s: string): (r: string)
    ensures |r| <= |s| && r == s[..|r|]
    ensures forall i :: |r| <= i < |s| ==> IsStripSpace(s[i])
    ensures r == [] || !IsStripSpace(r[|r| - 1])
  {
    if s != [] && IsStripSpace(s[|s| - 1]) then StripEnd(s[..|s| - 1]) else s
  }

  /** `r` is a slice of `s` with only whitespace and NUL before and after it. */
  predicate StrippedSlice(s: string, r: string) {
    exists k {:trigger s[k..k + |r|]} ::
      && 0 <= k <= |s| - |r| && r == s[k..k + |r|]
      && (forall i :: 0 <= i < k ==> IsStripSpace(s[i]))
      && (forall i :: k + |r| <= i < |s| ==> IsStripSpace(s[i]))
  }

  /**
   * `String#strip`: a slice of `s` with only whitespace and NUL before and
   * after it, and none of those at either of its ends.
   */
  function Strip(s: string): (r: string)
    ensures r == [] || (!IsStripSpace(r[0]) && !IsStripSpace(r[|r| - 1]))
    ensures |r| <= |s|
    ensures StrippedSlice(s, r)
  {
    var t := StripStart(s);
    var r := StripEnd(t);
    StripSlice(s, t, r);
    r
  }

  /** The two halves of `strip` leave a slice of `s` with stripped characters on either side. */
  lemma StripSlice(s: string, t: string, r: string)
    requires |t| <= |s| && t == s[|s| - |t|..] && forall i :: 0 <= i < |s| - |t| ==> IsStripSpace(s[i])
    requires |r| <= |t| && r == t[..|r|] && forall i :: |r| <= i < |t| ==> IsStripSpace(t[i])
    ensures StrippedSlice(s, r)
  {
    var k := |s| - |t|;
    assert r == s[k..k + |r|];
    forall i | k + |r| <= i < |s| ensures IsStripSpace(s[i]) {
      assert s[i] == t[i - k];
    }
  }

  /**
   * What the group `(.+)` captures in `\s*(.+)$` on a non-empty `s`: the
   * greedy `\s*` takes every leading space but must leave one character.
   */
  function AfterSpaces(s: string): (r: string)
    requires s != []
    ensures r != [] && |r| <= |s| && r == s[|s| - |r|..]
    ensures SpacesIn(s, 0, |s| - |r|)
    ensures !IsSpace(r[0]) || (|r| == 1 && AllSpaces(s))
  {
    var t := TrimStart(s);
    if t != [] then t
    else
      assert s[|s| - 1..] == [s[|s| - 1]];
      assert forall i :: 0 <= i < |s| ==> IsSpace(s[i]);
      [s[|s| - 1]]
  }

  /** Spaces before a remainder that starts with a non-space are all skipped. */
  lemma AfterSpacesOf(w: string, rest: string)
    requires AllSpaces(w) && rest != [] && !IsSpace(rest[0])
    ensures AfterSpaces(w + rest) == rest
  {
    TrimStartAt(w + rest, |w|);
    assert (w + rest)[|w|..] == rest;
  }

  /** A string of spaces only keeps its last space. */
  lemma AfterSpacesAllSpaces(s: string)
    requires s != [] && AllSpaces(s)
    ensures AfterSpaces(s) == [s[|s| - 1]]
  {
    TrimStartAt(s, |s|);
  }

  /** The index of the first `c` in `s`, or `|s|` when there is none. */
  function IndexOf(s: string, c: char): (i: nat)
    ensures i <= |s| && (i < |s| ==> s[i] == c)
    ensures forall k :: 0 <= k < i ==> s[k] != c
  {
    if s == [] then 0 else if s[0] == c then 0 else 1 + IndexOf(s[1..], c)
  }

  /** `IndexOf` finds the first occurrence. */
  lemma IndexOfAt(s: string, c: char, j: nat)
    requires j <= |s| && (j < |s| ==> s[j] == c) && forall k :: 0 <= k < j ==> s[k] != c
    ensures IndexOf(s, c) == j
  {
  }

  /** The pieces between the matches of the pattern `,\s*` in `s`,
      empty ones included. */
  function Fields(s: string): (r: seq<string>)
    ensures |r| >= 1
    ensures forall k :: 0 <= k < |r| ==> ',' !in r[k]
    decreases |s|
  {
    var i := IndexOf(s, ',');
    if i == |s| then [s] else [s[..i]] + Fields(s[SkipSpaces(s, i + 1)..])
  }

  /** What `,\s*` matches: a comma and any spaces after it. */
  predicate IsSeparator(sep: string) {
    |sep| >= 1 && sep[0] == ',' && forall i :: 1 <= i < |sep| ==> IsSpace(sep[i])
  }

  /** `fields` with `seps[k]` between `fields[k]` and `fields[k + 1]`. */
  function Interleave(fields: seq<string>, seps: seq<string>): string
    requires |fields| >= 1 && |seps| == |fields| - 1
    decreases |fields|
  {
    if |fields| == 1 then fields[0] else fields[0] + seps[0] + Interleave(fields[1..], seps[1..])
  }

  /** `s` is `fields` put back together with separators between them. */
  predicate Rebuilds(s: string, fields: seq<string>, seps: seq<string>) {
    && |fields| >= 1 && |seps| == |fields| - 1
    && (forall k :: 0 <= k < |seps| ==> IsSeparator(seps[k]))
    && Interleave(fields, seps) == s
  }

  /** The matches of `,\s*` in `s`, one between each two of its fields. */
  function FieldSeparators(s: string): (seps: seq<string>)
    decreases |s|
  {
    var i := IndexOf(s, ',');
    if i == |s| then [] else [s[i..SkipSpaces(s, i + 1)]] + FieldSeparators(s[SkipSpaces(s, i + 1)..])
  }

  /**
   * `s` is its fields with a separator between each two, and since every
   * separator takes all the spaces after its comma, no field after the
   * first starts with a space.
   */
  lemma {:induction false} FieldsRebuild(s: string)
    ensures Rebuilds(s, Fields(s), FieldSeparators(s))
    ensures forall k :: 1 <= k < |Fields(s)| ==> Fields(s)[k] == [] || !IsSpace(Fields(s)[k][0])
    decreases |s|
  {
    var i := IndexOf(s, ',');
    if i == |s| {
      assert Fields(s) == [s];
    } else {
      var m := SkipSpaces(s, i + 1);
      var t := s[m..];
      FieldsRebuild(t);
      CommaSplit(s, i, m);
      RebuildsCons(s[..i], s[i..m], t, Fields(t), FieldSeparators(t));
      var f := Fields(s);
      assert f == [s[..i]] + Fields(t);
      forall k | 1 <= k < |f| ensures f[k] == [] || !IsSpace(f[k][0]) {
        assert f[k] == Fields(t)[k - 1];
        if k == 1 && f[1] != [] {
          assert f[1][0] == t[0] by {
            if IndexOf(t, ',') < |t| {
              assert f[1] == t[..IndexOf(t, ',')];
            }
          }
        }
      }
    }
  }

  /** At a comma followed by spaces up to `m`, `s` is what comes before, that separator, and the rest. */
  lemma CommaSplit(s: string, i: nat, m: nat)
    requires i < m <= |s| && s[i] == ',' && SpacesIn(s, i + 1, m)
    ensures IsSeparator(s[i..m]) && s == s[..i] + s[i..m] + s[m..]
  {
    assert s[i..] == s[i..m] + s[m..];
    assert s == s[..i] + s[i..];
  }

  /** A field and a separator put before a rebuilt string rebuild the longer string. */
  lemma RebuildsCons(first: string, sep: string, t: string, fields: seq<string>, seps: seq<string>)
    requires IsSeparator(sep) && Rebuilds(t, fields, seps)
    ensures Rebuilds(first + sep + t, [first] + fields, [sep] + seps)
  {
    var f := [first] + fields;
    var ss := [sep] + seps;
    assert f[1..] == fields && ss[1..] == seps;
    assert forall k :: 1 <= k < |ss| ==> ss[k] == seps[k - 1];
  }

  /** `fields` without its trailing empty strings. */
  function DropTrailingEmpty(fields: seq<string>): (r: seq<string>)
    ensures |r| <= |fields| && r == fields[..|r|]
    ensures forall k :: |r| <= k < |fields| ==> fields[k] == []
    ensures r == [] || r[|r| - 1] != []
  {
    if fields != [] && fields[|fields| - 1] == [] then DropTrailingEmpty(fields[..|fields| - 1]) else fields
  }

  /**
   * Ruby's `s.split` on a comma and the spaces after it, which drops
   * trailing empty fields: the pieces are the fields of `s` up to the last
   * non-empty one, and every field after them is empty.
   */
  function Split(s: string): (r: seq<string>)
    ensures forall k :: 0 <= k < |r| ==> ',' !in r[k]
    ensures r == [] || r[|r| - 1] != []
    ensures |r| <= |Fields(s)| && r == Fields(s)[..|r|]
    ensures forall k :: |r| <= k < |Fields(s)| ==> Fields(s)[k] == []
  {
    var fields := Fields(s);
    var r := DropTrailingEmpty(fields);
    assert forall k :: 0 <= k < |r| ==> r[k] == fields[k];
    r
  }

  /** The pieces a split on `,\s*` may return: no commas, no space after a separator, no empty piece at the end. */
  predicate SplitPieces(pieces: seq<string>) {
    && (forall k :: 0 <= k < |pieces| ==> ',' !in pieces[k])
    && (forall k :: 1 <= k < |pieces| ==> pieces[k] == [] || !IsSpace(pieces[k][0]))
    && (pieces == [] || pieces[|pieces| - 1] != [])
  }

  /** Joining such pieces with `", "` and splitting the result gives the pieces back. */
  lemma SplitJoin(pieces: seq<string>)
    requires SplitPieces(pieces)
    ensures Split(Join(pieces, ", ")) == pieces
  {
    if pieces == [] {
      assert Fields("") == [""];
    } else {
      FieldsJoin(pieces);
    }
  }

  /** The fields of comma-free pieces joined with `", "`, none after the first starting with a space, are the pieces. */
  lemma {:induction false} FieldsJoin(pieces: seq<string>)
    requires |pieces| >= 1
    requires forall k :: 0 <= k < |pieces| ==> ',' !in pieces[k]
    requires forall k :: 1 <= k < |pieces| ==> pieces[k] == [] || !IsSpace(pieces[k][0])
    ensures Fields(Join(pieces, ", ")) == pieces
    decreases |pieces|
  {
    if |pieces| == 1 {
      IndexOfAt(pieces[0], ',', |pieces[0]|);
    } else {
      FieldsJoin(pieces[1..]);
      JoinStart(pieces[1..]);
      FieldsJoinStep(pieces[0], pieces[1..]);
      assert pieces == [pieces[0]] + pieces[1..];
    }
  }

  /** One more piece in front of pieces that already split back. */
  lemma FieldsJoinStep(p: string, tail: seq<string>)
    requires ',' !in p && |tail| >= 1
    requires Fields(Join(tail, ", ")) == tail
    requires Join(tail, ", ") == [] || !IsSpace(Join(tail, ", ")[0])
    ensures Fields(Join([p] + tail, ", ")) == [p] + tail
  {
    var rest := Join(tail, ", ");
    FieldsCons(p, rest);
    assert ([p] + tail)[1..] == tail;
    assert Join([p] + tail, ", ") == p + ", " + rest;
  }

  /** A comma-free field, `", "` and a string not starting with a space: the field comes first, then the fields of the string. */
  lemma FieldsCons(p: string, rest: string)
    requires ',' !in p && (rest == [] || !IsSpace(rest[0]))
    ensures Fields(p + ", " + rest) == [p] + Fields(rest)
  {
    var s := p + ", " + rest;
    assert IndexOf(s, ',') == |p| by {
      assert s[|p|] == ',';
      assert forall k :: 0 <= k < |p| ==> s[k] == p[k];
      IndexOfAt(s, ',', |p|);
    }
    assert SkipSpaces(s, |p| + 1) == |p| + 2 by {
      assert s[|p| + 1] == ' ';
      assert |p| + 2 == |s| || s[|p| + 2] == rest[0];
    }
    assert s[..|p|] == p && s[|p| + 2..] == rest;
  }

  /** Pieces joined with `", "`, the first not starting with a space, do not start with a space. */
  lemma JoinStart(pieces: seq<string>)
    requires |pieces| >= 1 && (pieces[0] == [] || !IsSpace(pieces[0][0]))
    ensures Join(pieces, ", ") == [] || !IsSpace(Join(pieces, ", ")[0])
  {
    if |pieces| > 1 && pieces[0] == [] {
      assert Join(pieces, ", ") == [] + ", " + Join(pieces[1..], ", ");
    } else if |pieces| > 1 {
      assert Join(pieces, ", ")[0] == pieces[0][0];
    }
  }

  /** A string without a comma is its own single field; the empty string has none. */
  lemma SplitWithoutComma(s: string)
    requires ',' !in s
    ensures Split(s) == if s == [] then [] else [s]
  {
    assert IndexOf(s, ',') == |s|;
  }

  /** `parts` joined with `sep` between neighbours, as `Array#join`. */
  function Join(parts: seq<string>, sep: string): (r: string)
    ensures |parts| == 1 ==> r == parts[0]
  {
    if parts == [] then [] else if |parts| == 1 then parts[0] else parts[0] + sep + Join(parts[1..], sep)
  }
}
