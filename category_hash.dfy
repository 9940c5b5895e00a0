/**
 * The category filter of the listing pages (listing.js): the selected
 * category is kept in the URL fragment as `#category-<name>`. `changeHash`
 * toggles a category in the fragment and `onHashChange` reads the selected
 * category back. The fragment is a string; assigning `location.hash` is
 * returning the new string.
 */
module CategoryHash {
  import opened Optional
  import opened Text

  const Marker: string := "#category-"

  /** `[-\w]`: an ASCII letter or digit, `_` or `-`. */
  predicate IsWordChar(c: char) {
    IsLetter(c) || IsDigit(c) || c == '_' || c == '-'
  }

  /** The characters JavaScript's `.` does not match. */
  predicate IsLineTerminator(c: char) {
    c == '\n' || c == '\r' || c == '\U{2028}' || c == '\U{2029}'
  }

  predicate NoLineTerminator(s: string) {
    forall i :: 0 <= i < |s| ==> !IsLineTerminator(s[i])
  }

  /** A non-empty category name: only `[-\w]` characters. */
  predicate IsWord(s: string) {
    s != [] && forall i :: 0 <= i < |s| ==> IsWordChar(s[i])
  }

  /** `#category-` followed by at least one `[-\w]` character starts at index `i`. */
  predicate MarkerAt(h: string, i: int) {
    0 <= i && i + |Marker| < |h| && (forall t :: 0 <= t < |Marker| ==> h[i + t] == Marker[t]) && IsWordChar(h[i + |Marker|])
  }

  /** The first index at or after `from` where a marker starts. */
  function FirstMarker(h: string, from: nat): (r: Option<nat>)
    ensures r.Some? ==> from <= r.value && MarkerAt(h, r.value) && forall j :: from <= j < r.value ==> !MarkerAt(h, j)
    ensures r.None? ==> forall j :: from <= j ==> !MarkerAt(h, j)
    decreases |h| - from
  {
    if from + |Marker| >= |h| then None
    else if MarkerAt(h, from) then Some(from)
    else FirstMarker(h, from + 1)
  }

  /** The end of the longest run of `[-\w]` characters from `j`, as the greedy `([-\w]+)` takes it. */
  function WordEnd(h: string, j: nat): (k: nat)
    requires j <= |h|
    ensures j <= k <= |h| && (forall t :: j <= t < k ==> IsWordChar(h[t])) && (k == |h| || !IsWordChar(h[k]))
    decreases |h| - j
  {
    if j < |h| && IsWordChar(h[j]) then WordEnd(h, j + 1) else j
  }

  /** The three groups of `^(.*?)#category-([-\w]+)(.*)$`. */
  datatype Selection = Selection(prefix: string, category: string, suffix: string)

  /**
   * The match of `^(.*?)#category-([-\w]+)(.*)$` (listing.js line 32): the
   * lazy prefix ends at the first marker, the category is the whole run of
   * name characters after it. Neither `.` matches a line terminator, so a
   * fragment holding one does not match.
   */
  function Selected(h: string): (r: Option<Selection>)
    ensures r.Some? ==> h == r.value.prefix + Marker + r.value.category + r.value.suffix
    ensures r.Some? ==> NoLineTerminator(h) && IsWord(r.value.category)
    ensures r.Some? ==> r.value.suffix == [] || !IsWordChar(r.value.suffix[0])
    ensures r.Some? ==> forall j :: 0 <= j < |r.value.prefix| ==> !MarkerAt(h, j)
  {
    if !NoLineTerminator(h) then None
    else match FirstMarker(h, 0)
      case Some(i) =>
        var k := WordEnd(h, i + |Marker|);
        assert h[i..i + |Marker|] == Marker;
        assert h == h[..i] + h[i..i + |Marker|] + h[i + |Marker|..k] + h[k..];
        Some(Selection(h[..i], h[i + |Marker|..k], h[k..]))
      case None => None
  }

  /**
   * `changeHash(newHash)`: selecting the category already selected removes
   * its marker; another category replaces the selected one in place; with
   * none selected the fragment becomes the marker alone.
   */
  function ChangeHash(h: string, x: string): string {
    match Selected(h)
    case Some(Selection(prefix, category, suffix)) =>
      if category == x then prefix + suffix else prefix + Marker + x + suffix
    case None => Marker + x
  }

  /** The category `onHashChange` reads back (listing.js lines 39-40): the unanchored `#category-([-\w]+)`. */
  function CategoryOf(h: string): (r: Option<string>)
    ensures r.Some? ==> IsWord(r.value)
  {
    match FirstMarker(h, 0)
    case Some(i) => Some(h[i + |Marker|..WordEnd(h, i + |Marker|)])
    case None => None
  }

  /**
   * A fragment made of a prefix without a marker, the marker, a name and a
   * suffix that does not go on with a name character is matched with
   * exactly those three groups.
   */
  lemma SelectedOf(prefix: string, c: string, suffix: string)
    requires IsWord(c) && (suffix == [] || !IsWordChar(suffix[0]))
    requires forall j :: 0 <= j < |prefix| ==> !MarkerAt(prefix + Marker + c + suffix, j)
    requires NoLineTerminator(prefix + Marker + c + suffix)
    ensures Selected(prefix + Marker + c + suffix) == Some(Selection(prefix, c, suffix))
    ensures CategoryOf(prefix + Marker + c + suffix) == Some(c)
  {
    var h := prefix + Marker + c + suffix;
    var i := |prefix|;
    assert forall t :: 0 <= t < |Marker| ==> h[i + t] == Marker[t];
    assert h[i + |Marker|] == c[0];
    FirstMarkerAt(h, 0, i);
    var k := i + |Marker| + |c|;
    forall t | i + |Marker| <= t < k ensures IsWordChar(h[t]) {
      assert h[t] == c[t - i - |Marker|];
    }
    if k < |h| {
      assert h[k] == suffix[0];
    }
    WordEndAt(h, i + |Marker|, k);
    assert h[..i] == prefix && h[i + |Marker|..k] == c && h[k..] == suffix;
  }

  /** The first marker from `from` is at `i` when one is there and none comes before it. */
  lemma FirstMarkerAt(h: string, from: nat, i: nat)
    requires from <= i && MarkerAt(h, i) && forall j :: from <= j < i ==> !MarkerAt(h, j)
    ensures FirstMarker(h, from) == Some(i)
  {
  }

  /** The run of name characters from `j` ends at `k` when it reaches `k` and stops there. */
  lemma WordEndAt(h: string, j: nat, k: nat)
    requires j <= k <= |h| && (forall t :: j <= t < k ==> IsWordChar(h[t])) && (k == |h| || !IsWordChar(h[k]))
    ensures WordEnd(h, j) == k
  {
  }

  /** On a fragment without line terminators, both regular expressions find the same category. */
  lemma SameCategory(h: string)
    requires NoLineTerminator(h)
    ensures CategoryOf(h) == if Selected(h).Some? then Some(Selected(h).value.category) else None
  {
  }

  /** Selecting the category the fragment already selects removes that marker and keeps the rest. */
  lemma ToggleOff(prefix: string, x: string, suffix: string)
    requires IsWord(x) && (suffix == [] || !IsWordChar(suffix[0]))
    requires forall j :: 0 <= j < |prefix| ==> !MarkerAt(prefix + Marker + x + suffix, j)
    requires NoLineTerminator(prefix + Marker + x + suffix)
    ensures ChangeHash(prefix + Marker + x + suffix, x) == prefix + suffix
  {
    SelectedOf(prefix, x, suffix);
  }

  /** Selecting another category replaces the selected one and keeps the prefix and the suffix. */
  lemma Replace(prefix: string, c: string, suffix: string, x: string)
    requires IsWord(c) && (suffix == [] || !IsWordChar(suffix[0])) && c != x
    requires forall j :: 0 <= j < |prefix| ==> !MarkerAt(prefix + Marker + c + suffix, j)
    requires NoLineTerminator(prefix + Marker + c + suffix)
    ensures ChangeHash(prefix + Marker + c + suffix, x) == prefix + Marker + x + suffix
  {
    SelectedOf(prefix, c, suffix);
  }

  /**
   * With no category selected the old fragment is dropped, whatever the
   * name; when the name is a word, selecting it again clears the fragment.
   */
  lemma SelectFromNone(h: string, x: string)
    requires Selected(h).None?
    ensures ChangeHash(h, x) == Marker + x
    ensures IsWord(x) ==> ChangeHash(ChangeHash(h, x), x) == []
  {
    if IsWord(x) {
      SelectAgainClears(x);
    }
  }

  /** The fragment that is the marker and a word alone is cleared by selecting that word. */
  lemma SelectAgainClears(x: string)
    requires IsWord(x)
    ensures ChangeHash(Marker + x, x) == []
  {
    assert forall i :: 0 <= i < |Marker + x| ==> !IsLineTerminator((Marker + x)[i]);
    SelectedOf([], x, []);
    assert [] + Marker + x + [] == Marker + x;
  }

  /** Two strings that agree on their first `len` characters have the same markers before `len - |Marker|`. */
  lemma MarkerAtAgrees(h: string, n: string, len: nat, j: nat)
    requires len <= |h| && len <= |n| && j + |Marker| < len
    requires forall t :: 0 <= t < len ==> h[t] == n[t]
    ensures MarkerAt(h, j) == MarkerAt(n, j)
  {
    assert forall t :: j <= t <= j + |Marker| ==> h[t] == n[t];
  }

  /** A concatenation has no line terminator exactly when neither part has one. */
  lemma NoLineTerminatorConcat(a: string, b: string)
    ensures NoLineTerminator(a + b) <==> NoLineTerminator(a) && NoLineTerminator(b)
  {
    forall t | 0 <= t < |b| ensures b[t] == (a + b)[|a| + t] {
    }
    forall t | 0 <= t < |a| ensures a[t] == (a + b)[t] {
    }
    if NoLineTerminator(a) && NoLineTerminator(b) {
      forall t | 0 <= t < |a + b| ensures !IsLineTerminator((a + b)[t]) {
        if t >= |a| {
          assert (a + b)[t] == b[t - |a|];
        }
      }
    }
  }

  /**
   * After selecting a name on a fragment that does not already select it,
   * the name is what is read back.
   */
  lemma ReadBack(h: string, x: string)
    requires IsWord(x)
    requires Selected(h).None? || Selected(h).value.category != x
    ensures CategoryOf(ChangeHash(h, x)) == Some(x)
  {
    match Selected(h)
    case None =>
      SelectFromNone(h, x);
      assert forall i :: 0 <= i < |Marker + x| ==> !IsLineTerminator((Marker + x)[i]);
      SelectedOf([], x, []);
      assert [] + Marker + x + [] == Marker + x;
    case Some(Selection(prefix, c, suffix)) =>
      var n := prefix + Marker + x + suffix;
      var len := |prefix| + |Marker|;
      assert forall t :: 0 <= t < len ==> h[t] == (prefix + Marker)[t] == n[t];
      forall j | 0 <= j < |prefix| ensures !MarkerAt(n, j) {
        MarkerAtAgrees(h, n, len, j);
      }
      NoLineTerminatorConcat(prefix + Marker + c, suffix);
      NoLineTerminatorConcat(prefix + Marker, c);
      NoLineTerminatorConcat(prefix + Marker, x);
      NoLineTerminatorConcat(prefix + Marker + x, suffix);
      SelectedOf(prefix, x, suffix);
  }
}
