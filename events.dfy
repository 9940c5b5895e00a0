/**
 * `Event` in build/html.rb: an event scraped from the Hiking Buddies
 * website. The scraped values (date, capacity, participants, the raw
 * title) are given to the constructor; the constructor then runs
 * `parse_title_tags`, which sets the grade, title, tags, category and
 * stats.
 */
module Events {
  import opened Optional
  import opened Text
  import opened Title
  import opened Categories
  import opened Tags

  const SecondsPerDay: int := 86400

  /** The calendar day a time falls on, counting days from the epoch; `/` rounds down. */
  function Day(seconds: int): int {
    seconds / SecondsPerDay
  }

  /** What `page_title` appends for the stats, as written: both slots are printed whenever either stat is known. */
  function StatsSuffixAsWritten(distance: Option<string>, ascent: Option<string>): (r: string)
    ensures distance.None? && ascent.None? ==> r == ""
    ensures distance.Some? || ascent.Some? ==> r == " [" + distance.GetOr("") + ", " + ascent.GetOr("") + " asc.]"
  {
    if distance.Some? || ascent.Some? then
      var parts := [distance.GetOr(""), ascent.GetOr("") + " asc."];
      assert Join(parts, ", ") == parts[0] + ", " + parts[1];
      " [" + Join(parts, ", ") + "]"
    else ""
  }

  /** The stats that are known, in order: the distance, then the ascent marked `asc.`. */
  function StatsParts(distance: Option<string>, ascent: Option<string>): seq<string> {
    (if distance.Some? then [distance.value] else []) + (if ascent.Some? then [ascent.value + " asc."] else [])
  }

  /** The stats suffix of the page title, listing only the stats that are known. */
  function StatsSuffix(distance: Option<string>, ascent: Option<string>): (r: string)
    ensures distance.None? && ascent.None? ==> r == ""
    ensures distance.Some? && ascent.None? ==> r == " [" + distance.value + "]"
    ensures distance.None? && ascent.Some? ==> r == " [" + ascent.value + " asc.]"
    ensures distance.Some? && ascent.Some? ==> r == " [" + distance.value + ", " + ascent.value + " asc.]"
  {
    var parts := StatsParts(distance, ascent);
    if parts == [] then "" else " [" + Join(parts, ", ") + "]"
  }

  /** With both stats known, the suffix as written and the corrected one agree. */
  lemma StatsSuffixAgrees(distance: string, ascent: string)
    ensures StatsSuffixAsWritten(Some(distance), Some(ascent)) == StatsSuffix(Some(distance), Some(ascent))
  {
    assert Join([distance, ascent + " asc."], ", ") == distance + ", " + ascent + " asc.";
  }

  /** With only a distance, the suffix as written ends in an empty ascent slot. */
  lemma StatsSuffixDistanceOnly()
    ensures StatsSuffixAsWritten(Some("12 km"), None) == " [12 km,  asc.]"
    ensures StatsSuffix(Some("12 km"), None) == " [12 km]"
  {
    assert Join(["12 km", " asc."], ", ") == "12 km" + ", " + " asc.";
  }

  /** With only an ascent, the suffix as written starts with an empty distance slot. */
  lemma StatsSuffixAscentOnly()
    ensures StatsSuffixAsWritten(None, Some("800m")) == " [, 800m asc.]"
    ensures StatsSuffix(None, Some("800m")) == " [800m asc.]"
  {
    assert Join(["", "800m asc."], ", ") == "" + ", " + "800m asc.";
  }

  /** With exactly one stat known, the suffix as written is longer than the corrected one, by its empty slot and separator. */
  lemma StatsSuffixLengthsDiffer(distance: Option<string>, ascent: Option<string>)
    requires distance.Some? != ascent.Some?
    ensures |StatsSuffixAsWritten(distance, ascent)| > |StatsSuffix(distance, ascent)|
  {
    if distance.Some? {
      assert Join([distance.value, " asc."], ", ") == distance.value + ", " + " asc.";
    } else {
      assert Join(["", ascent.value + " asc."], ", ") == "" + ", " + ascent.value + " asc.";
    }
  }

  /**
   * The `while` loop of `parse_title_tags`: leading tag groups are peeled
   * off while there are any, their comma-separated pieces collected in
   * order.
   */
  method PeelLeadingTags(s: string) returns (tags: seq<string>, residual: string)
    ensures (tags, residual) == LeadingTags(s)
  {
    tags := [];
    residual := s;
    while LeadingGroup(residual).Some?
      invariant LeadingTags(s).0 == tags + LeadingTags(residual).0
      invariant LeadingTags(s).1 == LeadingTags(residual).1
      decreases |residual|
    {
      var group := LeadingGroup(residual).value;
      LeadingTagsStep(residual);
      ConcatAssociative(tags, Split(group.0), LeadingTags(group.1).0);
      tags := tags + Split(group.0);
      residual := group.1;
    }
    LeadingTagsStep(residual);
    assert tags + [] == tags;
  }

  /** Appending is associative; stated for tag lists so the loop above need not unfold its functions. */
  lemma ConcatAssociative(a: seq<string>, b: seq<string>, c: seq<string>)
    ensures a + (b + c) == (a + b) + c
  {
  }

  /** The three strftime patterns of `day_date_time_string`. */
  const DateTimeThisYear: string := "%a %-d %b, %H:%M"
  const DateYearPast: string := "%a %-d %b %Y"
  const DateTimeYear: string := "%a %-d %b %Y, %H:%M"

  class Event {
    /** The URI component the event is saved under. */
    const link: string
    const id: nat
    const desc: string
    /** The start time, in seconds from the epoch. */
    const date: int
    const image: string
    const capacity: int
    const registered: nat
    const waiting: nat

    var grade: Option<string>
    var title: string
    var tags: seq<string>
    var category: Category
    var distance: Option<string>
    var ascent: Option<string>

    /**
     * `Event.new` with the scraped values in hand: the fields are set and
     * the raw title is parsed against `categories`.
     */
    constructor (link: string, id: nat, desc: string, rawTitle: string, image: string, date: int,
                 capacity: int, registered: nat, waiting: nat, categories: seq<Category>)
      requires |categories| > 0
      modifies categories
      ensures this.link == link && this.id == id && this.desc == desc && this.image == image
      ensures this.date == date && this.capacity == capacity
      ensures this.registered == registered && this.waiting == waiting
      ensures var p := ParseTitle(rawTitle);
        && grade == p.grade && title == p.title
        && tags == KeptTags(p.tags, categories) && category == categories[CategoryIndex(p.tags, categories)]
        && (distance, ascent) == (match p.stats case Some(block) => StatsOf(block, None, None) case None => (None, None))
      ensures var p := ParseTitle(rawTitle);
        forall k :: 0 <= k < |categories| ==>
          categories[k].used == (old(categories[k].used) || (FirstCategoryTag(p.tags, categories) < |p.tags| && categories[k] == category))
    {
      this.link := link;
      this.id := id;
      this.desc := desc;
      this.image := image;
      this.date := date;
      this.capacity := capacity;
      this.registered := registered;
      this.waiting := waiting;
      grade := None;
      title := rawTitle;
      tags := [];
      category := categories[|categories| - 1];
      distance := None;
      ascent := None;
      new;
      assert forall k :: 0 <= k < |categories| ==> categories[k].used == old(categories[k].used);
      ParseTitleTags(rawTitle, categories);
    }

    /**
     * The body of the loop of `parse_stats` on one piece: a distance, else
     * an ascent, replaces the value known so far; anything else is skipped.
     */
    method ReadStat(piece: string)
      modifies this
      ensures (distance, ascent) == StepStat(old(distance), old(ascent), StatOf(piece))
      ensures grade == old(grade) && title == old(title) && tags == old(tags) && category == old(category)
    {
      if IsDistance(piece) {
        distance := Some(Lower(Strip(piece)));
      } else {
        match AscentMeasure(piece) {
          case Some(measure) =>
            ascent := Some(Lower(Strip(measure)));
          case None =>
        }
      }
    }

    /**
     * `parse_stats`: the comma-separated pieces of the block are read in
     * turn, so the last distance and the last ascent win.
     */
    method ParseStats(stats: string)
      modifies this
      ensures (distance, ascent) == StatsOf(stats, old(distance), old(ascent))
      ensures grade == old(grade) && title == old(title) && tags == old(tags) && category == old(category)
    {
      var pieces := Split(stats);
      ghost var read := StatsOfPieces(pieces);
      var i := 0;
      while i < |pieces|
        invariant 0 <= i <= |pieces|
        invariant StatsOf(stats, old(distance), old(ascent)) == ApplyStats(read[i..], distance, ascent)
        invariant grade == old(grade) && title == old(title) && tags == old(tags) && category == old(category)
      {
        ApplyStatsStep(read, i, distance, ascent);
        ReadStat(pieces[i]);
        i := i + 1;
      }
    }

    /**
     * `parse_title_tags`: the grade is taken off, then the leading tag
     * groups one by one, then the trailing stats block, which goes to
     * `ParseStats`; what is left is the title. Finally the category is
     * picked from the tags.
     */
    method ParseTitleTags(raw: string, categories: seq<Category>)
      requires |categories| > 0
      modifies this, categories
      ensures var p := ParseTitle(raw);
        && grade == p.grade && title == p.title
        && tags == KeptTags(p.tags, categories) && category == categories[CategoryIndex(p.tags, categories)]
        && (distance, ascent) == (match p.stats
                                  case Some(block) => StatsOf(block, old(distance), old(ascent))
                                  case None => (old(distance), old(ascent)))
      ensures var p := ParseTitle(raw);
        forall k :: 0 <= k < |categories| ==>
          categories[k].used == (old(categories[k].used) || (FirstCategoryTag(p.tags, categories) < |p.tags| && categories[k] == category))
    {
      var found := ParseTitleSteps(raw);
      ghost var p := ParseTitle(raw);
      ghost var fields := (grade, title, distance, ascent);
      assert found == p.tags;
      assert forall k :: 0 <= k < |categories| ==> categories[k].used == old(categories[k].used);
      tags, category := ParseCategory(found, categories);
      assert (grade, title, distance, ascent) == fields;
    }

    /**
     * The first three steps of `parse_title_tags`: the grade, title and
     * stats are set, and the tags found are returned for the category step.
     */
    method ParseTitleSteps(raw: string) returns (found: seq<string>)
      modifies this
      ensures var p := ParseTitle(raw);
        && grade == p.grade && title == p.title && found == p.tags
        && (distance, ascent) == (match p.stats
                                  case Some(block) => StatsOf(block, old(distance), old(ascent))
                                  case None => (old(distance), old(ascent)))
      ensures tags == old(tags) && category == old(category)
    {
      var working: string;
      match GradeMatch(raw) {
        case Some((g, rest)) =>
          grade := Some(g);
          working := rest;
        case None =>
          grade := None;
          working := raw;
      }
      found, working := PeelLeadingTags(working);
      match TrailingStats(working) {
        case Some((t, stats)) =>
          working := t;
          ParseStats(stats);
        case None =>
      }
      title := working;
    }

    /** `available`: the places left, which with the registered participants make up the capacity. */
    function Available(): (r: int)
      ensures r + registered == capacity
      ensures r >= 0 <==> registered <= capacity
    {
      capacity - registered
    }

    /** `past?`: the event's day is before `today`. */
    predicate Past(today: int) {
      Day(date) < today
    }

    /** `upcoming?`: the event is not past, that is, its day is `today` or later. */
    predicate Upcoming(today: int)
      ensures Upcoming(today) <==> today <= Day(date)
    {
      !Past(today)
    }

    /** An event is not past on its own day, even after its start time, but is on the next day. */
    lemma PastFromNextDay()
      ensures !Past(Day(date)) && Past(Day(date) + 1)
      ensures forall today :: Past(today) <==> date < today * SecondsPerDay
    {
    }

    /**
     * The strftime pattern of `day_date_time_string`: the weekday, day and
     * month, then the year unless the event is in this year, then the time
     * when the event is in this year or not yet past.
     */
    function DayDateTimePattern(sameYear: bool, today: int): (r: string)
      ensures r == "%a %-d %b" + (if sameYear then "" else " %Y") + (if sameYear || !Past(today) then ", %H:%M" else "")
    {
      if sameYear then DateTimeThisYear
      else if Past(today) then DateYearPast
      else DateTimeYear
    }

    /**
     * `page_title`: the date, the short tags joined by spaces, the title and
     * the stats as `StatsSuffixAsWritten` prints them, then the site's name.
     * `dateString` is the date formatted with the pattern of `date_string`.
     */
    function PageTitle(dateString: string, titleize: string -> string): (r: string)
      reads this
      ensures |r| >= |dateString| + 2 && r[..|dateString| + 2] == dateString + ": "
      ensures EndsWith(r, title + StatsSuffixAsWritten(distance, ascent) + " - Hiking Buddies Munich")
    {
      TitleWithStats(dateString, titleize, StatsSuffixAsWritten(distance, ascent))
    }

    /** The page title with the corrected stats suffix, which lists only the stats that are known. */
    function PageTitleIntended(dateString: string, titleize: string -> string): (r: string)
      reads this
      ensures |r| >= |dateString| + 2 && r[..|dateString| + 2] == dateString + ": "
      ensures EndsWith(r, title + StatsSuffix(distance, ascent) + " - Hiking Buddies Munich")
    {
      TitleWithStats(dateString, titleize, StatsSuffix(distance, ascent))
    }

    /** The page title around a given stats suffix. */
    function TitleWithStats(dateString: string, titleize: string -> string, stats: string): (r: string)
      reads this
      ensures |r| >= |dateString| + 2 && r[..|dateString| + 2] == dateString + ": "
      ensures EndsWith(r, title + stats + " - Hiking Buddies Munich")
    {
      var head := dateString + ": " + Join(ShortForms(tags, titleize), " ") + " ";
      var tail := title + stats + " - Hiking Buddies Munich";
      assert (head + tail)[|head|..] == tail;
      assert (head + tail)[..|dateString| + 2] == dateString + ": ";
      head + tail
    }

    /**
     * The two page titles agree when both stats or neither are known, and
     * differ when only one is.
     */
    lemma PageTitlesAgree(dateString: string, titleize: string -> string)
      ensures distance.Some? == ascent.Some? ==> PageTitle(dateString, titleize) == PageTitleIntended(dateString, titleize)
      ensures distance.Some? != ascent.Some? ==> PageTitle(dateString, titleize) != PageTitleIntended(dateString, titleize)
    {
      if distance.Some? && ascent.Some? {
        StatsSuffixAgrees(distance.value, ascent.value);
      } else if distance.Some? != ascent.Some? {
        StatsSuffixLengthsDiffer(distance, ascent);
        TitleWithStatsLength(dateString, titleize, StatsSuffixAsWritten(distance, ascent), StatsSuffix(distance, ascent));
      }
    }

    /** Page titles around suffixes of different lengths differ. */
    lemma TitleWithStatsLength(dateString: string, titleize: string -> string, w: string, c: string)
      requires |w| != |c|
      ensures TitleWithStats(dateString, titleize, w) != TitleWithStats(dateString, titleize, c)
    {
    }
  }
}
