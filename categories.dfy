/**
 * Event categories (`Event::Category` in build/html.rb) and
 * `Event#parse_category`, which picks an event's category from its tags.
 * A category remembers whether any tag has been matched against it; the
 * list of categories is shared by every event, so that flag accumulates.
 */
module Categories {
  import opened Optional
  import opened Text

  /** The keyword options of `Category.new`; only `icon` is read. */
  datatype Options = Options(icon: Option<string>, emoji: Option<string>)

  class Category {
    /** The first positional name. */
    const name: string
    const icon: Option<string>
    /** Taken from the `icon` option, as the constructor is written. */
    const emoji: Option<string>
    /** Every positional name, the category's own name included. */
    const terms: set<string>
    var used: bool

    /** `Category.new(*names, **options)`: the option hash is taken off before the terms are formed. */
    constructor (names: seq<string>, options: Options)
      requires |names| > 0
      ensures name == names[0] && name in terms
      ensures forall t :: t in terms <==> t in names
      ensures icon == options.icon && emoji == options.icon
      ensures !used
    {
      name := names[0];
      icon := options.icon;
      emoji := options.icon;
      terms := set n | n in names;
      used := false;
    }

    /** `include?`: whether `tag` is one of the terms; a match marks the category as used. */
    method Include(tag: string) returns (b: bool)
      modifies this
      ensures b <==> tag in terms
      ensures used == (old(used) || b)
    {
      if tag !in terms {
        return false;
      }
      used := true;
      return true;
    }
  }

  /** The categories an event can have, in order; the last one is the default. */
  method StandardCategories() returns (categories: seq<Category>)
    ensures |categories| == 2 && fresh(categories[0]) && fresh(categories[1])
    ensures categories[0].name == "cycling" && categories[0].terms == {"cycling", "cycle", "bike", "biking"}
    ensures categories[0].icon == Some("fa-biking") && categories[0].emoji == Some("fa-biking")
    ensures categories[1].name == "hiking" && categories[1].terms == {"hiking", "hike"}
    ensures categories[1].icon == Some("fa-hiking") && categories[1].emoji == Some("fa-hiking")
    ensures !categories[0].used && !categories[1].used
  {
    var cycling := new Category(["cycling", "cycle", "bike", "biking"], Options(Some("fa-biking"), Some("\U{1F6B4}\U{200D}")));
    var hiking := new Category(["hiking", "hike"], Options(Some("fa-hiking"), None));
    categories := [cycling, hiking];
  }

  /** The index of the first category whose terms contain `term`, or `|categories|` when none does. */
  function FirstCategory(term: string, categories: seq<Category>): (i: nat)
    ensures i <= |categories|
    ensures i < |categories| ==> term in categories[i].terms
    ensures forall k :: 0 <= k < i ==> term !in categories[k].terms
  {
    if categories == [] then 0
    else if term in categories[0].terms then 0
    else 1 + FirstCategory(term, categories[1..])
  }

  /** Whether a tag names a category: its lower-case form is one of some category's terms. */
  predicate NamesCategory(tag: string, categories: seq<Category>) {
    FirstCategory(Lower(tag), categories) < |categories|
  }

  /** The index of the first tag that names a category, or `|tags|` when none does. */
  function FirstCategoryTag(tags: seq<string>, categories: seq<Category>): (j: nat)
    ensures j <= |tags|
    ensures j < |tags| ==> NamesCategory(tags[j], categories)
    ensures forall k :: 0 <= k < j ==> !NamesCategory(tags[k], categories)
  {
    if tags == [] then 0
    else if NamesCategory(tags[0], categories) then 0
    else 1 + FirstCategoryTag(tags[1..], categories)
  }

  /** The tags `parse_category` keeps: all but the first one that names a category. */
  function KeptTags(tags: seq<string>, categories: seq<Category>): seq<string> {
    var j := FirstCategoryTag(tags, categories);
    if j < |tags| then tags[..j] + tags[j + 1..] else tags
  }

  /** The index of the category `parse_category` picks: the one the first category tag names, else the last. */
  function CategoryIndex(tags: seq<string>, categories: seq<Category>): nat
    requires |categories| > 0
  {
    var j := FirstCategoryTag(tags, categories);
    if j < |tags| then FirstCategory(Lower(tags[j]), categories) else |categories| - 1
  }

  /**
   * A tag that names a category is removed, and only the first such tag:
   * the kept tags are the others in their order, and the category is the
   * first, in list order, that has the tag's lower-case form as a term.
   */
  lemma ClassifiedByFirstTag(before: seq<string>, tag: string, after: seq<string>, categories: seq<Category>)
    requires |categories| > 0
    requires forall k :: 0 <= k < |before| ==> !NamesCategory(before[k], categories)
    requires NamesCategory(tag, categories)
    ensures KeptTags(before + [tag] + after, categories) == before + after
    ensures var i := CategoryIndex(before + [tag] + after, categories);
      Lower(tag) in categories[i].terms && forall k :: 0 <= k < i ==> Lower(tag) !in categories[k].terms
  {
    var tags := before + [tag] + after;
    assert tags[|before|] == tag;
    assert forall k :: 0 <= k < |before| ==> tags[k] == before[k];
    var j := FirstCategoryTag(tags, categories);
    assert j == |before|;
    assert tags[..j] == before && tags[j + 1..] == after;
  }

  /** When no tag names a category, every tag is kept and the category is the last one. */
  lemma NoCategoryTag(tags: seq<string>, categories: seq<Category>)
    requires |categories| > 0
    requires forall k :: 0 <= k < |tags| ==> !NamesCategory(tags[k], categories)
    ensures KeptTags(tags, categories) == tags
    ensures CategoryIndex(tags, categories) == |categories| - 1
  {
  }

  /**
   * With the standard categories, `Hiking Austria` is a hike tagged
   * Austria, and in `Bike hike` only the first category tag counts: the
   * event is a cycling event still tagged `hike`.
   */
  lemma StandardExamples(categories: seq<Category>)
    requires |categories| == 2
    requires categories[0].terms == {"cycling", "cycle", "bike", "biking"} && categories[1].terms == {"hiking", "hike"}
    ensures KeptTags(["Hiking", "Austria"], categories) == ["Austria"] && CategoryIndex(["Hiking", "Austria"], categories) == 1
    ensures KeptTags(["Bike", "hike"], categories) == ["hike"] && CategoryIndex(["Bike", "hike"], categories) == 0
  {
    assert Lower("Hiking") == "hiking" && Lower("Bike") == "bike";
    assert "hiking" !in categories[0].terms;
    assert FirstCategory("hiking", categories) == 1;
    ClassifiedByFirstTag([], "Hiking", ["Austria"], categories);
    assert [] + ["Hiking"] + ["Austria"] == ["Hiking", "Austria"];
    ClassifiedByFirstTag([], "Bike", ["hike"], categories);
    assert [] + ["Bike"] + ["hike"] == ["Bike", "hike"];
  }

  /**
   * The `find` of `parse_category`: `term` is offered to each category in
   * turn until one accepts it. It is the first category with the term, and
   * only that category is marked as used.
   */
  method FindCategory(term: string, categories: seq<Category>) returns (found: bool, index: nat)
    modifies categories
    ensures found <==> FirstCategory(term, categories) < |categories|
    ensures found ==> index == FirstCategory(term, categories)
    ensures forall k :: 0 <= k < |categories| ==> categories[k].used == (old(categories[k].used) || (found && categories[k] == categories[index]))
  {
    found := false;
    index := 0;
    while index < |categories| && !found
      invariant index <= |categories|
      invariant forall m :: 0 <= m < index ==> term !in categories[m].terms
      invariant found ==> index < |categories| && term in categories[index].terms
      invariant forall k :: 0 <= k < |categories| ==> categories[k].used == (old(categories[k].used) || (found && categories[k] == categories[index]))
      decreases |categories| - index, !found
    {
      found := categories[index].Include(term);
      if !found {
        index := index + 1;
      }
    }
  }

  /**
   * `parse_category`: the tags are scanned in order and, until a category
   * is found, each one's lower-case form is offered to the categories; the
   * first category that accepts it is the event's category and the tag is
   * dropped. The category that accepts is marked as used, and no other
   * category changes.
   */
  method ParseCategory(tags: seq<string>, categories: seq<Category>) returns (kept: seq<string>, category: Category)
    requires |categories| > 0
    modifies categories
    ensures kept == KeptTags(tags, categories)
    ensures category == categories[CategoryIndex(tags, categories)]
    ensures forall k :: 0 <= k < |categories| ==>
      categories[k].used == (old(categories[k].used) || (FirstCategoryTag(tags, categories) < |tags| && categories[k] == category))
  {
    var found := false;
    var index := 0;
    kept := [];
    var i := 0;
    while i < |tags|
      invariant 0 <= i <= |tags|
      invariant found <==> FirstCategoryTag(tags, categories) < i
      invariant !found ==> kept == tags[..i]
      invariant found ==> (var j := FirstCategoryTag(tags, categories);
        kept == tags[..j] + tags[j + 1..i] && index == FirstCategory(Lower(tags[j]), categories))
      invariant forall k :: 0 <= k < |categories| ==> categories[k].used == (old(categories[k].used) || (found && categories[k] == categories[index]))
    {
      if found {
        KeptGrows(tags, FirstCategoryTag(tags, categories), i);
        kept := kept + [tags[i]];
      } else {
        found, index := FindCategory(Lower(tags[i]), categories);
        if !found {
          assert tags[..i] + [tags[i]] == tags[..i + 1];
          kept := kept + [tags[i]];
        } else {
          assert tags[i + 1..i + 1] == [] && kept + [] == kept;
        }
      }
      i := i + 1;
    }
    assert tags[..|tags|] == tags;
    if found {
      category := categories[index];
    } else {
      category := categories[|categories| - 1];
    }
  }

  /** The tags kept around the dropped one at `j` grow by one as the scan passes `i`. */
  lemma KeptGrows(tags: seq<string>, j: nat, i: nat)
    requires j < i < |tags|
    ensures tags[..j] + tags[j + 1..i] + [tags[i]] == tags[..j] + tags[j + 1..i + 1]
  {
    assert tags[j + 1..i] + [tags[i]] == tags[j + 1..i + 1];
  }
}
