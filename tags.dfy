/**
 * `Event::Tag` and `Event#short_full_tags` in build/html.rb: each tag of a
 * title has a short form, put before the title, and a long form, shown on
 * its own. ActiveSupport's `titleize` is a parameter of the model.
 */
module Tags {
  import opened Text

  datatype Tag = Tag(short: string, long: string)

  const AustriaFlag: string := "\U{1F1E6}\U{1F1F9}"
  const ItalyFlag: string := "\U{1F1EE}\U{1F1F9}"

  /** `Tag.new(raw)`: the long form is the title-cased tag, the short form the same in square brackets. */
  function RawTag(raw: string, titleize: string -> string): (t: Tag)
    ensures t.long == titleize(raw) && t.short == "[" + t.long + "]"
  {
    var long := titleize(raw);
    Tag("[" + long + "]", long)
  }

  /** The `case` of `short_full_tags` on one tag: two countries become flags, the rest `RawTag`. */
  function TagOf(raw: string, titleize: string -> string): Tag {
    var lower := Lower(raw);
    if lower == "austria" then Tag(AustriaFlag, AustriaFlag + " Austria")
    else if lower == "italy" then Tag(ItalyFlag, ItalyFlag + " Italy")
    else RawTag(raw, titleize)
  }

  /** `short_full_tags`: one `Tag` per parsed tag, in order. */
  function ShortFullTags(tags: seq<string>, titleize: string -> string): (r: seq<Tag>)
    ensures |r| == |tags|
    ensures forall i :: 0 <= i < |tags| ==> r[i] == TagOf(tags[i], titleize)
  {
    seq(|tags|, i requires 0 <= i < |tags| => TagOf(tags[i], titleize))
  }

  /** The long forms, what the method named `tags` returns. */
  function LongForms(tags: seq<string>, titleize: string -> string): (r: seq<string>)
    ensures |r| == |tags|
    ensures forall i :: 0 <= i < |tags| ==> r[i] == TagOf(tags[i], titleize).long
  {
    var full := ShortFullTags(tags, titleize);
    seq(|full|, i requires 0 <= i < |full| => full[i].long)
  }

  /** The short forms, what `short_tags` returns. */
  function ShortForms(tags: seq<string>, titleize: string -> string): (r: seq<string>)
    ensures |r| == |tags|
    ensures forall i :: 0 <= i < |tags| ==> r[i] == TagOf(tags[i], titleize).short
  {
    var full := ShortFullTags(tags, titleize);
    seq(|full|, i requires 0 <= i < |full| => full[i].short)
  }

  /**
   * Every tag other than the two countries, in whatever case, keeps its
   * place in both lists: its long form is the title-cased tag and its short
   * form that in square brackets.
   */
  lemma OrdinaryTagForms(tags: seq<string>, titleize: string -> string, i: nat)
    requires i < |tags| && Lower(tags[i]) != "austria" && Lower(tags[i]) != "italy"
    ensures LongForms(tags, titleize)[i] == titleize(tags[i])
    ensures ShortForms(tags, titleize)[i] == "[" + LongForms(tags, titleize)[i] + "]"
  {
  }

  /** The two countries become flags, in any case, whatever `titleize` does. */
  lemma CountryTagForms(raw: string, titleize: string -> string)
    ensures Lower(raw) == "austria" ==> TagOf(raw, titleize) == Tag(AustriaFlag, AustriaFlag + " Austria")
    ensures Lower(raw) == "italy" ==> TagOf(raw, titleize) == Tag(ItalyFlag, ItalyFlag + " Italy")
  {
  }

  /** The short and long lists are computed from the same tags, so each pair comes from one tag. */
  lemma FormsPaired(tags: seq<string>, titleize: string -> string)
    ensures forall i :: 0 <= i < |tags| ==>
      Tag(ShortForms(tags, titleize)[i], LongForms(tags, titleize)[i]) == ShortFullTags(tags, titleize)[i]
  {
  }

  /** The flag and its country name, for the upper-case spelling of the tag. */
  lemma AustriaExample(titleize: string -> string)
    ensures TagOf("AUSTRIA", titleize).short == AustriaFlag
  {
    assert Lower("AUSTRIA") == "austria";
  }
}
