# Hiking Buddies Munich listing site, modelled in Dafny

The site rebuilds preview pages and listings for the Hiking Buddies Munich
events. This project models the logic at its core and proves properties of
that model:

- **Event titles** (build/html.rb). A raw title such as
  `T3 - [Alps, Hike] Peak Name [12 km, 800m gain]` is parsed in four steps:
  1. an optional grade is taken off;
  2. leading tag groups are peeled off, one at a time;
  3. a trailing stats block is split off and read for a distance and an ascent;
  4. what is left is the title.

  The tags then pick the event's category. The shared category objects
  remember whether any tag has matched them.
- **Event presentation** (build/html.rb): the short and long forms of the tags,
  the page title, the places left, past and upcoming, and the date pattern
  choice.
- **Listings** (build/html.rb): which events each of the three listing pages
  shows, in what order, and the link of each page.
- **The category filter** of the listing pages (listing.js): toggling a
  category in the URL fragment and reading the selected category back.
- **The stylesheet build** (build/css.rb): names like `site.css.scss` are cut
  down one extension at a time, compiling with `sass` along the way, and the
  command-line filter for stylesheet paths.

Modules and files:

| file | module | models |
|---|---|---|
| text.dfy | `Optional`, `Text` | `Option`; Ruby character classes, `strip`, `downcase`, `split(/,\s*/)`, `join` |
| title.dfy | `Title` | the regular-expression steps of `parse_title_tags` and `parse_stats`, as functions |
| categories.dfy | `Categories` | `Event::Category` (a class with its mutable `used` flag), `parse_category` (a method with the `select` loop) |
| tags.dfy | `Tags` | `Event::Tag`, `short_full_tags`, `tags`, `short_tags` |
| events.dfy | `Events` | `Event` as a class: the parsing methods with their loops, `page_title`, `available`, `past?`, `upcoming?`, `day_date_time_string` |
| listings.dfy | `Listings` | `save_indices` and the link of `save_index` |
| category_hash.dfy | `CategoryHash` | `changeHash` and the read-back in `onHashChange` |
| css.dfy | `Css` | `parse` and `files` of the stylesheet build |

The parsing methods of `Event` are written imperatively, as the source is:
- `ParseTitleTags` calls `ParseTitleSteps`, which runs the module method `PeelLeadingTags`, the loop that peels tag groups;
- `ParseStats` loops over the pieces of the stats block;
- `ParseCategory` runs the `select` loop and calls `Include` on the shared categories.

Each method is proved against a function that specifies it (`LeadingTags`,
`StatsOf`, `KeptTags` with `CategoryIndex`). The lemmas of `Title` and
`Categories` state what those functions mean.

The model follows the code in these points, even where a reader might expect otherwise:
- an ascent stat keeps only its measure, so `800m gain` gives the ascent `800m`;
- with no category tag the category is the last one in the list, `hiking`;
- `Category.new` sets the emoji from the `icon` option, so the `emoji` option of the cycling category is never read.

Regular expressions are modelled character by character. Several of them
match one line only:
- in Ruby, `^` and `$` are line anchors and `.` does not match a newline;
- in JavaScript, `.` does not match a line terminator.

In build/html.rb and build/css.rb the strings are taken to hold no newline.
In listing.js, a fragment holding a line terminator is modelled exactly: it
is never selected.

## Model

| member | source | states |
|---|---|---|
| Text.Lower | build/html.rb:353 | `downcase` keeps the length and lower-cases each ASCII letter, leaving every other character |
| Text.Strip | build/html.rb:353 | `strip` gives the slice of the string with only whitespace and NUL before and after it, and none of those at either of its ends |
| Text.Fields | build/html.rb:331 | every piece of the string cut at each comma, less the spaces after it, holds no comma; there is at least one |
| Text.FieldsRebuild | build/html.rb:331 | the pieces, with a comma and a run of spaces between each pair, make up the string; no piece after the first starts with a space |
| Text.Split | build/html.rb:331 | `split(/,\s*/)` gives the pieces without commas, less the empty pieces at the end and only those |
| Text.SplitJoin | build/html.rb:331 | pieces without commas, none after the first starting with a space and the last non-empty, joined with `, ` split back into themselves |
| Text.SplitWithoutComma | build/html.rb:331 | a string without a comma splits into itself alone, and the empty string into nothing |
| Title.ParseTitle | build/html.rb:321-338 | the four steps in order: grade, leading tags, trailing stats, title; its meaning is stated by the lemmas below and by `Events.Event.ParseTitleSteps` |
| Title.GradeMatch | build/html.rb:322-328 | the optional grade prefix, as characterised by `Title.GradeMatchIff` |
| Title.GradeMatchIff | build/html.rb:322-328 | a grade is found exactly when the title starts with `T<digit>`, spaces, `-` and one more character; the grade is then `T<digit>` and parsing continues after the dash, less its leading spaces |
| Title.LeadingGroup | build/html.rb:330 | a matched tag group leaves a strictly shorter remainder, so the loop ends |
| Title.LeadingGroupPeel | build/html.rb:330-332 | a group closed at its first `]` and followed by anything non-empty is peeled: its contents, and what follows less its leading spaces, keeping at least one character |
| Title.LeadingGroupSpacesOnly | build/html.rb:330 | a group followed only by spaces is still peeled, leaving one space as the remainder |
| Title.LeadingGroupBare | build/html.rb:330 | a residual that is only a bracket group is not peeled |
| Title.LeadingTags | build/html.rb:329-333 | the residual of the loop is no longer than the input |
| Title.LeadingTagsResidual | build/html.rb:330 | the loop stops only on a residual with no tag group left to peel |
| Title.LeadingTagsPeel | build/html.rb:329-333 | for a title that starts with a group followed by anything non-empty, the tags are the group's comma-separated pieces followed by the tags of the remainder after its spaces, in order |
| Title.LastOpen | build/html.rb:334 | the last `[` that can open the trailing stats block, with no later one, or none at all |
| Title.TrailingStats | build/html.rb:334-337 | the title and the trailing stats block, as characterised by `Title.TrailingStatsMatch` |
| Title.TrailingStatsMatch | build/html.rb:334-337 | there is a stats block exactly when some `[` opens one. The block is taken from the last such `[`. The title is the text before that `[`, made non-empty and ending in a non-space, with only spaces between it and the `[`. Title, spaces and block make up the residual |
| Title.PlainTitleUnchanged | build/html.rb:321-338 | a title with no grade and no `[` comes back unchanged, with no tags and no stats |
| Title.AscentMeasure | build/html.rb:354-355 | an ascent's measure is a prefix of the piece that ends in a non-letter and `m` |
| Title.AscentWordLengthOf | build/html.rb:354 | a piece that ends in `asc`, `asc.`, `ascent` or `gain`, in any case, is recognised as ending in exactly that word |
| Title.AscentMeasureComplete | build/html.rb:354-355 | a measure, at least one space and an ascent word, in any case, are read as the ascent `measure` |
| Title.AscentMeasureSound | build/html.rb:354-355 | when an ascent is read, the piece is the measure, spaces and an ascent word, nothing else |
| Title.StatOf | build/html.rb:352-358 | what one piece of the block is: a distance, else an ascent measure, else unrecognised; stated by `Title.AscentMeasureComplete` and `Title.AscentMeasureSound` |
| Title.StatsOf | build/html.rb:350-360 | the stats read from a block, from the values before; stated by `Title.ApplyStatsLastWins` and met by `Events.Event.ParseStats` |
| Title.StatsOfPieces | build/html.rb:351-358 | each piece of the block is read on its own and in place |
| Title.ApplyStats | build/html.rb:350-360 | the `each` loop over the stats read; stated by `Title.LastDistanceIs`, `Title.LastAscentIs` and `Title.ApplyStatsLastWins` |
| Title.LastDistanceIs | build/html.rb:351-353 | the last distance read is one of the stats, and no distance comes after it; there is none only if no stat is a distance |
| Title.LastAscentIs | build/html.rb:351-355 | the last ascent read is one of the stats, and no ascent comes after it; there is none only if no stat is an ascent |
| Title.ApplyStatsSnoc | build/html.rb:351-359 | reading one more piece at the end is one more step after the others |
| Title.ApplyStatsLastWins | build/html.rb:351-359 | the result is the last distance and the last ascent read, else the values from before; unrecognised pieces change nothing |
| Categories.Category.constructor | build/html.rb:365-372 | the name is the first positional name; the terms are exactly the positional names; icon and emoji both come from the `icon` option; not used yet |
| Categories.Category.Include | build/html.rb:388-392 | `include?` is true exactly when the tag is a term, and marks the category as used only when true |
| Categories.StandardCategories | build/html.rb:398-401 | the two categories, cycling then hiking, with their terms and icons, neither used |
| Categories.FirstCategory | build/html.rb:416 | the index of the first category whose terms hold the term, or the length of the list |
| Categories.FirstCategoryTag | build/html.rb:413-418 | the index of the first tag whose lower-case form names a category, or the number of tags |
| Categories.KeptTags | build/html.rb:410-421 | the tags left by `select`, as characterised by `Categories.ClassifiedByFirstTag` and `Categories.NoCategoryTag` |
| Categories.CategoryIndex | build/html.rb:410-421 | the category picked, as characterised by `Categories.ClassifiedByFirstTag` and `Categories.NoCategoryTag` |
| Categories.ClassifiedByFirstTag | build/html.rb:410-421 | the first tag that names a category is removed and every other tag is kept in order; the category is the first in the list with that tag's lower-case form as a term |
| Categories.NoCategoryTag | build/html.rb:420 | when no tag names a category, all tags are kept and the category is the last one |
| Categories.StandardExamples | build/html.rb:398-421 | with the standard categories, `Hiking Austria` is hiking tagged `Austria`, and `Bike hike` is cycling still tagged `hike` |
| Categories.FindCategory | build/html.rb:416 | `find` with `include?`: whether a category accepts the term, which one is first to do so, and that only it is marked used |
| Categories.ParseCategory | build/html.rb:410-421 | the tags kept and the category picked are those of `KeptTags` and `CategoryIndex`; only the picked category is marked, and only if a tag named it |
| Tags.TagOf | build/html.rb:187-190 | the `case` of `short_full_tags`: the two countries become flags, every other tag is `Tag.new(tag)`; its forms are stated by `Tags.CountryTagForms` and `Tags.OrdinaryTagForms` |
| Tags.RawTag | build/html.rb:165-172 | the long form is the title-cased tag and the short form is that in square brackets |
| Tags.ShortFullTags | build/html.rb:185-193 | one `Tag` per parsed tag, in the same order |
| Tags.LongForms | build/html.rb:197-199 | `tags` is the long form of each parsed tag, in order |
| Tags.ShortForms | build/html.rb:202-204 | `short_tags` is the short form of each parsed tag, in order |
| Tags.OrdinaryTagForms | build/html.rb:185-204 | a tag other than the two countries has the title-cased tag as its long form and that in brackets as its short form |
| Tags.CountryTagForms | build/html.rb:187-189 | `austria` and `italy`, in any case, become their flags whatever `titleize` does |
| Tags.FormsPaired | build/html.rb:185-204 | the short and the long form at each index come from the same tag |
| Tags.AustriaExample | build/html.rb:187-188 | the upper-case `AUSTRIA` is shown as the Austrian flag |
| Events.StatsSuffixAsWritten | build/html.rb:73-74 | the stats suffix as the source prints it: empty when neither stat is known, else both slots, the distance and the ascent with `asc.`, with an unknown stat left empty |
| Events.StatsSuffix | build/html.rb:73-74 | the corrected stats suffix of the finding below lists only the known stats: none, the distance, the ascent with `asc.`, or both separated by a comma |
| Events.StatsSuffixLengthsDiffer | build/html.rb:73-74 | with exactly one stat known, the suffix as written is longer than the corrected one |
| Events.StatsSuffixAgrees | build/html.rb:73-74 | with both stats known, the suffix as written equals the corrected one |
| Events.StatsSuffixDistanceOnly | build/html.rb:73-74 | with only a distance, the suffix as written has an empty ascent slot; the corrected one does not |
| Events.StatsSuffixAscentOnly | build/html.rb:73-74 | with only an ascent, the suffix as written has an empty distance slot; the corrected one does not |
| Events.PeelLeadingTags | build/html.rb:329-333 | the `while` loop collects the tags and leaves the residual of `LeadingTags` |
| Events.Event.constructor | build/html.rb:48-54 | the scraped values are stored and the raw title parsed as `parse_title_tags` does: grade, title, kept tags, category, stats and the used flags |
| Events.Event.ReadStat | build/html.rb:352-358 | on one piece, a distance and then an ascent replace the value known so far. Anything else changes nothing, and no other field changes |
| Events.Event.ParseStats | build/html.rb:350-360 | the distance and ascent after the loop are those of `StatsOf` from the values before; no other field changes |
| Events.Event.ParseTitleTags | build/html.rb:321-341 | the grade, title, tags and category are those of `ParseTitle`, `KeptTags` and `CategoryIndex`. The stats are read from the stats block, if any, and only the picked category's flag changes |
| Events.Event.ParseTitleSteps | build/html.rb:322-338 | the grade, the title and the tags found are those of `ParseTitle`; the stats are read from its stats block, if any; the tags and category fields are left as they were |
| Events.Event.Available | build/html.rb:127-129 | the places left and the registered participants make up the capacity; the count is negative exactly when more are registered than the capacity |
| Events.Event.Past | build/html.rb:99-101 | `past?` is whether the event's day is before today; stated by `Events.Event.PastFromNextDay` |
| Events.Event.Upcoming | build/html.rb:108-110 | an event is upcoming exactly when its day is today or later |
| Events.Event.PastFromNextDay | build/html.rb:92-101 | an event is not past on its own day, even after its start, but is on the next day; past means it started before today's midnight |
| Events.Event.DayDateTimePattern | build/html.rb:115-123 | weekday, day and month; the year unless this year; the time when this year or not yet past |
| Events.Event.PageTitle | build/html.rb:72-75 | the page title as the source prints it starts with the date and `: `, and ends with the title, the stats suffix as written and ` - Hiking Buddies Munich` |
| Events.Event.PageTitleIntended | build/html.rb:72-75 | the corrected page title: the same, but with the corrected stats suffix |
| Events.Event.PageTitlesAgree | build/html.rb:72-75 | the two titles are equal when both stats or neither are known, and differ when exactly one is |
| Listings.SortByDate | build/html.rb:265-267 | `sort_by(&:date)` gives the same events in ascending date order |
| Listings.Reverse | build/html.rb:266-267 | `reverse` puts each event at the mirrored index |
| Listings.ReverseDescending | build/html.rb:266-267 | reversing an ascending list keeps its events and makes it descending |
| Listings.SelectUpcoming | build/html.rb:265 | `select(&:upcoming?)` keeps exactly the upcoming events |
| Listings.SelectPast | build/html.rb:266 | `select(&:past?)` keeps exactly the past events |
| Listings.SelectionsPartition | build/html.rb:99-110 | the upcoming and the past events together are all the events, each as often |
| Listings.SaveIndices | build/html.rb:263-268 | `index.html` holds the upcoming events ascending, `past.html` the past ones descending, `all.html` every event descending |
| Listings.PagesPartition | build/html.rb:263-268 | an event is on the index page exactly when upcoming and on the past page exactly when past, and the two pages together form the page of all events |
| Listings.ListingLink | build/html.rb:279 | every page link starts at the site root |
| Listings.ListingLinkOf | build/html.rb:279 | `b.html` is linked as `/b` when `b` does not end in `index`, and `bindex.html` as `/b`, so `index.html` is linked as `/` |
| Listings.ThreePageLinks | build/html.rb:265-267 | the three pages are linked as `/`, `/past` and `/all` |
| CategoryHash.FirstMarker | listing.js:32 | the first index from which `#category-` and a name character follow, with none before it |
| CategoryHash.WordEnd | listing.js:32 | the greedy `[-\w]+` run ends at the first index that is not a name character |
| CategoryHash.Selected | listing.js:32 | a matched fragment is the prefix, `#category-`, the name and the suffix. There is no line terminator, the name is a word, the suffix does not go on with a name character, and no marker lies in the prefix |
| CategoryHash.CategoryOf | listing.js:39-40 | the category read back is a non-empty run of name characters |
| CategoryHash.SelectedOf | listing.js:32-39 | a fragment built from a prefix without a marker, the marker, a name and a suffix is matched with exactly those groups, by both patterns |
| CategoryHash.SameCategory | listing.js:32-39 | on a fragment without line terminators, the anchored and the unanchored pattern find the same category |
| CategoryHash.ToggleOff | listing.js:32-33 | selecting the category already selected removes its marker and keeps prefix and suffix |
| CategoryHash.Replace | listing.js:32-34 | selecting another category replaces only the selected name |
| CategoryHash.SelectFromNone | listing.js:32-35 | with no category selected the fragment becomes the marker and the name alone, whatever the name; for a word, doing it twice empties the fragment |
| CategoryHash.SelectAgainClears | listing.js:32-33 | the fragment made of the marker and a word is emptied by selecting that word |
| CategoryHash.ChangeHash | listing.js:31-36 | `changeHash` on the fragment and a category; its cases are stated by `CategoryHash.ToggleOff`, `CategoryHash.Replace` and `CategoryHash.SelectFromNone` |
| CategoryHash.ReadBack | listing.js:31-40 | after selecting a name the fragment did not already select, that name is what is read back |
| Css.SplitExtension | build/css.rb:13 | a matched name is a non-empty stem, a dot and an extension without dots |
| Css.SplitExtensionNone | build/css.rb:13 | the match fails exactly when no dot follows the first character |
| Css.SplitExtensionOf | build/css.rb:13 | a non-empty stem, a dot and an extension without dots split into exactly those |
| Css.Parse | build/css.rb:12-23 | the recursive `parse`, as its steps and the exception it raises; stated by the lemmas below |
| Css.ParseStep | build/css.rb:14-22 | at `scss` or `sass` with a successful compile, or at an unknown extension, there is one step on the name, then the build of the shorter name |
| Css.ParseSteps | build/css.rb:12-23 | the first step is on the input; every step is on a prefix of it, each shorter than the one before |
| Css.ParseCompiles | build/css.rb:14-16 | every compile writes its input less a `.scss` or `.sass` extension |
| Css.ParseStylesheet | build/css.rb:12-23 | a name with a non-empty stem before `.css.` never fails to split; the build ends or `sass` fails, and every step is on `stem.css.`-something |
| Css.StylesheetStepsPassFilter | build/css.rb:32 | every name such a build works on would pass the command-line filter |
| Css.ParseRaised | build/css.rb:12-23 | `NoExtension` is raised only for a name that does not split, and `SassFailed` only after a last step that compiles that input and fails |
| Css.CompileExample | build/css.rb:12-23 | `site.css.scss` is compiled to `site.css` and the build stops there |
| Css.HiddenNameRaises | build/css.rb:13 | `.css.scss` is compiled to `.css`, which then fails to split and raises |
| Css.Files | build/css.rb:25-39 | `files` with its filter, handling each path in turn; stated by `Css.Handle`, `Css.FilesAppend` and `Css.FilesSkipsOthers` |
| Css.Handle | build/css.rb:31-36 | with explicit arguments a non-stylesheet path is only reported; every other path is parsed |
| Css.FilesAppend | build/css.rb:31-43 | a list of paths is handled as its first part, then, unless that raised, the rest |
| Css.FilesSkipsOthers | build/css.rb:31-36 | explicit paths that are not stylesheets are each reported once, in order, and nothing is built |
| Css.FilesFilter | build/css.rb:25-39 | explicit paths are built as the stylesheets among them would be when globbed: the same exception, and the same steps once the reports of skipped paths are left out |

## Left out

- Scraping the event pages and the participants over HTTP (`fetch_info`, `fetch_participants`, `source`, `hb`, `url`): network I/O. The constructor takes the scraped values as parameters.
- HAML rendering, writing files, loading `events.yml`, and `Event#save` / `save_events`: library and file I/O.
- The image size lookup (`image_width`, `image_height`, `fetch_image_info`): it needs the network and an image library.
- build/rebuild_facebook_previews.rb is not part of this model.
- ActiveSupport's `titleize` and `strftime`: `titleize` is a parameter, and `strftime` is represented by the pattern `DayDateTimePattern` chooses.
- The wall clock: today's day number and whether the event is in the current year are parameters of `Past`, `Upcoming` and `DayDateTimePattern`.
- The date parsing and time zone of `DateTime.strptime`: the date is a number of seconds from the epoch.
- The accessors `date_string`, `day_date_string`, `time_string`, `local_link`, `category`, `category_emoji` and `category_icon`: they only format or forward fields.
- Diagnostic output: `p tags`, the "Unrecognised stat" and "Unable to compile" messages and `puts`. A skipped stat is the `Unrecognised` stat; a skipped extension or a skipped path is a step of the stylesheet build.
- Newlines in Ruby strings: the regular expressions are modelled for single-line strings, since `^`, `$` and `.` treat a newline differently.
- Case handling: `downcase` and the `i` flag are modelled for ASCII letters only.
- The `sass` shell-out and `Dir.glob`: whether `sass` succeeds is the parameter `compiles`, and the paths are given already expanded.
- The DOM work of listing.js: the clipboard handler, the style sheet text, `matchMedia` and event listeners. So is the browser's own rewriting of `location.hash` after assignment: the model returns the assigned string.
- Categories.Category.constructor: requires at least one name; Ruby would make a category named `nil` from none.
- Events.Event.PageTitle: states the date prefix and the title, stats and site suffix, not the short tags in between.
- Events.Event.PageTitleIntended: states the date prefix and the title, stats and site suffix, not the short tags in between.
- Listings.SortByDate: `sort_by` is not stable, so its order among events with the same date is not stated; the model fixes one order.
- Events.Event.constructor: takes the list of categories as a parameter instead of the class variable `@@categories`.

## Findings

| source | as written | input that shows it | evidently intended | confidence | as-written member | corrected member |
|---|---|---|---|---|---|---|
| build/html.rb:73-74 | the stats suffix prints both slots whenever either stat is known | distance `12 km` with no ascent gives ` [12 km,  asc.]`; ascent `800m` with no distance gives ` [, 800m asc.]` | only the known stats are listed: ` [12 km]`, ` [800m asc.]` | high, not executed | Events.Event.PageTitle with Events.StatsSuffixAsWritten (shown by Events.StatsSuffixDistanceOnly, Events.StatsSuffixAscentOnly and Events.Event.PageTitlesAgree) | Events.Event.PageTitleIntended with Events.StatsSuffix |
