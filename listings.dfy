/**
 * `Event.save_indices` and `Event.save_index` in build/html.rb: the three
 * listing pages, which events each one shows and in what order, and the
 * link each page is given. Rendering and writing the pages are not part
 * of this model.
 */
module Listings {
  import opened Text
  import opened Events

  predicate Ascending(events: seq<Event>) {
    forall i, j :: 0 <= i < j < |events| ==> events[i].date <= events[j].date
  }

  predicate Descending(events: seq<Event>) {
    forall i, j :: 0 <= i < j < |events| ==> events[i].date >= events[j].date
  }

  /** An event no later than the first of an ascending list can go before it. */
  lemma AscendingCons(first: Event, rest: seq<Event>)
    requires Ascending(rest) && (rest == [] || first.date <= rest[0].date)
    ensures Ascending([first] + rest)
  {
    var r := [first] + rest;
    forall i, j | 0 <= i < j < |r| ensures r[i].date <= r[j].date {
      if i > 0 {
        assert r[i] == rest[i - 1] && r[j] == rest[j - 1];
      } else if j > 1 {
        assert rest[0].date <= rest[j - 1].date;
      }
    }
  }

  /** `e` put into an ascending list before the first later event. */
  function Insert(e: Event, sorted: seq<Event>): (r: seq<Event>)
    requires Ascending(sorted)
    ensures Ascending(r) && multiset(r) == multiset(sorted) + multiset{e}
    ensures r[0] == e || (sorted != [] && r[0] == sorted[0])
  {
    if sorted == [] then [e]
    else if e.date <= sorted[0].date then [e] + sorted
    else
      var rest := Insert(e, sorted[1..]);
      assert sorted == [sorted[0]] + sorted[1..];
      AscendingCons(sorted[0], rest);
      [sorted[0]] + rest
  }

  /**
   * `sort_by(&:date)`: the events in ascending date order. Events with the
   * same date may come in any order, since `sort_by` is not stable; this
   * model fixes one such order.
   */
  function SortByDate(events: seq<Event>): (r: seq<Event>)
    ensures Ascending(r) && multiset(r) == multiset(events)
  {
    if events == [] then []
    else
      assert events == [events[0]] + events[1..];
      Insert(events[0], SortByDate(events[1..]))
  }

  /** `reverse`. */
  function Reverse(events: seq<Event>): (r: seq<Event>)
    ensures |r| == |events| && forall i :: 0 <= i < |events| ==> r[i] == events[|events| - 1 - i]
  {
    if events == [] then [] else Reverse(events[1..]) + [events[0]]
  }

  /** Reversing keeps the events and turns an ascending list into a descending one. */
  lemma {:induction false} ReverseDescending(events: seq<Event>)
    requires Ascending(events)
    ensures Descending(Reverse(events)) && multiset(Reverse(events)) == multiset(events)
  {
    if events != [] {
      ReverseDescending(events[1..]);
      assert events == [events[0]] + events[1..];
    }
  }

  /** `select(&:upcoming?)`. */
  function SelectUpcoming(events: seq<Event>, today: int): (r: seq<Event>)
    ensures forall i :: 0 <= i < |r| ==> r[i] in events && r[i].Upcoming(today)
    ensures forall i :: 0 <= i < |events| && events[i].Upcoming(today) ==> events[i] in r
  {
    if events == [] then []
    else (if events[0].Upcoming(today) then [events[0]] else []) + SelectUpcoming(events[1..], today)
  }

  /** `select(&:past?)`. */
  function SelectPast(events: seq<Event>, today: int): (r: seq<Event>)
    ensures forall i :: 0 <= i < |r| ==> r[i] in events && r[i].Past(today)
    ensures forall i :: 0 <= i < |events| && events[i].Past(today) ==> events[i] in r
  {
    if events == [] then []
    else (if events[0].Past(today) then [events[0]] else []) + SelectPast(events[1..], today)
  }

  /** Every event is either upcoming or past and never both, so the two selections split the events. */
  lemma {:induction false} SelectionsPartition(events: seq<Event>, today: int)
    ensures multiset(SelectUpcoming(events, today)) + multiset(SelectPast(events, today)) == multiset(events)
  {
    if events != [] {
      SelectionsPartition(events[1..], today);
      assert events == [events[0]] + events[1..];
    }
  }

  /** The events of the three listing pages, in the order each one shows them. */
  datatype Pages = Pages(index: seq<Event>, past: seq<Event>, all: seq<Event>)

  /**
   * `save_indices`: `index.html` lists the upcoming events, soonest first;
   * `past.html` the past events, latest first; `all.html` every event,
   * latest first.
   */
  function SaveIndices(events: seq<Event>, today: int): (p: Pages)
    ensures multiset(p.index) == multiset(SelectUpcoming(events, today)) && Ascending(p.index)
    ensures multiset(p.past) == multiset(SelectPast(events, today)) && Descending(p.past)
    ensures multiset(p.all) == multiset(events) && Descending(p.all)
  {
    var index := SortByDate(SelectUpcoming(events, today));
    var past := SortByDate(SelectPast(events, today));
    var all := SortByDate(events);
    ReverseDescending(past);
    ReverseDescending(all);
    Pages(index, Reverse(past), Reverse(all))
  }

  /**
   * An event is on the index page exactly when it is upcoming and on the
   * past page exactly when it is past, and the two pages together hold the
   * events of the page of all events, each as often.
   */
  lemma PagesPartition(events: seq<Event>, today: int)
    ensures var p := SaveIndices(events, today);
      && (forall e :: e in p.index <==> e in events && e.Upcoming(today))
      && (forall e :: e in p.past <==> e in events && e.Past(today))
      && multiset(p.index) + multiset(p.past) == multiset(p.all)
  {
    var p := SaveIndices(events, today);
    SelectionsPartition(events, today);
    forall e ensures e in p.index <==> e in events && e.Upcoming(today) {
      assert e in p.index <==> e in multiset(p.index);
      assert e in SelectUpcoming(events, today) <==> e in multiset(SelectUpcoming(events, today));
    }
    forall e ensures e in p.past <==> e in events && e.Past(today) {
      assert e in p.past <==> e in multiset(p.past);
      assert e in SelectPast(events, today) <==> e in multiset(SelectPast(events, today));
    }
  }

  /** The file name less what `sub(/(index)?\.html$/, '')` removes: the leftmost match, so `index.html` as a whole. */
  function ListingPath(file: string): string {
    if EndsWith(file, "index.html") then file[..|file| - 10]
    else if EndsWith(file, ".html") then file[..|file| - 5]
    else file
  }

  /** The `link` of `save_index`: the page's path from the site root. */
  function ListingLink(file: string): (link: string)
    ensures |link| > 0 && link[0] == '/'
  {
    "/" + ListingPath(file)
  }

  /** A page `b.html` is linked as `/b` unless `b` ends in `index`, and `bindex.html` as `/b`: the index page of a directory is the directory. */
  lemma ListingLinkOf(b: string)
    ensures !EndsWith(b, "index") ==> ListingLink(b + ".html") == "/" + b
    ensures ListingLink(b + "index.html") == "/" + b
  {
    var f := b + ".html";
    if |b| >= 5 {
      assert f[|f| - 10..] == b[|b| - 5..] + ".html";
    }
    assert f[..|f| - 5] == b;
    var g := b + "index.html";
    assert g[|g| - 10..] == "index.html";
    assert g[..|g| - 10] == b;
  }

  /** The links of the three pages. */
  lemma ThreePageLinks()
    ensures ListingLink("index.html") == "/"
    ensures ListingLink("past.html") == "/past"
    ensures ListingLink("all.html") == "/all"
  {
    ListingLinkOf("");
    ListingLinkOf("past");
    ListingLinkOf("all");
    assert !EndsWith("past", "index") && !EndsWith("all", "index");
    assert "" + "index.html" == "index.html";
  }
}
