/**
 * The stylesheet build (build/css.rb). A stylesheet named like
 * `site.css.scss` is compiled by `sass` to `site.css`; `parse` strips one
 * extension at a time, compiling at every `scss` or `sass` extension, and
 * stops at `css` or `map`. Running `sass` is a step of the result, whether
 * it succeeds is a parameter, and an exception is the outcome's `raised`
 * part.
 */
module Css {
  import opened Optional
  import opened Text

  predicate NoDot(s: string) {
    forall k :: 0 <= k < |s| ==> s[k] != '.'
  }

  /** The index of the last `.` in `s[lo..hi]`. */
  function LastDot(s: string, lo: nat, hi: nat): (r: Option<nat>)
    requires hi <= |s|
    ensures r.Some? ==> lo <= r.value < hi && s[r.value] == '.' && forall k :: r.value < k < hi ==> s[k] != '.'
    ensures r.None? ==> forall k :: lo <= k < hi ==> s[k] != '.'
    decreases hi
  {
    if hi <= lo then None
    else if s[hi - 1] == '.' then Some(hi - 1)
    else LastDot(s, lo, hi - 1)
  }

  /**
   * The captures of `^(.+)\.([^\.]*)$`: the name splits at its last dot,
   * which must not be its first character. `None` is the failed match.
   */
  function SplitExtension(name: string): (r: Option<(string, string)>)
    ensures r.Some? ==> name == r.value.0 + "." + r.value.1 && |r.value.0| >= 1 && NoDot(r.value.1)
  {
    match LastDot(name, 1, |name|)
    case Some(d) =>
      assert name == name[..d] + "." + name[d + 1..];
      assert forall k :: d + 1 <= k < |name| ==> name[k] != '.';
      assert NoDot(name[d + 1..]);
      Some((name[..d], name[d + 1..]))
    case None => None
  }

  /** The match fails exactly when no dot follows the first character. */
  lemma SplitExtensionNone(name: string)
    ensures SplitExtension(name).None? <==> forall k :: 1 <= k < |name| ==> name[k] != '.'
  {
  }

  /** A name made of a non-empty stem, a dot and an extension without dots splits into exactly those. */
  lemma SplitExtensionOf(stem: string, extension: string)
    requires |stem| >= 1 && NoDot(extension)
    ensures SplitExtension(stem + "." + extension) == Some((stem, extension))
  {
    var name := stem + "." + extension;
    var d := |stem|;
    assert name[d] == '.';
    forall k | d < k < |name| ensures name[k] != '.' {
      assert name[k] == extension[k - d - 1];
    }
    assert name[..d] == stem && name[d + 1..] == extension;
  }

  /** What the build does: compile one file to another, or log that a file is skipped. */
  datatype Step =
    | Compile(path: string, output: string)
    | Unrecognised(path: string)
    | NotCss(path: string)

  /** The three branches of the `case` in `parse`. */
  datatype Action = CompileThenGoOn | Stop | LogThenGoOn

  /** `scss` and `sass` are compiled, `css` and `map` end the build, anything else is logged. */
  function ActionOf(extension: string): Action {
    if extension == "scss" || extension == "sass" then CompileThenGoOn
    else if extension == "css" || extension == "map" then Stop
    else LogThenGoOn
  }

  /** Why the build stops: the name has no extension to strip, or `sass` failed. */
  datatype Failure = NoExtension(name: string) | SassFailed(input: string)

  /** The steps taken, in order, and the exception that ended them, if any. */
  datatype Outcome = Outcome(steps: seq<Step>, raised: Option<Failure>)

  /** The steps of `first`, then, unless `first` raised, those of `second`. */
  function Then(first: Outcome, second: Outcome): (r: Outcome)
    ensures first.raised.Some? ==> r == first
    ensures first.raised.None? ==> r.steps == first.steps + second.steps && r.raised == second.raised
  {
    if first.raised.Some? then first else Outcome(first.steps + second.steps, second.raised)
  }

  /** Sequencing is associative, so running a list in parts is running it whole. */
  lemma ThenAssociative(a: Outcome, b: Outcome, c: Outcome)
    ensures Then(Then(a, b), c) == Then(a, Then(b, c))
  {
    if a.raised.None? && b.raised.None? {
      assert (a.steps + b.steps) + c.steps == a.steps + (b.steps + c.steps);
    }
  }

  /**
   * `parse(input)`: at `scss` or `sass` the input is compiled to the name
   * without its extension, at `css` or `map` the build stops, and at any
   * other extension a message is logged; except after `css` and `map`, the
   * shorter name is parsed next. `compiles(input, output)` says whether
   * `sass` exits successfully and leaves the output file behind.
   */
  function Parse(input: string, compiles: (string, string) -> bool): (r: Outcome)
    decreases |input|
  {
    match SplitExtension(input)
    case None => Outcome([], Some(NoExtension(input)))
    case Some((output, extension)) =>
      match ActionOf(extension)
      case CompileThenGoOn =>
        if compiles(input, output) then Then(Outcome([Compile(input, output)], None), Parse(output, compiles))
        else Outcome([Compile(input, output)], Some(SassFailed(input)))
      case Stop => Outcome([], None)
      case LogThenGoOn => Then(Outcome([Unrecognised(input)], None), Parse(output, compiles))
  }

  /**
   * `parse` on a name with an extension it compiles or does not recognise:
   * that step on the name, then what `parse` does on the shorter name.
   */
  lemma ParseStep(input: string, output: string, extension: string, compiles: (string, string) -> bool)
    requires SplitExtension(input) == Some((output, extension))
    requires (ActionOf(extension) == CompileThenGoOn && compiles(input, output)) || ActionOf(extension) == LogThenGoOn
    ensures var o := Parse(input, compiles);
      var next := Parse(output, compiles);
      && |o.steps| == 1 + |next.steps| && o.raised == next.raised
      && o.steps[0] == (if ActionOf(extension) == CompileThenGoOn then Compile(input, output) else Unrecognised(input))
      && forall k :: 0 < k < |o.steps| ==> o.steps[k] == next.steps[k - 1]
  {
    var next := Parse(output, compiles);
    var head := if ActionOf(extension) == CompileThenGoOn then Compile(input, output) else Unrecognised(input);
    assert Parse(input, compiles) == Then(Outcome([head], None), next);
    assert Parse(input, compiles).steps == [head] + next.steps;
  }

  /**
   * The steps are on `input` or names it was cut down to: the first on the
   * input itself, each a prefix of the input and strictly shorter than the
   * one before, and none a skipped path.
   */
  predicate ShrinkingSteps(steps: seq<Step>, input: string) {
    && (steps != [] ==> steps[0].path == input)
    && (forall k :: 0 <= k < |steps| ==> !steps[k].NotCss? && IsPrefix(steps[k].path, input))
    && (forall k :: 0 < k < |steps| ==> |steps[k].path| < |steps[k - 1].path|)
  }

  predicate IsPrefix(p: string, s: string) {
    |p| <= |s| && p == s[..|p|]
  }

  lemma PrefixTransitive(p: string, q: string, s: string)
    requires IsPrefix(p, q) && IsPrefix(q, s)
    ensures IsPrefix(p, s)
  {
    assert s[..|q|][..|p|] == s[..|p|];
  }

  /** Every step of `parse` is on the input or a name it was cut down to. */
  lemma {:induction false} ParseSteps(input: string, compiles: (string, string) -> bool)
    ensures ShrinkingSteps(Parse(input, compiles).steps, input)
    decreases |input|
  {
    match SplitExtension(input)
    case None =>
    case Some((output, extension)) =>
      ParseSteps(output, compiles);
      ShrinkingStep(input, output, extension, compiles);
  }

  /** One call of `parse` keeps `ShrinkingSteps` when the call on the shorter name has it. */
  lemma ShrinkingStep(input: string, output: string, extension: string, compiles: (string, string) -> bool)
    requires SplitExtension(input) == Some((output, extension))
    requires ShrinkingSteps(Parse(output, compiles).steps, output)
    ensures ShrinkingSteps(Parse(input, compiles).steps, input)
  {
    var steps := Parse(input, compiles).steps;
    if ActionOf(extension) == CompileThenGoOn && !compiles(input, output) {
      assert steps == [Compile(input, output)];
    } else if ActionOf(extension) != Stop {
      ParseStep(input, output, extension, compiles);
      var rest := Parse(output, compiles).steps;
      assert input == output + "." + extension;
      assert IsPrefix(output, input);
      assert IsPrefix(input, input);
      forall k | 0 < k < |steps| ensures IsPrefix(steps[k].path, input) {
        PrefixTransitive(rest[k - 1].path, output, input);
      }
    }
  }

  /** Every compile writes its input less a `.scss` or `.sass` extension. */
  predicate CompilesStripSass(steps: seq<Step>) {
    forall k :: 0 <= k < |steps| && steps[k].Compile? ==>
      steps[k].path == steps[k].output + ".scss" || steps[k].path == steps[k].output + ".sass"
  }

  /** Every compile of `parse` writes its input less a `.scss` or `.sass` extension. */
  lemma {:induction false} ParseCompiles(input: string, compiles: (string, string) -> bool)
    ensures CompilesStripSass(Parse(input, compiles).steps)
    decreases |input|
  {
    match SplitExtension(input)
    case None =>
    case Some((output, extension)) =>
      ParseCompiles(output, compiles);
      CompileStep(input, output, extension, compiles);
  }

  /** The name a compile reads is the name it writes with `.scss` or `.sass` appended. */
  lemma SassName(output: string, extension: string)
    requires ActionOf(extension) == CompileThenGoOn
    ensures output + "." + extension == output + ".scss" || output + "." + extension == output + ".sass"
  {
    if extension == "scss" {
      assert "." + extension == ".scss";
    } else {
      assert "." + extension == ".sass";
    }
    assert output + "." + extension == output + ("." + extension);
  }

  /** One call of `parse` keeps `CompilesStripSass` when the call on the shorter name has it. */
  lemma CompileStep(input: string, output: string, extension: string, compiles: (string, string) -> bool)
    requires SplitExtension(input) == Some((output, extension))
    requires CompilesStripSass(Parse(output, compiles).steps)
    ensures CompilesStripSass(Parse(input, compiles).steps)
  {
    var steps := Parse(input, compiles).steps;
    if ActionOf(extension) == CompileThenGoOn {
      SassName(output, extension);
      if compiles(input, output) {
        ParseStep(input, output, extension, compiles);
      } else {
        assert steps == [Compile(input, output)];
      }
    } else if ActionOf(extension) == LogThenGoOn {
      ParseStep(input, output, extension, compiles);
    }
  }

  /**
   * The exception says what went wrong: `NoExtension` names a name without
   * an extension to strip, and `SassFailed` the input of the last step, a
   * compile that failed.
   */
  predicate RaisedByCause(o: Outcome, compiles: (string, string) -> bool) {
    && (o.raised.Some? && o.raised.value.NoExtension? ==> SplitExtension(o.raised.value.name).None?)
    && (o.raised.Some? && o.raised.value.SassFailed? ==>
          && o.steps != [] && o.steps[|o.steps| - 1].Compile?
          && o.steps[|o.steps| - 1].path == o.raised.value.input
          && !compiles(o.steps[|o.steps| - 1].path, o.steps[|o.steps| - 1].output))
  }

  /** What `parse` raises is explained by its cause. */
  lemma {:induction false} ParseRaised(input: string, compiles: (string, string) -> bool)
    ensures RaisedByCause(Parse(input, compiles), compiles)
    decreases |input|
  {
    match SplitExtension(input)
    case None =>
    case Some((output, extension)) =>
      ParseRaised(output, compiles);
      RaisedStep(input, output, extension, compiles);
  }

  /** One call of `parse` keeps `RaisedByCause` when the call on the shorter name has it. */
  lemma RaisedStep(input: string, output: string, extension: string, compiles: (string, string) -> bool)
    requires SplitExtension(input) == Some((output, extension))
    requires RaisedByCause(Parse(output, compiles), compiles)
    ensures RaisedByCause(Parse(input, compiles), compiles)
  {
    var o := Parse(input, compiles);
    if ActionOf(extension) == CompileThenGoOn && !compiles(input, output) {
      assert o == Outcome([Compile(input, output)], Some(SassFailed(input)));
    } else if ActionOf(extension) != Stop {
      var head := if ActionOf(extension) == CompileThenGoOn then Compile(input, output) else Unrecognised(input);
      assert o == Then(Outcome([head], None), Parse(output, compiles));
      RaisedAfterStep(head, Parse(output, compiles), compiles);
    }
  }

  /** A step that raises nothing, put before an outcome, keeps `RaisedByCause`. */
  lemma RaisedAfterStep(head: Step, next: Outcome, compiles: (string, string) -> bool)
    requires RaisedByCause(next, compiles)
    ensures RaisedByCause(Then(Outcome([head], None), next), compiles)
  {
    var o := Then(Outcome([head], None), next);
    if o.raised.Some? && o.raised.value.SassFailed? {
      assert o.steps[|o.steps| - 1] == next.steps[|next.steps| - 1];
    }
  }

  /** The build ended without running out of extensions, and every step was on a name starting with `stem.css.`. */
  predicate StylesheetOutcome(o: Outcome, stem: string) {
    && (o.raised.None? || o.raised.value.SassFailed?)
    && forall k :: 0 <= k < |o.steps| ==> |o.steps[k].path| >= |stem| + 5 && o.steps[k].path[..|stem| + 5] == stem + ".css."
  }

  /**
   * A name with a stem before `.css.` never runs out of extensions: the
   * build either finishes or stops because `sass` failed, and every step is
   * on a name that still starts with the stem and `.css.`.
   */
  lemma {:induction false} ParseStylesheet(stem: string, rest: string, compiles: (string, string) -> bool)
    requires |stem| >= 1
    ensures StylesheetOutcome(Parse(stem + ".css." + rest, compiles), stem)
    decreases |rest|
  {
    match LastDot(rest, 0, |rest|) {
      case None => StylesheetLastStep(stem, rest, compiles);
      case Some(d) =>
        ParseStylesheet(stem, rest[..d], compiles);
        StylesheetInnerStep(stem, rest, d, compiles);
    }
  }

  /** With no dot after `.css.`, the extension is all of the rest and the shorter name is `stem.css`. */
  lemma StylesheetLastStep(stem: string, rest: string, compiles: (string, string) -> bool)
    requires |stem| >= 1 && LastDot(rest, 0, |rest|).None?
    ensures StylesheetOutcome(Parse(stem + ".css." + rest, compiles), stem)
  {
    LastSplit(stem, rest);
    CssNameSplits(stem);
    CssExtensionStops(stem + ".css", stem, compiles);
    StylesheetStep(stem, stem + ".css." + rest, stem + ".css", rest, compiles);
  }

  /** With a last dot at `d` after `.css.`, the shorter name keeps the stem and `.css.`. */
  lemma StylesheetInnerStep(stem: string, rest: string, d: nat, compiles: (string, string) -> bool)
    requires |stem| >= 1 && LastDot(rest, 0, |rest|) == Some(d)
    requires StylesheetOutcome(Parse(stem + ".css." + rest[..d], compiles), stem)
    ensures StylesheetOutcome(Parse(stem + ".css." + rest, compiles), stem)
  {
    InnerSplit(stem, rest, d);
    StylesheetStep(stem, stem + ".css." + rest, stem + ".css." + rest[..d], rest[d + 1..], compiles);
  }

  /** `stem.css` splits into the stem and `css`. */
  lemma CssNameSplits(stem: string)
    requires |stem| >= 1
    ensures SplitExtension(stem + ".css") == Some((stem, "css"))
  {
    SplitExtensionOf(stem, "css");
    assert stem + "." + "css" == stem + ".css";
  }

  /** The build stops at once at a `css` extension. */
  lemma CssExtensionStops(name: string, stem: string, compiles: (string, string) -> bool)
    requires SplitExtension(name) == Some((stem, "css"))
    ensures Parse(name, compiles) == Outcome([], None)
  {
  }

  /** `stem.css.rest`, with no dot in `rest`, splits into `stem.css` and `rest`. */
  lemma LastSplit(stem: string, rest: string)
    requires |stem| >= 1 && LastDot(rest, 0, |rest|).None?
    ensures SplitExtension(stem + ".css." + rest) == Some((stem + ".css", rest))
    ensures |stem + ".css." + rest| >= |stem| + 5 && (stem + ".css." + rest)[..|stem| + 5] == stem + ".css."
  {
    var name := stem + ".css." + rest;
    assert name[..|stem| + 5] == stem + ".css.";
    assert (stem + ".css") + "." + rest == name;
    assert NoDot(rest);
    SplitExtensionOf(stem + ".css", rest);
  }

  /** `stem.css.rest`, with the last dot of `rest` at `d`, splits there. */
  lemma InnerSplit(stem: string, rest: string, d: nat)
    requires |stem| >= 1 && LastDot(rest, 0, |rest|) == Some(d)
    ensures SplitExtension(stem + ".css." + rest) == Some((stem + ".css." + rest[..d], rest[d + 1..]))
    ensures |stem + ".css." + rest| >= |stem| + 5 && (stem + ".css." + rest)[..|stem| + 5] == stem + ".css."
  {
    var name := stem + ".css." + rest;
    assert name[..|stem| + 5] == stem + ".css.";
    var output, extension := stem + ".css." + rest[..d], rest[d + 1..];
    assert rest == rest[..d] + "." + extension;
    assert output + "." + extension == (stem + ".css.") + (rest[..d] + "." + extension);
    assert forall k :: d + 1 <= k < |rest| ==> rest[k] != '.';
    assert NoDot(extension);
    SplitExtensionOf(output, extension);
  }

  /** One call of `parse` keeps `StylesheetOutcome` when the call on the shorter name has it. */
  lemma StylesheetStep(stem: string, name: string, output: string, extension: string, compiles: (string, string) -> bool)
    requires SplitExtension(name) == Some((output, extension))
    requires |name| >= |stem| + 5 && name[..|stem| + 5] == stem + ".css."
    requires StylesheetOutcome(Parse(output, compiles), stem)
    ensures StylesheetOutcome(Parse(name, compiles), stem)
  {
    var o := Parse(name, compiles);
    if ActionOf(extension) == CompileThenGoOn && !compiles(name, output) {
      assert o == Outcome([Compile(name, output)], Some(SassFailed(name)));
    } else if ActionOf(extension) != Stop {
      ParseStep(name, output, extension, compiles);
    }
  }

  /** `site.css.scss` is compiled to `site.css`, and there the build stops. */
  lemma CompileExample(compiles: (string, string) -> bool)
    requires compiles("site.css.scss", "site.css")
    ensures Parse("site.css.scss", compiles) == Outcome([Compile("site.css.scss", "site.css")], None)
  {
    SplitExtensionOf("site.css", "scss");
    assert "site.css" + "." + "scss" == "site.css.scss";
    SplitExtensionOf("site", "css");
    assert "site" + "." + "css" == "site.css";
    assert Parse("site.css", compiles) == Outcome([], None);
  }

  /** A name whose only dot is its first character, such as `.css`, makes `parse` raise. */
  lemma HiddenNameRaises(compiles: (string, string) -> bool)
    requires compiles(".css.scss", ".css")
    ensures Parse(".css.scss", compiles) == Outcome([Compile(".css.scss", ".css")], Some(NoExtension(".css")))
  {
    SplitExtensionOf(".css", "scss");
    assert ".css" + "." + "scss" == ".css.scss";
    SplitExtensionNone(".css");
    assert Parse(".css", compiles) == Outcome([], Some(NoExtension(".css")));
  }

  /** The filter on explicit arguments (`/\.css\.(.*)$/`): the path holds `.css.`. */
  predicate IsCssPath(path: string) {
    Contains(path, ".css.")
  }

  /** Every name a stylesheet build works on would itself pass the command-line filter. */
  lemma StylesheetStepsPassFilter(o: Outcome, stem: string)
    requires StylesheetOutcome(o, stem)
    ensures forall k :: 0 <= k < |o.steps| ==> IsCssPath(o.steps[k].path)
  {
    forall k | 0 <= k < |o.steps| ensures IsCssPath(o.steps[k].path) {
      var path := o.steps[k].path;
      assert path[|stem|..|stem| + 5] == path[..|stem| + 5][|stem|..];
      ContainsAt(path, ".css.", |stem|);
    }
  }

  /**
   * One path of `files`: a path given on the command line that is not a
   * stylesheet is logged and skipped; every other path is parsed.
   */
  function Handle(explicit: bool, path: string, compiles: (string, string) -> bool): (r: Outcome)
    ensures explicit && !IsCssPath(path) ==> r == Outcome([NotCss(path)], None)
    ensures !explicit || IsCssPath(path) ==> r == Parse(path, compiles)
  {
    if explicit && !IsCssPath(path) then Outcome([NotCss(path)], None) else Parse(path, compiles)
  }

  /**
   * The script: each path in turn, until one raises. `explicit` says the
   * paths come from the command line; otherwise they are the matches of
   * the recursive glob for `*.css.*`, which are not filtered again.
   */
  function Files(explicit: bool, paths: seq<string>, compiles: (string, string) -> bool): Outcome {
    if paths == [] then Outcome([], None)
    else Then(Handle(explicit, paths[0], compiles), Files(explicit, paths[1..], compiles))
  }

  /** The build of a list of paths is the build of its first part, then, unless that raised, of the rest. */
  lemma {:induction false} FilesAppend(explicit: bool, first: seq<string>, second: seq<string>, compiles: (string, string) -> bool)
    ensures Files(explicit, first + second, compiles) == Then(Files(explicit, first, compiles), Files(explicit, second, compiles))
  {
    if first == [] {
      assert first + second == second;
    } else {
      assert (first + second)[1..] == first[1..] + second;
      FilesAppend(explicit, first[1..], second, compiles);
      ThenAssociative(Handle(explicit, first[0], compiles), Files(explicit, first[1..], compiles), Files(explicit, second, compiles));
    }
  }

  /** On the command line, paths that are not stylesheets are only reported, each once and in order. */
  lemma {:induction false} FilesSkipsOthers(paths: seq<string>, compiles: (string, string) -> bool)
    requires forall k :: 0 <= k < |paths| ==> !IsCssPath(paths[k])
    ensures Files(true, paths, compiles).raised.None?
    ensures var steps := Files(true, paths, compiles).steps;
      |steps| == |paths| && forall k :: 0 <= k < |paths| ==> steps[k] == NotCss(paths[k])
  {
    if paths != [] {
      FilesSkipsOthers(paths[1..], compiles);
    }
  }

  /** The paths that pass the command-line filter, in order. */
  function CssPaths(paths: seq<string>): (r: seq<string>)
    ensures forall x :: x in r <==> x in paths && IsCssPath(x)
  {
    if paths == [] then []
    else (if IsCssPath(paths[0]) then [paths[0]] else []) + CssPaths(paths[1..])
  }

  /** The steps other than the reports of skipped paths, in order. */
  function Built(steps: seq<Step>): (r: seq<Step>)
    ensures forall k :: 0 <= k < |r| ==> !r[k].NotCss?
  {
    if steps == [] then []
    else (if steps[0].NotCss? then [] else [steps[0]]) + Built(steps[1..])
  }

  /** Dropping the reports of skipped paths can be done part by part. */
  lemma {:induction false} BuiltAppend(a: seq<Step>, b: seq<Step>)
    ensures Built(a + b) == Built(a) + Built(b)
  {
    if a == [] {
      assert a + b == b;
    } else {
      var head := if a[0].NotCss? then [] else [a[0]];
      assert (a + b)[0] == a[0] && (a + b)[1..] == a[1..] + b;
      BuiltAppend(a[1..], b);
      assert Built(a + b) == head + (Built(a[1..]) + Built(b));
      ConcatAssociativeSteps(head, Built(a[1..]), Built(b));
    }
  }

  lemma ConcatAssociativeSteps(x: seq<Step>, y: seq<Step>, z: seq<Step>)
    ensures x + (y + z) == (x + y) + z
  {
  }

  /** `parse` only compiles and logs; it never reports a skipped path. */
  lemma {:induction false} ParseBuildsOnly(input: string, compiles: (string, string) -> bool)
    ensures Built(Parse(input, compiles).steps) == Parse(input, compiles).steps
    decreases |input|
  {
    match SplitExtension(input)
    case None =>
    case Some((output, extension)) =>
      if ActionOf(extension) != Stop && (ActionOf(extension) == LogThenGoOn || compiles(input, output)) {
        ParseBuildsOnly(output, compiles);
        var head := if ActionOf(extension) == LogThenGoOn then Unrecognised(input) else Compile(input, output);
        assert Parse(input, compiles).steps == [head] + Parse(output, compiles).steps;
        BuiltAppend([head], Parse(output, compiles).steps);
      }
  }

  /**
   * The command-line filter on its own: building explicit paths is building
   * the stylesheets among them as if they had been globbed, with a report
   * for each other path until the build raises.
   */
  lemma {:induction false} FilesFilter(paths: seq<string>, compiles: (string, string) -> bool)
    ensures Files(true, paths, compiles).raised == Files(false, CssPaths(paths), compiles).raised
    ensures Built(Files(true, paths, compiles).steps) == Files(false, CssPaths(paths), compiles).steps
  {
    if paths != [] {
      var p, rest := paths[0], paths[1..];
      FilesFilter(rest, compiles);
      var whole := Files(true, paths, compiles);
      var tail := Files(true, rest, compiles);
      if IsCssPath(p) {
        var built := Parse(p, compiles);
        ParseBuildsOnly(p, compiles);
        assert CssPaths(paths) == [p] + CssPaths(rest);
        assert ([p] + CssPaths(rest))[1..] == CssPaths(rest);
        if built.raised.None? {
          BuiltAppend(built.steps, tail.steps);
        }
      } else {
        assert CssPaths(paths) == CssPaths(rest);
        assert whole.steps == [NotCss(p)] + tail.steps;
        BuiltAppend([NotCss(p)], tail.steps);
      }
    }
  }
}
