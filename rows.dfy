/** `build_language_rows` and `build_project_rows`: one list-item fragment per
    input item, in order, joined by a fixed separator. The markup of a fragment is
    abstracted to the values it carries. */
module Rows {
  import opened Common
  import opened Text
  import opened HtmlEscape
  import opened TimeLabel
  import opened Percent
  import opened Colors

  /** The animation delay between two consecutive rows, in milliseconds. */
  const DelayStepMs: nat := 150

  /** A language entry of the stats payload: `name`, `text` and `percent`, any of
      which may be missing or `None`. */
  datatype LanguageItem = LanguageItem(name: Option<string>, text: Option<string>, percent: Option<Number>)

  /** A project entry of the stats payload. */
  datatype ProjectItem = ProjectItem(name: Option<string>, text: Option<string>, changes: Changes)

  /** One `<li>` fragment, by what it shows. The strings are already escaped. */
  datatype Fragment =
    | LanguageRow(delayMs: nat, name: string, timeText: string, percent: real, color: string)
    | ProjectRow(delayMs: nat, name: string, timeText: string, additions: real, deletions: real)

  /** A piece of the joined markup: a fragment, or the separator between two. */
  datatype Chunk = Item(fragment: Fragment) | Separator

  /** `"\n        ".join(rows)`: the fragments in order, with a separator between
      each two and none at either end; nothing at all for no fragments. */
  function Join(rows: seq<Fragment>): (r: seq<Chunk>)
    ensures |r| == if rows == [] then 0 else 2 * |rows| - 1
    ensures forall i :: 0 <= i < |rows| ==> r[2 * i] == Item(rows[i])
    ensures forall i :: 0 <= i < |rows| - 1 ==> r[2 * i + 1] == Separator
  {
    if rows == [] then []
    else if |rows| == 1 then [Item(rows[0])]
    else
      var rest := Join(rows[1..]);
      var r := [Item(rows[0]), Separator] + rest;
      assert forall i :: 0 < i < |rows| ==> r[2 * i] == rest[2 * (i - 1)];
      forall i | 0 <= i < |rows| - 1
        ensures r[2 * i + 1] == Separator
      {
        if i > 0 { assert r[2 * i + 1] == rest[2 * (i - 1) + 1]; }
      }
      r
  }

  /** The fragments of a joined list, in order. */
  function Fragments(chunks: seq<Chunk>): seq<Fragment>
  {
    if chunks == [] then []
    else (if chunks[0].Item? then [chunks[0].fragment] else []) + Fragments(chunks[1..])
  }

  /** Joining loses no fragment and adds none: the fragments of the joined list are
      exactly the rows, in order. */
  lemma {:induction false} FragmentsOfJoin(rows: seq<Fragment>)
    ensures Fragments(Join(rows)) == rows
  {
    if |rows| > 1 {
      var rest := Join(rows[1..]);
      assert ([Item(rows[0]), Separator] + rest)[1..] == [Separator] + rest;
      assert ([Separator] + rest)[1..] == rest;
      FragmentsOfJoin(rows[1..]);
    }
  }

  /** `colors.get(name, DEFAULT_BAR_COLOR)`. */
  function ColorFor(colors: map<string, string>, name: string): string
  {
    if name in colors then colors[name] else DefaultBarColor
  }

  /** `item.get("percent") or 0.0`, as `clamp_pct` receives it. */
  function PercentInput(p: Option<Number>): Number
  {
    match p
    case None => Num(0.0)
    case Some(n) => n
  }

  /** The default colour holds no character that escaping changes. */
  lemma DefaultColorEscapesToItself()
    ensures EscapeText(DefaultBarColor) == DefaultBarColor
  {
    EscapeUnchangedIff(DefaultBarColor);
  }

  /** The fragment `build_language_rows` writes for the i-th language. */
  function LanguageFragment(i: nat, item: LanguageItem, colors: map<string, string>): Fragment
  {
    var rawName := Strip(OrEmpty(item.name));
    LanguageRow(i * DelayStepMs, Esc(Some(rawName)), CompactTimeText(item.text),
                ClampPct(PercentInput(item.percent)), Esc(Some(ColorFor(colors, rawName))))
  }

  /** The i-th language's fragment is delayed by i steps of 150 ms; its name and
      duration decode to the stripped name and the shortened label; its width is the
      clamped percentage; its colour decodes to the colour the map gives for the
      name, and is the default colour for a name the map does not hold. */
  lemma LanguageFragmentShows(i: nat, item: LanguageItem, colors: map<string, string>)
    ensures var f := LanguageFragment(i, item, colors);
      && f.LanguageRow? && f.delayMs == i * 150
      && Unescape(f.name) == Strip(OrEmpty(item.name))
      && Unescape(f.timeText) == ShortenTimeLabel(item.text)
      && f.percent == ClampPct(PercentInput(item.percent)) && 0.0 <= f.percent <= 100.0
      && Unescape(f.color) == ColorFor(colors, Strip(OrEmpty(item.name)))
      && (Strip(OrEmpty(item.name)) !in colors ==> f.color == DefaultBarColor)
  {
    DefaultColorEscapesToItself();
  }

  /** The fragment `build_project_rows` writes for the i-th project, given the
      ratio computed for it. */
  function ProjectFragment(i: nat, item: ProjectItem, ratio: Ratio): Fragment
  {
    ProjectRow(i * DelayStepMs, Esc(Some(Strip(OrEmpty(item.name)))), CompactTimeText(item.text),
               ratio.additions, ratio.deletions)
  }

  /** The i-th project's fragment is delayed by i steps of 150 ms, its name and
      duration decode to the stripped name and the shortened label, and its two bar
      widths are the ratio's. */
  lemma ProjectFragmentShows(i: nat, item: ProjectItem, ratio: Ratio)
    ensures var f := ProjectFragment(i, item, ratio);
      && f.ProjectRow? && f.delayMs == i * 150
      && Unescape(f.name) == Strip(OrEmpty(item.name))
      && Unescape(f.timeText) == ShortenTimeLabel(item.text)
      && f.additions == ratio.additions && f.deletions == ratio.deletions
  {
  }

  /** The fragments of all languages, in order. */
  function LanguageFragments(items: seq<LanguageItem>, colors: map<string, string>): seq<Fragment>
  {
    Enumerate(items, (i: nat, item: LanguageItem) => LanguageFragment(i, item, colors))
  }

  /** There is one fragment per language, and the i-th is the i-th language's. */
  lemma LanguageFragmentsAt(items: seq<LanguageItem>, colors: map<string, string>)
    ensures |LanguageFragments(items, colors)| == |items|
    ensures forall i :: 0 <= i < |items| ==>
      LanguageFragments(items, colors)[i] == LanguageFragment(i, items[i], colors)
  {
    EnumerateAt(items, (i: nat, item: LanguageItem) => LanguageFragment(i, item, colors));
  }

  /** `build_language_rows(items, colors)`: the languages' fragments, in order,
      joined. */
  method BuildLanguageRows(items: seq<LanguageItem>, colors: map<string, string>) returns (html: seq<Chunk>)
    ensures html == Join(LanguageFragments(items, colors))
  {
    var rows: seq<Fragment> := [];
    for i := 0 to |items|
      invariant rows == LanguageFragments(items[..i], colors)
    {
      assert items[..i + 1][..i] == items[..i];
      rows := rows + [LanguageFragment(i, items[i], colors)];
    }
    assert items[..|items|] == items;
    html := Join(rows);
  }

  /** The fragment of the i-th project, or the error computing its ratio raises. */
  function ProjectFragmentOf(i: nat, item: ProjectItem): Result<Fragment>
  {
    match AdditionsDeletionsRatio(item.changes)
    case ValueError => ValueError
    case Ok(ratio) => Ok(ProjectFragment(i, item, ratio))
  }

  /** The fragments of all projects, in order, or the error the first project whose
      counters cannot be read raises. */
  function ProjectFragments(items: seq<ProjectItem>): Result<seq<Fragment>>
  {
    EnumerateAll(items, ProjectFragmentOf)
  }

  /** The projects' fragments can be built exactly when every project's counters can
      be read; then there is one per project, and the i-th is the i-th project's, with
      the ratio of its counters. */
  lemma ProjectFragmentsAt(items: seq<ProjectItem>)
    ensures ProjectFragments(items).Ok? <==> forall i :: 0 <= i < |items| ==> Readable(items[i].changes)
    ensures ProjectFragments(items).Ok? ==>
      && |ProjectFragments(items).value| == |items|
      && forall i :: 0 <= i < |items| ==>
           ProjectFragments(items).value[i]
             == ProjectFragment(i, items[i], AdditionsDeletionsRatio(items[i].changes).value)
  {
    EnumerateAllAt(items, ProjectFragmentOf);
  }

  /** `build_project_rows(items)`: it raises exactly when the fragments cannot be
      built; otherwise it gives the projects' fragments, in order, joined. */
  method BuildProjectRows(items: seq<ProjectItem>) returns (html: Result<seq<Chunk>>)
    ensures html.Ok? <==> ProjectFragments(items).Ok?
    ensures html.Ok? ==> html.value == Join(ProjectFragments(items).value)
  {
    var rows: seq<Fragment> := [];
    for i := 0 to |items|
      invariant ProjectFragments(items[..i]) == Ok(rows)
    {
      assert items[..i + 1][..i] == items[..i];
      var fragment := ProjectFragmentOf(i, items[i]);
      if fragment.ValueError? {
        EnumerateAllFailure(items, ProjectFragmentOf, i + 1);
        return ValueError;
      }
      rows := rows + [fragment.value];
    }
    assert items[..|items|] == items;
    html := Ok(Join(rows));
  }
}
