# WakaTime SVG cards: a Dafny model of the transform core

`scripts/generate-wakatime-svg.py` fetches seven days of WakaTime statistics and
renders two SVG cards: one for languages and one for projects. This project models
the deterministic part of the script between the decoded JSON payload and the
finished SVG text, and proves what that part promises:

- `esc`: HTML escaping, with `None` read as the empty string. Module `HtmlEscape`,
  with a decoder for the five entities it writes.
- `str.strip()` as the script uses it, in module `Text`.
- The duration-label shortener `shorten_time_label` and `compact_time_text`, in module
  `TimeLabel`. The regex `([a-z])\w+` (ignoring case) is written out as an explicit
  left-to-right scan over ASCII.
- `clamp_pct` and `additions_deletions_ratio`, in module `Percent`, over exact reals.
  NaN and values `float()` rejects are datatype variants.
- The colour-map loop of `fetch_languages`, in module `Colors`. It is an imperative
  method over a map, proved equal to a left fold.
- `build_language_rows` and `build_project_rows`, in module `Rows`. They are
  imperative loops that append one fragment per item. The fragments are joined by a
  separator, each a datatype that holds what the `<li>` markup shows.
- The numbers of `render_svg` and the top-five selection of `main`, in module `Card`.

Shared value types live in `Common`: `Option`, `Result`, and the `enumerate`-style
loops `Enumerate` and `EnumerateAll`.

The row markup is abstract. A `Fragment` records the delay, the escaped name, the
escaped shortened duration, the bar widths and the escaped colour. A `Separator`
chunk stands for the `"\n        "` that the rows are joined with.

Two behaviours of the script shape the model:

- The pattern is compiled with `re.IGNORECASE`, so words of either case collapse.
- `float(item.get(key) or 0)` reads a missing or falsy counter (`None`, `0`, `""`,
  `[]`, `False`) as 0, and a number or numeric string as its value. A truthy counter
  that `float()` cannot convert raises, the exception is not caught, and the run
  stops. `RenderCards` returns `ValueError` in that case.

## Model

| member | source | states |
|---|---|---|
| Text.TrimLeftSpec | scripts/generate-wakatime-svg.py:40 | lstrip removes a leading run of whitespace characters, and stops at the first non-whitespace character |
| Text.TrimRightSpec | scripts/generate-wakatime-svg.py:40 | rstrip removes a trailing run of whitespace characters, and stops at the last non-whitespace character |
| Text.Strip | scripts/generate-wakatime-svg.py:40-41 | the stripped string is no longer than the input and has no whitespace at either end; it is empty exactly when the input is all whitespace |
| Text.StripCutsOnlySpace | scripts/generate-wakatime-svg.py:40-41 | the stripped string is a contiguous middle part of the input, and everything before and after it is whitespace |
| Text.StripTrimmed | scripts/generate-wakatime-svg.py:95 | stripping a string with no whitespace at its ends changes nothing |
| Text.StripIdempotent | scripts/generate-wakatime-svg.py:95 | stripping twice is stripping once |
| HtmlEscape.EscapeText | scripts/generate-wakatime-svg.py:49 | escaping never shortens the text, and the result has no raw `<`, `>`, `"` or `'` |
| HtmlEscape.Esc | scripts/generate-wakatime-svg.py:47-49 | `None` or `""` gives `""`; the output has no raw markup character; decoding the output gives back the input |
| HtmlEscape.UnescapeEscapeChar | scripts/generate-wakatime-svg.py:49 | decoding undoes the escape of any single character in front of any text |
| HtmlEscape.UnescapeEscape | scripts/generate-wakatime-svg.py:49 | decoding the escaped text gives back the text |
| HtmlEscape.EscapeAppend | scripts/generate-wakatime-svg.py:49 | escaping works character by character: the escape of a concatenation is the concatenation of the escapes, so order is kept |
| HtmlEscape.EscapeUnchangedIff | scripts/generate-wakatime-svg.py:49 | escaping leaves a string as it is exactly when it contains none of `&`, `<`, `>`, `"`, `'` |
| TimeLabel.WordEnd | scripts/generate-wakatime-svg.py:65 | the greedy `\w+`: ends at the first non-word character at or after the start, or at the end of the string, and covers only word characters |
| TimeLabel.ShortenFrom | scripts/generate-wakatime-svg.py:65 | the scan from a position gives output no longer than what is left, and starts with the character at that position |
| TimeLabel.Shorten | scripts/generate-wakatime-svg.py:65 | shortening never lengthens the label |
| TimeLabel.ShortenTimeLabel | scripts/generate-wakatime-svg.py:63-65 | `None` gives `""`; otherwise the result is no longer than the label |
| TimeLabel.CompactTimeText | scripts/generate-wakatime-svg.py:68-70 | the result has no raw markup character and decodes to the shortened label |
| TimeLabel.NoMatchCons | scripts/generate-wakatime-svg.py:65 | putting a character in front of text without a match adds no match, unless a letter lands before a word character |
| TimeLabel.ShortenFromLeavesNoMatch | scripts/generate-wakatime-svg.py:65 | after the scan, no ASCII letter is followed by a word character |
| TimeLabel.ShortenFromNoMatch | scripts/generate-wakatime-svg.py:65 | on text where the pattern matches nowhere, the scan copies every character |
| TimeLabel.ShortenFixedIff | scripts/generate-wakatime-svg.py:65 | shortening leaves a label unchanged exactly when no letter in it is followed by a word character |
| TimeLabel.ShortenIdempotent | scripts/generate-wakatime-svg.py:65 | shortening twice is shortening once |
| TimeLabel.NonWordSkip | scripts/generate-wakatime-svg.py:65 | skipping a run of word characters loses no non-word character |
| TimeLabel.ShortenFromKeepsNonWord | scripts/generate-wakatime-svg.py:65 | the scan keeps every non-word character that follows its start, in order |
| TimeLabel.ShortenKeepsNonWord | scripts/generate-wakatime-svg.py:65 | every non-word character (spaces, punctuation, anything outside ASCII) survives unchanged and in order |
| TimeLabel.CutIff | scripts/generate-wakatime-svg.py:65 | a character is removed exactly when some letter before it starts a run of word characters that reaches it |
| TimeLabel.CutWithinRun | scripts/generate-wakatime-svg.py:65 | every word character after a letter in the same run is removed |
| TimeLabel.KeptFromSkipsCutFrom | scripts/generate-wakatime-svg.py:65 | skipping the removed rest of a run drops no kept character |
| TimeLabel.ShortenFromKept | scripts/generate-wakatime-svg.py:65 | from any position that is not removed, the scan gives exactly the characters that are not removed |
| TimeLabel.ShortenKeepsUncut | scripts/generate-wakatime-svg.py:63-65 | the shortened label equals `Kept`, an independent definition: every character is kept, digits and underscores included, in order, except those after the first letter of a run of word characters |
| TimeLabel.ShortenExample | scripts/generate-wakatime-svg.py:63-65 | `"4 hrs 3 mins"` becomes `"4 h 3 m"` |
| Percent.ClampPct | scripts/generate-wakatime-svg.py:52-60 | the result is in [0, 100]; in-range numbers are kept; numbers below give 0 and above give 100; NaN and values `float()` rejects give exactly 0 |
| Percent.ClampIdempotent | scripts/generate-wakatime-svg.py:52-60 | clamping a clamped value changes nothing |
| Percent.ClampMonotone | scripts/generate-wakatime-svg.py:60 | clamping keeps the order of two numbers |
| Percent.AdditionsDeletionsRatio | scripts/generate-wakatime-svg.py:73-88 | it raises exactly when a counter is truthy and `float()` cannot convert it; both shares are in [0, 100]; a total of at most 0 gives (0, 0); otherwise the additions share is additions / total × 100 and the two shares sum to 100 |
| Percent.ShareInRange | scripts/generate-wakatime-svg.py:86 | a part of a positive total is between 0 and 100 percent of it |
| Percent.RatioNoChanges | scripts/generate-wakatime-svg.py:80-84 | zero (or negative, once floored) changes give (0, 0) |
| Percent.RatioExample | scripts/generate-wakatime-svg.py:86-88 | 30 additions and 10 deletions give (75, 25) |
| Colors.ColorOf | scripts/generate-wakatime-svg.py:41-43 | the colour stored for an entry is never blank |
| Colors.BuildColorMap | scripts/generate-wakatime-svg.py:38-44 | the loop that inserts into the dictionary in place ends with the map of the left fold `ColorMap` over the entries |
| Colors.InsertKeys | scripts/generate-wakatime-svg.py:42-43 | one iteration adds the stripped name as a key when it is not blank, and removes no key |
| Colors.InsertKeeps | scripts/generate-wakatime-svg.py:43 | one iteration removes no key |
| Colors.ColorMapHasKey | scripts/generate-wakatime-svg.py:38-44 | every non-blank stripped name of an entry is a key |
| Colors.ColorMapKeySource | scripts/generate-wakatime-svg.py:38-44 | every key is the non-blank stripped name of some entry |
| Colors.ColorMapKeys | scripts/generate-wakatime-svg.py:38-44 | a string is a key exactly when it is non-blank and some entry's stripped name |
| Colors.ColorMapShape | scripts/generate-wakatime-svg.py:40-43 | keys are non-blank and have no whitespace at either end; colours are non-blank (a blank colour became the default) |
| Colors.InsertOther | scripts/generate-wakatime-svg.py:43 | inserting under another name keeps a key's colour |
| Colors.ColorMapLastWins | scripts/generate-wakatime-svg.py:38-44 | for a repeated name the last entry wins: its stripped colour, or the default when that is blank |
| Common.EnumerateAt | scripts/generate-wakatime-svg.py:93-104 | an appending loop over `enumerate(items)` gives one result per item, and the i-th comes from index i and the i-th item |
| Common.EnumerateAllFailure | scripts/generate-wakatime-svg.py:124-131 | once an item has raised, the whole loop has raised |
| Common.EnumerateAllAt | scripts/generate-wakatime-svg.py:124-134 | a loop whose step can raise gets through exactly when no item raises; then it gives one result per item, in order |
| Rows.Join | scripts/generate-wakatime-svg.py:119 | joining n rows gives no chunks for n = 0, otherwise 2n − 1 chunks, with the i-th row at 2i and a separator between each pair of neighbours |
| Rows.FragmentsOfJoin | scripts/generate-wakatime-svg.py:119 | the rows are recovered, in order, from the joined text by dropping the separators |
| Rows.DefaultColorEscapesToItself | scripts/generate-wakatime-svg.py:16 | escaping leaves `DEFAULT_BAR_COLOR` unchanged |
| Rows.LanguageFragmentShows | scripts/generate-wakatime-svg.py:94-116 | the i-th row has delay i × 150 ms; its name decodes to the stripped name and its time to the shortened label; its width is the clamped percent, in [0, 100]; its colour decodes to the map's colour for the name, and is `DEFAULT_BAR_COLOR` for a name the map does not hold |
| Rows.ProjectFragmentShows | scripts/generate-wakatime-svg.py:125-145 | the i-th row has delay i × 150 ms, its name and time decode to the stripped name and the shortened label, and its bar widths are the ratio's |
| Rows.LanguageFragmentsAt | scripts/generate-wakatime-svg.py:94-117 | there is one language fragment per item, and the i-th is the i-th item's fragment |
| Rows.BuildLanguageRows | scripts/generate-wakatime-svg.py:91-119 | the loop appends the items' fragments and gives them joined, in input order (an empty list gives nothing) |
| Rows.ProjectFragmentsAt | scripts/generate-wakatime-svg.py:125-146 | the project fragments exist exactly when every item's counters can be read; then there is one per item, and the i-th has the ratio of that item's counters |
| Rows.BuildProjectRows | scripts/generate-wakatime-svg.py:122-148 | the loop raises exactly when some item's counters cannot be read; otherwise it gives the items' fragments joined, in input order |
| Card.CardGeometry | scripts/generate-wakatime-svg.py:153-162 | the card is 360 wide and 76 + 26 × rows high; the content box is at (16, 12) and measures 328 × (height − 24); the background rectangle is at (6, 6) and measures 348 × (height − 12) |
| Card.GeometryNests | scripts/generate-wakatime-svg.py:313-315 | the content box lies in the background, which lies in the card, and the header, the gap and the rows fit in the content box |
| Card.GeometryGrowsByRow | scripts/generate-wakatime-svg.py:159-162 | each extra row adds exactly 26 pixels of height |
| Card.TopN | scripts/generate-wakatime-svg.py:339-340 | the kept list is a prefix of the list (a missing list counts as empty) of length min(5, its length) |
| Card.TopNHeightBounds | scripts/generate-wakatime-svg.py:339-340 | a card of the kept rows is between 76 and 206 pixels high, and exactly 76 when the list is empty |
| Card.RenderCards | scripts/generate-wakatime-svg.py:334-354 | it fails exactly when a kept project's counters cannot be read; otherwise each card holds its kept list's rows (the languages coloured by the map built from the metadata), at most 5 of them, and is sized for that many rows |

## Left out

- The HTTP requests of `fetch_stats` and `fetch_languages`, `raise_for_status`, and the JSON decoding. They are network I/O. The model starts from the decoded lists.
- Reading `WAKATIME_API_KEY` and `write_svg`'s directory creation and file writing. These are effects on the environment and the filesystem.
- The CSS and SVG template text of `render_svg` and the exact `<li>` markup, including the escaped card title. The model keeps what each row shows, in order, and the card's numbers.
- The float formatting `:.0f`/`:.4f` of the percentages, and `bar_title`. Formatting is not modelled; the widths are the exact reals it formats.
- `ClampPct`: computes over exact reals. IEEE-754 rounding, ±inf and the `OverflowError` of huge integers are not modelled; values `float()` rejects are one abstract variant, `Uncoercible`.
- `AdditionsDeletionsRatio`: the sum of the two shares is exactly 100 only in the real-number model; floating point may lose that. A counter is one of three abstract variants: `Missing` (absent or falsy), `Given` (a value `float()` converts, `True` as 1 among them) and `Malformed` (a truthy value it rejects). The `OverflowError` that `float()` raises at lines 75-78 on an integer beyond the float range is not modelled. Such an integer is a `Given` value there, so the model gives `Ok` where the script fails.
- `Shorten`: ASCII only. Python's `\w` also matches non-ASCII letters and digits, and `[a-z]` with `re.IGNORECASE` matches a few non-ASCII letters such as KELVIN SIGN. The model treats every non-ASCII character as a non-word character.
- `Strip`: removes only the ASCII whitespace characters. Python's `str.strip()` also removes Unicode spaces such as NO-BREAK SPACE.
- The `"hr"`→`"hour"` and `"min"`→`"minute"` rewriting of the card titles (lines 343-348). It is string cosmetics with no property of its own.
- `BuildColorMap`: the map is a Dafny `map` and has no insertion order. Python dicts keep it, but nothing in the script reads that order.
