/** The numbers of `render_svg` and the data flow of `main`: each card shows at
    most the first five entries of its list, and its height follows from the number
    of rows. */
module Card {
  import opened Common
  import opened Colors
  import opened Rows

  const TopNCount: nat := 5

  const CardWidth: int := 360
  const HeaderHeight: int := 28
  const RectSize: int := 6
  const WidthPadding: int := 16
  const HeightPadding: int := 12
  const GapAfterHeader: int := 10
  const RowHeight: int := 26
  const BottomMargin: int := 10

  /** A rectangle of the card, in pixels. */
  datatype Box = Box(x: int, y: int, width: int, height: int)

  /** The sizes `render_svg` writes into the document: the card, its background
      rectangle and the foreign-object box that holds the HTML. */
  datatype Geometry = Geometry(width: int, height: int, background: Box, content: Box)

  /** The geometry of a card with `rowCount` rows. Its height is a fixed 76 pixels of
      paddings, header and margins plus 26 per row; the content box is inset by 16
      pixels left and right and 12 top and bottom, the background by 6 all round. */
  function CardGeometry(rowCount: nat): (g: Geometry)
    ensures g.width == 360 && g.height == 76 + 26 * rowCount
    ensures g.content == Box(16, 12, 328, g.height - 24)
    ensures g.background == Box(6, 6, 348, g.height - 12)
  {
    var height := WidthPadding + HeightPadding + HeaderHeight + GapAfterHeader + rowCount * RowHeight + BottomMargin;
    Geometry(CardWidth, height,
             Box(RectSize, RectSize, CardWidth - RectSize * 2, height - RectSize * 2),
             Box(WidthPadding, HeightPadding, CardWidth - WidthPadding * 2, height - HeightPadding * 2))
  }

  /** Box `inner` lies within box `outer`. */
  predicate Within(inner: Box, outer: Box)
  {
    outer.x <= inner.x && inner.x + inner.width <= outer.x + outer.width
    && outer.y <= inner.y && inner.y + inner.height <= outer.y + outer.height
  }

  /** The content box lies within the background, which lies within the card; and the
      header, the gap below it and every row fit in the content box. */
  lemma GeometryNests(rowCount: nat)
    ensures var g := CardGeometry(rowCount);
      && Within(g.content, g.background)
      && Within(g.background, Box(0, 0, g.width, g.height))
      && HeaderHeight + GapAfterHeader + RowHeight * rowCount <= g.content.height
  {
  }

  /** One more row makes the card exactly one row height taller. */
  lemma GeometryGrowsByRow(rowCount: nat)
    ensures CardGeometry(rowCount + 1).height == CardGeometry(rowCount).height + RowHeight
  {
  }

  /** `(xs or [])[:TOP_N_COUNT]`: the list's first five entries, or all of it when
      it is shorter. */
  function TopN<T>(xs: Option<seq<T>>): (r: seq<T>)
    ensures |r| == Min(TopNCount, |OrNil(xs)|)
    ensures r == OrNil(xs)[..|r|]
  {
    var all := OrNil(xs);
    if |all| <= TopNCount then all else all[..TopNCount]
  }

  /** A card with at most five rows is between 76 and 206 pixels high, and exactly 76
      with no rows. */
  lemma TopNHeightBounds<T>(xs: Option<seq<T>>)
    ensures 76 <= CardGeometry(|TopN(xs)|).height <= 206
    ensures |OrNil(xs)| == 0 ==> CardGeometry(|TopN(xs)|).height == 76
  {
  }

  /** The two lists of the stats payload, either of which may be missing or `None`. */
  datatype Stats = Stats(languages: Option<seq<LanguageItem>>, projects: Option<seq<ProjectItem>>)

  /** A rendered card: its joined rows, the row count it was sized for, and its
      geometry. */
  datatype RenderedCard = RenderedCard(rows: seq<Chunk>, rowCount: nat, geometry: Geometry)

  /** The part of `main` between fetching and writing: cut both lists to their first
      five entries, build the colour map from the language metadata, build both row
      lists and size both cards. It raises exactly when one of the kept projects has
      a counter that is not a number. */
  method RenderCards(data: Stats, metadata: seq<LanguageMeta>) returns (cards: Result<(RenderedCard, RenderedCard)>)
    ensures cards.Ok? <==> ProjectFragments(TopN(data.projects)).Ok?
    ensures cards.Ok? ==>
      var (languagesCard, projectsCard) := cards.value;
      && languagesCard.rowCount == |TopN(data.languages)| <= TopNCount
      && projectsCard.rowCount == |TopN(data.projects)| <= TopNCount
      && languagesCard.geometry == CardGeometry(languagesCard.rowCount)
      && projectsCard.geometry == CardGeometry(projectsCard.rowCount)
      && languagesCard.rows == Join(LanguageFragments(TopN(data.languages), ColorMap(metadata)))
      && projectsCard.rows == Join(ProjectFragments(TopN(data.projects)).value)
  {
    var languages := TopN(data.languages);
    var projects := TopN(data.projects);
    var languageColors := BuildColorMap(metadata);
    var languagesRows := BuildLanguageRows(languages, languageColors);
    var projectsRows := BuildProjectRows(projects);
    if projectsRows.ValueError? {
      return ValueError;
    }
    cards := Ok((RenderedCard(languagesRows, |languages|, CardGeometry(|languages|)),
                 RenderedCard(projectsRows.value, |projects|, CardGeometry(|projects|))));
  }
}
