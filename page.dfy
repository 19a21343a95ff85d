/**
 * What the scraper sees of the Swarm commit list once the browser is
 * abstracted away: table rows made of cells. Selenium's element lookups
 * become fields whose value is what the lookup would have returned.
 */
module Page {
  import opened Wrappers

  /**
   * One `td` element: its visible text, the text of its first `a` element
   * and the `title` attribute of its `span.timeago` element. None stands for
   * a lookup that raised, whatever the reason: the cell has no such element,
   * or finding it or reading its text or attribute failed. The row parser
   * takes its fallback in every such case.
   */
  datatype Cell = Cell(text: string, linkText: Option<string>, timeagoTitle: Option<string>)

  /**
   * One `tr` element: its cells in order, and the `href` attribute of every
   * `a` element anywhere in the row in document order, "" standing for an
   * anchor whose attribute is absent or empty.
   */
  datatype Row = Row(cells: seq<Cell>, hrefs: seq<string>)
}
