/**
 * Turning scraped table rows into commit records, and the result table they
 * are shown in (commits_automation.py:152-182), with the double-click action
 * that opens a row's first link (commits_automation.py:192-199).
 */
module CommitRows {
  import opened Wrappers
  import opened Text
  import opened Page
  import opened TimeConversion

  /** The five values shown for a commit, in column order. */
  datatype CommitRecord = CommitRecord(
    commitId: string,
    user: string,
    description: string,
    utcTime: string,
    kstTime: string)

  /** A parsed row: its record and the links collected from it. */
  datatype Entry = Entry(record: CommitRecord, links: seq<string>)

  /** Rows with fewer cells than this are skipped. */
  const MinCells := 4

  /**
   * The `href` values that are present and non-empty, in document order
   * (the list comprehension at commits_automation.py:167).
   */
  function NonEmptyHrefs(hrefs: seq<string>): (r: seq<string>)
    ensures |r| <= |hrefs|
    ensures forall k :: 0 <= k < |r| ==> r[k] != ""
    ensures forall h :: h in r <==> h in hrefs && h != ""
  {
    if hrefs == [] then []
    else
      var front := NonEmptyHrefs(hrefs[..|hrefs| - 1]);
      var h := hrefs[|hrefs| - 1];
      assert hrefs == hrefs[..|hrefs| - 1] + [h];
      if h == "" then front else front + [h]
  }

  /** Filtering keeps document order: it works piecewise on a split list. */
  lemma {:induction false} NonEmptyHrefsAppend(a: seq<string>, b: seq<string>)
    ensures NonEmptyHrefs(a + b) == NonEmptyHrefs(a) + NonEmptyHrefs(b)
    decreases |b|
  {
    if b != [] {
      var b' := b[..|b| - 1];
      assert (a + b)[..|a + b| - 1] == a + b';
      NonEmptyHrefsAppend(a, b');
    } else {
      assert a + b == a;
    }
  }

  /**
   * One row of the commit list as the loop body reads it; None for a row
   * that is skipped.
   */
  function ParseRow(row: Row): (r: Option<Entry>)
    ensures r.None? <==> |row.cells| < MinCells
    ensures r.Some? ==> r.value.record.kstTime == UtcToKstAmPm(r.value.record.utcTime)
    ensures r.Some? ==> r.value.links == NonEmptyHrefs(row.hrefs)
  {
    if |row.cells| < MinCells then None
    else
      var tds := row.cells;
      var commitId := match tds[0].linkText
                      case Some(t) => Strip(t)
                      case None => Strip(tds[0].text);
      var utcTime := match tds[3].timeagoTitle
                     case Some(title) => title
                     case None => Strip(tds[3].text);
      Some(Entry(
        CommitRecord(commitId, Strip(tds[1].text), Strip(tds[2].text), utcTime, UtcToKstAmPm(utcTime)),
        NonEmptyHrefs(row.hrefs)))
  }

  /** Where each field of a parsed row comes from. */
  lemma ParseRowFields(row: Row)
    requires |row.cells| >= MinCells
    ensures var e := ParseRow(row).value.record;
            && (row.cells[0].linkText.Some? ==> e.commitId == Strip(row.cells[0].linkText.value))
            && (row.cells[0].linkText.None? ==> e.commitId == Strip(row.cells[0].text))
            && e.user == Strip(row.cells[1].text)
            && e.description == Strip(row.cells[2].text)
            && (row.cells[3].timeagoTitle.Some? ==> e.utcTime == row.cells[3].timeagoTitle.value)
            && (row.cells[3].timeagoTitle.None? ==> e.utcTime == Strip(row.cells[3].text))
  {
  }

  /** The records the loop at commits_automation.py:157-182 produces, in order. */
  function ParsedRows(rows: seq<Row>): (r: seq<Entry>)
    ensures |r| <= |rows|
  {
    if rows == [] then []
    else
      var front := ParsedRows(rows[..|rows| - 1]);
      match ParseRow(rows[|rows| - 1])
      case None => front
      case Some(e) => front + [e]
  }

  /** The records of one more row of the page. */
  lemma ParsedRowsStep(page: seq<Row>, i: nat)
    requires i < |page|
    ensures ParsedRows(page[..i + 1]) ==
              ParsedRows(page[..i]) + (if ParseRow(page[i]).Some? then [ParseRow(page[i]).value] else [])
  {
    assert page[..i + 1][..i] == page[..i];
  }

  /**
   * Parsing keeps the page's row order and treats every row on its own:
   * the records of a split list are those of the first part followed by
   * those of the second.
   */
  lemma {:induction false} ParsedRowsAppend(a: seq<Row>, b: seq<Row>)
    ensures ParsedRows(a + b) == ParsedRows(a) + ParsedRows(b)
    decreases |b|
  {
    if b != [] {
      var b' := b[..|b| - 1];
      assert (a + b)[..|a + b| - 1] == a + b';
      assert (a + b)[|a + b| - 1] == b[|b| - 1];
      ParsedRowsAppend(a, b');
    } else {
      assert a + b == a;
    }
  }

  /** The number of rows that are long enough to be parsed. */
  function LongRows(rows: seq<Row>): nat {
    if rows == [] then 0
    else LongRows(rows[..|rows| - 1]) + (if |rows[|rows| - 1].cells| < MinCells then 0 else 1)
  }

  /**
   * Exactly one record per row with at least four cells; every record's
   * display time is the conversion of its UTC time.
   */
  lemma {:induction false} ParsedRowsCount(rows: seq<Row>)
    ensures |ParsedRows(rows)| == LongRows(rows)
    ensures forall k :: 0 <= k < |ParsedRows(rows)| ==>
              ParsedRows(rows)[k].record.kstTime == UtcToKstAmPm(ParsedRows(rows)[k].record.utcTime)
  {
    if rows != [] {
      ParsedRowsCount(rows[..|rows| - 1]);
    }
  }

  /** A row of the result table: the treeview item id, its values, its tag. */
  datatype TableRow = TableRow(id: nat, values: CommitRecord, hasLink: bool)

  /** The links a table row has in the link map; [] when it has none. */
  function LinksOf(links: map<nat, seq<string>>, id: nat): seq<string> {
    if id in links then links[id] else []
  }

  /** What a table shows: each row's values with the links recorded for it. */
  function ViewOf(rows: seq<TableRow>, links: map<nat, seq<string>>): (v: seq<Entry>)
    ensures |v| == |rows|
    ensures forall k :: 0 <= k < |rows| ==>
              v[k] == Entry(rows[k].values, LinksOf(links, rows[k].id))
  {
    if rows == [] then []
    else ViewOf(rows[..|rows| - 1], links) + [Entry(rows[|rows| - 1].values, LinksOf(links, rows[|rows| - 1].id))]
  }

  /** The item ids of the rows of a table. */
  function IdsOf(rows: seq<TableRow>): set<nat> {
    set k | 0 <= k < |rows| :: rows[k].id
  }

  /**
   * Tagging the last row and recording its links changes what the table
   * shows for that row only, since no earlier row has its id.
   */
  lemma TagLastKeepsView(rows: seq<TableRow>, links: map<nat, seq<string>>, hrefs: seq<string>)
    requires rows != []
    requires forall k :: 0 <= k < |rows| - 1 ==> rows[k].id < rows[|rows| - 1].id
    ensures var last := rows[|rows| - 1];
            ViewOf(rows[|rows| - 1 := last.(hasLink := true)], links[last.id := hrefs])
              == ViewOf(rows, links)[|rows| - 1 := Entry(last.values, hrefs)]
  {
    var last := rows[|rows| - 1];
    var after := ViewOf(rows[|rows| - 1 := last.(hasLink := true)], links[last.id := hrefs]);
    var want := ViewOf(rows, links)[|rows| - 1 := Entry(last.values, hrefs)];
    assert forall k :: 0 <= k < |rows| ==> after[k] == want[k];
  }

  /**
   * The invariant of the result table: ids are below the next id to hand
   * out and increase down the table, a row is tagged exactly when it has an
   * entry in the link map, and the map holds non-empty lists for shown rows
   * only.
   */
  ghost predicate Consistent(rows: seq<TableRow>, links: map<nat, seq<string>>, nextId: nat) {
    && (forall k :: 0 <= k < |rows| ==> rows[k].id < nextId)
    && (forall k, l :: 0 <= k < l < |rows| ==> rows[k].id < rows[l].id)
    && (forall k :: 0 <= k < |rows| ==> (rows[k].hasLink <==> rows[k].id in links))
    && (forall id :: id in links ==> links[id] != [] && id in IdsOf(rows))
  }

  /** Appending an untagged row under the next id keeps the table consistent. */
  lemma AppendKeepsConsistent(rows: seq<TableRow>, links: map<nat, seq<string>>, nextId: nat, values: CommitRecord)
    requires Consistent(rows, links, nextId)
    ensures Consistent(rows + [TableRow(nextId, values, false)], links, nextId + 1)
    ensures ViewOf(rows + [TableRow(nextId, values, false)], links) == ViewOf(rows, links) + [Entry(values, [])]
  {
    var after := rows + [TableRow(nextId, values, false)];
    assert nextId !in links;
    assert IdsOf(after) == IdsOf(rows) + {nextId} by {
      assert after[|after| - 1].id == nextId;
      assert forall k :: 0 <= k < |rows| ==> after[k] == rows[k];
    }
    assert after[..|after| - 1] == rows;
  }

  /** Tagging the last row and recording its links keeps the table consistent. */
  lemma TagLastKeepsConsistent(rows: seq<TableRow>, links: map<nat, seq<string>>, nextId: nat, hrefs: seq<string>)
    requires Consistent(rows, links, nextId) && rows != [] && hrefs != []
    ensures var last := rows[|rows| - 1];
            Consistent(rows[|rows| - 1 := last.(hasLink := true)], links[last.id := hrefs], nextId)
  {
    var n := |rows|;
    var last := rows[n - 1];
    var after := rows[n - 1 := last.(hasLink := true)];
    assert IdsOf(after) == IdsOf(rows) by {
      assert forall k :: 0 <= k < n ==> after[k].id == rows[k].id;
    }
    assert last.id in IdsOf(after) by {
      assert after[n - 1].id == last.id;
    }
  }

  /**
   * The result sink: the rows of the treeview in display order, and
   * `row_link_info`, the map from a row's id to its links. Item ids are
   * handed out by the treeview in increasing order and are never reused.
   */
  class ResultSink {
    var rows: seq<TableRow>
    var links: map<nat, seq<string>>
    var nextId: nat

    ghost predicate Valid()
      reads this
    {
      Consistent(rows, links, nextId)
    }

    /** Each shown row with the links a double-click can follow. */
    function View(): seq<Entry>
      reads this
    {
      ViewOf(rows, links)
    }

    constructor ()
      ensures Valid() && rows == [] && links == map[]
    {
      rows := [];
      links := map[];
      nextId := 0;
    }

    /** Deletes every treeview item and clears the link map. */
    method Clear()
      modifies this
      ensures Valid() && rows == [] && links == map[] && nextId == old(nextId)
    {
      rows := [];
      links := map[];
    }

    /** `treeview.insert("", "end", values=...)`: appends an untagged row. */
    method Insert(values: CommitRecord) returns (id: nat)
      requires Valid()
      modifies this
      ensures Valid()
      ensures id == old(nextId) && nextId == old(nextId) + 1
      ensures rows == old(rows) + [TableRow(id, values, false)] && links == old(links)
      ensures View() == old(View()) + [Entry(values, [])]
    {
      id := nextId;
      AppendKeepsConsistent(rows, links, nextId, values);
      rows := rows + [TableRow(id, values, false)];
      nextId := nextId + 1;
    }

    /**
     * Tags the last inserted row `has_link` and records its links, as the
     * loop does for a row with a non-empty href list.
     */
    method AttachLinks(hrefs: seq<string>)
      requires Valid() && rows != [] && hrefs != []
      requires rows[|rows| - 1].id !in links
      modifies this
      ensures Valid() && nextId == old(nextId)
      ensures rows == old(rows)[|old(rows)| - 1 := old(rows)[|old(rows)| - 1].(hasLink := true)]
      ensures links == old(links)[old(rows)[|old(rows)| - 1].id := hrefs]
      ensures View() == old(View())[|old(rows)| - 1 := Entry(old(rows)[|old(rows)| - 1].values, hrefs)]
    {
      var n := |rows|;
      var last := rows[n - 1];
      TagLastKeepsView(rows, links, hrefs);
      TagLastKeepsConsistent(rows, links, nextId, hrefs);
      rows := rows[n - 1 := last.(hasLink := true)];
      links := links[last.id := hrefs];
    }

    /**
     * Shows one parsed row: inserts its values and, when it has links,
     * tags it and records them.
     */
    method Add(e: Entry)
      requires Valid()
      modifies this
      ensures Valid() && nextId == old(nextId) + 1
      ensures View() == old(View()) + [e]
    {
      ghost var shown := View();
      var id := Insert(e.record);
      if e.links != [] {
        AttachLinks(e.links);
      }
      assert View() == shown + [e];
    }

    /**
     * Clears the table and the link map, then adds one row per parsed row
     * in page order, tagging and recording the rows that have links.
     */
    method Populate(page: seq<Row>)
      requires Valid()
      modifies this
      ensures Valid() && nextId >= old(nextId)
      ensures View() == ParsedRows(page)
      ensures forall k :: 0 <= k < |rows| ==> (rows[k].hasLink <==> View()[k].links != [])
    {
      Clear();
      var i := 0;
      while i < |page|
        invariant 0 <= i <= |page|
        invariant Valid() && nextId >= old(nextId)
        invariant View() == ParsedRows(page[..i])
      {
        var parsed := ParseRow(page[i]);
        if parsed.Some? {
          Add(parsed.value);
        }
        ParsedRowsStep(page, i);
        i := i + 1;
      }
      assert page[..i] == page;
    }

    /**
     * `on_double_click`: the link that is opened for the focused row, if
     * any. Only the first link of a row is ever opened.
     */
    method OnDoubleClick(focused: Option<nat>) returns (target: Option<string>)
      requires Valid()
      ensures target.Some? <==>
                focused.Some? && focused.value in links && links[focused.value] != []
      ensures target.Some? ==> target.value == links[focused.value][0]
      ensures forall k :: 0 <= k < |rows| && focused == Some(rows[k].id) ==>
                target == (if View()[k].links == [] then None else Some(View()[k].links[0]))
    {
      target := None;
      if focused.None? {
        return;
      }
      var item := focused.value;
      if item in links {
        var rowLinks := links[item];
        if rowLinks != [] {
          target := Some(rowLinks[0]);
        }
      }
    }
  }
}
