/**
 * The catalog reader of the tweet scheduler: the rendered README is given as
 * the document-order sequence of its level-2 headings and its tables, and the
 * rows of each table are turned into tool records.
 */
module Catalog {
  import opened Wrappers
  import opened Strings

  /** A `td` cell: its rendered text and the `href` of its first link, if any. */
  datatype Cell = Cell(text: string, href: Option<string>)

  /** The `td` cells of one `tr`; a header row made of `th` cells has none. */
  type Row = seq<Cell>

  datatype Node = Heading(text: string) | Table(rows: seq<Row>)

  datatype Tool = Tool(
    category: string,
    name: string,
    description: string,
    url: Option<string>,
    popularity: string)

  const SkipCategories: seq<string> := ["Table of Contents", "Contributors", "Maintainer"]

  /** The first table at or after index `from`, wherever it lies (`find_next('table')`). */
  function NextTable(nodes: seq<Node>, from: nat): (r: Option<nat>)
    ensures r.Some? ==> from <= r.value < |nodes| && nodes[r.value].Table?
    decreases |nodes| - from
  {
    if from >= |nodes| then None
    else if nodes[from].Table? then Some(from)
    else NextTable(nodes, from + 1)
  }

  /** `NextTable` finds the first table at or after `from`, and `None` means there is none. */
  lemma {:induction false} NextTableIsFirst(nodes: seq<Node>, from: nat)
    ensures NextTable(nodes, from).Some? ==>
      var j := NextTable(nodes, from).value;
      from <= j < |nodes| && nodes[j].Table? && forall k :: from <= k < j ==> !nodes[k].Table?
    ensures NextTable(nodes, from).None? ==> forall k :: from <= k < |nodes| ==> !nodes[k].Table?
    decreases |nodes| - from
  {
    if from < |nodes| && !nodes[from].Table? {
      NextTableIsFirst(nodes, from + 1);
    }
  }

  /** The tool a data row yields: cells 1, 2 and 3, stripped; rows of fewer than four cells yield none. */
  function RowTool(category: string, row: Row): (r: Option<Tool>)
    ensures r.Some? <==> |row| >= 4
  {
    if |row| >= 4 then
      Some(Tool(category, Strip(row[1].text), Strip(row[2].text), row[2].href, Strip(row[3].text)))
    else None
  }

  /** The tools of rows `lo` up to (not including) `hi`, in row order. */
  function RowsTools(category: string, rows: seq<Row>, lo: nat, hi: nat): seq<Tool>
    requires lo <= hi <= |rows|
    decreases hi - lo
  {
    if hi == lo then []
    else
      var last := RowTool(category, rows[hi - 1]);
      RowsTools(category, rows, lo, hi - 1) + (if last.Some? then [last.value] else [])
  }

  /** The tools a table yields under a heading: its first row is the header and is skipped. */
  function TableTools(category: string, rows: seq<Row>): seq<Tool>
  {
    if |rows| <= 1 then [] else RowsTools(category, rows, 1, |rows|)
  }

  /** The tools credited to the node at index `i`: nothing unless it is a heading that is not skipped. */
  function SectionTools(nodes: seq<Node>, i: nat): seq<Tool>
    requires i < |nodes|
  {
    match nodes[i]
    case Table(_) => []
    case Heading(text) =>
      if text in SkipCategories then []
      else
        match NextTable(nodes, i + 1)
        case None => []
        case Some(j) => TableTools(text, nodes[j].rows)
  }

  /** The tools found under the first `k` nodes, in document order. */
  function ExtractedUpTo(nodes: seq<Node>, k: nat): seq<Tool>
    requires k <= |nodes|
  {
    if k == 0 then [] else ExtractedUpTo(nodes, k - 1) + SectionTools(nodes, k - 1)
  }

  function Extracted(nodes: seq<Node>): seq<Tool> {
    ExtractedUpTo(nodes, |nodes|)
  }

  /** `extract_tools_from_readme`, with its nested loops and appends. */
  method ExtractTools(nodes: seq<Node>) returns (tools: seq<Tool>)
    ensures tools == Extracted(nodes)
  {
    tools := [];
    var i := 0;
    while i < |nodes|
      invariant 0 <= i <= |nodes|
      invariant tools == ExtractedUpTo(nodes, i)
    {
      if nodes[i].Heading? && nodes[i].text !in SkipCategories {
        var category := nodes[i].text;
        var j := i + 1;
        while j < |nodes| && !nodes[j].Table?
          invariant i + 1 <= j <= |nodes|
          invariant NextTable(nodes, i + 1) == NextTable(nodes, j)
        {
          j := j + 1;
        }
        if j < |nodes| {
          tools := AppendTableTools(tools, category, nodes[j].rows);
        }
      }
      i := i + 1;
    }
  }

  /** The inner loop over one table's rows, appending to the running list. */
  method AppendTableTools(tools: seq<Tool>, category: string, rows: seq<Row>)
    returns (extended: seq<Tool>)
    ensures extended == tools + TableTools(category, rows)
  {
    extended := tools;
    if |rows| > 1 {
      var r := 1;
      while r < |rows|
        invariant 1 <= r <= |rows|
        invariant extended == tools + RowsTools(category, rows, 1, r)
      {
        var cells := rows[r];
        if |cells| >= 4 {
          extended := extended + [RowTool(category, cells).value];
        }
        r := r + 1;
      }
    } else {
      assert extended == tools + [];
    }
  }

  /** Every tool of a row range comes from a long-enough row in that range. */
  lemma {:induction false} RowsToolsSound(category: string, rows: seq<Row>, lo: nat, hi: nat, t: Tool)
    requires lo <= hi <= |rows| && t in RowsTools(category, rows, lo, hi)
    ensures exists r :: lo <= r < hi && RowTool(category, rows[r]) == Some(t)
    decreases hi - lo
  {
    if t in RowsTools(category, rows, lo, hi - 1) {
      RowsToolsSound(category, rows, lo, hi - 1, t);
    } else {
      assert RowTool(category, rows[hi - 1]) == Some(t);
    }
  }

  /** Every long-enough row in a range contributes its tool. */
  lemma {:induction false} RowsToolsComplete(category: string, rows: seq<Row>, lo: nat, hi: nat, r: nat)
    requires lo <= r < hi <= |rows| && |rows[r]| >= 4
    ensures RowTool(category, rows[r]).value in RowsTools(category, rows, lo, hi)
    decreases hi - lo
  {
    if r < hi - 1 {
      RowsToolsComplete(category, rows, lo, hi - 1, r);
    }
  }

  /**
   * Where an extracted tool comes from: a heading `i` that is not skipped,
   * the first table `j` after it (anywhere later), and a row `r` of that
   * table past the header row which yields the tool under the heading's text.
   */
  ghost predicate ComesFrom(nodes: seq<Node>, t: Tool, i: nat, j: nat, r: nat) {
    && i < |nodes|
    && nodes[i].Heading? && nodes[i].text !in SkipCategories
    && NextTable(nodes, i + 1) == Some(j)
    && 1 <= r < |nodes[j].rows|
    && RowTool(nodes[i].text, nodes[j].rows[r]) == Some(t)
  }

  lemma SectionToolsSound(nodes: seq<Node>, i: nat, t: Tool)
    requires i < |nodes| && t in SectionTools(nodes, i)
    ensures exists j: nat, r: nat :: ComesFrom(nodes, t, i, j, r)
  {
    var category := nodes[i].text;
    var j := NextTable(nodes, i + 1).value;
    var rows := nodes[j].rows;
    assert t in RowsTools(category, rows, 1, |rows|);
    RowsToolsSound(category, rows, 1, |rows|, t);
    var r :| 1 <= r < |rows| && RowTool(category, rows[r]) == Some(t);
    assert ComesFrom(nodes, t, i, j, r);
  }

  lemma SectionToolsComplete(nodes: seq<Node>, t: Tool, i: nat, j: nat, r: nat)
    requires ComesFrom(nodes, t, i, j, r)
    ensures t in SectionTools(nodes, i)
  {
    var category := nodes[i].text;
    var rows := nodes[j].rows;
    assert SectionTools(nodes, i) == RowsTools(category, rows, 1, |rows|);
    RowsToolsComplete(category, rows, 1, |rows|, r);
  }

  lemma {:induction false} ExtractedUpToSound(nodes: seq<Node>, k: nat, t: Tool)
    requires k <= |nodes| && t in ExtractedUpTo(nodes, k)
    ensures exists i: nat, j: nat, r: nat :: i < k && ComesFrom(nodes, t, i, j, r)
  {
    if t in ExtractedUpTo(nodes, k - 1) {
      ExtractedUpToSound(nodes, k - 1, t);
    } else {
      SectionToolsSound(nodes, k - 1, t);
    }
  }

  lemma {:induction false} ExtractedUpToComplete(nodes: seq<Node>, k: nat, t: Tool, i: nat, j: nat, r: nat)
    requires i < k <= |nodes| && ComesFrom(nodes, t, i, j, r)
    ensures t in ExtractedUpTo(nodes, k)
  {
    if i < k - 1 {
      ExtractedUpToComplete(nodes, k - 1, t, i, j, r);
    } else {
      SectionToolsComplete(nodes, t, i, j, r);
    }
  }

  /** Each extracted tool carries the heading text and the stripped cells 1, 2 and 3 of its row. */
  lemma ComesFromFields(nodes: seq<Node>, t: Tool, i: nat, j: nat, r: nat)
    requires ComesFrom(nodes, t, i, j, r)
    ensures i < j < |nodes| && nodes[j].Table? && |nodes[j].rows[r]| >= 4
    ensures t.category == nodes[i].text
    ensures t.name == Strip(nodes[j].rows[r][1].text)
    ensures t.description == Strip(nodes[j].rows[r][2].text)
    ensures t.url == nodes[j].rows[r][2].href
    ensures t.popularity == Strip(nodes[j].rows[r][3].text)
  {
    NextTableIsFirst(nodes, i + 1);
  }

  /** Membership in the extracted catalog, both directions. */
  lemma ExtractedMembers(nodes: seq<Node>, t: Tool)
    ensures t in Extracted(nodes) <==> exists i: nat, j: nat, r: nat :: ComesFrom(nodes, t, i, j, r)
  {
    if t in Extracted(nodes) {
      ExtractedUpToSound(nodes, |nodes|, t);
    }
    if exists i: nat, j: nat, r: nat :: ComesFrom(nodes, t, i, j, r) {
      var i: nat, j: nat, r: nat :| ComesFrom(nodes, t, i, j, r);
      ExtractedUpToComplete(nodes, |nodes|, t, i, j, r);
    }
  }

  /** No tool is ever filed under a skipped heading, and every category is some heading's text. */
  lemma ExtractedCategories(nodes: seq<Node>, t: Tool)
    requires t in Extracted(nodes)
    ensures t.category !in SkipCategories
    ensures exists i :: 0 <= i < |nodes| && nodes[i] == Heading(t.category)
  {
    ExtractedMembers(nodes, t);
    var i, j, r :| ComesFrom(nodes, t, i, j, r);
  }

  /** A table with at most the header row yields nothing, whatever heading claims it. */
  lemma HeaderOnlyTableYieldsNothing(category: string, rows: seq<Row>)
    requires |rows| <= 1
    ensures TableTools(category, rows) == []
  {
  }

  /** Rows of fewer than four cells are passed over without stopping the extraction. */
  lemma ShortRowsSkipped(category: string, rows: seq<Row>, lo: nat, hi: nat)
    requires lo <= hi < |rows| && |rows[hi]| < 4
    ensures RowsTools(category, rows, lo, hi + 1) == RowsTools(category, rows, lo, hi)
  {
  }

  /** The extraction only ever appends: the tools of a shorter prefix come first, in order. */
  lemma {:induction false} ExtractedInDocumentOrder(nodes: seq<Node>, k: nat, k': nat)
    requires k <= k' <= |nodes|
    ensures ExtractedUpTo(nodes, k) <= ExtractedUpTo(nodes, k')
    decreases k' - k
  {
    if k < k' {
      ExtractedInDocumentOrder(nodes, k, k' - 1);
    }
  }

  /**
   * `find_next('table')` looks past the next heading: a heading without a
   * table of its own re-labels the rows of the table that follows, so those
   * rows are extracted twice, first under the earlier heading.
   */
  lemma HeadingWithoutTableBorrowsNextTable(a: string, b: string, rows: seq<Row>)
    requires a !in SkipCategories && b !in SkipCategories
    ensures Extracted([Heading(a), Heading(b), Table(rows)]) ==
            TableTools(a, rows) + TableTools(b, rows)
  {
    var nodes := [Heading(a), Heading(b), Table(rows)];
    assert NextTable(nodes, 2) == Some(2);
    assert NextTable(nodes, 1) == Some(2);
    assert SectionTools(nodes, 0) == TableTools(a, rows);
    assert SectionTools(nodes, 1) == TableTools(b, rows);
    assert SectionTools(nodes, 2) == [];
    assert ExtractedUpTo(nodes, 1) == TableTools(a, rows);
    assert ExtractedUpTo(nodes, 2) == TableTools(a, rows) + TableTools(b, rows);
  }
}
