/** The table that `search_statmuse` reads off a StatMuse answer page,
    after the browser has rendered it and the HTML has been parsed. The
    parsed document is taken as given: the cells found under `thead`, if
    there is one, and every `tr` of the table in document order, each with
    its cells in order. */
module StatTable {
  import opened Wrappers
  import opened PyStr

  /** The two kinds of table cell the scraper looks for. */
  datatype Tag = Th | Td

  /** A cell: its tag and its text content (`col.text`) before trimming. */
  datatype Cell = Cell(tag: Tag, text: string)

  type Row = seq<Cell>

  /** `thead` is the cells under the table head (`None` when the page has
      no `thead`); `rows` is every `tr` element, head rows included. */
  datatype ParsedTable = ParsedTable(thead: Option<seq<Cell>>, rows: seq<Row>)

  /** The number of cells with the given tag. */
  function CountTag(cells: seq<Cell>, tag: Tag): nat {
    if cells == [] then 0 else (if cells[0].tag == tag then 1 else 0) + CountTag(cells[1..], tag)
  }

  /** `[col.text.strip() for col in cells if col is a <tag>]`: the trimmed
      texts of the cells with that tag, one per such cell. */
  function CellTexts(cells: seq<Cell>, tag: Tag): (r: seq<string>)
    ensures |r| == CountTag(cells, tag)
    ensures forall k :: 0 <= k < |r| ==> IsTrimmed(r[k])
  {
    if cells == [] then []
    else
      var head := if cells[0].tag == tag then [Strip(cells[0].text)] else [];
      var rest := CellTexts(cells[1..], tag);
      assert forall k :: 0 <= k < |head| ==> IsTrimmed(head[k]);
      assert forall k :: |head| <= k < |head| + |rest| ==> (head + rest)[k] == rest[k - |head|];
      head + rest
  }

  /** Texts are collected cell by cell, left to right: nothing is skipped
      or reordered. */
  lemma {:induction false} CellTextsAppend(a: seq<Cell>, b: seq<Cell>, tag: Tag)
    ensures CellTexts(a + b, tag) == CellTexts(a, tag) + CellTexts(b, tag)
  {
    if a == [] {
      assert a + b == b;
    } else {
      assert (a + b)[1..] == a[1..] + b;
      CellTextsAppend(a[1..], b, tag);
    }
  }

  /** A cell of the wanted kind contributes its trimmed text, a cell of the
      other kind contributes nothing. */
  lemma CellTextsSingle(c: Cell, tag: Tag)
    ensures CellTexts([c], tag) == if c.tag == tag then [Strip(c.text)] else []
  {
    assert [c][1..] == [];
  }

  /** A row without cells of that kind, such as a header row searched for
      `td`, gives the empty list. */
  lemma {:induction false} CellTextsNone(cells: seq<Cell>, tag: Tag)
    requires forall k :: 0 <= k < |cells| ==> cells[k].tag != tag
    ensures CellTexts(cells, tag) == []
  {
    if cells != [] {
      CellTextsNone(cells[1..], tag);
    }
  }

  /** When every cell has the wanted tag, entry k is the trimmed text of
      cell k. */
  lemma {:induction false} CellTextsAll(cells: seq<Cell>, tag: Tag)
    requires forall k :: 0 <= k < |cells| ==> cells[k].tag == tag
    ensures |CellTexts(cells, tag)| == |cells|
    ensures forall k :: 0 <= k < |cells| ==> CellTexts(cells, tag)[k] == Strip(cells[k].text)
  {
    if cells != [] {
      CellTextsAll(cells[1..], tag);
      var r := CellTexts(cells, tag);
      assert r == [Strip(cells[0].text)] + CellTexts(cells[1..], tag);
      forall k | 0 <= k < |cells| ensures r[k] == Strip(cells[k].text) {
        if k > 0 {
          assert r[k] == CellTexts(cells[1..], tag)[k - 1];
          assert cells[1..][k - 1] == cells[k];
        }
      }
    }
  }

  /** `column_names`: the trimmed `th` texts found under `thead`, or the
      empty list when the table has no `thead`. */
  function HeaderNames(t: ParsedTable): (r: seq<string>)
    ensures t.thead.None? ==> r == []
    ensures t.thead.Some? ==> |r| == CountTag(t.thead.value, Th)
    ensures forall k :: 0 <= k < |r| ==> IsTrimmed(r[k])
  {
    match t.thead
    case None => []
    case Some(cells) => CellTexts(cells, Th)
  }

  /** `cols_text` for one `tr`: the trimmed `td` texts of the row. */
  function RowTexts(row: Row): (r: seq<string>)
    ensures |r| == CountTag(row, Td)
    ensures forall k :: 0 <= k < |r| ==> IsTrimmed(r[k])
  {
    CellTexts(row, Td)
  }

  /** The loop that builds `data`: the header names first, then one list
      per `tr`, in document order. With no `tr` at all the result is the
      header list alone. */
  method AssembleRows(t: ParsedTable) returns (data: seq<seq<string>>)
    ensures |data| == |t.rows| + 1
    ensures data[0] == HeaderNames(t)
    ensures forall i :: 0 <= i < |t.rows| ==> data[i + 1] == RowTexts(t.rows[i])
    ensures forall i, k :: 0 <= i < |data| && 0 <= k < |data[i]| ==> IsTrimmed(data[i][k])
  {
    var columnNames := HeaderNames(t);
    data := [columnNames];
    for n := 0 to |t.rows|
      invariant |data| == n + 1
      invariant data[0] == columnNames
      invariant forall i :: 0 <= i < n ==> data[i + 1] == RowTexts(t.rows[i])
      invariant forall i, k :: 0 <= i < |data| && 0 <= k < |data[i]| ==> IsTrimmed(data[i][k])
    {
      var colsText := RowTexts(t.rows[n]);
      data := data + [colsText];
    }
  }
}
