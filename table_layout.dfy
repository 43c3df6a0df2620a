/** The table-to-grid layout of the HTML parser (`parse_table` and
    `dict_to_list`). The parsed table is given as its rows in document order,
    each row as its `td|th` cells in document order; a cell carries its raw
    `colspan` and `rowspan` attributes, its text content and the `href`s of
    its descendants in document order. The grid is the sparse map from
    (row, column) to cell value that `parse_table` builds in its nested
    `defaultdict`. */
module TableLayout {
  import opened Wrappers
  import opened Builtins
  import HtmlText

  /** The base every kept link is resolved against. */
  const BaseUrl: string := "http://en.wikipedia.org/"

  /** A cell's value: its text, its one link, or the list of its links. */
  datatype CellValue =
    | Text(text: string)
    | Link(url: string)
    | Links(urls: seq<string>)

  /** A `colspan`/`rowspan` attribute as `int()` sees it: missing (the
      default 1 applies), a literal `int()` accepts, with its value, or a
      literal it rejects. */
  datatype SpanAttr =
    | Absent
    | Numeric(n: int)
    | NonNumeric(raw: string)

  datatype Cell = Cell(colspan: SpanAttr, rowspan: SpanAttr, text: string, hrefs: seq<string>)

  type Row = seq<Cell>
  type Slot = (nat, nat)
  type Grid = map<Slot, CellValue>

  /** `urljoin(base, url)`, left uninterpreted. */
  type UrlJoin = (string, string) -> string

  /** `int(col.get(attr, 1))`. */
  function SpanValue(a: SpanAttr): Result<int, Exception> {
    match a
    case Absent => Ok(1)
    case Numeric(n) => Ok(n)
    case NonNumeric(raw) => Err(ValueError("invalid literal for int() with base 10: '" + raw + "'"))
  }

  predicate IsWikiLink(href: string) {
    Contains(href, "wiki")
  }

  /** The descendant hrefs containing "wiki", each joined to the base URL,
      in document order and with duplicates kept. */
  function WikiLinks(hrefs: seq<string>, urljoin: UrlJoin): seq<string> {
    MapSeq(h => urljoin(BaseUrl, h), Filter(IsWikiLink, hrefs))
  }

  /** The value `parse_table` writes for one cell: its text when text is
      preferred, otherwise its one wiki link, or the list of all of them, or
      its text when it has none. */
  function Resolve(cell: Cell, preferText: bool, urljoin: UrlJoin): CellValue {
    var links := WikiLinks(cell.hrefs, urljoin);
    if preferText then Text(HtmlText.ReplaceSpace(cell.text))
    else if |links| == 1 then Link(links[0])
    else if |links| > 1 then Links(links)
    else Text(HtmlText.ReplaceSpace(cell.text))
  }

  /** What a cell's value is, in terms of the cell: the normalised text when
      text is preferred or no descendant href contains "wiki"; otherwise one
      joined link when exactly one does, and all of them, joined, in order
      and with duplicates kept, when several do. */
  lemma ResolveRule(cell: Cell, preferText: bool, urljoin: UrlJoin)
    ensures var v := Resolve(cell, preferText, urljoin);
      && (preferText ==> v == Text(HtmlText.ReplaceSpace(cell.text)))
      && (!preferText ==>
           && (v.Text? <==> forall i | 0 <= i < |cell.hrefs| :: !IsWikiLink(cell.hrefs[i]))
           && (v.Link? <==> |Filter(IsWikiLink, cell.hrefs)| == 1)
           && (v.Links? <==> |Filter(IsWikiLink, cell.hrefs)| >= 2)
           && (v.Link? ==> v.url == urljoin(BaseUrl, Filter(IsWikiLink, cell.hrefs)[0]))
           && (v.Text? ==> v == Text(HtmlText.ReplaceSpace(cell.text)))
           && (v.Link? ==>
                exists i :: 0 <= i < |cell.hrefs| && IsWikiLink(cell.hrefs[i]) && v.url == urljoin(BaseUrl, cell.hrefs[i]))
           && (v.Links? ==>
                && |v.urls| == |Filter(IsWikiLink, cell.hrefs)| >= 2
                && (forall k | 0 <= k < |v.urls| :: v.urls[k] == urljoin(BaseUrl, Filter(IsWikiLink, cell.hrefs)[k]))
                && forall k | 0 <= k < |v.urls| ::
                     exists i :: 0 <= i < |cell.hrefs| && IsWikiLink(cell.hrefs[i]) && v.urls[k] == urljoin(BaseUrl, cell.hrefs[i])))
  {
    var kept := Filter(IsWikiLink, cell.hrefs);
    if |kept| == 1 {
      assert kept[0] in cell.hrefs;
    } else if |kept| > 1 {
      assert forall k | 0 <= k < |kept| :: kept[k] in cell.hrefs;
      var i :| 0 <= i < |cell.hrefs| && cell.hrefs[i] == kept[0];
      assert IsWikiLink(cell.hrefs[i]);
    }
  }

  /** The first column at or after `c` whose slot in row `r` is not yet
      written: the `while` loop that advances `col_i`. Only this one slot is
      looked at, not the rest of the rectangle the cell will fill. */
  function FirstFree(g: Grid, r: nat, c: nat): (col: nat)
    ensures c <= col
    ensures (r, col) !in g
    ensures forall k | c <= k < col :: (r, k) in g
    decreases set s | s in g.Keys && s.0 == r && s.1 >= c
  {
    if (r, c) in g then
      FreeSearchShrinks(g, r, c);
      FirstFree(g, r, c + 1)
    else c
  }

  /** Moving past a written slot leaves fewer written slots ahead. */
  lemma FreeSearchShrinks(g: Grid, r: nat, c: nat)
    requires (r, c) in g
    ensures (set s | s in g.Keys && s.0 == r && s.1 >= c + 1) < (set s | s in g.Keys && s.0 == r && s.1 >= c)
  {
    var before := set s | s in g.Keys && s.0 == r && s.1 >= c;
    var after := set s | s in g.Keys && s.0 == r && s.1 >= c + 1;
    assert (r, c) in before && (r, c) !in after;
  }

  predicate InRect(s: Slot, r: nat, c: nat, rowSpan: int, colSpan: int) {
    r <= s.0 < r + rowSpan && c <= s.1 < c + colSpan
  }

  /** The slots of the rectangle [r, r + rowSpan) x [c, c + colSpan); empty
      when either span is 0 or negative. */
  function Rect(r: nat, c: nat, rowSpan: int, colSpan: int): set<Slot> {
    set i: nat, j: nat | r <= i < r + rowSpan && c <= j < c + colSpan :: (i, j)
  }

  /** Writing one value into a rectangle of the grid. */
  function Fill(g: Grid, r: nat, c: nat, rowSpan: int, colSpan: int, v: CellValue): Grid {
    g + map s | s in Rect(r, c, rowSpan, colSpan) :: v
  }

  /** Last write wins: after the fill, the rectangle's slots hold `v`
      whatever they held before, the other slots are unchanged, and no slot
      outside the grid and the rectangle appears. */
  lemma FillWrites(g: Grid, r: nat, c: nat, rowSpan: int, colSpan: int, v: CellValue)
    ensures var g' := Fill(g, r, c, rowSpan, colSpan, v);
      && (forall s: Slot :: s in g' <==> s in g || InRect(s, r, c, rowSpan, colSpan))
      && (forall s: Slot | s in g' :: g'[s] == if InRect(s, r, c, rowSpan, colSpan) then v else g[s])
  {
    assert forall s: Slot :: s in Rect(r, c, rowSpan, colSpan) <==> InRect(s, r, c, rowSpan, colSpan);
  }

  /** A grid that agrees with `g` outside a rectangle and holds `v` inside
      it is the filled grid. */
  lemma FillExtensional(g': Grid, g: Grid, r: nat, c: nat, rowSpan: int, colSpan: int, v: CellValue)
    requires forall s: Slot :: s in g' <==> s in g || InRect(s, r, c, rowSpan, colSpan)
    requires forall s: Slot | s in g' :: g'[s] == if InRect(s, r, c, rowSpan, colSpan) then v else g[s]
    ensures g' == Fill(g, r, c, rowSpan, colSpan, v)
  {
    FillWrites(g, r, c, rowSpan, colSpan, v);
  }

  /** The nested `for` loops over `range(row_i, row_i + row_span)` and
      `range(col_i, col_i + col_span)`: every slot of the rectangle is
      written, one at a time, in row-major order. */
  method FillRect(g: Grid, r: nat, c: nat, rowSpan: int, colSpan: int, v: CellValue) returns (g': Grid)
    ensures g' == Fill(g, r, c, rowSpan, colSpan, v)
  {
    g' := g;
    var i: nat := r;
    while i < r + rowSpan
      invariant r <= i
      invariant rowSpan > 0 ==> i <= r + rowSpan
      invariant rowSpan <= 0 ==> i == r
      invariant forall s: Slot :: s in g' <==> s in g || InRect(s, r, c, i - r, colSpan)
      invariant forall s: Slot | s in g' :: g'[s] == if InRect(s, r, c, i - r, colSpan) then v else g[s]
    {
      var j: nat := c;
      while j < c + colSpan
        invariant c <= j
        invariant colSpan > 0 ==> j <= c + colSpan
        invariant colSpan <= 0 ==> j == c
        invariant forall s: Slot :: s in g' <==> s in g || InRect(s, r, c, i - r, colSpan) || (s.0 == i && c <= s.1 < j)
        invariant forall s: Slot | s in g' ::
          g'[s] == if InRect(s, r, c, i - r, colSpan) || (s.0 == i && c <= s.1 < j) then v else g[s]
      {
        g' := g'[(i, j) := v];
        j := j + 1;
      }
      i := i + 1;
    }
    FillExtensional(g', g, r, c, rowSpan, colSpan, v);
  }

  /** One cell of `parse_table`: read both spans (a `ValueError` for a
      literal `int()` rejects, colspan first), find the start column and
      fill the rectangle. */
  function PlaceCell(g: Grid, r: nat, pos: nat, cell: Cell, preferText: bool, urljoin: UrlJoin): (placed: Result<Grid, Exception>)
    ensures placed.Ok? ==> g.Keys <= placed.value.Keys
  {
    var colSpan :- SpanValue(cell.colspan);
    var rowSpan :- SpanValue(cell.rowspan);
    Ok(Fill(g, r, FirstFree(g, r, pos), rowSpan, colSpan, Resolve(cell, preferText, urljoin)))
  }

  /** The cells of row `r` from position `pos` on. */
  function LayoutRow(g: Grid, r: nat, cells: Row, pos: nat, preferText: bool, urljoin: UrlJoin): Result<Grid, Exception>
    requires pos <= |cells|
    decreases |cells| - pos
  {
    if pos == |cells| then Ok(g)
    else
      var g' :- PlaceCell(g, r, pos, cells[pos], preferText, urljoin);
      LayoutRow(g', r, cells, pos + 1, preferText, urljoin)
  }

  /** The rows of the table from row `r` on. */
  function LayoutRows(g: Grid, table: seq<Row>, r: nat, preferText: bool, urljoin: UrlJoin): Result<Grid, Exception>
    requires r <= |table|
    decreases |table| - r
  {
    if r == |table| then Ok(g)
    else
      var g' :- LayoutRow(g, r, table[r], 0, preferText, urljoin);
      LayoutRows(g', table, r + 1, preferText, urljoin)
  }

  /** The grid `parse_table` builds, or the exception it raises. */
  function Layout(table: seq<Row>, preferText: bool, urljoin: UrlJoin): Result<Grid, Exception> {
    LayoutRows(map[], table, 0, preferText, urljoin)
  }

  /** The rest of row `r` from `pos` on, then the rows after it. */
  function ResumeAt(g: Grid, table: seq<Row>, r: nat, pos: nat, preferText: bool, urljoin: UrlJoin): Result<Grid, Exception>
    requires r < |table| && pos <= |table[r]|
  {
    var g' :- LayoutRow(g, r, table[r], pos, preferText, urljoin);
    LayoutRows(g', table, r + 1, preferText, urljoin)
  }

  // ---------------------------------------------------------------------
  // dict_to_list

  /** The row indices that hold at least one slot. */
  function RowsOf(g: Grid): set<nat> {
    set s | s in g.Keys :: s.0
  }

  /** The column indices written in row `i`. */
  function ColsOf(g: Grid, i: nat): set<nat> {
    set s | s in g.Keys && s.0 == i :: s.1
  }

  lemma WrittenRowsHaveColumns(g: Grid)
    ensures forall i | i in RowsOf(g) :: |ColsOf(g, i)| > 0
  {
    forall i | i in RowsOf(g) ensures |ColsOf(g, i)| > 0 {
      var s :| s in g.Keys && s.0 == i;
      assert s.1 in ColsOf(g, i);
    }
  }

  /** Row `i`'s values in ascending column order. */
  function RowValues(g: Grid, i: nat): seq<CellValue> {
    var cols := Sorted(ColsOf(g, i));
    seq(|cols|, b requires 0 <= b < |cols| =>
      assert cols[b] in ColsOf(g, i);
      g[(i, cols[b])])
  }

  /** `dict_to_list`: the written rows in ascending row order, each as its
      values in ascending column order; nothing is padded, so no output row
      is empty. */
  function DictToList(g: Grid): (out: seq<seq<CellValue>>)
    ensures |out| == |RowsOf(g)|
    ensures forall a | 0 <= a < |out| :: |out[a]| == |ColsOf(g, Sorted(RowsOf(g))[a])| > 0
  {
    var rows := Sorted(RowsOf(g));
    WrittenRowsHaveColumns(g);
    seq(|rows|, a requires 0 <= a < |rows| => RowValues(g, rows[a]))
  }

  // ---------------------------------------------------------------------
  // parse_table

  /** The `while` loop that advances `col_i` past written slots. */
  method FreeColumn(g: Grid, r: nat, pos: nat) returns (col: nat)
    ensures col == FirstFree(g, r, pos)
  {
    col := pos;
    while (r, col) in g
      invariant pos <= col
      invariant forall k | pos <= k < col :: (r, k) in g
      decreases set s | s in g.Keys && s.0 == r && s.1 >= col
    {
      FreeSearchShrinks(g, r, col);
      col := col + 1;
    }
    FirstFreeUnique(g, r, pos, col);
  }

  /** `parse_table`: lay the table out into the grid, then read it out with
      `dict_to_list`. */
  method ParseTable(etable: seq<Row>, preferText: bool, urljoin: UrlJoin)
    returns (result: Result<seq<seq<CellValue>>, Exception>)
    ensures result.Err? <==> Layout(etable, preferText, urljoin).Err?
    ensures result.Err? ==> result.error == Layout(etable, preferText, urljoin).error
    ensures result.Ok? ==> result.value == DictToList(Layout(etable, preferText, urljoin).value)
  {
    var dictTable: Grid := map[];
    var rowI: nat := 0;
    while rowI < |etable|
      invariant rowI <= |etable|
      invariant Layout(etable, preferText, urljoin) == LayoutRows(dictTable, etable, rowI, preferText, urljoin)
    {
      var row := etable[rowI];
      var pos: nat := 0;
      ResumeRowStart(dictTable, etable, rowI, preferText, urljoin);
      while pos < |row|
        invariant pos <= |row|
        invariant Layout(etable, preferText, urljoin) == ResumeAt(dictTable, etable, rowI, pos, preferText, urljoin)
      {
        var cell := row[pos];
        var colSpan := SpanValue(cell.colspan);
        if colSpan.Err? {
          ResumeFails(dictTable, etable, rowI, pos, preferText, urljoin);
          return Err(colSpan.error);
        }
        var rowSpan := SpanValue(cell.rowspan);
        if rowSpan.Err? {
          ResumeFails(dictTable, etable, rowI, pos, preferText, urljoin);
          return Err(rowSpan.error);
        }
        var value := Resolve(cell, preferText, urljoin);
        var colI := FreeColumn(dictTable, rowI, pos);
        ResumeStep(dictTable, etable, rowI, pos, preferText, urljoin);
        assert PlaceCell(dictTable, rowI, pos, cell, preferText, urljoin)
            == Ok(Fill(dictTable, rowI, colI, rowSpan.value, colSpan.value, value));
        dictTable := FillRect(dictTable, rowI, colI, rowSpan.value, colSpan.value, value);
        pos := pos + 1;
      }
      ResumeRowEnd(dictTable, etable, rowI, preferText, urljoin);
      rowI := rowI + 1;
    }
    assert Layout(etable, preferText, urljoin) == Ok(dictTable);
    result := Ok(DictToList(dictTable));
  }

  lemma ResumeRowStart(g: Grid, table: seq<Row>, r: nat, preferText: bool, urljoin: UrlJoin)
    requires r < |table|
    ensures LayoutRows(g, table, r, preferText, urljoin) == ResumeAt(g, table, r, 0, preferText, urljoin)
  {
  }

  lemma ResumeRowEnd(g: Grid, table: seq<Row>, r: nat, preferText: bool, urljoin: UrlJoin)
    requires r < |table|
    ensures ResumeAt(g, table, r, |table[r]|, preferText, urljoin) == LayoutRows(g, table, r + 1, preferText, urljoin)
  {
  }

  /** A cell whose span `int()` rejects ends the layout with that error. */
  lemma ResumeFails(g: Grid, table: seq<Row>, r: nat, pos: nat, preferText: bool, urljoin: UrlJoin)
    requires r < |table| && pos < |table[r]|
    requires PlaceCell(g, r, pos, table[r][pos], preferText, urljoin).Err?
    ensures ResumeAt(g, table, r, pos, preferText, urljoin)
         == Err(PlaceCell(g, r, pos, table[r][pos], preferText, urljoin).error)
  {
  }

  /** Placing one cell moves the layout on to the next position. */
  lemma ResumeStep(g: Grid, table: seq<Row>, r: nat, pos: nat, preferText: bool, urljoin: UrlJoin)
    requires r < |table| && pos < |table[r]|
    requires PlaceCell(g, r, pos, table[r][pos], preferText, urljoin).Ok?
    ensures ResumeAt(g, table, r, pos, preferText, urljoin)
         == ResumeAt(PlaceCell(g, r, pos, table[r][pos], preferText, urljoin).value, table, r, pos + 1, preferText, urljoin)
  {
  }

  /** The first free column is the only column with its two defining
      properties. */
  lemma FirstFreeUnique(g: Grid, r: nat, c: nat, col: nat)
    requires c <= col && (r, col) !in g
    requires forall k | c <= k < col :: (r, k) in g
    ensures col == FirstFree(g, r, c)
  {
  }

  // ---------------------------------------------------------------------
  // Properties of the layout

  /** A span of 0 or less makes an empty `range`, so the cell writes
      nothing. */
  lemma NonPositiveSpanWritesNothing(g: Grid, r: nat, pos: nat, cell: Cell, preferText: bool, urljoin: UrlJoin)
    requires SpanValue(cell.colspan).Ok? && SpanValue(cell.rowspan).Ok?
    requires SpanValue(cell.colspan).value <= 0 || SpanValue(cell.rowspan).value <= 0
    ensures PlaceCell(g, r, pos, cell, preferText, urljoin) == Ok(g)
  {
    var c := FirstFree(g, r, pos);
    var g' := Fill(g, r, c, SpanValue(cell.rowspan).value, SpanValue(cell.colspan).value, Resolve(cell, preferText, urljoin));
    FillWrites(g, r, c, SpanValue(cell.rowspan).value, SpanValue(cell.colspan).value, Resolve(cell, preferText, urljoin));
    assert g' == g;
  }

  /** A span attribute `int()` rejects. */
  predicate BadSpan(cell: Cell) {
    cell.colspan.NonNumeric? || cell.rowspan.NonNumeric?
  }

  /** A row fails exactly when one of its remaining cells has a span
      `int()` rejects; otherwise it succeeds. */
  lemma {:induction false} LayoutRowFailsIffBadSpan(g: Grid, r: nat, cells: Row, pos: nat, preferText: bool, urljoin: UrlJoin)
    requires pos <= |cells|
    ensures LayoutRow(g, r, cells, pos, preferText, urljoin).Err?
        <==> exists k :: pos <= k < |cells| && BadSpan(cells[k])
    decreases |cells| - pos
  {
    if pos < |cells| {
      var placed := PlaceCell(g, r, pos, cells[pos], preferText, urljoin);
      PlaceCellFailsIffBadSpan(g, r, pos, cells[pos], preferText, urljoin);
      if placed.Ok? {
        LayoutRowFailsIffBadSpan(placed.value, r, cells, pos + 1, preferText, urljoin);
        assert LayoutRow(g, r, cells, pos, preferText, urljoin) == LayoutRow(placed.value, r, cells, pos + 1, preferText, urljoin);
        assert (exists k :: pos <= k < |cells| && BadSpan(cells[k]))
           <==> (exists k :: pos + 1 <= k < |cells| && BadSpan(cells[k]));
      } else {
        assert LayoutRow(g, r, cells, pos, preferText, urljoin) == Err(placed.error);
        assert pos <= pos < |cells| && BadSpan(cells[pos]);
      }
    }
  }

  /** One cell fails exactly when one of its spans is rejected. */
  lemma PlaceCellFailsIffBadSpan(g: Grid, r: nat, pos: nat, cell: Cell, preferText: bool, urljoin: UrlJoin)
    ensures PlaceCell(g, r, pos, cell, preferText, urljoin).Err? <==> BadSpan(cell)
  {
  }

  /** `parse_table` raises `ValueError` exactly when some cell of the table
      has a `colspan` or `rowspan` that `int()` rejects: such spans are not
      coerced to 1. */
  lemma LayoutFailsIffBadSpan(table: seq<Row>, preferText: bool, urljoin: UrlJoin)
    ensures Layout(table, preferText, urljoin).Err?
        <==> exists i, k :: 0 <= i < |table| && 0 <= k < |table[i]| && BadSpan(table[i][k])
  {
    LayoutRowsFailsIffBadSpan(map[], table, 0, preferText, urljoin);
  }

  lemma {:induction false} LayoutRowsFailsIffBadSpan(g: Grid, table: seq<Row>, r: nat, preferText: bool, urljoin: UrlJoin)
    requires r <= |table|
    ensures LayoutRows(g, table, r, preferText, urljoin).Err?
        <==> exists i, k :: r <= i < |table| && 0 <= k < |table[i]| && BadSpan(table[i][k])
    decreases |table| - r
  {
    if r < |table| {
      var row := LayoutRow(g, r, table[r], 0, preferText, urljoin);
      LayoutRowFailsIffBadSpan(g, r, table[r], 0, preferText, urljoin);
      if row.Ok? {
        LayoutRowsFailsIffBadSpan(row.value, table, r + 1, preferText, urljoin);
        assert LayoutRows(g, table, r, preferText, urljoin) == LayoutRows(row.value, table, r + 1, preferText, urljoin);
      } else {
        assert LayoutRows(g, table, r, preferText, urljoin) == Err(row.error);
      }
    }
  }

  /** Where `dict_to_list` puts a slot: the value of slot (i, j) is in the
      output row numbered by how many written rows lie above row i, at the
      position numbered by how many written slots of row i lie left of
      column j. Together with the shape stated by `DictToList` itself this
      says rows come out in ascending row order, values in ascending column
      order, and only written slots appear. */
  lemma DictToListPlacement(g: Grid, i: nat, j: nat)
    requires (i, j) in g
    ensures var out := DictToList(g);
      var a := Rank(RowsOf(g), i);
      var b := Rank(ColsOf(g, i), j);
      && a < |out| && b < |out[a]|
      && out[a][b] == g[(i, j)]
  {
    var rows := Sorted(RowsOf(g));
    assert i in RowsOf(g);
    var a :| 0 <= a < |rows| && rows[a] == i;
    SortedRank(RowsOf(g), a);
    var cols := Sorted(ColsOf(g, i));
    assert j in ColsOf(g, i);
    var b :| 0 <= b < |cols| && cols[b] == j;
    SortedRank(ColsOf(g, i), b);
    assert DictToList(g)[a] == RowValues(g, i);
  }

  /** A cell without merging: both spans read as 1. */
  predicate UnitSpans(cell: Cell) {
    SpanValue(cell.colspan) == Ok(1) && SpanValue(cell.rowspan) == Ok(1)
  }

  /** The slots of the cells of rows [0, r) and of the first `pos` cells
      of row r, each at its own (row, position). */
  function BeforeSlots(table: seq<Row>, r: nat, pos: nat): set<Slot> {
    set i: nat, j: nat | i <= r && i < |table| && j < |table[i]| && (i < r || j < pos) :: (i, j)
  }

  /** The grid of a table without merged cells after rows [0, r) and the
      first `pos` cells of row r: every cell at its own position. */
  ghost predicate Positional(g: Grid, table: seq<Row>, r: nat, pos: nat, preferText: bool, urljoin: UrlJoin) {
    && g.Keys == BeforeSlots(table, r, pos)
    && (forall s | s in BeforeSlots(table, r, pos) :: g[s] == Resolve(table[s.0][s.1], preferText, urljoin))
  }

  lemma {:induction false} UnmergedRow(g: Grid, table: seq<Row>, r: nat, pos: nat, preferText: bool, urljoin: UrlJoin)
    requires r < |table| && pos <= |table[r]|
    requires forall k | 0 <= k < |table[r]| :: UnitSpans(table[r][k])
    requires Positional(g, table, r, pos, preferText, urljoin)
    ensures LayoutRow(g, r, table[r], pos, preferText, urljoin).Ok?
    ensures Positional(LayoutRow(g, r, table[r], pos, preferText, urljoin).value, table, r + 1, 0, preferText, urljoin)
    decreases |table[r]| - pos
  {
    if pos == |table[r]| {
      PositionalRowEnd(g, table, r, preferText, urljoin);
    } else {
      var g' := UnmergedStep(g, table, r, pos, preferText, urljoin);
      UnmergedRow(g', table, r, pos + 1, preferText, urljoin);
      var rest := LayoutRow(g', r, table[r], pos + 1, preferText, urljoin);
      assert LayoutRow(g, r, table[r], pos, preferText, urljoin) == rest;
    }
  }

  /** One cell of a row without merged cells: it is written at its own
      position, and the rest of the row carries on from there. */
  lemma UnmergedStep(g: Grid, table: seq<Row>, r: nat, pos: nat, preferText: bool, urljoin: UrlJoin) returns (g': Grid)
    requires r < |table| && pos < |table[r]|
    requires UnitSpans(table[r][pos])
    requires Positional(g, table, r, pos, preferText, urljoin)
    ensures LayoutRow(g, r, table[r], pos, preferText, urljoin) == LayoutRow(g', r, table[r], pos + 1, preferText, urljoin)
    ensures Positional(g', table, r, pos + 1, preferText, urljoin)
  {
    var cell := table[r][pos];
    PositionalGrow(g, table, r, pos, preferText, urljoin);
    PlaceUnitCell(g, r, pos, cell, preferText, urljoin);
    g' := g[(r, pos) := Resolve(cell, preferText, urljoin)];
  }

  lemma PositionalRowEnd(g: Grid, table: seq<Row>, r: nat, preferText: bool, urljoin: UrlJoin)
    requires r < |table|
    requires Positional(g, table, r, |table[r]|, preferText, urljoin)
    ensures Positional(g, table, r + 1, 0, preferText, urljoin)
  {
    assert BeforeSlots(table, r, |table[r]|) == BeforeSlots(table, r + 1, 0);
  }

  lemma PositionalGrow(g: Grid, table: seq<Row>, r: nat, pos: nat, preferText: bool, urljoin: UrlJoin)
    requires r < |table| && pos < |table[r]|
    requires Positional(g, table, r, pos, preferText, urljoin)
    ensures (r, pos) !in g
    ensures Positional(g[(r, pos) := Resolve(table[r][pos], preferText, urljoin)], table, r, pos + 1, preferText, urljoin)
  {
    assert BeforeSlots(table, r, pos + 1) == BeforeSlots(table, r, pos) + {(r, pos)};
  }

  /** A cell with unit spans placed at a free slot writes that slot only. */
  lemma PlaceUnitCell(g: Grid, r: nat, pos: nat, cell: Cell, preferText: bool, urljoin: UrlJoin)
    requires UnitSpans(cell) && (r, pos) !in g
    ensures PlaceCell(g, r, pos, cell, preferText, urljoin) == Ok(g[(r, pos) := Resolve(cell, preferText, urljoin)])
  {
    var v := Resolve(cell, preferText, urljoin);
    assert FirstFree(g, r, pos) == pos;
    FillWrites(g, r, pos, 1, 1, v);
    assert Fill(g, r, pos, 1, 1, v) == g[(r, pos) := v];
  }

  lemma {:induction false} UnmergedRows(g: Grid, table: seq<Row>, r: nat, preferText: bool, urljoin: UrlJoin)
    requires r <= |table|
    requires forall i, k | 0 <= i < |table| && 0 <= k < |table[i]| :: UnitSpans(table[i][k])
    requires Positional(g, table, r, 0, preferText, urljoin)
    ensures LayoutRows(g, table, r, preferText, urljoin).Ok?
    ensures Positional(LayoutRows(g, table, r, preferText, urljoin).value, table, |table|, 0, preferText, urljoin)
    decreases |table| - r
  {
    if r < |table| {
      UnmergedRow(g, table, r, 0, preferText, urljoin);
      var g' := LayoutRow(g, r, table[r], 0, preferText, urljoin).value;
      UnmergedRows(g', table, r + 1, preferText, urljoin);
      assert LayoutRows(g, table, r, preferText, urljoin) == LayoutRows(g', table, r + 1, preferText, urljoin);
    }
  }

  /** Without merged cells every cell lands at its own (row, position) slot
      and nothing else is written. */
  lemma UnmergedTableIsPositional(table: seq<Row>, preferText: bool, urljoin: UrlJoin)
    requires forall i, k | 0 <= i < |table| && 0 <= k < |table[i]| :: UnitSpans(table[i][k])
    ensures Layout(table, preferText, urljoin).Ok?
    ensures var g := Layout(table, preferText, urljoin).value;
      && (forall i: nat, j: nat :: (i, j) in g <==> i < |table| && j < |table[i]|)
      && (forall i: nat, j: nat | (i, j) in g :: g[(i, j)] == Resolve(table[i][j], preferText, urljoin))
  {
    UnmergedRows(map[], table, 0, preferText, urljoin);
    var g := Layout(table, preferText, urljoin).value;
    forall i: nat, j: nat ensures (i, j) in g <==> i < |table| && j < |table[i]| {
      assert (i, j) in BeforeSlots(table, |table|, 0) <==> i < |table| && j < |table[i]|;
    }
  }
}
