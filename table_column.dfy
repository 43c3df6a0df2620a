/** Column extraction from parsed tables (`get_table_col`): in each table the
    first row holding the attribute name (after lower-casing its cells) is
    the header, and the values under it, the header cell included, are
    gathered into one collection without duplicates. */
module TableColumn {
  import opened Wrappers
  import opened Builtins
  import opened TableLayout

  type Table = seq<seq<CellValue>>

  /** An element of the `items` set: a string, or the frozen set of a list
      cell's links. */
  datatype Item = Scalar(s: string) | Group(members: set<string>)

  /** An element of the returned list: a string, or a list of links. */
  datatype Exported = Str(s: string) | List(links: seq<string>)

  /** The item a cell adds: a text or a single link is a string, a list of
      links becomes the set of its links. */
  function AsItem(v: CellValue): Item {
    match v
    case Text(t) => Scalar(t)
    case Link(u) => Scalar(u)
    case Links(us) => Group(set u | u in us)
  }

  /** The string a text or single-link cell holds. */
  function StrOf(v: CellValue): string {
    match v
    case Text(t) => t
    case Link(u) => u
    case Links(_) => ""
  }

  /** `list(map(str.lower, row))`: every cell lower-cased, or the
      `TypeError` `str.lower` raises on the first list cell. */
  function LowerRow(row: seq<CellValue>): (r: Result<seq<string>, Exception>)
    ensures r.Ok? ==> |r.value| == |row|
  {
    if row == [] then Ok([])
    else
      var init :- LowerRow(row[..|row| - 1]);
      assert forall j | 0 <= j < |row| - 1 :: row[..|row| - 1][j] == row[j];
      match row[|row| - 1]
      case Links(_) => Err(TypeError("descriptor 'lower' for 'str' objects doesn't apply to a 'list' object"))
      case Text(t) => Ok(init + [Lower(t)])
      case Link(u) => Ok(init + [Lower(u)])
  }

  /** Lower-casing a row fails exactly when it holds a list of links;
      otherwise each cell is lower-cased in place. */
  lemma {:induction false} LowerRowCells(row: seq<CellValue>)
    ensures LowerRow(row).Err? <==> exists j :: 0 <= j < |row| && row[j].Links?
    ensures LowerRow(row).Ok? ==> forall j | 0 <= j < |row| ::
      LowerRow(row).value[j] == Lower(StrOf(row[j]))
  {
    if row != [] {
      var init := row[..|row| - 1];
      LowerRowCells(init);
      assert forall j | 0 <= j < |row| - 1 :: init[j] == row[j];
    }
  }

  /** The header search from row `i` on: the first row whose lower-cased
      cells include `attr`, `None` when there is none, or the error of
      lower-casing a row met before it. */
  function FindHeader(table: Table, attr: string, i: nat): (r: Result<Option<nat>, Exception>)
    requires i <= |table|
    ensures r.Ok? && r.value.Some? ==> i <= r.value.value < |table|
    decreases |table| - i
  {
    if i == |table| then Ok(None)
    else
      var lower :- LowerRow(table[i]);
      if attr in lower then Ok(Some(i)) else FindHeader(table, attr, i + 1)
  }

  /** The items of column `k` in rows [h, upto) that are long enough. */
  function ColumnItems(table: Table, h: nat, k: nat, upto: nat): set<Item>
    requires upto <= |table|
  {
    set i | h <= i < upto && k < |table[i]| :: AsItem(table[i][k])
  }

  /** What one table adds to `items`. */
  function TableItems(table: Table, attr: string): Result<set<Item>, Exception> {
    if table == [] then Ok({})
    else
      var header :- FindHeader(table, attr, 0);
      if header.None? then Ok({})
      else
        var h := header.value;
        assert LowerRow(table[h]).Ok? && attr in LowerRow(table[h]).value by {
          HeaderIsFound(table, attr, 0);
        }
        Ok(ColumnItems(table, h, IndexOf(LowerRow(table[h]).value, attr), |table|))
  }

  /** The header search finds a row whose lower-cased cells hold `attr`,
      and every row before it from `i` on lower-cases without error and
      does not hold it. */
  lemma {:induction false} HeaderIsFound(table: Table, attr: string, i: nat)
    requires i <= |table|
    requires FindHeader(table, attr, i).Ok? && FindHeader(table, attr, i).value.Some?
    ensures var h := FindHeader(table, attr, i).value.value;
      && i <= h < |table|
      && LowerRow(table[h]).Ok? && attr in LowerRow(table[h]).value
      && forall j | i <= j < h :: LowerRow(table[j]).Ok? && attr !in LowerRow(table[j]).value
    decreases |table| - i
  {
    if LowerRow(table[i]).Ok? && attr !in LowerRow(table[i]).value {
      assert FindHeader(table, attr, i) == FindHeader(table, attr, i + 1);
      HeaderIsFound(table, attr, i + 1);
    } else {
      assert FindHeader(table, attr, i) == Ok(Some(i));
    }
  }

  /** Without a header every row from `i` on lower-cases without error
      and none holds `attr`. */
  lemma {:induction false} HeaderIsMissing(table: Table, attr: string, i: nat)
    requires i <= |table|
    requires FindHeader(table, attr, i) == Ok(None)
    ensures forall j | i <= j < |table| :: LowerRow(table[j]).Ok? && attr !in LowerRow(table[j]).value
    decreases |table| - i
  {
    if i < |table| {
      assert FindHeader(table, attr, i) == FindHeader(table, attr, i + 1);
      HeaderIsMissing(table, attr, i + 1);
    }
  }

  /** The search fails only on a row with a list cell. */
  lemma {:induction false} HeaderSearchFails(table: Table, attr: string, i: nat)
    requires i <= |table|
    requires FindHeader(table, attr, i).Err?
    ensures exists j, c :: i <= j < |table| && 0 <= c < |table[j]| && table[j][c].Links?
    decreases |table| - i
  {
    if LowerRow(table[i]).Ok? {
      assert FindHeader(table, attr, i) == FindHeader(table, attr, i + 1);
      HeaderSearchFails(table, attr, i + 1);
    } else {
      LowerRowCells(table[i]);
    }
  }

  /** The items of the tables from `t` on, added to `acc`. */
  function CollectFrom(tables: seq<Table>, attr: string, t: nat, acc: set<Item>): Result<set<Item>, Exception>
    requires t <= |tables|
    decreases |tables| - t
  {
    if t == |tables| then Ok(acc)
    else
      var here :- TableItems(tables[t], attr);
      CollectFrom(tables, attr, t + 1, acc + here)
  }

  /** The `items` set after all tables, or the first error raised. */
  function AllItems(tables: seq<Table>, attr: string): Result<set<Item>, Exception> {
    CollectFrom(tables, attr, 0, {})
  }

  /** `e` is how `final_list` renders item `it`: a string as itself, a
      frozen set as a list of exactly its links, each once. */
  ghost predicate Exports(it: Item, e: Exported) {
    match it
    case Scalar(s) => e == Str(s)
    case Group(m) => e.List? && Distinct(e.links) && forall x :: x in e.links <==> x in m
  }

  /** Different items are rendered differently. */
  lemma ExportsInjective(a: Item, b: Item, e: Exported)
    requires Exports(a, e) && Exports(b, e)
    ensures a == b
  {
    if a.Group? && b.Group? {
      assert forall x :: x in a.members <==> x in b.members;
    }
  }

  /** The header cell itself is among the items of its table. */
  lemma HeaderCellCollected(table: Table, attr: string, h: nat)
    requires table != [] && FindHeader(table, attr, 0) == Ok(Some(h))
    ensures h < |table|
    ensures exists k :: (0 <= k < |table[h]| && Lower(StrOf(table[h][k])) == attr
      && TableItems(table, attr).Ok? && AsItem(table[h][k]) in TableItems(table, attr).value)
  {
    HeaderIsFound(table, attr, 0);
    var lower := LowerRow(table[h]).value;
    var k := IndexOf(lower, attr);
    LowerRowCells(table[h]);
    assert AsItem(table[h][k]) in ColumnItems(table, h, k, |table|);
  }

  /** `attr` is compared with lower-cased cells but not lower-cased itself:
      an attribute with an upper-case letter never finds a header. */
  lemma UpperCaseAttrNeverMatches(table: Table, attr: string, c: nat)
    requires c < |attr| && IsUpper(attr[c])
    ensures TableItems(table, attr).Ok? ==> TableItems(table, attr).value == {}
  {
    var r := FindHeader(table, attr, 0);
    if table != [] && r.Ok? && r.value.Some? {
      HeaderIsFound(table, attr, 0);
      var lower := LowerRow(table[r.value.value]).value;
      var k := IndexOf(lower, attr);
      LowerRowCells(table[r.value.value]);
      LowerHasNoUpper(StrOf(table[r.value.value][k]));
      assert false;
    }
  }

  /** `get_table_col`: the distinct values of the attribute's column over
      all tables, in the `items` set's iteration order; the first error
      raised while lower-casing a row before a header is the outcome
      instead. */
  method GetTableCol(tables: seq<Table>, attr: string) returns (r: Result<seq<Exported>, Exception>)
    ensures r.Err? <==> AllItems(tables, attr).Err?
    ensures r.Err? ==> r.error == AllItems(tables, attr).error
    ensures r.Ok? ==> |r.value| == |AllItems(tables, attr).value| && Distinct(r.value)
    ensures r.Ok? ==> forall e | e in r.value :: exists it :: it in AllItems(tables, attr).value && Exports(it, e)
    ensures r.Ok? ==> forall it | it in AllItems(tables, attr).value :: exists e :: e in r.value && Exports(it, e)
  {
    var items: set<Item> := {};
    for t := 0 to |tables|
      invariant AllItems(tables, attr) == CollectFrom(tables, attr, t, items)
    {
      var here := AddTableItems(tables[t], attr, items);
      if here.Err? {
        return Err(here.error);
      }
      items := here.value;
    }
    var finalList := ExportItems(items);
    return Ok(finalList);
  }

  /** The body of the loop over tables: `items` grown by the table's
      column, or the error the header search raised. */
  method AddTableItems(table: Table, attr: string, items: set<Item>) returns (r: Result<set<Item>, Exception>)
    ensures TableItems(table, attr).Err? ==> r == Err(TableItems(table, attr).error)
    ensures TableItems(table, attr).Ok? ==> r == Ok(items + TableItems(table, attr).value)
  {
    assert items + {} == items;
    if table == [] {
      return Ok(items);
    }
    var found := FindTableHeader(table, attr);
    if found.Err? {
      return Err(found.error);
    }
    if found.value.None? {
      return Ok(items);
    }
    var index := found.value.value;
    HeaderIsFound(table, attr, 0);
    var attrIndex := IndexOf(LowerRow(table[index]).value, attr);
    var grown := CollectColumn(table, index, attrIndex, items);
    assert TableItems(table, attr) == Ok(ColumnItems(table, index, attrIndex, |table|));
    return Ok(grown);
  }

  /** The loop over `table[index:]`: the cell under the header of every
      row long enough is added to `items`. */
  method CollectColumn(table: Table, index: nat, attrIndex: nat, items: set<Item>) returns (grown: set<Item>)
    requires index <= |table|
    ensures grown == items + ColumnItems(table, index, attrIndex, |table|)
  {
    grown := items;
    for i := index to |table|
      invariant grown == items + ColumnItems(table, index, attrIndex, i)
    {
      var row := table[i];
      if attrIndex >= |row| {
        assert ColumnItems(table, index, attrIndex, i + 1) == ColumnItems(table, index, attrIndex, i);
        continue;
      }
      grown := grown + {AsItem(row[attrIndex])};
      assert ColumnItems(table, index, attrIndex, i + 1) == ColumnItems(table, index, attrIndex, i) + {AsItem(row[attrIndex])};
    }
    assert ColumnItems(table, index, attrIndex, index) == {};
  }

  /** The header-row search with its `break`: the outcome of `FindHeader`
      from the first row. */
  method FindTableHeader(table: Table, attr: string) returns (r: Result<Option<nat>, Exception>)
    ensures r == FindHeader(table, attr, 0)
  {
    var i := 0;
    while i < |table|
      invariant i <= |table|
      invariant FindHeader(table, attr, 0) == FindHeader(table, attr, i)
    {
      var lower := LowerRow(table[i]);
      if lower.Err? {
        return Err(lower.error);
      }
      if attr in lower.value {
        return Ok(Some(i));
      }
      i := i + 1;
    }
    return Ok(None);
  }

  /** The final loop over `items`: each item once, in the set's iteration
      order, a frozen set turned into a list. */
  method ExportItems(items: set<Item>) returns (finalList: seq<Exported>)
    ensures |finalList| == |items| && Distinct(finalList)
    ensures forall e | e in finalList :: exists it :: it in items && Exports(it, e)
    ensures forall it | it in items :: exists e :: e in finalList && Exports(it, e)
  {
    finalList := [];
    ghost var order: seq<Item> := [];
    var remaining := items;
    while remaining != {}
      invariant remaining <= items
      invariant |order| == |finalList| && Distinct(order)
      invariant forall i | 0 <= i < |order| :: Exports(order[i], finalList[i])
      invariant forall i | 0 <= i < |order| :: order[i] in items && order[i] !in remaining
      invariant forall it | it in items && it !in remaining :: it in order
      invariant |order| + |remaining| == |items|
      decreases |remaining|
    {
      var it :| it in remaining;
      var e := Export(it);
      order := order + [it];
      finalList := finalList + [e];
      remaining := remaining - {it};
    }
    RenderingFacts(items, order, finalList);
  }

  /** A list rendering each item of a duplicate-free ordering of `items`,
      position by position, renders every item once. */
  lemma RenderingFacts(items: set<Item>, order: seq<Item>, finalList: seq<Exported>)
    requires |order| == |finalList| && Distinct(order)
    requires forall i | 0 <= i < |order| :: Exports(order[i], finalList[i])
    requires forall i | 0 <= i < |order| :: order[i] in items
    requires forall it | it in items :: it in order
    ensures |finalList| == |items| && Distinct(finalList)
    ensures forall e | e in finalList :: exists it :: it in items && Exports(it, e)
    ensures forall it | it in items :: exists e :: e in finalList && Exports(it, e)
  {
    DistinctCard(order, items);
    RenderingDistinct(order, finalList);
    RenderingSound(items, order, finalList);
    RenderingComplete(items, order, finalList);
  }

  lemma RenderingSound(items: set<Item>, order: seq<Item>, finalList: seq<Exported>)
    requires |order| == |finalList|
    requires forall i | 0 <= i < |order| :: Exports(order[i], finalList[i])
    requires forall i | 0 <= i < |order| :: order[i] in items
    ensures forall e | e in finalList :: exists it :: it in items && Exports(it, e)
  {
    forall e | e in finalList ensures exists it :: it in items && Exports(it, e) {
      var i :| 0 <= i < |finalList| && finalList[i] == e;
      assert order[i] in items && Exports(order[i], e);
    }
  }

  lemma RenderingComplete(items: set<Item>, order: seq<Item>, finalList: seq<Exported>)
    requires |order| == |finalList|
    requires forall i | 0 <= i < |order| :: Exports(order[i], finalList[i])
    requires forall it | it in items :: it in order
    ensures forall it | it in items :: exists e :: e in finalList && Exports(it, e)
  {
    forall it | it in items ensures exists e :: e in finalList && Exports(it, e) {
      var i :| 0 <= i < |order| && order[i] == it;
      assert finalList[i] in finalList && Exports(it, finalList[i]);
    }
  }

  /** Rendering a duplicate-free ordering position by position gives a
      duplicate-free list. */
  lemma RenderingDistinct(order: seq<Item>, finalList: seq<Exported>)
    requires |order| == |finalList| && Distinct(order)
    requires forall i | 0 <= i < |order| :: Exports(order[i], finalList[i])
    ensures Distinct(finalList)
  {
    forall i, j | 0 <= i < j < |finalList| ensures finalList[i] != finalList[j] {
      if finalList[i] == finalList[j] {
        ExportsInjective(order[i], order[j], finalList[i]);
      }
    }
  }

  /** A duplicate-free sequence of exactly the elements of a set is as long
      as the set is large. */
  lemma {:induction false} DistinctCard(order: seq<Item>, items: set<Item>)
    requires Distinct(order)
    requires forall i | 0 <= i < |order| :: order[i] in items
    requires forall it | it in items :: it in order
    ensures |order| == |items|
  {
    if order == [] {
      assert items == {};
    } else {
      var last := order[|order| - 1];
      var init := order[..|order| - 1];
      assert forall i | 0 <= i < |init| :: init[i] == order[i];
      forall it | it in items - {last} ensures it in init {
        var i :| 0 <= i < |order| && order[i] == it;
        assert i < |order| - 1;
      }
      DistinctCard(init, items - {last});
    }
  }

  /** How one item is appended to `final_list`. */
  method Export(it: Item) returns (e: Exported)
    ensures Exports(it, e)
  {
    if it.Group? {
      var links := SetToList(it.members);
      e := List(links);
    } else {
      e := Str(it.s);
    }
  }
}
