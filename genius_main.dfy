/** The name filter of the Genius scraper's `main`: every distinct artist
    name of the scraped list is put on the work queue once, unless its
    lower-case form contains `artist`. Reading the list from its file, the
    worker processes and the end-of-work markers are left out. */
module GeniusMain {
  import opened Builtins
  import opened Wrappers
  import TableColumn

  /** A name is enqueued unless `artist` occurs in its lower-case form. */
  predicate Eligible(name: string) {
    !Contains(Lower(name), "artist")
  }

  /** The loop over `set(all_artists)`: the queue receives each eligible
      name exactly once, in the set's iteration order, and nothing else. */
  method EnqueueArtists(allArtists: seq<string>) returns (queue: seq<string>)
    ensures Distinct(queue)
    ensures forall x :: x in queue <==> x in allArtists && Eligible(x)
  {
    queue := [];
    var rest := set a | a in allArtists;
    while rest != {}
      invariant forall x | x in queue :: x in allArtists && Eligible(x) && x !in rest
      invariant forall x | x in allArtists && Eligible(x) :: x in queue || x in rest
      invariant forall x | x in rest :: x in allArtists
      invariant Distinct(queue)
      decreases |rest|
    {
      var artist :| artist in rest;
      if !Contains(Lower(artist), "artist") {
        queue := queue + [artist];
      }
      rest := rest - {artist};
    }
  }

  /** The header cell `get_table_col` collects from a column found under
      `artist` is a name the filter drops. */
  lemma CollectedHeaderIsFiltered(table: TableColumn.Table, h: nat)
    requires table != [] && TableColumn.FindHeader(table, "artist", 0) == Ok(Some(h))
    ensures TableColumn.TableItems(table, "artist").Ok?
    ensures exists name ::
      (TableColumn.Scalar(name) in TableColumn.TableItems(table, "artist").value && !Eligible(name))
  {
    TableColumn.HeaderIsFound(table, "artist", 0);
    TableColumn.HeaderCellCollected(table, "artist", h);
    var k :| 0 <= k < |table[h]| && Lower(TableColumn.StrOf(table[h][k])) == "artist"
      && TableColumn.AsItem(table[h][k]) in TableColumn.TableItems(table, "artist").value;
    var name := TableColumn.StrOf(table[h][k]);
    TableColumn.LowerRowCells(table[h]);
    assert !table[h][k].Links?;
    assert TableColumn.AsItem(table[h][k]) == TableColumn.Scalar(name);
    assert OccursAt(Lower(name), "artist", 0);
  }
}
