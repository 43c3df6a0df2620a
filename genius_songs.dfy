/** The song-id collection of the Genius scraper (`get_songs`): the artist's
    song list is read page by page, each hit contributing a song id, until a
    page names no next page. The request for one page is a parameter, and so
    is the outcome of the database update that follows. */
module GeniusSongs {
  import opened Wrappers
  import opened Builtins

  /** A song hit: its `id` and its `api_path`, each possibly missing. */
  datatype SongHit = SongHit(id: Option<int>, apiPath: Option<string>)

  /** One page of the artist's songs: its hits and its `next_page`. */
  datatype SongsPage = SongsPage(songs: seq<SongHit>, nextPage: Option<int>)

  /** `get_artist_songs(artist_id, str(page))`, left uninterpreted. */
  type SongsApi = int -> SongsPage

  /** `while next_page`: a missing next page and page 0 stop the loop. */
  predicate Truthy(next: Option<int>) {
    next.Some? && next.value != 0
  }

  /** The id one hit contributes: its `id` when present, otherwise the
      last `/`-segment of its `api_path` read as an integer when that
      segment is all digits, otherwise nothing. */
  function SongIdOf(hit: SongHit): (r: Option<int>)
    ensures hit.id.Some? ==> r == hit.id
    ensures hit.id.None? && hit.apiPath.None? ==> r.None?
    ensures hit.id.None? && hit.apiPath.Some? ==>
      (r.Some? <==> IsDigits(LastSegment(hit.apiPath.value)))
    ensures r.Some? ==> hit.id.Some? || r.value >= 0
  {
    if hit.id.Some? then hit.id
    else if hit.apiPath.None? then None
    else
      var songId := LastSegment(hit.apiPath.value);
      if IsDigits(songId) then Some(DecimalValue(songId)) else None
  }

  /** A path ending in the decimal text of a number yields that number. */
  lemma SongIdFromPath(prefix: string, n: nat)
    ensures SongIdOf(SongHit(None, Some(prefix + "/" + DecimalString(n)))) == Some(n)
  {
    var digits := DecimalString(n);
    DecimalRoundTrip(n);
    assert '/' !in digits by {
      assert forall i | 0 <= i < |digits| :: IsDigit(digits[i]);
    }
    LastSegmentAfterSlash(prefix, digits);
  }

  /** The last segment of `p + "/" + t` is `t` when `t` holds no `/`. */
  lemma LastSegmentAfterSlash(p: string, t: string)
    requires '/' !in t
    ensures LastSegment(p + "/" + t) == t
  {
    var s := p + "/" + t;
    LastSegmentIsSuffix(s);
    assert s[|p|] == '/';
    assert s[|s| - |t|..] == t;
  }

  /** The ids of the hits of one page, gathered hit by hit. */
  function PageIds(songs: seq<SongHit>): set<int> {
    if songs == [] then {}
    else
      var rest := PageIds(songs[..|songs| - 1]);
      var last := SongIdOf(songs[|songs| - 1]);
      if last.Some? then rest + {last.value} else rest
  }

  /** The ids of a page are exactly the ids its hits give. */
  lemma {:induction false} PageIdsAreTheHitIds(songs: seq<SongHit>)
    ensures forall i | 0 <= i < |songs| && SongIdOf(songs[i]).Some? :: SongIdOf(songs[i]).value in PageIds(songs)
    ensures forall x | x in PageIds(songs) :: exists i :: 0 <= i < |songs| && SongIdOf(songs[i]) == Some(x)
  {
    if songs != [] {
      var init := songs[..|songs| - 1];
      PageIdsAreTheHitIds(init);
      assert forall i | 0 <= i < |songs| - 1 :: init[i] == songs[i];
    }
  }

  /** The page chain starting at `page` reaches a page with no songs or
      with no next page within `n` requests. */
  ghost predicate EndsWithin(api: SongsApi, page: int, n: nat)
    decreases n
  {
    n > 0 &&
    var p := api(page);
    p.songs == [] || !Truthy(p.nextPage) || EndsWithin(api, p.nextPage.value, n - 1)
  }

  /** The ids the pages from `page` on contribute, or `None` when one of
      them has no songs. */
  ghost function SongsFrom(api: SongsApi, page: int, n: nat): Option<set<int>>
    requires EndsWithin(api, page, n)
    decreases n
  {
    var p := api(page);
    if p.songs == [] then None
    else if !Truthy(p.nextPage) then Some(PageIds(p.songs))
    else
      Prepend(PageIds(p.songs), SongsFrom(api, p.nextPage.value, n - 1))
  }

  /** The ids of earlier pages joined to those of later ones, unless a
      later page aborted. */
  function Prepend(earlier: set<int>, later: Option<set<int>>): Option<set<int>> {
    if later.None? then None else Some(earlier + later.value)
  }

  /** The `k`-th page of the chain is reached and has no songs. */
  predicate AbortsAt(api: SongsApi, page: int, k: nat) {
    ChainContinues(api, page, k) && PageAfter(api, page, k).songs == []
  }

  /** A page with no songs discards whatever the earlier pages yielded:
      the outcome is `None` exactly when the chain reaches an empty page. */
  lemma {:induction false} EmptyPageAborts(api: SongsApi, page: int, n: nat)
    requires EndsWithin(api, page, n)
    ensures SongsFrom(api, page, n).None? <==> exists k: nat :: k < n && AbortsAt(api, page, k)
    decreases n
  {
    var p := api(page);
    if p.songs == [] {
      assert AbortsAt(api, page, 0);
    } else if !Truthy(p.nextPage) {
      forall k: nat | k < n ensures !AbortsAt(api, page, k) {
        if k > 0 {
          assert !ChainContinues(api, page, k);
        }
      }
    } else {
      var next := p.nextPage.value;
      EmptyPageAborts(api, next, n - 1);
      if SongsFrom(api, next, n - 1).None? {
        var k: nat :| k < n - 1 && AbortsAt(api, next, k);
        ChainShift(api, page, k);
        assert AbortsAt(api, page, k + 1);
      } else {
        forall k: nat | k < n ensures !AbortsAt(api, page, k) {
          if k > 0 {
            ChainShift(api, page, k - 1);
            assert !AbortsAt(api, next, k - 1);
          }
        }
      }
    }
  }

  /** One turn of the `while next_page` loop: the ids gathered so far grow
      by the page's ids, and the outcome moves on to the next page. */
  lemma PageStep(api: SongsApi, page: int, n: nat, ids: set<int>)
    requires EndsWithin(api, page, n) && api(page).songs != []
    ensures var p := api(page);
      Prepend(ids, SongsFrom(api, page, n)) ==
        if Truthy(p.nextPage) then Prepend(ids + PageIds(p.songs), SongsFrom(api, p.nextPage.value, n - 1))
        else Some(ids + PageIds(p.songs))
  {
    var p := api(page);
    if Truthy(p.nextPage) {
      var later := SongsFrom(api, p.nextPage.value, n - 1);
      if later.Some? {
        assert ids + (PageIds(p.songs) + later.value) == ids + PageIds(p.songs) + later.value;
      }
    }
  }

  /** The page reached from `page` after following `k` next-page links
      (`page` itself when a link is missing). */
  function PageAfter(api: SongsApi, page: int, k: nat): SongsPage
    decreases k
  {
    if k == 0 then api(page)
    else
      var p := api(page);
      if Truthy(p.nextPage) then PageAfter(api, p.nextPage.value, k - 1) else p
  }

  /** The first `k` pages of the chain all had songs and a next page. */
  predicate ChainContinues(api: SongsApi, page: int, k: nat)
    decreases k
  {
    k == 0 ||
    var p := api(page);
    p.songs != [] && Truthy(p.nextPage) && ChainContinues(api, p.nextPage.value, k - 1)
  }

  lemma ChainShift(api: SongsApi, page: int, k: nat)
    requires api(page).songs != [] && Truthy(api(page).nextPage)
    ensures PageAfter(api, page, k + 1) == PageAfter(api, api(page).nextPage.value, k)
    ensures ChainContinues(api, page, k + 1) == ChainContinues(api, api(page).nextPage.value, k)
  {
  }

  /** The `for hit in hits` loop: each hit's id, when it gives one, joins
      the set. */
  method AddPageIds(songIds: set<int>, hits: seq<SongHit>) returns (grown: set<int>)
    ensures grown == songIds + PageIds(hits)
  {
    grown := songIds;
    for i := 0 to |hits|
      invariant grown == songIds + PageIds(hits[..i])
    {
      assert hits[..i + 1][..i] == hits[..i];
      var songId := SongIdOf(hits[i]);
      if songId.Some? {
        grown := grown + {songId.value};
      }
    }
    assert hits[..|hits|] == hits;
  }

  /** `get_songs` on the page chain: the set of ids the hits contribute,
      as a list, or `None` when some page has no songs or the database
      update fails (`updated`). The loop runs while `next_page` is truthy;
      `bound` is a number of requests within which the chain ends. */
  method GetSongs(api: SongsApi, ghost bound: nat, updated: bool) returns (r: Option<seq<int>>)
    requires EndsWithin(api, 1, bound)
    ensures r.Some? <==> SongsFrom(api, 1, bound).Some? && updated
    ensures r.Some? ==> Distinct(r.value)
    ensures r.Some? ==> forall x :: x in r.value <==> x in SongsFrom(api, 1, bound).value
  {
    var nextPage: Option<int> := Some(1);
    var songIds: set<int> := {};
    if SongsFrom(api, 1, bound).Some? {
      assert {} + SongsFrom(api, 1, bound).value == SongsFrom(api, 1, bound).value;
    }
    ghost var n := bound;
    while Truthy(nextPage)
      invariant Truthy(nextPage) ==> EndsWithin(api, nextPage.value, n)
      invariant Truthy(nextPage) ==> SongsFrom(api, 1, bound) == Prepend(songIds, SongsFrom(api, nextPage.value, n))
      invariant !Truthy(nextPage) ==> SongsFrom(api, 1, bound) == Some(songIds)
      decreases n
    {
      var response := api(nextPage.value);
      var hits := response.songs;
      if hits == [] {
        return None;
      }
      ghost var earlier := songIds;
      songIds := AddPageIds(songIds, hits);
      PageStep(api, nextPage.value, n, earlier);
      nextPage := response.nextPage;
      n := n - 1;
    }
    var list := SetToList(songIds);
    if updated {
      return Some(list);
    }
    return None;
  }
}
