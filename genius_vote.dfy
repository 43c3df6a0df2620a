/** The artist vote of the Genius scraper (`consensus_artist`): the search
    hits for a name each point at a primary artist, and the artist most hits
    point at is taken as the true one. The search request and the database
    insert are left out; their outcomes are parameters. */
module GeniusVote {
  import opened Wrappers
  import opened Builtins
  import Tools

  /** A hit's `primary_artist` as far as the vote reads it: its `api_path`,
      if it has one. */
  datatype ArtistInfo = ArtistInfo(apiPath: Option<string>)

  /** A search hit: `None` when its `result` or `primary_artist` is missing
      or an empty dict. */
  datatype Hit = Hit(primaryArtist: Option<ArtistInfo>)

  /** The hit names an artist by a non-empty `api_path`. */
  predicate HasArtistPath(h: Hit) {
    h.primaryArtist.Some? && h.primaryArtist.value.apiPath.Some? && h.primaryArtist.value.apiPath.value != ""
  }

  /** The part of the hit's `api_path` after its last `/`. */
  function ArtistId(h: Hit): string {
    if HasArtistPath(h) then LastSegment(h.primaryArtist.value.apiPath.value) else ""
  }

  /** The ids the loop appends to `api_artist_ids`, in hit order. */
  function CollectIds(hits: seq<Hit>): (ids: seq<string>)
    ensures |ids| <= |hits|
  {
    MapSeq(ArtistId, Filter(HasArtistPath, hits))
  }

  /** A collected id is the last `/`-segment of a named hit's path, so it
      holds no `/`. */
  lemma CollectedIdsHaveNoSlash(hits: seq<Hit>)
    ensures forall k | 0 <= k < |CollectIds(hits)| :: '/' !in CollectIds(hits)[k]
  {
    var named := Filter(HasArtistPath, hits);
    var ids := CollectIds(hits);
    forall k | 0 <= k < |ids| ensures '/' !in ids[k] {
      assert ids[k] == ArtistId(named[k]);
      LastSegmentIsSuffix(named[k].primaryArtist.value.apiPath.value);
    }
  }

  /** Every collected id comes from a hit naming an artist, and every such
      hit contributes its id. */
  lemma CollectedIdsAreTheNamedHits(hits: seq<Hit>)
    ensures forall k | 0 <= k < |CollectIds(hits)| ::
      exists i :: 0 <= i < |hits| && HasArtistPath(hits[i]) && CollectIds(hits)[k] == ArtistId(hits[i])
    ensures forall i | 0 <= i < |hits| && HasArtistPath(hits[i]) :: ArtistId(hits[i]) in CollectIds(hits)
  {
    var named := Filter(HasArtistPath, hits);
    var ids := CollectIds(hits);
    assert |ids| == |named|;
    forall k | 0 <= k < |ids|
      ensures exists i :: 0 <= i < |hits| && HasArtistPath(hits[i]) && ids[k] == ArtistId(hits[i])
    {
      assert named[k] in hits && HasArtistPath(named[k]);
      var i :| 0 <= i < |hits| && hits[i] == named[k];
      assert ids[k] == ArtistId(hits[i]);
    }
    forall i | 0 <= i < |hits| && HasArtistPath(hits[i]) ensures ArtistId(hits[i]) in ids {
      assert hits[i] in named;
      var j :| 0 <= j < |named| && named[j] == hits[i];
      assert ids[j] == ArtistId(hits[i]);
    }
  }

  /** `max(counts, key=lambda k: counts[k])`: the position in the dict's
      key order of the first key with the largest count. */
  function FirstMax<T>(keys: seq<T>, counts: map<T, nat>): (k: nat)
    requires keys != []
    requires forall i | 0 <= i < |keys| :: keys[i] in counts
    ensures k < |keys|
    ensures forall j | 0 <= j < |keys| :: counts[keys[j]] <= counts[keys[k]]
    ensures forall j | 0 <= j < k :: counts[keys[j]] < counts[keys[k]]
  {
    if |keys| == 1 then 0
    else
      var best := FirstMax(keys[..|keys| - 1], counts);
      assert keys[..|keys| - 1][best] == keys[best];
      assert forall j | 0 <= j < |keys| - 1 :: keys[..|keys| - 1][j] == keys[j];
      if counts[keys[|keys| - 1]] > counts[keys[best]] then |keys| - 1 else best
  }

  /** Position `i` of `ids` comes before the first occurrence of `id`. */
  predicate PrecedesFirst(ids: seq<string>, i: nat, id: string) {
    forall j | 0 <= j <= i && j < |ids| :: ids[j] != id
  }

  /** The vote's answer: an id occurring most often among the collected
      ids, and of those the one occurring first. */
  predicate IsConsensus(id: string, ids: seq<string>) {
    && id in ids
    && (forall i | 0 <= i < |ids| :: multiset(ids)[ids[i]] <= multiset(ids)[id])
    && (forall i | 0 <= i < |ids| && PrecedesFirst(ids, i, id) :: multiset(ids)[ids[i]] < multiset(ids)[id])
  }

  /** The vote has at most one answer. */
  lemma {:induction false} ConsensusUnique(a: string, b: string, ids: seq<string>)
    requires IsConsensus(a, ids) && IsConsensus(b, ids)
    ensures a == b
  {
    var pa, pb := IndexOf(ids, a), IndexOf(ids, b);
    if pa < pb {
      EarlierAnswerExcludesLater(ids, a, b);
    } else if pb < pa {
      EarlierAnswerExcludesLater(ids, b, a);
    } else {
      SameIndex(ids, a, b);
    }
  }

  lemma SameIndex(ids: seq<string>, a: string, b: string)
    requires a in ids && b in ids && IndexOf(ids, a) == IndexOf(ids, b)
    ensures a == b
  {
  }

  /** Of two ids, the answer cannot be the one first met later. */
  lemma EarlierAnswerExcludesLater(ids: seq<string>, a: string, b: string)
    requires IsConsensus(a, ids) && b in ids
    requires IndexOf(ids, a) < IndexOf(ids, b)
    ensures !IsConsensus(b, ids)
  {
    if IsConsensus(b, ids) {
      EarlierLoses(ids, a, b);
      MaxCount(ids, b, a);
    }
  }

  /** An id first met before the answer's first occurrence has a smaller
      count. */
  lemma EarlierLoses(ids: seq<string>, x: string, id: string)
    requires IsConsensus(id, ids) && x in ids && IndexOf(ids, x) < IndexOf(ids, id)
    ensures multiset(ids)[x] < multiset(ids)[id]
  {
    assert PrecedesFirst(ids, IndexOf(ids, x), id);
  }

  /** No id has a larger count than the answer. */
  lemma MaxCount(ids: seq<string>, x: string, id: string)
    requires IsConsensus(id, ids) && x in ids
    ensures multiset(ids)[x] <= multiset(ids)[id]
  {
    assert ids[IndexOf(ids, x)] == x;
  }

  /** An element met before the first occurrence of `x` gets an earlier
      key than `x` in the dict `counter` builds. */
  lemma {:induction false} FirstAppearancesOrder(l: seq<string>, i: nat, x: string)
    requires i < |l| && x in l && PrecedesFirst(l, i, x)
    ensures exists a, b ::
      (0 <= a < b < |Tools.FirstAppearances(l)| && Tools.FirstAppearances(l)[a] == l[i] && Tools.FirstAppearances(l)[b] == x)
  {
    var init := l[..|l| - 1];
    var e := l[|l| - 1];
    var d := Tools.FirstAppearances(init);
    assert forall j | 0 <= j < |init| :: init[j] == l[j];
    if x in init {
      var p := IndexOf(init, x);
      assert i < p;
      assert PrecedesFirst(init, i, x);
      FirstAppearancesOrder(init, i, x);
      var a, b :| 0 <= a < b < |d| && d[a] == init[i] && d[b] == x;
      assert Tools.FirstAppearances(l)[a] == l[i] && Tools.FirstAppearances(l)[b] == x;
    } else {
      assert x == e;
      assert i < |init|;
      assert e !in d;
      assert init[i] in d;
      var a :| 0 <= a < |d| && d[a] == init[i];
      assert Tools.FirstAppearances(l) == d + [e];
      assert Tools.FirstAppearances(l)[|d|] == x;
    }
  }

  /** Taking the first key with the largest count over the dict `counter`
      builds gives the vote's answer. */
  lemma FirstMaxIsConsensus(ids: seq<string>, keys: seq<string>, counts: map<string, nat>)
    requires ids != [] && keys == Tools.FirstAppearances(ids)
    requires forall i | 0 <= i < |keys| :: keys[i] in counts
    requires forall x | x in counts :: counts[x] == multiset(ids)[x]
    ensures IsConsensus(keys[FirstMax(keys, counts)], ids)
  {
    assert ids[0] in keys;
    var k := FirstMax(keys, counts);
    var id := keys[k];
    forall i | 0 <= i < |ids| ensures multiset(ids)[ids[i]] <= multiset(ids)[id] {
      var j :| 0 <= j < |keys| && keys[j] == ids[i];
    }
    forall i | 0 <= i < |ids| && PrecedesFirst(ids, i, id) ensures multiset(ids)[ids[i]] < multiset(ids)[id] {
      FirstAppearancesOrder(ids, i, id);
      var a, b :| 0 <= a < b < |keys| && keys[a] == ids[i] && keys[b] == id;
      assert b == k;
    }
  }

  /** `consensus_artist` from the search response on: `None` without a
      `hits` key or when no hit names an artist; otherwise the vote's
      answer, returned only when the database insert succeeds
      (`inserted`). */
  method ConsensusArtist(hits: Option<seq<Hit>>, inserted: bool) returns (r: Option<string>)
    ensures hits.None? ==> r.None?
    ensures hits.Some? ==> (r.Some? <==> CollectIds(hits.value) != [] && inserted)
    ensures r.Some? ==> IsConsensus(r.value, CollectIds(hits.value))
  {
    if hits.None? {
      return None;
    }
    var response := hits.value;
    var apiArtistIds: seq<string> := [];
    for i := 0 to |response|
      invariant apiArtistIds == CollectIds(response[..i])
    {
      var hit := response[i];
      assert response[..i + 1] == response[..i] + [hit];
      FilterAppend(HasArtistPath, response[..i], [hit]);
      if HasArtistPath(hit) {
        var artistIdPath := hit.primaryArtist.value.apiPath.value;
        var artistId := LastSegment(artistIdPath);
        apiArtistIds := apiArtistIds + [artistId];
      }
    }
    assert response[..|response|] == response;
    var keys, counts := Tools.Counter(apiArtistIds);
    if counts == map[] {
      return None;
    }
    var k := FirstMax(keys, counts);
    var trueArtist := keys[k];
    FirstMaxIsConsensus(apiArtistIds, keys, counts);
    if inserted {
      return Some(trueArtist);
    }
    return None;
  }
}
