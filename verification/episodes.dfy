/** The episode lookup's response filter (`iTunesAPI.get_episodes`). */
module Episodes {
  import opened Wrappers
  import opened Seqs

  /** The `kind` of an episode entry; the podcast's own entry has another kind. */
  const EpisodeKind: string := "podcast-episode"

  /** One entry of a lookup response, with the fields the helper reads.
      A field missing from the JSON object is `None`. */
  datatype Entry = Entry(
    kind: Option<string>,
    trackName: Option<string>,
    collectionName: Option<string>,
    episodeUrl: Option<string>)

  predicate IsEpisode(e: Entry) {
    e.kind == Some(EpisodeKind)
  }

  /** The entries of a lookup response that are episodes, in response order. */
  function GetEpisodes(results: seq<Entry>): (episodes: seq<Entry>)
    ensures |episodes| <= |results|
    ensures forall i :: 0 <= i < |episodes| ==> episodes[i].kind == Some(EpisodeKind)
    ensures forall e :: e in episodes <==> e in results && IsEpisode(e)
    ensures forall e :: multiset(episodes)[e] == if IsEpisode(e) then multiset(results)[e] else 0
    ensures IsSubsequence(episodes, results)
  {
    FilterCounts(IsEpisode, results);
    Filter(IsEpisode, results)
  }

  /** Filtering an already filtered list changes nothing. */
  lemma GetEpisodesIdempotent(results: seq<Entry>)
    ensures GetEpisodes(GetEpisodes(results)) == GetEpisodes(results)
  {
    FilterKeepsAll(IsEpisode, GetEpisodes(results));
  }
}
