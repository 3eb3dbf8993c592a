/** The best-effort enrichment of the movie page from the external movie
    database: the poster and backdrop image URLs and the first YouTube trailer
    or teaser, taken from an already decoded details payload. The two outbound
    calls are parameters: each either failed (any exception) or returned a value. */
module Tmdb {
  import opened Basics

  /** One entry of the payload's `videos.results`; a missing field reads as "". */
  datatype Video = Video(site: string, key: string, kind: string)

  /** The fields of the details payload the page uses; a missing or null path reads as "". */
  datatype Details = Details(posterPath: string, backdropPath: string, videos: seq<Video>)

  /** An outbound call: it raised, or it returned a decoded payload. */
  datatype Fetch<T> = Failed | Fetched(value: T)

  /** What the page receives: the raw details (`{}` when absent) and three URLs. */
  datatype Enrichment = Enrichment(details: Option<Details>, posterUrl: string, backdropUrl: string, trailerUrl: string)

  const NoEnrichment: Enrichment := Enrichment(None, "", "", "")

  const WatchUrlPrefix: string := "https://www.youtube.com/watch?v="
  const PosterUrlPrefix: string := "https://image.tmdb.org/t/p/w500"
  const BackdropUrlPrefix: string := "https://image.tmdb.org/t/p/w1280"

  /** A YouTube trailer or teaser with a key. */
  predicate IsTrailer(v: Video)
  {
    v.site == "YouTube" && v.key != "" && (v.kind == "Trailer" || v.kind == "Teaser")
  }

  /** Video `i` is a trailer and no earlier video is. */
  ghost predicate FirstTrailerAt(videos: seq<Video>, i: int)
  {
    0 <= i < |videos| && IsTrailer(videos[i]) && forall j :: 0 <= j < i ==> !IsTrailer(videos[j])
  }

  /** The watch URL of the first trailer, or "" when no video qualifies. */
  function TrailerUrl(videos: seq<Video>): (url: string)
    ensures url == "" <==> forall v :: v in videos ==> !IsTrailer(v)
    ensures url != "" ==> exists i :: FirstTrailerAt(videos, i) && url == WatchUrlPrefix + videos[i].key
  {
    if videos == [] then ""
    else if IsTrailer(videos[0]) then
      assert FirstTrailerAt(videos, 0);
      WatchUrlPrefix + videos[0].key
    else
      var url := TrailerUrl(videos[1..]);
      assert url != "" ==> exists i :: FirstTrailerAt(videos, i) && url == WatchUrlPrefix + videos[i].key by {
        if url != "" {
          var i :| FirstTrailerAt(videos[1..], i) && url == WatchUrlPrefix + videos[1..][i].key;
          assert FirstTrailerAt(videos, i + 1);
        }
      }
      url
  }

  /** The trailer loop: scan the videos in order and stop at the first trailer. */
  method FindTrailer(videos: seq<Video>) returns (url: string)
    ensures url == TrailerUrl(videos)
  {
    url := "";
    for i := 0 to |videos|
      invariant url == ""
      invariant TrailerUrl(videos[i..]) == TrailerUrl(videos)
    {
      assert videos[i..][1..] == videos[i + 1..];
      if IsTrailer(videos[i]) {
        url := WatchUrlPrefix + videos[i].key;
        break;
      }
    }
  }

  /** The lookup found a movie: a key is configured, the movie has a title,
      the search call returned a first result with an id, and the details call
      for that id returned. */
  predicate Matched(apiKey: string, title: string, search: Fetch<seq<int>>, lookup: int -> Fetch<Details>)
  {
    && apiKey != "" && title != ""
    && search.Fetched? && |search.value| > 0 && search.value[0] != 0
    && lookup(search.value[0]).Fetched?
  }

  /** The enrichment step of `movie_detail`. `search` holds the ids of the
      search results (0 for a missing id); `lookup` answers the details call
      for an id. Without a match, whether for want of a key, a title or a
      result, or because a call failed, every field is empty. With a match the
      page gets the details, an image URL for each non-empty path, and the
      first trailer's URL. */
  method MovieEnrichment(apiKey: string, title: string, search: Fetch<seq<int>>, lookup: int -> Fetch<Details>)
    returns (e: Enrichment)
    ensures e.details.Some? <==> Matched(apiKey, title, search, lookup)
    ensures e.details.None? ==> e == NoEnrichment
    ensures e.details.Some? ==> e.details.value == lookup(search.value[0]).value
    ensures e.posterUrl != "" <==> e.details.Some? && e.details.value.posterPath != ""
    ensures e.posterUrl != "" ==> e.posterUrl == PosterUrlPrefix + e.details.value.posterPath
    ensures e.backdropUrl != "" <==> e.details.Some? && e.details.value.backdropPath != ""
    ensures e.backdropUrl != "" ==> e.backdropUrl == BackdropUrlPrefix + e.details.value.backdropPath
    ensures e.details.Some? ==> e.trailerUrl == TrailerUrl(e.details.value.videos)
  {
    e := NoEnrichment;
    if apiKey != "" && title != "" && search.Fetched? {
      var hits := search.value;
      if |hits| > 0 && hits[0] != 0 {
        var answer := lookup(hits[0]);
        if answer.Fetched? {
          var d := answer.value;
          var poster := if d.posterPath != "" then PosterUrlPrefix + d.posterPath else "";
          var backdrop := if d.backdropPath != "" then BackdropUrlPrefix + d.backdropPath else "";
          var trailer := FindTrailer(d.videos);
          e := Enrichment(Some(d), poster, backdrop, trailer);
        }
      }
    }
  }
}
