/** The read-only views: the home page's slices, search, the season grouping
    of a show's episodes and the neighbours of an episode. Each query runs over
    a catalog table held in the table's default order. */
module Browse {
  import opened Basics
  import opened Models
  import opened Http

  /** A queryset slice `[:n]`. */
  function Take<T>(xs: seq<T>, n: nat): seq<T>
  {
    if |xs| <= n then xs else xs[..n]
  }

  // ---------------------------------------------------------------------------
  // home

  const FeaturedLimit: nat := 6
  const GenreLimit: nat := 8
  const RecentLimit: nat := 12

  predicate IsFeaturedMovie(m: Movie) { m.featured }

  predicate IsFeaturedShow(s: TVShow) { s.featured }

  /** The profile has a watchlist row for the item. */
  predicate Listed(rows: seq<ProfileWatchlist>, profile: int, item: ContentRef)
  {
    exists r :: r in rows && r.profile == profile && r.item == item
  }

  datatype HomeContext = HomeContext(
    featuredMovies: seq<Movie>, featuredShows: seq<TVShow>, genres: seq<Genre>,
    recentMovies: seq<Movie>, recentShows: seq<TVShow>, myListMovies: seq<Movie>)

  /** The home page: the first six featured movies and shows, the first eight
      genres, the twelve most recent movies and shows, and the movies on the
      active profile's watchlist when someone is signed in with a profile. */
  function Home(cat: Catalog, rows: seq<ProfileWatchlist>, session: Session): (h: HomeContext)
    ensures |h.featuredMovies| == Min(FeaturedLimit, |Filter(cat.movies, IsFeaturedMovie)|)
    ensures h.featuredMovies <= Filter(cat.movies, IsFeaturedMovie)
    ensures forall m :: m in h.featuredMovies ==> m in cat.movies && m.featured
    ensures |h.featuredShows| == Min(FeaturedLimit, |Filter(cat.shows, IsFeaturedShow)|)
    ensures h.featuredShows <= Filter(cat.shows, IsFeaturedShow)
    ensures forall s :: s in h.featuredShows ==> s in cat.shows && s.featured
    ensures |h.genres| == Min(GenreLimit, |cat.genres|) && h.genres <= cat.genres
    ensures |h.recentMovies| == Min(RecentLimit, |cat.movies|) && h.recentMovies <= cat.movies
    ensures |h.recentShows| == Min(RecentLimit, |cat.shows|) && h.recentShows <= cat.shows
    ensures forall m :: m in h.myListMovies <==>
      m in cat.movies && session.LoggedIn() && session.HasActiveProfile()
      && Listed(rows, session.activeProfile.value, MovieRef(m.id))
  {
    var myList :=
      if session.LoggedIn() && session.HasActiveProfile() then
        var p := session.activeProfile.value;
        Filter(cat.movies, (m: Movie) => Listed(rows, p, MovieRef(m.id)))
      else [];
    HomeContext(
      Take(Filter(cat.movies, IsFeaturedMovie), FeaturedLimit),
      Take(Filter(cat.shows, IsFeaturedShow), FeaturedLimit),
      Take(cat.genres, GenreLimit),
      Take(cat.movies, RecentLimit),
      Take(cat.shows, RecentLimit),
      myList)
  }

  /** The movie page's "in my list" flag: only a signed-in user with an
      active profile sees it set, and then exactly when a row of that
      profile's list holds the movie. */
  function InWatchlist(rows: seq<ProfileWatchlist>, session: Session, movieId: int): (b: bool)
    ensures b <==>
      && session.LoggedIn() && session.HasActiveProfile()
      && exists i :: 0 <= i < |rows| && rows[i].profile == session.activeProfile.value && rows[i].item == MovieRef(movieId)
  {
    session.LoggedIn() && session.HasActiveProfile() && Listed(rows, session.activeProfile.value, MovieRef(movieId))
  }

  /** A catalog movie is flagged on its own page exactly when the home page
      lists it under "my list". */
  lemma FlagAgreesWithMyList(cat: Catalog, rows: seq<ProfileWatchlist>, session: Session, m: Movie)
    requires m in cat.movies
    ensures InWatchlist(rows, session, m.id) <==> m in Home(cat, rows, session).myListMovies
  {
  }

  /** The show page's "in my list" flag as written: it asks the older
      per-account list, which no handler writes. The flag depends on the
      signed-in user alone, never on the active profile. */
  function ShowInLegacyWatchlist(legacy: seq<Watchlist>, session: Session, showId: int): (b: bool)
    ensures b <==>
      && session.LoggedIn()
      && exists i :: 0 <= i < |legacy| && legacy[i].user == session.user.value && legacy[i].item == ShowRef(showId)
  {
    session.LoggedIn() && exists r :: r in legacy && r.user == session.user.value && r.item == ShowRef(showId)
  }

  /** The show page's flag read, like the movie page's, from the active
      profile's list: set exactly when a row of that profile holds the show. */
  function ShowInWatchlist(rows: seq<ProfileWatchlist>, session: Session, showId: int): (b: bool)
    ensures b <==>
      && session.LoggedIn() && session.HasActiveProfile()
      && exists i :: 0 <= i < |rows| && rows[i].profile == session.activeProfile.value && rows[i].item == ShowRef(showId)
  {
    session.LoggedIn() && session.HasActiveProfile() && Listed(rows, session.activeProfile.value, ShowRef(showId))
  }

  // ---------------------------------------------------------------------------
  // search

  predicate MovieMatches(m: Movie, query: string)
  {
    IContains(m.title, query) || IContains(m.description, query)
  }

  predicate ShowMatches(s: TVShow, query: string)
  {
    IContains(s.title, query) || IContains(s.description, query)
  }

  datatype SearchResults = NoResults | Results(movies: seq<Movie>, shows: seq<TVShow>)

  /** An empty query finds nothing; otherwise the movies and, separately, the
      shows whose title or description contains the query, ignoring case. */
  function Search(query: string, movies: seq<Movie>, shows: seq<TVShow>): (r: SearchResults)
    ensures r.NoResults? <==> query == ""
    ensures r.Results? ==> forall m :: m in r.movies <==> m in movies && MovieMatches(m, query)
    ensures r.Results? ==> forall s :: s in r.shows <==> s in shows && ShowMatches(s, query)
  {
    if query == "" then NoResults
    else Results(Filter(movies, (m: Movie) => MovieMatches(m, query)), Filter(shows, (s: TVShow) => ShowMatches(s, query)))
  }

  /** Queries that differ only in the case of their letters find the same items. */
  lemma SearchIgnoresCase(q1: string, q2: string, movies: seq<Movie>, shows: seq<TVShow>)
    requires Lower(q1) == Lower(q2)
    ensures Search(q1, movies, shows) == Search(q2, movies, shows)
  {
    assert |q1| == |Lower(q1)| == |Lower(q2)| == |q2|;
    FilterCongruent(movies, (m: Movie) => MovieMatches(m, q1), (m: Movie) => MovieMatches(m, q2));
    FilterCongruent(shows, (s: TVShow) => ShowMatches(s, q1), (s: TVShow) => ShowMatches(s, q2));
  }

  // ---------------------------------------------------------------------------
  // tvshow_detail: grouping episodes by season

  /** The episodes of season `s`, in their order. */
  function OfSeason(episodes: seq<Episode>, s: nat): (r: seq<Episode>)
    ensures forall e :: e in r <==> e in episodes && e.season == s
  {
    if episodes == [] then []
    else
      var last := episodes[|episodes| - 1];
      OfSeason(episodes[..|episodes| - 1], s) + (if last.season == s then [last] else [])
  }

  /** The season numbers in order of first appearance: the key order of the
      dictionary the view builds. */
  function SeasonOrder(episodes: seq<Episode>): (r: seq<nat>)
    ensures forall s :: s in r <==> exists e :: e in episodes && e.season == s
    ensures forall i, j :: 0 <= i < j < |r| ==> r[i] != r[j]
  {
    if episodes == [] then []
    else
      var last := episodes[|episodes| - 1];
      var p := SeasonOrder(episodes[..|episodes| - 1]);
      if last.season in p then p else p + [last.season]
  }

  /** The season lists concatenated in key order. */
  function Concat(order: seq<nat>, seasons: map<nat, seq<Episode>>): seq<Episode>
    requires forall s :: s in order ==> s in seasons
  {
    if order == [] then [] else Concat(order[..|order| - 1], seasons) + seasons[order[|order| - 1]]
  }

  /** `Concat` with every season list taken from `episodes`. */
  function Flatten(order: seq<nat>, episodes: seq<Episode>): seq<Episode>
  {
    if order == [] then [] else Flatten(order[..|order| - 1], episodes) + OfSeason(episodes, order[|order| - 1])
  }

  /** `seasons` and `order` group `episodes`: `order` lists the seasons in
      order of first appearance, and each season's key holds its episodes. */
  ghost predicate Grouped(episodes: seq<Episode>, seasons: map<nat, seq<Episode>>, order: seq<nat>)
  {
    && order == SeasonOrder(episodes)
    && (forall s :: s in seasons <==> s in order)
    && (forall s :: s in seasons ==> seasons[s] == OfSeason(episodes, s))
  }

  /** The loop of `tvshow_detail`: each episode is appended to the list of its
      season, a season's list being created when the season is first met. On
      the ordered episode list of a show the seasons come out ascending, each
      season's episodes come out by ascending episode number, and reading the
      lists in key order gives back the episode list. */
  method GroupBySeason(episodes: seq<Episode>) returns (seasons: map<nat, seq<Episode>>, order: seq<nat>)
    ensures order == SeasonOrder(episodes)
    ensures forall s :: s in seasons <==> s in order
    ensures forall s :: s in seasons ==> seasons[s] == OfSeason(episodes, s)
    ensures EpisodesOrdered(episodes) ==> Concat(order, seasons) == episodes
    ensures EpisodesOrdered(episodes) ==> forall i, j :: 0 <= i < j < |order| ==> order[i] < order[j]
  {
    seasons, order := map[], [];
    for i := 0 to |episodes|
      invariant Grouped(episodes[..i], seasons, order)
    {
      assert episodes[..i + 1] == episodes[..i] + [episodes[i]];
      var season := episodes[i].season;
      if season in seasons {
        GroupStepKnown(episodes[..i], seasons, order, episodes[i]);
      } else {
        GroupStepNew(episodes[..i], seasons, order, episodes[i]);
        seasons := seasons[season := []];
        order := order + [season];
      }
      seasons := seasons[season := seasons[season] + [episodes[i]]];
    }
    assert episodes[..|episodes|] == episodes;
    GroupsReadBack(episodes, seasons, order);
  }

  /** One more episode of a season already met joins that season's list. */
  lemma GroupStepKnown(episodes: seq<Episode>, seasons: map<nat, seq<Episode>>, order: seq<nat>, e: Episode)
    requires Grouped(episodes, seasons, order) && e.season in seasons
    ensures Grouped(episodes + [e], seasons[e.season := seasons[e.season] + [e]], order)
  {
    var p := episodes + [e];
    SeasonOrderSnoc(episodes, e);
    var m := seasons[e.season := seasons[e.season] + [e]];
    forall s | s in m ensures m[s] == OfSeason(p, s) {
      OfSeasonSnoc(episodes, e, s);
    }
  }

  /** One more episode of a new season opens that season with the episode alone. */
  lemma GroupStepNew(episodes: seq<Episode>, seasons: map<nat, seq<Episode>>, order: seq<nat>, e: Episode)
    requires Grouped(episodes, seasons, order) && e.season !in seasons
    ensures (var started := seasons[e.season := []];
             Grouped(episodes + [e], started[e.season := started[e.season] + [e]], order + [e.season]))
  {
    var p := episodes + [e];
    SeasonOrderSnoc(episodes, e);
    NoSeasonNoEpisodes(episodes, e.season);
    var started := seasons[e.season := []];
    var m := started[e.season := started[e.season] + [e]];
    forall s | s in m ensures m[s] == OfSeason(p, s) {
      OfSeasonSnoc(episodes, e, s);
    }
  }

  /** Season groups built from an ordered list come in ascending key order,
      and reading them in that order gives back the list. */
  lemma GroupsReadBack(episodes: seq<Episode>, seasons: map<nat, seq<Episode>>, order: seq<nat>)
    requires Grouped(episodes, seasons, order)
    ensures EpisodesOrdered(episodes) ==> Concat(order, seasons) == episodes
    ensures EpisodesOrdered(episodes) ==> forall i, j :: 0 <= i < j < |order| ==> order[i] < order[j]
  {
    ConcatIsFlatten(order, seasons, episodes);
    if EpisodesOrdered(episodes) {
      FlattenOrdered(episodes);
      SeasonOrderAscending(episodes);
    }
  }

  lemma SeasonOrderSnoc(init: seq<Episode>, e: Episode)
    ensures SeasonOrder(init + [e]) ==
      if e.season in SeasonOrder(init) then SeasonOrder(init) else SeasonOrder(init) + [e.season]
  {
    assert (init + [e])[..|init|] == init;
  }

  lemma OfSeasonSnoc(init: seq<Episode>, e: Episode, s: nat)
    ensures OfSeason(init + [e], s) == OfSeason(init, s) + (if e.season == s then [e] else [])
  {
    assert (init + [e])[..|init|] == init;
  }

  lemma NoSeasonNoEpisodes(episodes: seq<Episode>, s: nat)
    requires s !in SeasonOrder(episodes)
    ensures OfSeason(episodes, s) == []
  {
    var r := OfSeason(episodes, s);
    assert forall k :: 0 <= k < |r| ==> r[k] in r;
  }

  lemma {:induction false} ConcatIsFlatten(order: seq<nat>, seasons: map<nat, seq<Episode>>, episodes: seq<Episode>)
    requires forall s :: s in order ==> s in seasons && seasons[s] == OfSeason(episodes, s)
    ensures Concat(order, seasons) == Flatten(order, episodes)
  {
    if order != [] {
      ConcatIsFlatten(order[..|order| - 1], seasons, episodes);
    }
  }

  /** Appending an episode of a season not in `order` does not change the
      flattening over `order`. */
  lemma {:induction false} FlattenSkips(order: seq<nat>, episodes: seq<Episode>, e: Episode)
    requires e.season !in order
    ensures Flatten(order, episodes + [e]) == Flatten(order, episodes)
  {
    if order != [] {
      var s := order[|order| - 1];
      OfSeasonSnoc(episodes, e, s);
      FlattenSkips(order[..|order| - 1], episodes, e);
    }
  }

  /** On an ordered list the most recently opened season is the last episode's. */
  lemma {:induction false} LastSeasonIsLastEpisodes(episodes: seq<Episode>)
    requires EpisodesOrdered(episodes) && episodes != []
    ensures SeasonOrder(episodes) != []
    ensures SeasonOrder(episodes)[|SeasonOrder(episodes)| - 1] == episodes[|episodes| - 1].season
  {
    var init, last := episodes[..|episodes| - 1], episodes[|episodes| - 1];
    var p := SeasonOrder(init);
    if last.season in p {
      var e :| e in init && e.season == last.season;
      assert init != [];
      LastSeasonIsLastEpisodes(init);
      var k :| 0 <= k < |init| && init[k] == e;
      assert episodes[k] == e && episodes[|init| - 1] == init[|init| - 1];
      if k < |init| - 1 {
        assert EpisodeBefore(episodes[k], episodes[|init| - 1]);
      }
      assert EpisodeBefore(episodes[|init| - 1], last);
    }
  }

  /** Appending the first episode of a new season adds it at the end. */
  lemma FlattenAppendNew(o: seq<nat>, init: seq<Episode>, e: Episode)
    requires e.season !in o && OfSeason(init, e.season) == []
    ensures Flatten(o + [e.season], init + [e]) == Flatten(o, init) + [e]
  {
    assert (o + [e.season])[..|o|] == o;
    assert (init + [e])[..|init|] == init;
    FlattenSkips(o, init, e);
  }

  /** Appending an episode of the last opened season adds it at the end. */
  lemma FlattenAppendLast(o: seq<nat>, init: seq<Episode>, e: Episode)
    requires e.season !in o
    ensures Flatten(o + [e.season], init + [e]) == Flatten(o + [e.season], init) + [e]
  {
    assert (o + [e.season])[..|o|] == o;
    assert (init + [e])[..|init|] == init;
    FlattenSkips(o, init, e);
  }

  /** A list without repeats is its front followed by a last element not in the front. */
  lemma SplitLast(o: seq<nat>)
    requires o != [] && forall i, j :: 0 <= i < j < |o| ==> o[i] != o[j]
    ensures o == o[..|o| - 1] + [o[|o| - 1]] && o[|o| - 1] !in o[..|o| - 1]
  {
    var front := o[..|o| - 1];
    assert forall k :: 0 <= k < |front| ==> front[k] == o[k];
  }

  /** A step of `FlattenOrdered`: the appended episode belongs to the season opened last. */
  lemma FlattenStepKnown(init: seq<Episode>, e: Episode)
    requires Flatten(SeasonOrder(init), init) == init
    requires SeasonOrder(init) != [] && SeasonOrder(init)[|SeasonOrder(init)| - 1] == e.season
    ensures Flatten(SeasonOrder(init + [e]), init + [e]) == init + [e]
  {
    var o := SeasonOrder(init);
    SeasonOrderSnoc(init, e);
    assert e.season in o;
    SplitLast(o);
    FlattenAppendLast(o[..|o| - 1], init, e);
  }

  /** A step of `FlattenOrdered`: the appended episode opens a new season. */
  lemma FlattenStepNew(init: seq<Episode>, e: Episode)
    requires Flatten(SeasonOrder(init), init) == init
    requires e.season !in SeasonOrder(init)
    ensures Flatten(SeasonOrder(init + [e]), init + [e]) == init + [e]
  {
    SeasonOrderSnoc(init, e);
    NoSeasonNoEpisodes(init, e.season);
    FlattenAppendNew(SeasonOrder(init), init, e);
  }

  /** In an ordered list, an episode of a season already opened belongs to
      the season opened last. */
  lemma KnownSeasonIsLast(init: seq<Episode>, e: Episode)
    requires EpisodesOrdered(init) && EpisodesOrdered(init + [e]) && e.season in SeasonOrder(init)
    ensures SeasonOrder(init) != [] && SeasonOrder(init)[|SeasonOrder(init)| - 1] == e.season
  {
    var episodes := init + [e];
    var d :| d in init && d.season == e.season;
    var k :| 0 <= k < |init| && init[k] == d;
    LastSeasonIsLastEpisodes(init);
    assert episodes[k] == d && episodes[|init| - 1] == init[|init| - 1] && episodes[|init|] == e;
    assert EpisodeBefore(episodes[k], episodes[|init| - 1]) || k == |init| - 1;
    assert EpisodeBefore(episodes[|init| - 1], e);
  }

  /** Reading an ordered list's season groups in key order gives back the list. */
  lemma {:induction false} FlattenOrdered(episodes: seq<Episode>)
    requires EpisodesOrdered(episodes)
    ensures Flatten(SeasonOrder(episodes), episodes) == episodes
  {
    if episodes != [] {
      var init, e := episodes[..|episodes| - 1], episodes[|episodes| - 1];
      assert episodes == init + [e];
      assert EpisodesOrdered(init);
      FlattenOrdered(init);
      if e.season in SeasonOrder(init) {
        KnownSeasonIsLast(init, e);
        FlattenStepKnown(init, e);
      } else {
        FlattenStepNew(init, e);
      }
    }
  }

  /** On an ordered list the seasons are opened in ascending order. */
  lemma {:induction false} SeasonOrderAscending(episodes: seq<Episode>)
    requires EpisodesOrdered(episodes)
    ensures forall i, j :: 0 <= i < j < |SeasonOrder(episodes)| ==> SeasonOrder(episodes)[i] < SeasonOrder(episodes)[j]
  {
    if episodes != [] {
      var init, e := episodes[..|episodes| - 1], episodes[|episodes| - 1];
      assert EpisodesOrdered(init);
      SeasonOrderAscending(init);
      var o := SeasonOrder(init);
      if e.season !in o {
        forall k | 0 <= k < |o| ensures o[k] < e.season {
          assert o[k] in o;
          var d :| d in init && d.season == o[k];
          var m :| 0 <= m < |init| && init[m] == d;
          assert EpisodeBefore(episodes[m], e);
        }
      }
    }
  }

  /** Inside a season of an ordered list of one show's episodes with no
      repeated (season, episode) pair, episode numbers strictly ascend. */
  lemma {:induction false} SeasonEpisodesAscending(episodes: seq<Episode>, s: nat)
    requires EpisodesOrdered(episodes) && EpisodesUnique(episodes)
    requires forall e :: e in episodes ==> e.showId == episodes[0].showId
    ensures forall i, j :: 0 <= i < j < |OfSeason(episodes, s)| ==> OfSeason(episodes, s)[i].number < OfSeason(episodes, s)[j].number
  {
    if episodes != [] {
      var init, e := episodes[..|episodes| - 1], episodes[|episodes| - 1];
      assert EpisodesOrdered(init) && EpisodesUnique(init);
      if init != [] {
        assert init[0] == episodes[0];
        SeasonEpisodesAscending(init, s);
      }
      var r := OfSeason(init, s);
      if e.season == s {
        forall k | 0 <= k < |r| ensures r[k].number < e.number {
          assert r[k] in r;
          var m :| 0 <= m < |init| && init[m] == r[k];
          assert episodes[m] == r[k];
          OrderedUniqueIsStrict(episodes, m, |episodes| - 1);
        }
      }
    }
  }

  // ---------------------------------------------------------------------------
  // episode_detail: next and previous episode

  /** `e` comes after `cur` in the same show and season. */
  predicate Follows(e: Episode, cur: Episode)
  {
    e.showId == cur.showId && e.season == cur.season && e.number > cur.number
  }

  /** `e` comes before `cur` in the same show and season. */
  predicate Precedes(e: Episode, cur: Episode)
  {
    e.showId == cur.showId && e.season == cur.season && e.number < cur.number
  }

  /** `filter(..., episode_number__gt=...).first()` under the season-then-episode
      ordering: the following episode with the smallest number, if any. */
  function NextEpisode(table: seq<Episode>, cur: Episode): (r: Option<Episode>)
    ensures r.None? <==> forall e :: e in table ==> !Follows(e, cur)
    ensures r.Some? ==> r.value in table && Follows(r.value, cur)
    ensures r.Some? ==> forall e :: e in table && Follows(e, cur) ==> r.value.number <= e.number
  {
    if table == [] then None
    else
      var rest := NextEpisode(table[1..], cur);
      if Follows(table[0], cur) && (rest.None? || table[0].number <= rest.value.number) then Some(table[0])
      else rest
  }

  /** `filter(..., episode_number__lt=...).last()`: the preceding episode with
      the largest number, if any. */
  function PrevEpisode(table: seq<Episode>, cur: Episode): (r: Option<Episode>)
    ensures r.None? <==> forall e :: e in table ==> !Precedes(e, cur)
    ensures r.Some? ==> r.value in table && Precedes(r.value, cur)
    ensures r.Some? ==> forall e :: e in table && Precedes(e, cur) ==> e.number <= r.value.number
  {
    if table == [] then None
    else
      var rest := PrevEpisode(table[1..], cur);
      if Precedes(table[0], cur) && (rest.None? || rest.value.number <= table[0].number) then Some(table[0])
      else rest
  }

  lemma SameKeySameEpisode(table: seq<Episode>, a: Episode, b: Episode)
    requires EpisodesUnique(table) && a in table && b in table && EpisodeKey(a) == EpisodeKey(b)
    ensures a == b
  {
    var i :| 0 <= i < |table| && table[i] == a;
    var j :| 0 <= j < |table| && table[j] == b;
    assert !(i < j) && !(j < i);
  }

  /** The episode before the next one has the starting episode's key. */
  lemma PrevOfNextKey(table: seq<Episode>, e: Episode, n: Episode)
    requires e in table && NextEpisode(table, e) == Some(n)
    ensures PrevEpisode(table, n).Some? && PrevEpisode(table, n).value in table
    ensures EpisodeKey(PrevEpisode(table, n).value) == EpisodeKey(e)
  {
    assert n in table && Follows(n, e);
    assert Precedes(e, n);
    var r := PrevEpisode(table, n);
    assert r.Some?;
    var p := r.value;
    assert p in table && Precedes(p, n) && e.number <= p.number;
    assert Follows(p, e) ==> n.number <= p.number;
  }

  /** Stepping forward and then back returns to the episode one started from. */
  lemma PrevOfNext(table: seq<Episode>, e: Episode)
    requires EpisodesUnique(table) && e in table && NextEpisode(table, e).Some?
    ensures PrevEpisode(table, NextEpisode(table, e).value) == Some(e)
  {
    var n := NextEpisode(table, e).value;
    PrevOfNextKey(table, e, n);
    SameKeySameEpisode(table, PrevEpisode(table, n).value, e);
  }

  /** The episode after the previous one has the starting episode's key. */
  lemma NextOfPrevKey(table: seq<Episode>, e: Episode, p: Episode)
    requires e in table && PrevEpisode(table, e) == Some(p)
    ensures NextEpisode(table, p).Some? && NextEpisode(table, p).value in table
    ensures EpisodeKey(NextEpisode(table, p).value) == EpisodeKey(e)
  {
    assert p in table && Precedes(p, e);
    assert Follows(e, p);
    var r := NextEpisode(table, p);
    assert r.Some?;
    var n := r.value;
    assert n in table && Follows(n, p) && n.number <= e.number;
    assert Precedes(n, e) ==> n.number <= p.number;
  }

  /** Stepping back and then forward returns to the episode one started from. */
  lemma NextOfPrev(table: seq<Episode>, e: Episode)
    requires EpisodesUnique(table) && e in table && PrevEpisode(table, e).Some?
    ensures NextEpisode(table, PrevEpisode(table, e).value) == Some(e)
  {
    var p := PrevEpisode(table, e).value;
    NextOfPrevKey(table, e, p);
    SameKeySameEpisode(table, NextEpisode(table, p).value, e);
  }
}
