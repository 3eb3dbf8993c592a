/** The schema of the catalog and of the per-user tables: entities as values,
    the field validators, the uniqueness and ordering constraints, and the
    `__str__` renderings of the rows that reference catalog items. */
module Models {
  import opened Basics

  /** The catalog item a user row points at. The schema keeps two nullable
      foreign keys, `movie` and `tv_show`, of which exactly one is meant to be
      set; the tagged form rules out "both" and "neither". */
  datatype ContentRef = MovieRef(movieId: int) | ShowRef(showId: int)

  datatype Genre = Genre(id: int, name: string, description: string)

  /** Ratings are decimals with one fractional digit, held here as whole tenths
      (7.5 is 75). Dates are abstract day numbers. */
  datatype Movie = Movie(
    id: int, title: string, description: string, releaseDate: int,
    duration: int, rating: int, trailerUrl: string, genres: set<int>, featured: bool)

  datatype TVShow = TVShow(
    id: int, title: string, description: string, releaseDate: int,
    rating: int, trailerUrl: string, genres: set<int>, featured: bool)

  datatype Episode = Episode(
    id: int, showId: int, season: nat, number: nat, title: string,
    description: string, duration: int, videoUrl: string, releaseDate: int)

  /** A "who's watching" slot of an account. */
  datatype Profile = Profile(id: int, userId: int, name: string)

  /** A row of the per-profile watchlist; `pk` is the auto-increment key, so
      a larger `pk` means a later `added_at`. */
  datatype ProfileWatchlist = ProfileWatchlist(pk: nat, profile: int, item: ContentRef)

  /** A row of the older per-account watchlist. */
  datatype Watchlist = Watchlist(pk: nat, user: int, item: ContentRef)

  /** The review table is keyed by (user, item); a key holds one rating and comment. */
  datatype ReviewKey = ReviewKey(user: int, item: ContentRef)
  datatype ReviewBody = ReviewBody(rating: int, comment: string)

  // ---------------------------------------------------------------------------
  // Field validators

  /** `MinValueValidator(0)` and `MaxValueValidator(10)` on a one-decimal rating, in tenths. */
  predicate ValidCatalogRating(tenths: int) { 0 <= tenths <= 100 }

  /** `MinValueValidator(1)` and `MaxValueValidator(5)` on a review rating. */
  predicate ValidReviewRating(rating: int) { 1 <= rating <= 5 }

  /** The values an `IntegerField` column can store: SQLite's INTEGER is a
      signed 64-bit integer, and writing a larger value raises. */
  const IntegerColumnMin: int := -0x8000_0000_0000_0000
  const IntegerColumnMax: int := 0x7FFF_FFFF_FFFF_FFFF

  predicate FitsIntegerColumn(n: int) { IntegerColumnMin <= n <= IntegerColumnMax }

  // ---------------------------------------------------------------------------
  // Uniqueness constraints and orderings

  predicate GenreNamesUnique(genres: seq<Genre>)
  {
    forall i, j :: 0 <= i < j < |genres| ==> genres[i].name != genres[j].name
  }

  function EpisodeKey(e: Episode): (int, nat, nat) { (e.showId, e.season, e.number) }

  /** `unique_together = ['tv_show', 'season_number', 'episode_number']`. */
  predicate EpisodesUnique(episodes: seq<Episode>)
  {
    forall i, j :: 0 <= i < j < |episodes| ==> EpisodeKey(episodes[i]) != EpisodeKey(episodes[j])
  }

  /** `Episode.Meta.ordering = ['season_number', 'episode_number']`. */
  predicate EpisodeBefore(a: Episode, b: Episode)
  {
    a.season < b.season || (a.season == b.season && a.number <= b.number)
  }

  predicate EpisodesOrdered(episodes: seq<Episode>)
  {
    forall i, j :: 0 <= i < j < |episodes| ==> EpisodeBefore(episodes[i], episodes[j])
  }

  /** Ordered episodes of one show with no repeated (season, number) run
      strictly upwards inside each season. */
  lemma OrderedUniqueIsStrict(episodes: seq<Episode>, i: int, j: int)
    requires EpisodesOrdered(episodes) && EpisodesUnique(episodes)
    requires 0 <= i < j < |episodes|
    requires episodes[i].showId == episodes[j].showId && episodes[i].season == episodes[j].season
    ensures episodes[i].number < episodes[j].number
  {
    assert EpisodeBefore(episodes[i], episodes[j]);
    assert EpisodeKey(episodes[i]) != EpisodeKey(episodes[j]);
  }

  function WatchKey(row: ProfileWatchlist): (int, ContentRef) { (row.profile, row.item) }

  /** `unique_together = [['profile', 'movie'], ['profile', 'tv_show']]`: with the
      tagged item both pairs are one key (profile, item). */
  predicate ProfileWatchlistUnique(rows: seq<ProfileWatchlist>)
  {
    forall i, j :: 0 <= i < j < |rows| ==> WatchKey(rows[i]) != WatchKey(rows[j])
  }

  /** `unique_together = [['user', 'movie'], ['user', 'tv_show']]` on the per-account list. */
  predicate WatchlistUnique(rows: seq<Watchlist>)
  {
    forall i, j :: 0 <= i < j < |rows| ==> (rows[i].user, rows[i].item) != (rows[j].user, rows[j].item)
  }

  /** Under the per-account uniqueness constraint a (user, item) pair is held
      by at most one row, so the show page's `exists()` names one row. */
  lemma WatchlistKeyHeldOnce(rows: seq<Watchlist>, i: int, j: int)
    requires WatchlistUnique(rows)
    requires 0 <= i < |rows| && 0 <= j < |rows|
    requires rows[i].user == rows[j].user && rows[i].item == rows[j].item
    ensures i == j
  {
  }

  /** Every stored review rating passes its validator. */
  predicate ReviewRatingsValid(reviews: map<ReviewKey, ReviewBody>)
  {
    forall k :: k in reviews ==> ValidReviewRating(reviews[k].rating)
  }

  /** The catalog tables with their primary keys and the constraints the schema declares. */
  datatype Catalog = Catalog(genres: seq<Genre>, movies: seq<Movie>, shows: seq<TVShow>, episodes: seq<Episode>)
  {
    predicate Valid()
    {
      && GenreNamesUnique(genres)
      && (forall i, j :: 0 <= i < j < |movies| ==> movies[i].id != movies[j].id)
      && (forall i, j :: 0 <= i < j < |shows| ==> shows[i].id != shows[j].id)
      && (forall m :: m in movies ==> ValidCatalogRating(m.rating))
      && (forall s :: s in shows ==> ValidCatalogRating(s.rating))
      && EpisodesUnique(episodes)
      && (forall e :: e in episodes ==> exists s :: s in shows && s.id == e.showId)
    }

    predicate HasMovie(id: int) { exists m :: m in movies && m.id == id }

    predicate HasShow(id: int) { exists s :: s in shows && s.id == id }
  }

  // ---------------------------------------------------------------------------
  // __str__ renderings

  /** The catalog object a row refers to, resolved. */
  datatype Item = MovieItem(movie: Movie) | ShowItem(show: TVShow)

  /** The movie's title when the row names a movie, otherwise the show's. */
  function ItemTitle(item: Item): string
  {
    match item
    case MovieItem(m) => m.title
    case ShowItem(s) => s.title
  }

  /** `Episode.__str__`: "<show title> - S<season>E<number>: <title>". */
  function EpisodeLabel(showTitle: string, e: Episode): string
  {
    showTitle + " - S" + NatToString(e.season) + "E" + NatToString(e.number) + ": " + e.title
  }

  /** `Watchlist.__str__`: "<username> - <item title>". */
  function WatchlistLabel(username: string, item: Item): string
  {
    username + " - " + ItemTitle(item)
  }

  /** `Review.__str__`: "<username> - <item title> (<rating>/5)". */
  function ReviewLabel(username: string, item: Item, rating: int): string
  {
    username + " - " + ItemTitle(item) + " (" + IntToString(rating) + "/5)"
  }

  /** `Profile.__str__`: "<username> - <profile name>". */
  function ProfileLabel(username: string, p: Profile): string
  {
    username + " - " + p.name
  }

  /** `ProfileWatchlist.__str__`: "<profile> - <item title>". */
  function ProfileWatchlistLabel(username: string, p: Profile, item: Item): string
  {
    ProfileLabel(username, p) + " - " + ItemTitle(item)
  }

  /** Two episodes with the same title in the same show render alike only when
      their season and episode numbers agree: the label names the episode. */
  lemma EpisodeLabelNamesEpisode(showTitle: string, e1: Episode, e2: Episode)
    requires e1.title == e2.title
    requires EpisodeLabel(showTitle, e1) == EpisodeLabel(showTitle, e2)
    ensures e1.season == e2.season && e1.number == e2.number
  {
    var p := showTitle + " - S";
    var s1, s2 := NatToString(e1.season), NatToString(e2.season);
    var n1, n2 := NatToString(e1.number), NatToString(e2.number);
    var q := ": " + e1.title;
    assert EpisodeLabel(showTitle, e1) == p + ((s1 + "E" + n1) + q);
    assert EpisodeLabel(showTitle, e2) == p + ((s2 + "E" + n2) + q);
    CancelPrefix(p, (s1 + "E" + n1) + q, (s2 + "E" + n2) + q);
    CancelSuffix(s1 + "E" + n1, s2 + "E" + n2, q);
    SplitAtMarker(s1, n1, s2, n2, 'E');
    NatToStringInjective(e1.season, e2.season);
    NatToStringInjective(e1.number, e2.number);
  }

  /** The rating can be read back from a review's label: two reviews by the
      same user on the same item render alike only with equal ratings. */
  lemma ReviewLabelNamesRating(username: string, item: Item, r1: int, r2: int)
    requires ReviewLabel(username, item, r1) == ReviewLabel(username, item, r2)
    ensures r1 == r2
  {
    var p := username + " - " + ItemTitle(item) + " (";
    assert ReviewLabel(username, item, r1) == p + (IntToString(r1) + "/5)");
    assert ReviewLabel(username, item, r2) == p + (IntToString(r2) + "/5)");
    CancelPrefix(p, IntToString(r1) + "/5)", IntToString(r2) + "/5)");
    CancelSuffix(IntToString(r1), IntToString(r2), "/5)");
    IntToStringInjective(r1, r2);
  }

  /** A watchlist row's label determines the title it shows, for a given owner;
      a movie row shows the movie's title and a show row the show's. */
  lemma WatchlistLabelsNameTitle(username: string, p: Profile, i1: Item, i2: Item)
    ensures WatchlistLabel(username, i1) == WatchlistLabel(username, i2) ==> ItemTitle(i1) == ItemTitle(i2)
    ensures ProfileWatchlistLabel(username, p, i1) == ProfileWatchlistLabel(username, p, i2) ==> ItemTitle(i1) == ItemTitle(i2)
    ensures i1.MovieItem? ==> ItemTitle(i1) == i1.movie.title
    ensures i1.ShowItem? ==> ItemTitle(i1) == i1.show.title
  {
    if WatchlistLabel(username, i1) == WatchlistLabel(username, i2) {
      CancelPrefix(username + " - ", ItemTitle(i1), ItemTitle(i2));
    }
    if ProfileWatchlistLabel(username, p, i1) == ProfileWatchlistLabel(username, p, i2) {
      CancelPrefix(ProfileLabel(username, p) + " - ", ItemTitle(i1), ItemTitle(i2));
    }
  }
}
