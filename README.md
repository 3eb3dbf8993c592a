# A verified model of the catalog app's content core

This project models the `content` app of a streaming-catalog web site: the
schema of movies, TV shows, episodes, profiles, watchlists and reviews
(`content/models.py`), and the view logic in `content/views.py`. Only the view
logic that decides what is shown or stored is modelled:

- the home page's featured, genre and recent slices, and the active profile's list;
- the movie page's "in my list" flag and its best-effort enrichment from the
  external movie database: poster and backdrop URLs, the first YouTube
  trailer, and the all-empty fallback;
- the show page's grouping of episodes by season;
- the episode page's next and previous episode;
- case-insensitive search over titles and descriptions;
- the three handlers that write per-user data: `add_to_watchlist`,
  `remove_from_watchlist` and `add_review`.

Modules:

- `Basics` (basics.dfy): an option type, a three-way reading of a posted
  number, decimal rendering of integers, ASCII lower-casing, substring search
  and a sequence filter.
- `Models` (models.py's schema): entities as datatypes; field validators;
  the `unique_together` and `ordering` constraints; the `__str__` renderings.
  Movie and show ratings are whole tenths, so 7.5 is held as 75.
- `Http`: the session, the request fields the handlers read, and the
  responses, as abstract outcomes.
- `Browse`: the read-only views.
- `Tmdb`: the enrichment step of the movie page, over already decoded
  payloads. The two outbound calls are parameters that either fail or
  return a value.
- `UserContent`: the watchlist table (rows with auto-increment keys) and the
  review table (a map keyed by user and item). Each handler is first a
  function from the request and the old tables to the response and the new
  tables. The class `Store` then carries out the same steps in place and is
  proved to agree with those functions.

A catalog item a user row points at is a tagged reference, `MovieRef(id)` or
`ShowRef(id)`. It stands for the schema's pair of nullable foreign keys, of
which exactly one is meant to be set. Under this encoding the two
`unique_together` pairs of a table become one key: (owner, item).

## Model

| member | source | states |
|---|---|---|
| Basics.Contains | content/views.py:182-187 | the substring test behind `icontains` holds exactly when the query occurs at some position of the field |
| Models.OrderedUniqueIsStrict | content/models.py:69-71 | in a list kept in the episode ordering with unique (show, season, number), episode numbers strictly ascend within a season |
| Models.EpisodeLabelNamesEpisode | content/models.py:66-67 | two episodes with the same title render alike only when their season and episode numbers agree |
| Models.WatchlistKeyHeldOnce | content/models.py:91-95 | under the per-account list's uniqueness constraint, two rows with the same user and item are the same row |
| Models.ReviewLabelNamesRating | content/models.py:111-114 | a review's label determines its rating |
| Models.WatchlistLabelsNameTitle | content/models.py:97-100 | a watchlist label, for a given owner, determines the title shown; that is the movie's title for a movie row and the show's for a show row |
| Browse.Home | content/views.py:14-36 | featured lists hold only featured items and at most 6, taken from the front of the featured items; genres are capped at 8 and recent items at 12; "my list" holds exactly the movies on the active profile's list, and only with a signed-in user and a profile |
| Browse.InWatchlist | content/views.py:42-45 | the movie page's flag is set iff a user is signed in, a profile is active, and some row of the profile-watchlist table holds (active profile, movie) |
| Browse.FlagAgreesWithMyList | content/views.py:24-45 | a catalog movie is flagged on its page exactly when the home page's "my list" holds it |
| Browse.ShowInLegacyWatchlist | content/views.py:127-130 | the show page's flag as written is set iff a user is signed in and some row of the per-account `Watchlist` table holds (user, show); the active profile plays no part |
| Browse.ShowInWatchlist | content/views.py:127-130 | the show page's flag as intended is set iff a user is signed in, a profile is active, and some row of the profile-watchlist table holds (active profile, show) |
| Browse.Search | content/views.py:181-191 | an empty query gives no results; otherwise a movie, and separately a show, is returned iff the query occurs in its title or description ignoring case |
| Browse.SearchIgnoresCase | content/views.py:182-187 | queries equal after lower-casing give the same results |
| Browse.GroupBySeason | content/views.py:133-138 | every episode lands under its own season key; each list is that season's episodes in order; on an ordered list the keys ascend and the lists read in key order give back the list |
| Browse.FlattenOrdered | content/views.py:125 | for an ordered episode list, concatenating the season groups in first-seen order gives back the list |
| Browse.SeasonOrderAscending | content/views.py:125 | for an ordered episode list, seasons are first seen in ascending order |
| Browse.SeasonEpisodesAscending | content/views.py:133-138 | for one show's ordered, unique episodes, a season's list has strictly ascending episode numbers |
| Browse.NextEpisode | content/views.py:155-159 | none iff no episode of the same show and season has a larger number; otherwise the following episode with the smallest number |
| Browse.PrevEpisode | content/views.py:161-165 | none iff no episode of the same show and season has a smaller number; otherwise the preceding episode with the largest number |
| Browse.PrevOfNext | content/views.py:155-165 | with unique episode keys, the previous episode of the next one is the starting episode |
| Browse.NextOfPrev | content/views.py:155-165 | with unique episode keys, the next episode of the previous one is the starting episode |
| Tmdb.TrailerUrl | content/views.py:93-98 | "" iff no video is a YouTube trailer or teaser with a key; otherwise the watch URL of the first such video |
| Tmdb.FindTrailer | content/views.py:94-98 | the scan with early exit yields the first trailer's watch URL, or "" |
| Tmdb.MovieEnrichment | content/views.py:55-106 | details are present iff a key and title exist, the search found a first result with an id and both calls returned; otherwise every field is empty; each image URL is set iff its path is non-empty and is the fixed prefix plus the path |
| UserContent.CountRowsUnique | content/models.py:144-148 | under the profile-watchlist uniqueness constraint a (profile, item) key has at most one row |
| UserContent.GetOrCreateRowsSpec | content/views.py:259 | after `get_or_create` exactly one row holds the key, no row is lost, no other key gains a row, and key order and uniqueness are kept |
| UserContent.GetOrCreateRowsIdempotent | content/views.py:259 | a second `get_or_create` with the same key changes nothing and hands out no key |
| UserContent.DeleteNothing | content/views.py:281 | a filter-then-delete that selects no row leaves the table as it was |
| UserContent.DeleteRowsValid | content/views.py:281-283 | a filter-then-delete keeps the table's key order and uniqueness |
| UserContent.Resolve | content/views.py:258 | the lookup finds an item iff the id is an integer naming an existing movie (or show); a missing id gives not-found, a non-integer one a server error |
| UserContent.AddTargetSpec | content/views.py:246-262 | an add reaches the table iff the user is signed in, the request is a POST, a profile is active, the type is known and the item exists; the key is (active profile, item); earlier exits redirect to login, back, or to profile selection, in that order |
| UserContent.AddToWatchlistSpec | content/views.py:246-266 | the table is either unchanged or grows by one row appended under the next key, naming an existing profile, with a redirect back |
| UserContent.AddToWatchlistKeepsTable | content/views.py:257-262 | an add keeps the table's invariant; one that reaches the table with an existing profile, or finds its row, leaves exactly one row for the key and the table otherwise unchanged; a missing profile with no row fails the insert with a server error and no change; earlier exits change nothing |
| UserContent.AddToWatchlistKeepsReferences | content/views.py:259-262 | an add keeps the foreign keys: every row names an existing profile and an existing movie or show; on such a table an add for a missing profile always fails |
| UserContent.AddToWatchlistIdempotent | content/views.py:257-262 | posting the same add twice has the effect of posting it once |
| UserContent.AddedItemIsFlagged | content/views.py:44-46 | after a successful add, the movie page's flag is set for an added movie, and the profile-list flag for an added show |
| UserContent.AddedShowNotFlaggedExample | content/views.py:129-130 | a show just added to the profile's list is not flagged by the show page as written |
| UserContent.RemoveFromWatchlistAsWritten | content/views.py:269-287 | the remove as written never changes the key counter, only removes rows, changes the table only past every check and with an id that is not garbage, and only deletes rows of the active profile |
| UserContent.RemoveFromWatchlistSpec | content/views.py:269-287 | the intended remove never changes the key counter, only removes rows, changes the table only past every check and with an integer id, and only deletes rows of the active profile |
| UserContent.RemoveAsWrittenAgrees | content/views.py:280-283 | whenever a `content_id` is posted, the remove as written and the intended remove give the same response and table |
| UserContent.RemoveFromWatchlistDeletesOnlyTarget | content/views.py:280-283 | a remove deletes exactly the rows of the named (active profile, item), keeps every other row, and keeps the table's invariant |
| UserContent.RemoveFromWatchlistAbsentNoop | content/views.py:280-283 | removing an item that is not listed leaves the rows exactly as they were |
| UserContent.RemoveWithoutIdDeletesShows | content/views.py:280-281 | as written, a movie remove with no id deletes every show on the profile's list, where the intended handler deletes nothing |
| UserContent.RemoveWithoutIdExample | content/views.py:280-281 | a concrete list that the as-written remove empties and the intended one leaves alone |
| UserContent.RejectedRequestsChangeNothing | content/views.py:249-263 | a non-POST request, an unknown content type or a missing active profile leaves both tables unchanged; the response is a redirect back, or to profile selection |
| UserContent.ReviewTargetSpec | content/views.py:293-312 | a review is written iff the user is signed in, the request is a POST, the rating is an integer, the type is known, the item exists, a comment is present and the rating fits the integer column; the key is (user, item) and the body is the posted rating and comment; a non-integer rating fails before anything else is read |
| UserContent.AddReviewSpec | content/views.py:290-316 | no review is ever dropped; an entry that is new or changed belongs to the signed-in user, holds a rating the column can store, and comes with a redirect back |
| UserContent.AddReviewUpserts | content/views.py:299-312 | a written review leaves one entry for (user, item) holding the posted rating and comment, the other entries unchanged, and the key set grown by at most that key; a rejected request changes nothing |
| UserContent.AddReviewLastWins | content/views.py:301-312 | two reviews of the same item by the same user leave what the second alone would leave |
| UserContent.AddReviewRatingUnchecked | content/models.py:107 | since the rating validator is not run on the way in, the table's ratings stay in 1..5 exactly when the request writes nothing or writes a rating in 1..5 |
| UserContent.Store.GetOrCreate | content/views.py:259 | fails iff no row holds the key and its profile does not exist, changing nothing; otherwise returns the row holding the key, created iff none did, and the table and key counter become the `get_or_create` result; the invariant is kept |
| UserContent.Store.AddToWatchlist | content/views.py:246-266 | the response and the new watchlist are those of the add function on the old state; the review table is untouched; the invariant is kept |
| UserContent.Store.RemoveFromWatchlist | content/views.py:269-287 | the response and the new watchlist are those of the intended remove function on the old state; the review table is untouched; the invariant is kept |
| UserContent.Store.AddReview | content/views.py:290-316 | the response and the new review table are those of the review function on the old state; the watchlist is untouched |

## Left out

- Rendering, redirect targets, flash messages and the HTTP referer are not modelled. A response is one of five abstract outcomes.
- `login_required` is modelled as one outcome, a redirect to login, for a request without a signed-in user.
- The outbound calls to the movie database are parameters: URL encoding, JSON decoding and timeouts are out. So is the `year` search parameter, which changes only the query sent.
- The `tmdb_images` and `tmdb_videos` context values are not kept separately from the details payload.
- Ordering by `created_at` or `added_at` is left out: catalog tables are taken in their default order as given. The "latest five reviews" on the detail pages and the watchlist page's ordering are not modelled.
- Image and file fields are not modelled, nor the `UserProfile` model.
- The admin configuration, the front-end script, the sample-data command and the URL table are not part of this model.
- `genre_view`, `profile_select`, `profile_use` and `watchlist_view` are not modelled. They are reads or session writes with no logic beyond the queries already modelled.
- Text matching lower-cases ASCII letters only. The database's case folding of other letters is not modelled.
- UserContent.ReviewTarget: the review rating column is taken to be SQLite's signed 64-bit INTEGER. A backend with 32-bit integer columns would also reject ratings from 2^31 up, which the model stores.
- UserContent.AddToWatchlistSpec: the existing profiles are a parameter, the set of ids of the `Profile` table. Deleting a profile and the cascade to its rows are not modelled.
- Which strings `int()` accepts is not modelled. A posted number is absent, an integer, or text that is not one.
- The active profile id in the session is not checked against the signed-in user, matching the handlers, which do not check it either.
- The older per-account `Watchlist` table is read by the show page and written by no handler. Only its uniqueness constraint and label are modelled.
- Genre name uniqueness and the catalog's key uniqueness are stated in `Catalog.Valid`. No handler here writes the catalog.
- Dates are abstract integers. `PositiveIntegerField` season and episode numbers are `nat`, so 0 is allowed as the database allows it.
- Transactions and concurrent requests are not modelled. Each handler runs alone, and a failing handler changes nothing.
- UserContent.Store.AddReview: the review's `created_at` is not modelled, so "one entry per key" is all that is said about the row kept by `update_or_create`.

## Findings

| source | as written | input that shows it | evidently intended | confidence | as-written member | corrected member |
|---|---|---|---|---|---|---|
| content/views.py:280-283 | the delete filter compares `movie_id` (or `tv_show_id`) with the posted id, and a form with no `content_id` compares with `None`, which the query turns into `IS NULL` | profile 7 lists show 3; a POST with `content_type=movie` and no `content_id` deletes that show row, and with `tvshow` every movie row | a request that names no item deletes nothing | high, not executed | UserContent.RemoveWithoutIdExample | UserContent.RemoveFromWatchlistAbsentNoop |
| content/views.py:129-130 | the show page's "in my list" flag asks the older per-account `Watchlist` table, while `add_to_watchlist` writes the per-profile table | user 1 on profile 7 adds show 3; the profile's list holds it, yet the show page does not flag it | the flag is read from the active profile's list, as the movie page does at content/views.py:44-46 | medium, not executed | UserContent.AddedShowNotFlaggedExample | UserContent.AddedItemIsFlagged |

The as-written remove is `UserContent.RemoveFromWatchlistAsWritten`. The
general form of the first finding is `UserContent.RemoveWithoutIdDeletesShows`.
The class uses the corrected `UserContent.RemoveFromWatchlistSpec`. The
as-written show flag is `Browse.ShowInLegacyWatchlist`, and the corrected one is
`Browse.ShowInWatchlist`.
