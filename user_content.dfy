/** The three handlers that write per-user data: `add_to_watchlist`,
    `remove_from_watchlist` and `add_review`. Each handler is first given as a
    function from the request and the old tables to the response and the new
    tables; the `Store` class then performs the same steps in place on its
    tables and is proved to agree with those functions. */
module UserContent {
  import opened Basics
  import opened Models
  import opened Http
  import opened Browse

  // ---------------------------------------------------------------------------
  // The profile watchlist table

  /** The table's invariant: rows are kept in insertion order (keys strictly
      increase), every key is below the next one to be handed out, and the
      schema's (profile, item) uniqueness holds. */
  predicate WatchTableValid(rows: seq<ProfileWatchlist>, nextPk: nat)
  {
    && (forall i, j :: 0 <= i < j < |rows| ==> rows[i].pk < rows[j].pk)
    && (forall i :: 0 <= i < |rows| ==> rows[i].pk < nextPk)
    && ProfileWatchlistUnique(rows)
  }

  /** Some row of the table has the (profile, item) key. */
  predicate HasRow(rows: seq<ProfileWatchlist>, key: (int, ContentRef))
  {
    exists i :: 0 <= i < |rows| && WatchKey(rows[i]) == key
  }

  /** The number of rows with the (profile, item) key. */
  function CountRows(rows: seq<ProfileWatchlist>, key: (int, ContentRef)): (n: nat)
    ensures n == 0 <==> !HasRow(rows, key)
    ensures n <= |rows|
  {
    if rows == [] then 0
    else
      var n := (if WatchKey(rows[0]) == key then 1 else 0) + CountRows(rows[1..], key);
      assert HasRow(rows[1..], key) ==> HasRow(rows, key) by {
        if HasRow(rows[1..], key) {
          var i :| 0 <= i < |rows[1..]| && WatchKey(rows[1..][i]) == key;
          assert WatchKey(rows[i + 1]) == key;
        }
      }
      assert HasRow(rows, key) && WatchKey(rows[0]) != key ==> HasRow(rows[1..], key) by {
        if HasRow(rows, key) && WatchKey(rows[0]) != key {
          var i :| 0 <= i < |rows| && WatchKey(rows[i]) == key;
          assert WatchKey(rows[1..][i - 1]) == key;
        }
      }
      n
  }

  lemma {:induction false} CountRowsAppend(rows: seq<ProfileWatchlist>, row: ProfileWatchlist, key: (int, ContentRef))
    ensures CountRows(rows + [row], key) == CountRows(rows, key) + (if WatchKey(row) == key then 1 else 0)
  {
    if rows != [] {
      assert (rows + [row])[1..] == rows[1..] + [row];
      CountRowsAppend(rows[1..], row, key);
    }
  }

  /** Under the uniqueness constraint a key is held by at most one row. */
  lemma {:induction false} CountRowsUnique(rows: seq<ProfileWatchlist>, key: (int, ContentRef))
    requires ProfileWatchlistUnique(rows)
    ensures CountRows(rows, key) <= 1
  {
    if rows != [] {
      CountRowsUnique(rows[1..], key);
      if WatchKey(rows[0]) == key {
        assert !HasRow(rows[1..], key) by {
          forall i | 0 <= i < |rows[1..]| ensures WatchKey(rows[1..][i]) != key {
            assert rows[1..][i] == rows[i + 1];
          }
        }
      }
    }
  }

  /** `get_or_create(profile_id=…, movie|tv_show=…)` on the rows: nothing
      changes when the key is held, otherwise a row with key `pk` is added. */
  function GetOrCreateRows(rows: seq<ProfileWatchlist>, pk: nat, key: (int, ContentRef)): seq<ProfileWatchlist>
  {
    if HasRow(rows, key) then rows else rows + [ProfileWatchlist(pk, key.0, key.1)]
  }

  /** The key to hand out after a `get_or_create`. */
  function NextPkAfter(rows: seq<ProfileWatchlist>, pk: nat, key: (int, ContentRef)): nat
  {
    if HasRow(rows, key) then pk else pk + 1
  }

  /** After `get_or_create` exactly one row holds the key, every row that was
      there is still there, no other key gains a row, and the table's invariant
      holds with the advanced key counter. */
  lemma GetOrCreateRowsSpec(rows: seq<ProfileWatchlist>, pk: nat, key: (int, ContentRef))
    requires WatchTableValid(rows, pk)
    ensures var r := GetOrCreateRows(rows, pk, key);
      && CountRows(r, key) == 1
      && (forall x :: x in rows ==> x in r)
      && (forall x :: x in r && WatchKey(x) != key ==> x in rows)
      && WatchTableValid(r, NextPkAfter(rows, pk, key))
  {
    var r := GetOrCreateRows(rows, pk, key);
    if HasRow(rows, key) {
      CountRowsUnique(rows, key);
    } else {
      var row := ProfileWatchlist(pk, key.0, key.1);
      CountRowsAppend(rows, row, key);
      assert r[|rows|] == row;
      assert forall i :: 0 <= i < |rows| ==> r[i] == rows[i];
    }
  }

  /** A second `get_or_create` with the same key finds the row the first one
      left and changes nothing, whatever key it would have handed out. */
  lemma GetOrCreateRowsIdempotent(rows: seq<ProfileWatchlist>, pk: nat, pk2: nat, key: (int, ContentRef))
    ensures var r := GetOrCreateRows(rows, pk, key);
      GetOrCreateRows(r, pk2, key) == r && NextPkAfter(r, pk2, key) == pk2
  {
    var r := GetOrCreateRows(rows, pk, key);
    if !HasRow(rows, key) {
      assert WatchKey(r[|rows|]) == key;
    }
  }

  /** `filter(...).delete()` on the rows: every row the filter selects goes,
      the others stay in their order. */
  function DeleteRows(rows: seq<ProfileWatchlist>, selected: ProfileWatchlist -> bool): (r: seq<ProfileWatchlist>)
  {
    Filter(rows, (x: ProfileWatchlist) => !selected(x))
  }

  /** A delete whose filter selects no row changes nothing. */
  lemma DeleteNothing(rows: seq<ProfileWatchlist>, selected: ProfileWatchlist -> bool)
    requires forall x :: x in rows ==> !selected(x)
    ensures DeleteRows(rows, selected) == rows
  {
    FilterAll(rows, (x: ProfileWatchlist) => !selected(x));
  }

  /** Deleting rows keeps the table's invariant: a subsequence of an ordered
      table with unique keys is one. */
  lemma DeleteRowsValid(rows: seq<ProfileWatchlist>, nextPk: nat, selected: ProfileWatchlist -> bool)
    requires WatchTableValid(rows, nextPk)
    ensures WatchTableValid(DeleteRows(rows, selected), nextPk)
  {
    var keep := (x: ProfileWatchlist) => !selected(x);
    var before := (a: ProfileWatchlist, b: ProfileWatchlist) => a.pk < b.pk && WatchKey(a) != WatchKey(b);
    FilterKeepsPairs(rows, keep, before);
    var r := DeleteRows(rows, selected);
    assert forall i :: 0 <= i < |r| ==> r[i] in rows;
  }

  // ---------------------------------------------------------------------------
  // Request handling common to the handlers

  /** The catalog object a request names, or the response when there is none. */
  datatype Lookup = Found(item: ContentRef) | Missing(response: Response)

  /** `get_object_or_404(Movie|TVShow, id=content_id)`: a missing id matches
      no row (404), text that is not an integer makes the query raise. */
  function Resolve(cat: Catalog, kind: Kind, id: Posted): (r: Lookup)
    ensures r.Found? <==> id.Number? && (if kind == MovieKind then cat.HasMovie(id.n) else cat.HasShow(id.n))
    ensures r.Found? ==> r.item == (if kind == MovieKind then MovieRef(id.n) else ShowRef(id.n))
    ensures r.Missing? ==> r.response == (if id.Garbage? then ServerError else NotFound)
  {
    match id
    case Absent => Missing(NotFound)
    case Garbage => Missing(ServerError)
    case Number(n) =>
      if kind == MovieKind then (if cat.HasMovie(n) then Found(MovieRef(n)) else Missing(NotFound))
      else (if cat.HasShow(n) then Found(ShowRef(n)) else Missing(NotFound))
  }

  /** The checks both watchlist handlers make before touching the table, in
      their order: login, POST, an active profile, a known content type.
      `Some(response)` ends the request with the table untouched. */
  function WatchGate(req: Request): Option<Response>
  {
    if !req.session.LoggedIn() then Some(RedirectToLogin)
    else if !req.isPost then Some(RedirectBack)
    else if !req.session.HasActiveProfile() then Some(RedirectToProfileSelect)
    else if KindOf(req.contentType).None? then Some(RedirectBack)
    else None
  }

  /** The table's foreign keys hold: every row names an existing profile and
      an existing catalog item. */
  predicate ReferencesExist(rows: seq<ProfileWatchlist>, profiles: set<int>, cat: Catalog)
  {
    forall i :: 0 <= i < |rows| ==>
      && rows[i].profile in profiles
      && match rows[i].item
         case MovieRef(n) => cat.HasMovie(n)
         case ShowRef(n) => cat.HasShow(n)
  }

  /** What a watchlist request ends with: the response and the new table. */
  datatype WatchOutcome = WatchOutcome(response: Response, rows: seq<ProfileWatchlist>, nextPk: nat)

  // ---------------------------------------------------------------------------
  // add_to_watchlist

  /** The (profile, item) key an add request reaches the table with, or the
      response it ends with before that. */
  function AddTarget(req: Request, cat: Catalog): Result<(int, ContentRef)>
  {
    match WatchGate(req)
    case Some(resp) => Stop(resp)
    case None =>
      match Resolve(cat, KindOf(req.contentType).value, req.contentId)
      case Missing(resp) => Stop(resp)
      case Found(item) => Go((req.session.activeProfile.value, item))
  }

  datatype Result<T> = Stop(response: Response) | Go(target: T)

  /** `add_to_watchlist`, given the ids of the existing profiles: the row is
      got or created and the user is sent back. Creating a row for a session
      profile id that names no profile breaks the foreign key, and the request
      fails. Every other exit leaves the table as it was. The table only ever
      grows by one row, appended under the next key and naming an existing
      profile. */
  function AddToWatchlistSpec(
    req: Request, cat: Catalog, profiles: set<int>, rows: seq<ProfileWatchlist>, nextPk: nat): (o: WatchOutcome)
    ensures || (o.rows == rows && o.nextPk == nextPk)
            || (&& o.response == RedirectBack
                && o.nextPk == nextPk + 1
                && |o.rows| == |rows| + 1 && o.rows[..|rows|] == rows
                && o.rows[|rows|].pk == nextPk && o.rows[|rows|].profile in profiles)
  {
    match AddTarget(req, cat)
    case Stop(resp) => WatchOutcome(resp, rows, nextPk)
    case Go(key) =>
      if !HasRow(rows, key) && key.0 !in profiles then WatchOutcome(ServerError, rows, nextPk)
      else WatchOutcome(RedirectBack, GetOrCreateRows(rows, nextPk, key), NextPkAfter(rows, nextPk, key))
  }

  /** Which requests reach the table: a logged-in POST with an active profile,
      a known content type and the id of an existing movie or show. The key
      is the session's profile and that item. */
  lemma AddTargetSpec(req: Request, cat: Catalog)
    ensures AddTarget(req, cat).Go? <==>
      && req.session.LoggedIn() && req.isPost && req.session.HasActiveProfile()
      && KindOf(req.contentType).Some? && req.contentId.Number?
      && (if req.contentType == "movie" then cat.HasMovie(req.contentId.n) else cat.HasShow(req.contentId.n))
    ensures AddTarget(req, cat).Go? ==>
      (AddTarget(req, cat).target ==
        (req.session.activeProfile.value,
         if req.contentType == "movie" then MovieRef(req.contentId.n) else ShowRef(req.contentId.n)))
    ensures !req.session.LoggedIn() ==> AddTarget(req, cat) == Stop(RedirectToLogin)
    ensures req.session.LoggedIn() && !req.isPost ==> AddTarget(req, cat) == Stop(RedirectBack)
    ensures req.session.LoggedIn() && req.isPost && !req.session.HasActiveProfile() ==>
      AddTarget(req, cat) == Stop(RedirectToProfileSelect)
  {
  }

  /** Adding keeps the table's invariant. An add that reaches the table with
      an existing profile, or finds its row already there, leaves exactly one
      row for the key, loses no row and adds none for another key; one whose
      profile does not exist fails with the table unchanged; every earlier
      exit changes nothing. */
  lemma AddToWatchlistKeepsTable(
    req: Request, cat: Catalog, profiles: set<int>, rows: seq<ProfileWatchlist>, nextPk: nat)
    requires WatchTableValid(rows, nextPk)
    ensures var o := AddToWatchlistSpec(req, cat, profiles, rows, nextPk);
      && WatchTableValid(o.rows, o.nextPk)
      && (AddTarget(req, cat).Go? && (AddTarget(req, cat).target.0 in profiles || HasRow(rows, AddTarget(req, cat).target)) ==>
            && o.response == RedirectBack
            && CountRows(o.rows, AddTarget(req, cat).target) == 1
            && (forall x :: x in rows ==> x in o.rows)
            && (forall x :: x in o.rows && WatchKey(x) != AddTarget(req, cat).target ==> x in rows))
      && (AddTarget(req, cat).Go? && AddTarget(req, cat).target.0 !in profiles && !HasRow(rows, AddTarget(req, cat).target) ==>
            o == WatchOutcome(ServerError, rows, nextPk))
      && (AddTarget(req, cat).Stop? ==> o.rows == rows && o.nextPk == nextPk)
  {
    if AddTarget(req, cat).Go? {
      GetOrCreateRowsSpec(rows, nextPk, AddTarget(req, cat).target);
    }
  }

  /** An add keeps the foreign keys: the rows it leaves all name existing
      profiles and catalog items. On such a table an add for a profile id that
      names no profile always fails. */
  lemma AddToWatchlistKeepsReferences(
    req: Request, cat: Catalog, profiles: set<int>, rows: seq<ProfileWatchlist>, nextPk: nat)
    requires ReferencesExist(rows, profiles, cat)
    ensures ReferencesExist(AddToWatchlistSpec(req, cat, profiles, rows, nextPk).rows, profiles, cat)
    ensures AddTarget(req, cat).Go? && AddTarget(req, cat).target.0 !in profiles ==>
      AddToWatchlistSpec(req, cat, profiles, rows, nextPk) == WatchOutcome(ServerError, rows, nextPk)
  {
    var o := AddToWatchlistSpec(req, cat, profiles, rows, nextPk);
    if AddTarget(req, cat).Go? {
      var key := AddTarget(req, cat).target;
      AddTargetSpec(req, cat);
      if key.0 !in profiles {
        assert !HasRow(rows, key) by {
          forall i | 0 <= i < |rows| ensures WatchKey(rows[i]) != key {
            assert rows[i].profile in profiles;
          }
        }
      } else if !HasRow(rows, key) {
        assert o.rows == rows + [ProfileWatchlist(nextPk, key.0, key.1)];
        forall i | 0 <= i < |o.rows|
          ensures o.rows[i].profile in profiles
          ensures match o.rows[i].item
                  case MovieRef(n) => cat.HasMovie(n)
                  case ShowRef(n) => cat.HasShow(n)
        {
          if i < |rows| {
            assert o.rows[i] == rows[i];
          }
        }
      }
    }
  }

  /** Posting the same add twice has the effect of posting it once. */
  lemma AddToWatchlistIdempotent(
    req: Request, cat: Catalog, profiles: set<int>, rows: seq<ProfileWatchlist>, nextPk: nat)
    ensures var o := AddToWatchlistSpec(req, cat, profiles, rows, nextPk);
      AddToWatchlistSpec(req, cat, profiles, o.rows, o.nextPk) == o
  {
    if AddTarget(req, cat).Go? {
      var key := AddTarget(req, cat).target;
      GetOrCreateRowsIdempotent(rows, nextPk, NextPkAfter(rows, nextPk, key), key);
      if HasRow(rows, key) || key.0 in profiles {
        var r := GetOrCreateRows(rows, nextPk, key);
        if !HasRow(rows, key) {
          assert WatchKey(r[|rows|]) == key;
        }
        assert HasRow(r, key);
      }
    }
  }

  /** After a successful add the item's page shows it as listed for the
      session's profile: the movie page's flag for a movie, and the flag the
      show page should read for a show. */
  lemma AddedItemIsFlagged(req: Request, cat: Catalog, profiles: set<int>, rows: seq<ProfileWatchlist>, nextPk: nat)
    requires WatchTableValid(rows, nextPk)
    requires AddTarget(req, cat).Go? && AddTarget(req, cat).target.0 in profiles
    ensures var o := AddToWatchlistSpec(req, cat, profiles, rows, nextPk);
      match AddTarget(req, cat).target.1
      case MovieRef(n) => InWatchlist(o.rows, req.session, n)
      case ShowRef(n) => ShowInWatchlist(o.rows, req.session, n)
  {
    var key := AddTarget(req, cat).target;
    var o := AddToWatchlistSpec(req, cat, profiles, rows, nextPk);
    GetOrCreateRowsSpec(rows, nextPk, key);
    var i :| 0 <= i < |o.rows| && WatchKey(o.rows[i]) == key;
    assert o.rows[i] in o.rows;
  }

  /** A concrete case: user 1, on profile 7, adds show 3 from the catalog.
      The profile's list now holds the show, yet the show page as written,
      asking the older per-account list, does not flag it. */
  lemma AddedShowNotFlaggedExample()
    ensures var cat := Catalog([], [], [TVShow(3, "", "", 0, 0, "", {}, false)], []);
      var req := Request(Session(Some(1), Some(7)), true, "tvshow", Number(3), Absent, None);
      var o := AddToWatchlistSpec(req, cat, {7}, [], 1);
      && ShowInWatchlist(o.rows, req.session, 3)
      && !ShowInLegacyWatchlist([], req.session, 3)
  {
    var cat := Catalog([], [], [TVShow(3, "", "", 0, 0, "", {}, false)], []);
    var req := Request(Session(Some(1), Some(7)), true, "tvshow", Number(3), Absent, None);
    assert cat.shows[0] in cat.shows;
    var o := AddToWatchlistSpec(req, cat, {7}, [], 1);
    assert o.rows[0] in o.rows;
  }

  // ---------------------------------------------------------------------------
  // remove_from_watchlist

  /** The rows `filter(profile_id=profile, movie_id=n)` (or `tv_show_id=n`) selects. */
  predicate NamedRow(row: ProfileWatchlist, profile: int, kind: Kind, n: int)
  {
    WatchKey(row) == (profile, if kind == MovieKind then MovieRef(n) else ShowRef(n))
  }

  /** The same filter with no `content_id`, as the query compiles it: comparing
      a foreign key with `None` becomes `IS NULL`, and the movie column is null
      exactly on show rows (and the other way round). */
  predicate NullColumnRow(row: ProfileWatchlist, profile: int, kind: Kind)
  {
    row.profile == profile && (if kind == MovieKind then row.item.ShowRef? else row.item.MovieRef?)
  }

  /** `remove_from_watchlist` as written: with no `content_id` the filter
      deletes the profile's rows of the other kind. */
  function RemoveFromWatchlistAsWritten(req: Request, rows: seq<ProfileWatchlist>, nextPk: nat): (o: WatchOutcome)
    ensures o.nextPk == nextPk
    ensures forall x :: x in o.rows ==> x in rows
    ensures o.rows != rows ==> WatchGate(req).None? && !req.contentId.Garbage? && o.response == RedirectBack
    ensures forall x :: x in rows && x !in o.rows ==>
      WatchGate(req).None? && x.profile == req.session.activeProfile.value
  {
    match WatchGate(req)
    case Some(resp) => WatchOutcome(resp, rows, nextPk)
    case None =>
      var profile, kind := req.session.activeProfile.value, KindOf(req.contentType).value;
      match req.contentId
      case Garbage => WatchOutcome(ServerError, rows, nextPk)
      case Absent =>
        WatchOutcome(RedirectBack, DeleteRows(rows, (x: ProfileWatchlist) => NullColumnRow(x, profile, kind)), nextPk)
      case Number(n) =>
        WatchOutcome(RedirectBack, DeleteRows(rows, (x: ProfileWatchlist) => NamedRow(x, profile, kind, n)), nextPk)
  }

  /** `remove_from_watchlist` as intended: only the named row of the active
      profile goes, and a request that names nothing deletes nothing. */
  function RemoveFromWatchlistSpec(req: Request, rows: seq<ProfileWatchlist>, nextPk: nat): (o: WatchOutcome)
    ensures o.nextPk == nextPk
    ensures forall x :: x in o.rows ==> x in rows
    ensures o.rows != rows ==> WatchGate(req).None? && req.contentId.Number? && o.response == RedirectBack
    ensures forall x :: x in rows && x !in o.rows ==>
      WatchGate(req).None? && x.profile == req.session.activeProfile.value
  {
    match WatchGate(req)
    case Some(resp) => WatchOutcome(resp, rows, nextPk)
    case None =>
      var profile, kind := req.session.activeProfile.value, KindOf(req.contentType).value;
      match req.contentId
      case Garbage => WatchOutcome(ServerError, rows, nextPk)
      case Absent => WatchOutcome(RedirectBack, rows, nextPk)
      case Number(n) =>
        WatchOutcome(RedirectBack, DeleteRows(rows, (x: ProfileWatchlist) => NamedRow(x, profile, kind, n)), nextPk)
  }

  /** The two removes differ only on a form without `content_id`: whenever the
      id is posted, the handler as written behaves as intended. */
  lemma RemoveAsWrittenAgrees(req: Request, rows: seq<ProfileWatchlist>, nextPk: nat)
    requires !req.contentId.Absent?
    ensures RemoveFromWatchlistAsWritten(req, rows, nextPk) == RemoveFromWatchlistSpec(req, rows, nextPk)
  {
  }

  /** The row a remove request names, when it passes the checks and names one. */
  function RemoveTarget(req: Request): Option<(int, ContentRef)>
  {
    if WatchGate(req).None? && req.contentId.Number? then
      Some((req.session.activeProfile.value,
            if req.contentType == "movie" then MovieRef(req.contentId.n) else ShowRef(req.contentId.n)))
    else None
  }

  /** A remove deletes the named row of the active profile and nothing else:
      afterwards no row holds that key, every other row is kept, the key
      counter is untouched and the table's invariant holds. */
  lemma RemoveFromWatchlistDeletesOnlyTarget(req: Request, rows: seq<ProfileWatchlist>, nextPk: nat)
    requires WatchTableValid(rows, nextPk)
    ensures var o := RemoveFromWatchlistSpec(req, rows, nextPk);
      && WatchTableValid(o.rows, o.nextPk)
      && o.nextPk == nextPk
      && (forall x :: x in o.rows <==> x in rows && (RemoveTarget(req).None? || WatchKey(x) != RemoveTarget(req).value))
      && (RemoveTarget(req).Some? ==> !HasRow(o.rows, RemoveTarget(req).value))
  {
    var o := RemoveFromWatchlistSpec(req, rows, nextPk);
    if RemoveTarget(req).Some? {
      var profile, kind := req.session.activeProfile.value, KindOf(req.contentType).value;
      DeleteRowsValid(rows, nextPk, (x: ProfileWatchlist) => NamedRow(x, profile, kind, req.contentId.n));
      assert forall i :: 0 <= i < |o.rows| ==> o.rows[i] in o.rows;
    }
  }

  /** Removing what is not listed changes nothing: the rows keep their order. */
  lemma RemoveFromWatchlistAbsentNoop(req: Request, rows: seq<ProfileWatchlist>, nextPk: nat)
    requires RemoveTarget(req).Some? ==> !HasRow(rows, RemoveTarget(req).value)
    ensures RemoveFromWatchlistSpec(req, rows, nextPk).rows == rows
  {
    if RemoveTarget(req).Some? {
      var profile, kind := req.session.activeProfile.value, KindOf(req.contentType).value;
      var selected := (x: ProfileWatchlist) => NamedRow(x, profile, kind, req.contentId.n);
      forall x | x in rows ensures !selected(x) {
        var i :| 0 <= i < |rows| && rows[i] == x;
      }
      DeleteNothing(rows, selected);
    }
  }

  /** The handler as written, given a form with no `content_id` for a movie,
      deletes every show on the active profile's list. */
  lemma RemoveWithoutIdDeletesShows(req: Request, rows: seq<ProfileWatchlist>, nextPk: nat)
    requires WatchGate(req).None? && req.contentType == "movie" && req.contentId.Absent?
    ensures forall x :: x in rows && x.profile == req.session.activeProfile.value && x.item.ShowRef? ==>
      x !in RemoveFromWatchlistAsWritten(req, rows, nextPk).rows
    ensures RemoveFromWatchlistSpec(req, rows, nextPk).rows == rows
  {
  }

  /** A concrete case: profile 7 has show 3 listed; a remove form for a movie
      that omits the id empties the list, where nothing should change. */
  lemma RemoveWithoutIdExample()
    ensures var req := Request(Session(Some(1), Some(7)), true, "movie", Absent, Absent, None);
      var rows := [ProfileWatchlist(1, 7, ShowRef(3))];
      && RemoveFromWatchlistAsWritten(req, rows, 2).rows == []
      && RemoveFromWatchlistSpec(req, rows, 2).rows == rows
  {
    var rows := [ProfileWatchlist(1, 7, ShowRef(3))];
    var doomed := (x: ProfileWatchlist) => NullColumnRow(x, 7, MovieKind);
    assert DeleteRows(rows, doomed) == Filter(rows[1..], (x: ProfileWatchlist) => !doomed(x));
  }

  /** A request that is not a POST, names an unknown content type, or (for the
      watchlist handlers) comes without an active profile is turned away with
      both tables as they were. */
  lemma RejectedRequestsChangeNothing(
    req: Request, cat: Catalog, profiles: set<int>, rows: seq<ProfileWatchlist>, nextPk: nat,
    reviews: map<ReviewKey, ReviewBody>)
    requires req.session.LoggedIn()
    requires !req.isPost || KindOf(req.contentType).None? || !req.session.HasActiveProfile()
    ensures var a := AddToWatchlistSpec(req, cat, profiles, rows, nextPk);
      a.rows == rows && a.nextPk == nextPk
    ensures var r := RemoveFromWatchlistSpec(req, rows, nextPk);
      r.rows == rows && r.nextPk == nextPk
    ensures !req.isPost || KindOf(req.contentType).None? ==> AddReviewSpec(req, cat, reviews).reviews == reviews
    ensures !req.isPost ==>
      && AddToWatchlistSpec(req, cat, profiles, rows, nextPk).response == RedirectBack
      && RemoveFromWatchlistSpec(req, rows, nextPk).response == RedirectBack
      && AddReviewSpec(req, cat, reviews).response == RedirectBack
    ensures req.isPost && !req.session.HasActiveProfile() ==>
      && AddToWatchlistSpec(req, cat, profiles, rows, nextPk).response == RedirectToProfileSelect
      && RemoveFromWatchlistSpec(req, rows, nextPk).response == RedirectToProfileSelect
  {
  }

  // ---------------------------------------------------------------------------
  // add_review

  /** What a review request ends with: the response and the new review table. */
  datatype ReviewOutcome = ReviewOutcome(response: Response, reviews: map<ReviewKey, ReviewBody>)

  /** The key and the new body a review request writes, or the response it
      ends with before writing. The rating is read before the content type is
      looked at. The write fails for a form without a comment, on the NOT NULL
      column, and for a rating the integer column cannot hold. */
  function ReviewTarget(req: Request, cat: Catalog): Result<(ReviewKey, ReviewBody)>
  {
    if !req.session.LoggedIn() then Stop(RedirectToLogin)
    else if !req.isPost then Stop(RedirectBack)
    else if !req.rating.Number? then Stop(ServerError)
    else if KindOf(req.contentType).None? then Stop(RedirectBack)
    else
      match Resolve(cat, KindOf(req.contentType).value, req.contentId)
      case Missing(resp) => Stop(resp)
      case Found(item) =>
        if req.comment.None? || !FitsIntegerColumn(req.rating.n) then Stop(ServerError)
        else Go((ReviewKey(req.session.user.value, item), ReviewBody(req.rating.n, req.comment.value)))
  }

  /** `add_review`: `update_or_create` keyed by (user, item); no validator
      runs. No entry is ever dropped, and an entry that is new or changed
      belongs to the signed-in user, holds a rating the column can store, and
      comes with a redirect back. */
  function AddReviewSpec(req: Request, cat: Catalog, reviews: map<ReviewKey, ReviewBody>): (o: ReviewOutcome)
    ensures forall k :: k in reviews ==> k in o.reviews
    ensures forall k :: k in o.reviews && (k !in reviews || o.reviews[k] != reviews[k]) ==>
      && o.response == RedirectBack
      && req.session.user == Some(k.user)
      && FitsIntegerColumn(o.reviews[k].rating)
  {
    match ReviewTarget(req, cat)
    case Stop(resp) => ReviewOutcome(resp, reviews)
    case Go(kb) => ReviewOutcome(RedirectBack, reviews[kb.0 := kb.1])
  }

  /** Which requests write a review, and what they write. */
  lemma ReviewTargetSpec(req: Request, cat: Catalog)
    ensures ReviewTarget(req, cat).Go? <==>
      && req.session.LoggedIn() && req.isPost && req.rating.Number?
      && KindOf(req.contentType).Some? && req.contentId.Number?
      && (if req.contentType == "movie" then cat.HasMovie(req.contentId.n) else cat.HasShow(req.contentId.n))
      && req.comment.Some? && FitsIntegerColumn(req.rating.n)
    ensures ReviewTarget(req, cat).Go? ==>
      (ReviewTarget(req, cat).target ==
        (ReviewKey(req.session.user.value, if req.contentType == "movie" then MovieRef(req.contentId.n) else ShowRef(req.contentId.n)),
         ReviewBody(req.rating.n, req.comment.value)))
    ensures req.session.LoggedIn() && req.isPost && !req.rating.Number? ==> ReviewTarget(req, cat) == Stop(ServerError)
  {
  }

  /** A review write replaces the one (user, item) entry and leaves every
      other entry as it was; a rejected request leaves the table as it was. */
  lemma AddReviewUpserts(req: Request, cat: Catalog, reviews: map<ReviewKey, ReviewBody>)
    ensures var o := AddReviewSpec(req, cat, reviews);
      && (ReviewTarget(req, cat).Stop? ==> o.reviews == reviews)
      && (ReviewTarget(req, cat).Go? ==>
            && o.response == RedirectBack
            && o.reviews.Keys == reviews.Keys + {ReviewTarget(req, cat).target.0}
            && o.reviews[ReviewTarget(req, cat).target.0] == ReviewTarget(req, cat).target.1
            && forall k :: k in reviews && k != ReviewTarget(req, cat).target.0 ==> o.reviews[k] == reviews[k])
  {
  }

  /** Two successful reviews of the same item by the same user: the second one
      wins and the first leaves no trace. */
  lemma AddReviewLastWins(req1: Request, req2: Request, cat: Catalog, reviews: map<ReviewKey, ReviewBody>)
    requires ReviewTarget(req1, cat).Go? && ReviewTarget(req2, cat).Go?
    requires req1.session.user == req2.session.user
    requires req1.contentType == req2.contentType && req1.contentId == req2.contentId
    ensures AddReviewSpec(req2, cat, AddReviewSpec(req1, cat, reviews).reviews) == AddReviewSpec(req2, cat, reviews)
  {
    ReviewTargetSpec(req1, cat);
    ReviewTargetSpec(req2, cat);
  }

  /** No validator runs on the way in: a table whose ratings are all in 1..5
      stays so exactly when the request writes nothing or writes a rating in
      1..5. */
  lemma AddReviewRatingUnchecked(req: Request, cat: Catalog, reviews: map<ReviewKey, ReviewBody>)
    requires ReviewRatingsValid(reviews)
    ensures ReviewRatingsValid(AddReviewSpec(req, cat, reviews).reviews) <==>
      ReviewTarget(req, cat).Stop? || ValidReviewRating(ReviewTarget(req, cat).target.1.rating)
  {
    if ReviewTarget(req, cat).Go? {
      var k := ReviewTarget(req, cat).target.0;
      assert k in AddReviewSpec(req, cat, reviews).reviews;
    }
  }

  // ---------------------------------------------------------------------------
  // The tables, updated in place

  /** The watchlist and review tables with the watchlist's key counter. */
  class Store {
    var watchlist: seq<ProfileWatchlist>
    var nextPk: nat
    var reviews: map<ReviewKey, ReviewBody>

    ghost predicate Valid()
      reads this
    {
      WatchTableValid(watchlist, nextPk)
    }

    constructor ()
      ensures Valid() && watchlist == [] && nextPk == 1 && reviews == map[]
    {
      watchlist := [];
      nextPk := 1;
      reviews := map[];
    }

    /** `ProfileWatchlist.objects.get_or_create`, given the ids of the
        existing profiles: the row holding the key and whether it had to be
        created, or `None` when the insert names a missing profile and fails. */
    method GetOrCreate(key: (int, ContentRef), profiles: set<int>) returns (row: Option<ProfileWatchlist>, created: bool)
      requires Valid()
      modifies this
      ensures Valid()
      ensures row.None? <==> !old(HasRow(watchlist, key)) && key.0 !in profiles
      ensures row.None? ==> !created && watchlist == old(watchlist) && nextPk == old(nextPk)
      ensures row.Some? ==>
        && (created <==> !old(HasRow(watchlist, key)))
        && WatchKey(row.value) == key && row.value in watchlist
        && watchlist == GetOrCreateRows(old(watchlist), old(nextPk), key)
        && nextPk == NextPkAfter(old(watchlist), old(nextPk), key)
      ensures reviews == old(reviews)
    {
      GetOrCreateRowsSpec(watchlist, nextPk, key);
      for i := 0 to |watchlist|
        invariant forall j :: 0 <= j < i ==> WatchKey(watchlist[j]) != key
      {
        if WatchKey(watchlist[i]) == key {
          return Some(watchlist[i]), false;
        }
      }
      if key.0 !in profiles {
        return None, false;
      }
      var added := ProfileWatchlist(nextPk, key.0, key.1);
      watchlist := watchlist + [added];
      nextPk := nextPk + 1;
      row, created := Some(added), true;
    }

    method AddToWatchlist(req: Request, cat: Catalog, profiles: set<int>) returns (resp: Response)
      requires Valid()
      modifies this
      ensures Valid()
      ensures WatchOutcome(resp, watchlist, nextPk) == AddToWatchlistSpec(req, cat, profiles, old(watchlist), old(nextPk))
      ensures reviews == old(reviews)
    {
      if !req.session.LoggedIn() {
        return RedirectToLogin;
      }
      if !req.isPost {
        return RedirectBack;
      }
      if !req.session.HasActiveProfile() {
        return RedirectToProfileSelect;
      }
      var kind := KindOf(req.contentType);
      if kind.None? {
        return RedirectBack;
      }
      var found := Resolve(cat, kind.value, req.contentId);
      if found.Missing? {
        return found.response;
      }
      var row, _ := GetOrCreate((req.session.activeProfile.value, found.item), profiles);
      resp := if row.None? then ServerError else RedirectBack;
    }

    method RemoveFromWatchlist(req: Request) returns (resp: Response)
      requires Valid()
      modifies this
      ensures Valid()
      ensures WatchOutcome(resp, watchlist, nextPk) == RemoveFromWatchlistSpec(req, old(watchlist), old(nextPk))
      ensures reviews == old(reviews)
    {
      RemoveFromWatchlistDeletesOnlyTarget(req, watchlist, nextPk);
      if !req.session.LoggedIn() {
        return RedirectToLogin;
      }
      if !req.isPost {
        return RedirectBack;
      }
      if !req.session.HasActiveProfile() {
        return RedirectToProfileSelect;
      }
      var kind := KindOf(req.contentType);
      if kind.None? {
        return RedirectBack;
      }
      match req.contentId
      case Garbage =>
        resp := ServerError;
      case Absent =>
        resp := RedirectBack;
      case Number(n) =>
        var profile := req.session.activeProfile.value;
        watchlist := DeleteRows(watchlist, (x: ProfileWatchlist) => NamedRow(x, profile, kind.value, n));
        resp := RedirectBack;
    }

    method AddReview(req: Request, cat: Catalog) returns (resp: Response)
      modifies this
      ensures ReviewOutcome(resp, reviews) == AddReviewSpec(req, cat, old(reviews))
      ensures watchlist == old(watchlist) && nextPk == old(nextPk)
    {
      if !req.session.LoggedIn() {
        return RedirectToLogin;
      }
      if !req.isPost {
        return RedirectBack;
      }
      if !req.rating.Number? {
        return ServerError;
      }
      var kind := KindOf(req.contentType);
      if kind.None? {
        return RedirectBack;
      }
      var found := Resolve(cat, kind.value, req.contentId);
      if found.Missing? {
        return found.response;
      }
      if req.comment.None? || !FitsIntegerColumn(req.rating.n) {
        return ServerError;
      }
      reviews := reviews[ReviewKey(req.session.user.value, found.item) := ReviewBody(req.rating.n, req.comment.value)];
      resp := RedirectBack;
    }
  }
}
