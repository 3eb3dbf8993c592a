/** The parts of a request the handlers look at, and the responses they give.
    Rendering, redirects, flash messages and the session store are framework
    calls; here a response is one of a few abstract outcomes. */
module Http {
  import opened Basics

  /** The authenticated account, if any, and the session's active profile id. */
  datatype Session = Session(user: Option<int>, activeProfile: Option<int>)
  {
    predicate LoggedIn() { user.Some? }

    /** `request.session.get('active_profile_id')` is truthy: present and not 0. */
    predicate HasActiveProfile() { activeProfile.Some? && activeProfile.value != 0 }
  }

  /** A request to one of the mutating handlers. `contentType` is "" when the
      form omits it; the three posted numbers are as `int(...)` reads them. */
  datatype Request = Request(
    session: Session, isPost: bool, contentType: string, contentId: Posted,
    rating: Posted, comment: Option<string>)

  datatype Response =
    | RedirectToLogin           // `login_required` turned the request away
    | RedirectToProfileSelect   // "Select a profile first."
    | RedirectBack              // back to the referring page, or "/"
    | NotFound                  // `get_object_or_404` found nothing
    | ServerError               // an exception escaped the handler

  /** The two values of `content_type` the handlers act on. */
  datatype Kind = MovieKind | ShowKind

  function KindOf(contentType: string): Option<Kind>
  {
    if contentType == "movie" then Some(MovieKind)
    else if contentType == "tvshow" then Some(ShowKind)
    else None
  }
}
