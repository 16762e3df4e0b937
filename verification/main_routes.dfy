/**
 The routes of main.py as a sequential state machine. The state is the module-level
 result list `filtered_films`; the genre page, the keyword submission and the year
 submission each overwrite it, and the keyword and year result pages paginate
 whatever it holds. The catalog is the films fixture, which the filtering routes
 read and nothing changes, so it is a parameter here.
 */
module MainRoutes {
  import opened Catalog
  import opened Pagination
  import Serving

  /** The process-wide `filtered_films` list. */
  datatype State = State(slot: seq<Film>)

  /** The state at process start: an empty result list. */
  const Initial: State := State([])

  /** The requests main.py serves, with their form and query parameters. */
  datatype Request =
    | ListGenres
    | GenrePage(genre: string, page: int)
    | SubmitKeyword(keyword: string)
    | ViewKeyword(page: int)
    | SubmitYears(yearFrom: int, yearTo: int)
    | ViewYears(page: int)

  /** What a route hands to its template, or the redirect a submission answers with. */
  datatype Response =
    | GenreList(genres: seq<string>)
    | Listing(pagination: Page<Film>)
    | Redirect(location: string)

  datatype Step = Step(state: State, response: Response)

  /** The requests that assign `filtered_films`. */
  predicate Writes(req: Request) {
    req.GenrePage? || req.SubmitKeyword? || req.SubmitYears?
  }

  /** The requests that render `filtered_films` without assigning it. */
  predicate Views(req: Request) {
    req.ViewKeyword? || req.ViewYears?
  }

  /** The filter a writing request stores. */
  function CriterionOf(req: Request): Criterion
    requires Writes(req)
  {
    match req
    case GenrePage(g, _) => Genre(g)
    case SubmitKeyword(kw) => Keyword(kw)
    case SubmitYears(lo, hi) => YearRange(lo, hi)
  }

  /** One request against the current slot. */
  function Handle(s: State, catalog: seq<Film>, req: Request): (t: Step)
    ensures Writes(req) ==> t.state.slot == Filter(catalog, CriterionOf(req))
    ensures !Writes(req) ==> t.state == s
    ensures Views(req) ==> t.response == Listing(Paginate(s.slot, req.page, PerPage))
    ensures req.GenrePage? ==>
      t.response == Listing(Paginate(Filter(catalog, Genre(req.genre)), req.page, PerPage))
    ensures req.SubmitKeyword? || req.SubmitYears? ==> t.response.Redirect?
    ensures req.ListGenres? ==> t.response == GenreList(GenreIndex(catalog))
  {
    match req
    case ListGenres => Step(s, GenreList(GenreIndex(catalog)))
    case GenrePage(g, page) =>
      var slot := Filter(catalog, Genre(g));
      Step(State(slot), Listing(Paginate(slot, page, PerPage)))
    case SubmitKeyword(kw) =>
      Step(State(Filter(catalog, Keyword(kw))), Redirect("/search/keyword"))
    case ViewKeyword(page) => Step(s, Listing(Paginate(s.slot, page, PerPage)))
    case SubmitYears(lo, hi) =>
      Step(State(Filter(catalog, YearRange(lo, hi))), Redirect("/search/year"))
    case ViewYears(page) => Step(s, Listing(Paginate(s.slot, page, PerPage)))
  }

  /** The state change one request makes, against a fixed catalog. */
  function Next(catalog: seq<Film>): (State, Request) -> State {
    (s: State, req: Request) => Handle(s, catalog, req).state
  }

  /** The state after serving `reqs` one after another. */
  function Run(s: State, catalog: seq<Film>, reqs: seq<Request>): State {
    Serving.Run(Next(catalog), s, reqs)
  }

  /** Reference for the slot, read backwards: the result of the most recent writing
      request, or `initial` when there was none. */
  function LastWritten(catalog: seq<Film>, reqs: seq<Request>, initial: seq<Film>): seq<Film>
    decreases |reqs|
  {
    if |reqs| == 0 then initial
    else if Writes(reqs[|reqs| - 1]) then Filter(catalog, CriterionOf(reqs[|reqs| - 1]))
    else LastWritten(catalog, reqs[..|reqs| - 1], initial)
  }

  /** After any sequence of requests the slot holds the result of the last writing one. */
  lemma {:induction false} SlotIsLastWritten(s: State, catalog: seq<Film>, reqs: seq<Request>)
    ensures Run(s, catalog, reqs).slot == LastWritten(catalog, reqs, s.slot)
    decreases |reqs|
  {
    if |reqs| > 0 {
      var init := reqs[..|reqs| - 1];
      assert reqs == init + [reqs[|reqs| - 1]];
      Serving.RunAppend(Next(catalog), s, init, reqs[|reqs| - 1]);
      SlotIsLastWritten(s, catalog, init);
    }
  }

  /** A result page shows the last search of any kind, whichever route made it. */
  lemma ViewShowsLastWritten(catalog: seq<Film>, reqs: seq<Request>, view: Request)
    requires Views(view)
    ensures Handle(Run(Initial, catalog, reqs), catalog, view).response ==
      Listing(Paginate(LastWritten(catalog, reqs, []), view.page, PerPage))
  {
    SlotIsLastWritten(Initial, catalog, reqs);
  }

  /** Requests that do not write leave the slot as they found it. */
  lemma {:induction false} QuietRunKeepsSlot(s: State, catalog: seq<Film>, reqs: seq<Request>)
    requires forall i :: 0 <= i < |reqs| ==> !Writes(reqs[i])
    ensures Run(s, catalog, reqs) == s
    decreases |reqs|
  {
    if |reqs| > 0 {
      QuietRunKeepsSlot(s, catalog, reqs[1..]);
    }
  }

  /** Submit then view: a result page served after a writing request, with only
      non-writing requests in between, paginates that request's filter result. */
  lemma SubmitThenView(s: State, catalog: seq<Film>, submit: Request, between: seq<Request>,
                       view: Request)
    requires Writes(submit) && Views(view)
    requires forall i :: 0 <= i < |between| ==> !Writes(between[i])
    ensures Handle(Run(s, catalog, [submit] + between), catalog, view).response ==
      Listing(Paginate(Filter(catalog, CriterionOf(submit)), view.page, PerPage))
  {
    assert ([submit] + between)[1..] == between;
    QuietRunKeepsSlot(Handle(s, catalog, submit).state, catalog, between);
  }

  /** Before any writing request every result page is empty, because the slot starts out
      empty; it offers no next page unless the page number is negative. */
  lemma ViewBeforeAnySubmitIsEmpty(catalog: seq<Film>, reqs: seq<Request>, view: Request)
    requires Views(view)
    requires forall i :: 0 <= i < |reqs| ==> !Writes(reqs[i])
    ensures Handle(Run(Initial, catalog, reqs), catalog, view).response.pagination.items == []
    ensures view.page >= 0 ==>
      !Handle(Run(Initial, catalog, reqs), catalog, view).response.pagination.hasNext
  {
    QuietRunKeepsSlot(Initial, catalog, reqs);
  }

  /** The slot is shared by all routes: visiting a genre page replaces a keyword search, so
      the keyword result page then lists that genre. */
  lemma GenrePageReplacesKeywordResults(s: State, catalog: seq<Film>, kw: string, g: string,
                                        genrePage: int, page: int)
    ensures Handle(Run(s, catalog, [SubmitKeyword(kw), GenrePage(g, genrePage)]), catalog,
                   ViewKeyword(page)).response ==
      Listing(Paginate(Filter(catalog, Genre(g)), page, PerPage))
  {
    SlotIsLastWritten(s, catalog, [SubmitKeyword(kw), GenrePage(g, genrePage)]);
    assert [SubmitKeyword(kw), GenrePage(g, genrePage)][..1] == [SubmitKeyword(kw)];
  }
}
