/**
 The routes of app.py as a sequential state machine. Here only the year search
 goes through the module-level `filtered_films` list: its submission overwrites
 the list and its result page paginates it. The genre page and the keyword search
 filter into a local list and answer directly, and the keyword form page always
 shows an empty table.
 */
module AppRoutes {
  import opened Catalog
  import opened Pagination
  import Serving

  /** The process-wide `filtered_films` list. */
  datatype State = State(slot: seq<Film>)

  /** The state at process start: an empty result list. */
  const Initial: State := State([])

  /** The requests app.py serves, with their form and query parameters. */
  datatype Request =
    | ListGenres
    | GenrePage(genre: string, page: int)
    | KeywordForm
    | SubmitKeyword(keyword: string, page: int)
    | SubmitYears(yearFrom: int, yearTo: int)
    | ViewYears(page: int)

  /** What a route hands to its template, or the redirect a submission answers with. */
  datatype Response =
    | GenreList(genres: seq<string>)
    | Listing(pagination: Page<Film>)
    | EmptyForm(items: seq<Film>)
    | Redirect(location: string)

  datatype Step = Step(state: State, response: Response)

  /** One request against the current slot. */
  function Handle(s: State, catalog: seq<Film>, req: Request): (t: Step)
    ensures req.SubmitYears? ==>
      t.state.slot == Filter(catalog, YearRange(req.yearFrom, req.yearTo)) &&
      t.response.Redirect?
    ensures !req.SubmitYears? ==> t.state == s
    ensures req.ViewYears? ==> t.response == Listing(Paginate(s.slot, req.page, PerPage))
    ensures req.GenrePage? ==>
      t.response == Listing(Paginate(Filter(catalog, Genre(req.genre)), req.page, PerPage))
    ensures req.SubmitKeyword? ==>
      t.response == Listing(Paginate(Filter(catalog, Keyword(req.keyword)), req.page, PerPage))
    ensures req.KeywordForm? ==> t.response == EmptyForm([])
    ensures req.ListGenres? ==> t.response == GenreList(GenreIndex(catalog))
  {
    match req
    case ListGenres => Step(s, GenreList(GenreIndex(catalog)))
    case GenrePage(g, page) =>
      Step(s, Listing(Paginate(Filter(catalog, Genre(g)), page, PerPage)))
    case KeywordForm => Step(s, EmptyForm([]))
    case SubmitKeyword(kw, page) =>
      Step(s, Listing(Paginate(Filter(catalog, Keyword(kw)), page, PerPage)))
    case SubmitYears(lo, hi) =>
      Step(State(Filter(catalog, YearRange(lo, hi))), Redirect("/search/year"))
    case ViewYears(page) => Step(s, Listing(Paginate(s.slot, page, PerPage)))
  }

  /** The state change one request makes, against a fixed catalog. */
  function Next(catalog: seq<Film>): (State, Request) -> State {
    (s: State, req: Request) => Handle(s, catalog, req).state
  }

  /** The state after serving `reqs` one after another. */
  function Run(s: State, catalog: seq<Film>, reqs: seq<Request>): State {
    Serving.Run(Next(catalog), s, reqs)
  }

  /** Reference for the slot, read backwards: the result of the most recent year
      submission, or `initial` when there was none. */
  function LastYearSearch(catalog: seq<Film>, reqs: seq<Request>, initial: seq<Film>): seq<Film>
    decreases |reqs|
  {
    if |reqs| == 0 then initial
    else
      var last := reqs[|reqs| - 1];
      if last.SubmitYears? then Filter(catalog, YearRange(last.yearFrom, last.yearTo))
      else LastYearSearch(catalog, reqs[..|reqs| - 1], initial)
  }

  /** After any sequence of requests the slot holds the result of the last year submission;
      genre and keyword requests never reach it. */
  lemma {:induction false} SlotIsLastYearSearch(s: State, catalog: seq<Film>, reqs: seq<Request>)
    ensures Run(s, catalog, reqs).slot == LastYearSearch(catalog, reqs, s.slot)
    decreases |reqs|
  {
    if |reqs| > 0 {
      var init := reqs[..|reqs| - 1];
      assert reqs == init + [reqs[|reqs| - 1]];
      Serving.RunAppend(Next(catalog), s, init, reqs[|reqs| - 1]);
      SlotIsLastYearSearch(s, catalog, init);
    }
  }

  /** The year result page shows the last year search, or an empty page if there was none. */
  lemma YearViewShowsLastYearSearch(catalog: seq<Film>, reqs: seq<Request>, page: int)
    ensures Handle(Run(Initial, catalog, reqs), catalog, ViewYears(page)).response ==
      Listing(Paginate(LastYearSearch(catalog, reqs, []), page, PerPage))
  {
    SlotIsLastYearSearch(Initial, catalog, reqs);
  }

  /** Submit then view: the year result page served right after a year submission paginates
      the films of that inclusive range, in catalog order; whatever genre or keyword requests
      come in between. */
  lemma {:induction false} YearSubmitThenView(catalog: seq<Film>, s: State, yearFrom: int,
                                              yearTo: int, between: seq<Request>, page: int)
    requires forall i :: 0 <= i < |between| ==> !between[i].SubmitYears?
    ensures Handle(Run(s, catalog, [SubmitYears(yearFrom, yearTo)] + between), catalog,
                   ViewYears(page)).response ==
      Listing(Paginate(Filter(catalog, YearRange(yearFrom, yearTo)), page, PerPage))
  {
    var reqs := [SubmitYears(yearFrom, yearTo)] + between;
    SlotIsLastYearSearch(s, catalog, reqs);
    LastYearSearchSkipsQuiet(catalog, [SubmitYears(yearFrom, yearTo)], between, s.slot);
  }

  /** Requests after the last year submission do not change which search the slot shows. */
  lemma {:induction false} LastYearSearchSkipsQuiet(catalog: seq<Film>, prefix: seq<Request>,
                                                    between: seq<Request>, initial: seq<Film>)
    requires forall i :: 0 <= i < |between| ==> !between[i].SubmitYears?
    ensures LastYearSearch(catalog, prefix + between, initial) ==
      LastYearSearch(catalog, prefix, initial)
    decreases |between|
  {
    if |between| > 0 {
      var shorter := between[..|between| - 1];
      assert (prefix + between)[..|prefix + between| - 1] == prefix + shorter;
      LastYearSearchSkipsQuiet(catalog, prefix, shorter, initial);
    } else {
      assert prefix + between == prefix;
    }
  }

  /** A year range with its bounds reversed fills the slot with nothing. */
  lemma ReversedRangeViewIsEmpty(catalog: seq<Film>, s: State, yearFrom: int, yearTo: int,
                                 page: int)
    requires yearFrom > yearTo
    ensures Handle(Handle(s, catalog, SubmitYears(yearFrom, yearTo)).state, catalog,
                   ViewYears(page)).response.pagination.items == []
  {
    EmptyYearRange(catalog, yearFrom, yearTo);
  }
}
