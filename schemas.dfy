/**
 * The request and response records of the movie routes, with the field
 * constraints that validation enforces before a route runs.
 */
module Schemas {
  import opened Wrappers

  /** The three release states a movie may be in. */
  datatype Status = Released | PostProduction | InProduction

  /** The literal that stands for a status in requests and responses. */
  function StatusName(s: Status): (lit: string)
    ensures lit == "Released" || lit == "Post Production" || lit == "In Production"
  {
    match s
    case Released => "Released"
    case PostProduction => "Post Production"
    case InProduction => "In Production"
  }

  /** Validation of a status literal: only the three literals are accepted. */
  function ParseStatus(lit: string): (r: Option<Status>)
    ensures r.Some? <==> (lit == "Released" || lit == "Post Production" || lit == "In Production")
    ensures r.Some? ==> StatusName(r.value) == lit
  {
    if lit == "Released" then Some(Released)
    else if lit == "Post Production" then Some(PostProduction)
    else if lit == "In Production" then Some(InProduction)
    else None
  }

  /** Every status survives being written as its literal and read back. */
  lemma StatusRoundTrip(s: Status)
    ensures ParseStatus(StatusName(s)) == Some(s)
  {
  }

  /** A calendar date; parsing it from ISO text is library behaviour. */
  datatype Date = Date(year: int, month: int, day: int)

  /** A country row: its id, its unique code and an optional display name. */
  datatype Country = Country(id: int, code: string, name: Option<string>)

  /** A genre, actor or language row: its id and its unique name. */
  datatype Named = Named(id: int, name: string)

  type Genre = Named
  type Actor = Named
  type Language = Named

  /** A score lies between 0 and 100 inclusive. */
  predicate ValidScore(score: real) {
    0.0 <= score <= 100.0
  }

  /** A budget or a revenue is never negative. */
  predicate ValidAmount(amount: real) {
    amount >= 0.0
  }

  /** The body of a create request; related entities are given by key. */
  datatype MovieCreate = MovieCreate(
    name: string,
    date: Date,
    score: real,
    overview: string,
    status: Status,
    budget: real,
    revenue: real,
    country: string,
    genres: seq<string>,
    actors: seq<string>,
    languages: seq<string>)

  predicate ValidCreate(m: MovieCreate) {
    ValidScore(m.score) && ValidAmount(m.budget) && ValidAmount(m.revenue)
  }

  /** The longest name an update may set. */
  const MaxNameLength := 255

  /** The length of a country code an update may set. */
  const CountryCodeLength := 3

  /** The body of an update request: every field is optional and absent unless supplied. */
  datatype MovieUpdate = MovieUpdate(
    name: Option<string>,
    date: Option<Date>,
    score: Option<real>,
    overview: Option<string>,
    status: Option<Status>,
    budget: Option<real>,
    revenue: Option<real>,
    country: Option<string>,
    genres: Option<seq<string>>,
    actors: Option<seq<string>>,
    languages: Option<seq<string>>)

  /** The update that supplies no field. */
  const EmptyUpdate := MovieUpdate(None, None, None, None, None, None, None, None, None, None, None)

  predicate ValidUpdate(p: MovieUpdate) {
    && (p.name.Some? ==> |p.name.value| <= MaxNameLength)
    && (p.score.Some? ==> ValidScore(p.score.value))
    && (p.budget.Some? ==> ValidAmount(p.budget.value))
    && (p.revenue.Some? ==> ValidAmount(p.revenue.value))
    && (p.country.Some? ==> |p.country.value| == CountryCodeLength)
  }

  /** One entry of a movie list: the movie's own columns, without its relations. */
  datatype MovieSummary = MovieSummary(id: int, name: string, date: Date, score: real, overview: string)

  /** The full view of one movie, with its related rows as records carrying their ids. */
  datatype MovieDetail = MovieDetail(
    id: int,
    name: string,
    date: Date,
    score: real,
    overview: string,
    status: Status,
    budget: real,
    revenue: real,
    country: Country,
    genres: seq<Genre>,
    actors: seq<Actor>,
    languages: seq<Language>)

  predicate ValidDetail(d: MovieDetail) {
    ValidScore(d.score) && ValidAmount(d.budget) && ValidAmount(d.revenue)
  }

  /**
   * One page of a list: its entries, the numbers of the neighbouring pages
   * when they exist, and the totals.
   */
  datatype ListResponse<T> = ListResponse(
    movies: seq<T>,
    prevPage: Option<nat>,
    nextPage: Option<nat>,
    totalPages: nat,
    totalItems: nat)
}
