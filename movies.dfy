/**
 * The movie routes over an in-memory catalogue: the movie rows plus the
 * country, genre, actor and language lookup tables, each operation applied
 * to the catalogue as one atomic step.
 */
module Movies {
  import opened Wrappers
  import opened Schemas
  import opened Normalizer
  import opened Pagination

  /** A stored movie: its own columns and the ids of the rows it refers to. */
  datatype MovieRow = MovieRow(
    id: int,
    name: string,
    date: Date,
    score: real,
    overview: string,
    status: Status,
    budget: real,
    revenue: real,
    countryId: int,
    genreIds: seq<int>,
    actorIds: seq<int>,
    languageIds: seq<int>)

  /** The stored rows are kept in increasing id order. */
  predicate IdsIncreasing(movies: seq<MovieRow>) {
    forall i, j :: 0 <= i < j < |movies| ==> movies[i].id < movies[j].id
  }

  /** Every id refers to a row of a table of n rows. */
  predicate RefsWithin(ids: seq<int>, n: int) {
    forall k :: 0 <= k < |ids| ==> 1 <= ids[k] <= n
  }

  /** The column constraints of a movie: score in [0, 100], budget and revenue not negative. */
  predicate ValidColumns(row: MovieRow) {
    ValidScore(row.score) && ValidAmount(row.budget) && ValidAmount(row.revenue)
  }

  /** A row keeps its column constraints and refers only to rows that exist. */
  predicate RowValid(row: MovieRow, countries: nat, genres: nat, actors: nat, languages: nat) {
    && ValidColumns(row)
    && 1 <= row.countryId <= countries
    && RefsWithin(row.genreIds, genres)
    && RefsWithin(row.actorIds, actors)
    && RefsWithin(row.languageIds, languages)
  }

  /** In a list kept in id order, two rows with the same id are the same row. */
  lemma SameIdSameRow(movies: seq<MovieRow>, a: MovieRow, b: MovieRow)
    requires IdsIncreasing(movies) && a in movies && b in movies && a.id == b.id
    ensures a == b
  {
  }

  /** The lookup of a movie by id. */
  function FindMovie(movies: seq<MovieRow>, id: int): (r: Option<MovieRow>)
    ensures r.Some? ==> r.value in movies && r.value.id == id
    ensures r.None? <==> forall i :: 0 <= i < |movies| ==> movies[i].id != id
  {
    if movies == [] then None
    else if movies[0].id == id then Some(movies[0])
    else
      var r := FindMovie(movies[1..], id);
      assert forall i :: 1 <= i < |movies| ==> movies[i] == movies[1..][i - 1];
      r
  }

  /** The duplicate check of create: some stored movie has this name and date. */
  predicate HasMovie(movies: seq<MovieRow>, name: string, date: Date) {
    exists i :: 0 <= i < |movies| && movies[i].name == name && movies[i].date == date
  }

  /** The movies without the one carrying the id; the rest keep their order. */
  function RemoveMovie(movies: seq<MovieRow>, id: int): (r: seq<MovieRow>)
    ensures forall x :: x in r <==> x in movies && x.id != id
    ensures IdsIncreasing(movies) ==> IdsIncreasing(r)
  {
    if movies == [] then []
    else
      var rest := RemoveMovie(movies[1..], id);
      assert forall x :: x in movies[1..] ==> x in movies;
      if movies[0].id == id then rest else [movies[0]] + rest
  }

  /** The movies with the row carrying row.id replaced by row. */
  function ReplaceMovie(movies: seq<MovieRow>, row: MovieRow): (r: seq<MovieRow>)
    ensures |r| == |movies|
    ensures forall i :: 0 <= i < |movies| ==> r[i].id == movies[i].id
    ensures forall i :: 0 <= i < |movies| && movies[i].id != row.id ==> r[i] == movies[i]
    ensures forall i :: 0 <= i < |movies| && movies[i].id == row.id ==> r[i] == row
  {
    seq(|movies|, i requires 0 <= i < |movies| => if movies[i].id == row.id then row else movies[i])
  }

  /** A sequence in the opposite order. */
  function Reverse<T>(s: seq<T>): (r: seq<T>)
    ensures |r| == |s|
    ensures forall i :: 0 <= i < |s| ==> r[i] == s[|s| - 1 - i]
  {
    if s == [] then [] else Reverse(s[1..]) + [s[0]]
  }

  /**
   * Reversing rows kept in increasing id order lists the same rows ordered
   * by id descending, the order of the list route.
   */
  lemma ReverseIsByIdDescending(movies: seq<MovieRow>)
    requires IdsIncreasing(movies)
    ensures forall i, j :: 0 <= i < j < |movies| ==> Reverse(movies)[i].id > Reverse(movies)[j].id
  {
  }

  /** A reversed sequence holds the same elements. */
  lemma ReverseSameElements<T>(xs: seq<T>)
    ensures forall x :: x in Reverse(xs) <==> x in xs
  {
    var s := Reverse(xs);
    forall x | x in xs ensures x in s {
      var i :| 0 <= i < |xs| && xs[i] == x;
      assert s[|xs| - 1 - i] == x;
    }
  }

  /** The list entry of a movie. */
  function Summary(row: MovieRow): MovieSummary {
    MovieSummary(row.id, row.name, row.date, row.score, row.overview)
  }

  function Summaries(rows: seq<MovieRow>): seq<MovieSummary> {
    seq(|rows|, i requires 0 <= i < |rows| => Summary(rows[i]))
  }

  /** The ids of a list of entities, as a movie stores them. */
  function IdsOf(es: seq<Named>): seq<int> {
    seq(|es|, k requires 0 <= k < |es| => es[k].id)
  }

  /** The rows that ids refer to, as the detail view loads them. */
  function RowsOf(t: seq<Named>, ids: seq<int>): seq<Named>
    requires RefsWithin(ids, |t|)
  {
    seq(|ids|, k requires 0 <= k < |ids| => t[ids[k] - 1])
  }

  /** Entities of a well-formed table are stored by id and loaded back unchanged. */
  lemma RowsOfIds(t: seq<Named>, es: seq<Named>)
    requires forall k :: 0 <= k < |es| ==> StoredIn(t, es[k])
    ensures RefsWithin(IdsOf(es), |t|) && RowsOf(t, IdsOf(es)) == es
  {
  }

  /** One scalar field of an update, set to the value supplied for it. */
  datatype FieldValue =
    | SetName(name: string)
    | SetDate(date: Date)
    | SetScore(score: real)
    | SetOverview(overview: string)
    | SetStatus(status: Status)
    | SetBudget(budget: real)
    | SetRevenue(revenue: real)

  /** The number of scalar fields an update may supply. */
  const ScalarFields := 7

  /** The value an update supplies for its k-th scalar field, if any, in declaration order. */
  function FieldAt(p: MovieUpdate, k: nat): seq<FieldValue>
    requires k < ScalarFields
  {
    match k
    case 0 => if p.name.Some? then [SetName(p.name.value)] else []
    case 1 => if p.date.Some? then [SetDate(p.date.value)] else []
    case 2 => if p.score.Some? then [SetScore(p.score.value)] else []
    case 3 => if p.overview.Some? then [SetOverview(p.overview.value)] else []
    case 4 => if p.status.Some? then [SetStatus(p.status.value)] else []
    case 5 => if p.budget.Some? then [SetBudget(p.budget.value)] else []
    case _ => if p.revenue.Some? then [SetRevenue(p.revenue.value)] else []
  }

  /** The scalar fields an update supplies (those that were set), in declaration order. */
  function SuppliedFields(p: MovieUpdate): (fs: seq<FieldValue>)
    ensures |fs| <= ScalarFields
    ensures fs == [] <==> p.name.None? && p.date.None? && p.score.None? && p.overview.None? &&
                          p.status.None? && p.budget.None? && p.revenue.None?
  {
    FieldAt(p, 0) + FieldAt(p, 1) + FieldAt(p, 2) + FieldAt(p, 3) + FieldAt(p, 4) + FieldAt(p, 5) + FieldAt(p, 6)
  }

  /** The k-th scalar field of a movie, replaced by the update's value if it supplies one. */
  function PatchAt(row: MovieRow, p: MovieUpdate, k: nat): MovieRow
    requires k < ScalarFields
  {
    match k
    case 0 => row.(name := p.name.GetOr(row.name))
    case 1 => row.(date := p.date.GetOr(row.date))
    case 2 => row.(score := p.score.GetOr(row.score))
    case 3 => row.(overview := p.overview.GetOr(row.overview))
    case 4 => row.(status := p.status.GetOr(row.status))
    case 5 => row.(budget := p.budget.GetOr(row.budget))
    case _ => row.(revenue := p.revenue.GetOr(row.revenue))
  }

  /** Setting one field of a movie. */
  function Assign(row: MovieRow, f: FieldValue): MovieRow {
    match f
    case SetName(v) => row.(name := v)
    case SetDate(v) => row.(date := v)
    case SetScore(v) => row.(score := v)
    case SetOverview(v) => row.(overview := v)
    case SetStatus(v) => row.(status := v)
    case SetBudget(v) => row.(budget := v)
    case SetRevenue(v) => row.(revenue := v)
  }

  /** Setting fields one after another, in order. */
  function AssignAll(row: MovieRow, fs: seq<FieldValue>): MovieRow
    decreases |fs|
  {
    if fs == [] then row else Assign(AssignAll(row, fs[..|fs| - 1]), fs[|fs| - 1])
  }

  /** The setter loop of update: each supplied field is set on the movie, in order. */
  method SetFields(row0: MovieRow, fields: seq<FieldValue>) returns (row: MovieRow)
    ensures row == AssignAll(row0, fields)
  {
    row := row0;
    var i := 0;
    while i < |fields|
      invariant 0 <= i <= |fields|
      invariant row == AssignAll(row0, fields[..i])
    {
      assert fields[..i + 1][..i] == fields[..i];
      row := Assign(row, fields[i]);
      i := i + 1;
    }
    assert fields[..i] == fields;
  }

  /** Merge-patch: every field the update supplies takes its value, every other field keeps its own. */
  function ApplyPatch(row: MovieRow, p: MovieUpdate): (r: MovieRow)
    ensures r.id == row.id && r.countryId == row.countryId
    ensures r.genreIds == row.genreIds && r.actorIds == row.actorIds && r.languageIds == row.languageIds
    ensures p.name.Some? ==> r.name == p.name.value
    ensures p.date.Some? ==> r.date == p.date.value
    ensures p.score.Some? ==> r.score == p.score.value
    ensures p.overview.Some? ==> r.overview == p.overview.value
    ensures p.status.Some? ==> r.status == p.status.value
    ensures p.budget.Some? ==> r.budget == p.budget.value
    ensures p.revenue.Some? ==> r.revenue == p.revenue.value
    ensures p == EmptyUpdate ==> r == row
    ensures ValidColumns(row) && ValidUpdate(p) ==> ValidColumns(r)
  {
    row.(
      name := p.name.GetOr(row.name),
      date := p.date.GetOr(row.date),
      score := p.score.GetOr(row.score),
      overview := p.overview.GetOr(row.overview),
      status := p.status.GetOr(row.status),
      budget := p.budget.GetOr(row.budget),
      revenue := p.revenue.GetOr(row.revenue))
  }

  /** A field the update does not supply keeps the movie's own value. */
  lemma PatchKeepsUnsupplied(row: MovieRow, p: MovieUpdate)
    ensures var r := ApplyPatch(row, p);
      && (p.name.None? ==> r.name == row.name)
      && (p.date.None? ==> r.date == row.date)
      && (p.score.None? ==> r.score == row.score)
      && (p.overview.None? ==> r.overview == row.overview)
      && (p.status.None? ==> r.status == row.status)
      && (p.budget.None? ==> r.budget == row.budget)
      && (p.revenue.None? ==> r.revenue == row.revenue)
  {
  }

  /** Setting the fields of a then those of b is setting the fields of a + b. */
  lemma {:induction false} AssignAllAppend(row: MovieRow, a: seq<FieldValue>, b: seq<FieldValue>)
    ensures AssignAll(row, a + b) == AssignAll(AssignAll(row, a), b)
    decreases |b|
  {
    if b == [] {
      assert a + b == a;
    } else {
      var init := b[..|b| - 1];
      assert (a + b)[..|a + b| - 1] == a + init;
      AssignAllAppend(row, a, init);
    }
  }

  /** Setting the fields of a and then at most one more. */
  lemma AssignAllStep(row: MovieRow, a: seq<FieldValue>, o: seq<FieldValue>)
    requires |o| <= 1
    ensures AssignAll(row, a + o) == if o == [] then AssignAll(row, a) else Assign(AssignAll(row, a), o[0])
  {
    AssignAllAppend(row, a, o);
    if o != [] {
      assert o[..0] == [];
    }
  }

  /** Setting the fields of a and then the k-th supplied field patches that field of the result. */
  lemma AssignFieldAt(row: MovieRow, a: seq<FieldValue>, p: MovieUpdate, k: nat)
    requires k < ScalarFields
    ensures AssignAll(row, a + FieldAt(p, k)) == PatchAt(AssignAll(row, a), p, k)
  {
    AssignAllStep(row, a, FieldAt(p, k));
    PatchAtIsAssign(AssignAll(row, a), p, k);
  }

  /** Setting the k-th supplied field, if the update supplies it, patches that field. */
  lemma PatchAtIsAssign(x: MovieRow, p: MovieUpdate, k: nat)
    requires k < ScalarFields
    ensures (if FieldAt(p, k) == [] then x else Assign(x, FieldAt(p, k)[0])) == PatchAt(x, p, k)
  {
  }

  /** The field-setting loop of update computes exactly the merge-patch. */
  lemma SetterLoopIsMergePatch(row: MovieRow, p: MovieUpdate)
    ensures AssignAll(row, SuppliedFields(p)) == ApplyPatch(row, p)
  {
    var s1 := FieldAt(p, 0);
    var s2 := s1 + FieldAt(p, 1);
    var s3 := s2 + FieldAt(p, 2);
    var s4 := s3 + FieldAt(p, 3);
    var s5 := s4 + FieldAt(p, 4);
    var s6 := s5 + FieldAt(p, 5);
    var s7 := s6 + FieldAt(p, 6);
    assert [] + s1 == s1;
    AssignFieldAt(row, [], p, 0);
    AssignFieldAt(row, s1, p, 1);
    AssignFieldAt(row, s2, p, 2);
    AssignFieldAt(row, s3, p, 3);
    AssignFieldAt(row, s4, p, 4);
    AssignFieldAt(row, s5, p, 5);
    AssignFieldAt(row, s6, p, 6);
  }

  /** The update whose supplied fields are those of q and, where q supplies nothing, those of p. */
  function MergeUpdates(p: MovieUpdate, q: MovieUpdate): MovieUpdate {
    MovieUpdate(
      if q.name.Some? then q.name else p.name,
      if q.date.Some? then q.date else p.date,
      if q.score.Some? then q.score else p.score,
      if q.overview.Some? then q.overview else p.overview,
      if q.status.Some? then q.status else p.status,
      if q.budget.Some? then q.budget else p.budget,
      if q.revenue.Some? then q.revenue else p.revenue,
      if q.country.Some? then q.country else p.country,
      if q.genres.Some? then q.genres else p.genres,
      if q.actors.Some? then q.actors else p.actors,
      if q.languages.Some? then q.languages else p.languages)
  }

  /** Two updates in a row are one update with the later values winning; an update applied twice changes nothing more. */
  lemma ApplyPatchCompose(row: MovieRow, p: MovieUpdate, q: MovieUpdate)
    ensures ApplyPatch(ApplyPatch(row, p), q) == ApplyPatch(row, MergeUpdates(p, q))
    ensures ApplyPatch(ApplyPatch(row, p), p) == ApplyPatch(row, p)
  {
  }

  /** A page of the summaries of some rows lists, from the page's offset on, the summaries of those rows. */
  lemma PageEntries(rows: seq<MovieRow>, page: int, perPage: int)
    requires ValidQuery(page, perPage)
    ensures var r := ReadPage(Summaries(rows), page, perPage);
      r.Ok? ==> forall j :: 0 <= j < |r.value.movies| ==>
        0 <= Offset(page, perPage) + j < |rows| && r.value.movies[j] == Summary(rows[Offset(page, perPage) + j])
  {
    var items := Summaries(rows);
    if ReadPage(items, page, perPage).Ok? {
      PageItems(items, page, perPage);
      var off := Offset(page, perPage);
      var entries := ReadPage(items, page, perPage).value.movies;
      forall j | 0 <= j < |entries| ensures 0 <= off + j < |rows| && entries[j] == Summary(rows[off + j]) {
        assert entries[j] == items[off + j];
      }
    }
  }

  /** Summaries of consecutive rows of a list in decreasing id order are in decreasing id order. */
  lemma DescendingRun(entries: seq<MovieSummary>, desc: seq<MovieRow>, off: int)
    requires forall i, j :: 0 <= i < j < |desc| ==> desc[i].id > desc[j].id
    requires forall j :: 0 <= j < |entries| ==> 0 <= off + j < |desc| && entries[j] == Summary(desc[off + j])
    ensures forall i, j :: 0 <= i < j < |entries| ==> entries[i].id > entries[j].id
  {
    forall i, j | 0 <= i < j < |entries|
      ensures entries[i].id > entries[j].id
    {
      assert entries[i].id == desc[off + i].id && entries[j].id == desc[off + j].id;
    }
  }

  /**
   * The invariant of the catalogue: movie ids are increasing and below the
   * next id to hand out; each lookup table is well-formed; every movie keeps
   * its column constraints and refers only to rows that exist.
   */
  predicate StoreValid(movies: seq<MovieRow>, nextId: int, countries: seq<Country>,
                       genres: seq<Named>, actors: seq<Named>, languages: seq<Named>)
  {
    && IdsIncreasing(movies)
    && nextId >= 1
    && (forall i :: 0 <= i < |movies| ==> 1 <= movies[i].id < nextId)
    && WellFormedCountries(countries)
    && WellFormed(genres) && WellFormed(actors) && WellFormed(languages)
    && (forall i :: 0 <= i < |movies| ==> RowValid(movies[i], |countries|, |genres|, |actors|, |languages|))
  }

  /** The row create inserts: the request's columns and the ids of the resolved rows. */
  function NewRow(id: int, m: MovieCreate, country: Country, genres: seq<Named>, actors: seq<Named>,
                  languages: seq<Named>): MovieRow
  {
    MovieRow(id, m.name, m.date, m.score, m.overview, m.status, m.budget, m.revenue,
             country.id, IdsOf(genres), IdsOf(actors), IdsOf(languages))
  }

  /** A row valid against some tables stays valid once the tables have grown. */
  lemma RowValidGrows(row: MovieRow, c: nat, g: nat, a: nat, l: nat, c': nat, g': nat, a': nat, l': nat)
    requires RowValid(row, c, g, a, l) && c <= c' && g <= g' && a <= a' && l <= l'
    ensures RowValid(row, c', g', a', l')
  {
  }

  /** The detail view of a stored movie, with its related rows loaded from the tables. */
  function View(row: MovieRow, ct: seq<Country>, gt: seq<Named>, at: seq<Named>, lt: seq<Named>): (d: MovieDetail)
    requires RowValid(row, |ct|, |gt|, |at|, |lt|)
    ensures d.id == row.id && ValidDetail(d)
    ensures d.name == row.name && d.date == row.date && d.score == row.score && d.overview == row.overview
    ensures d.status == row.status && d.budget == row.budget && d.revenue == row.revenue
    ensures d.country == ct[row.countryId - 1]
    ensures d.genres == RowsOf(gt, row.genreIds)
    ensures d.actors == RowsOf(at, row.actorIds)
    ensures d.languages == RowsOf(lt, row.languageIds)
  {
    MovieDetail(row.id, row.name, row.date, row.score, row.overview, row.status, row.budget, row.revenue,
      ct[row.countryId - 1], RowsOf(gt, row.genreIds), RowsOf(at, row.actorIds), RowsOf(lt, row.languageIds))
  }

  /**
   * The row of a valid create request refers only to the rows it was resolved
   * to, and its detail view loads exactly those rows back.
   */
  lemma NewRowValid(id: int, m: MovieCreate, country: Country, genres: seq<Named>, actors: seq<Named>,
                    languages: seq<Named>, ct: seq<Country>, gt: seq<Named>, at: seq<Named>, lt: seq<Named>)
    requires ValidCreate(m) && CountryStoredIn(ct, country)
    requires forall k :: 0 <= k < |genres| ==> StoredIn(gt, genres[k])
    requires forall k :: 0 <= k < |actors| ==> StoredIn(at, actors[k])
    requires forall k :: 0 <= k < |languages| ==> StoredIn(lt, languages[k])
    ensures RowValid(NewRow(id, m, country, genres, actors, languages), |ct|, |gt|, |at|, |lt|)
    ensures View(NewRow(id, m, country, genres, actors, languages), ct, gt, at, lt)
         == MovieDetail(id, m.name, m.date, m.score, m.overview, m.status, m.budget, m.revenue,
                        country, genres, actors, languages)
  {
    RowsOfIds(gt, genres);
    RowsOfIds(at, actors);
    RowsOfIds(lt, languages);
  }

  /**
   * Appending a valid row under the next id, after the tables have grown and
   * stayed well-formed, keeps the catalogue valid, and the row is found by its id.
   */
  lemma AppendKeepsValid(movies: seq<MovieRow>, nextId: int, row: MovieRow,
                         c0: seq<Country>, g0: seq<Named>, a0: seq<Named>, l0: seq<Named>,
                         c1: seq<Country>, g1: seq<Named>, a1: seq<Named>, l1: seq<Named>)
    requires StoreValid(movies, nextId, c0, g0, a0, l0)
    requires WellFormedCountries(c1) && WellFormed(g1) && WellFormed(a1) && WellFormed(l1)
    requires |c0| <= |c1| && |g0| <= |g1| && |a0| <= |a1| && |l0| <= |l1|
    requires row.id == nextId && RowValid(row, |c1|, |g1|, |a1|, |l1|)
    ensures StoreValid(movies + [row], nextId + 1, c1, g1, a1, l1)
    ensures FindMovie(movies + [row], nextId) == Some(row)
  {
    var ms := movies + [row];
    forall i | 0 <= i < |ms| ensures RowValid(ms[i], |c1|, |g1|, |a1|, |l1|) {
      if i < |movies| {
        RowValidGrows(movies[i], |c0|, |g0|, |a0|, |l0|, |c1|, |g1|, |a1|, |l1|);
      }
    }
    assert IdsIncreasing(ms);
    assert ms[|movies|] == row;
    SameIdSameRow(ms, FindMovie(ms, nextId).value, row);
  }

  /**
   * Appending the row of a valid create request, under the next id, after its
   * relations were resolved against grown tables, keeps the catalogue valid;
   * the row is found by its id and its detail view shows the resolved rows.
   */
  lemma CreateKeepsValid(movies: seq<MovieRow>, nextId: int, m: MovieCreate,
                         c0: seq<Country>, g0: seq<Named>, a0: seq<Named>, l0: seq<Named>,
                         country: Country, gl: seq<Named>, al: seq<Named>, ll: seq<Named>,
                         c1: seq<Country>, g1: seq<Named>, a1: seq<Named>, l1: seq<Named>, row: MovieRow)
    requires StoreValid(movies, nextId, c0, g0, a0, l0) && ValidCreate(m)
    requires FindOrCreateCountry(c0, m.country) == CountryResolution(country, c1)
    requires ResolveAll(g0, m.genres) == Resolutions(gl, g1)
    requires ResolveAll(a0, m.actors) == Resolutions(al, a1)
    requires ResolveAll(l0, m.languages) == Resolutions(ll, l1)
    requires row == NewRow(nextId, m, country, gl, al, ll)
    ensures StoreValid(movies + [row], nextId + 1, c1, g1, a1, l1)
    ensures FindMovie(movies + [row], nextId) == Some(row)
    ensures RowValid(row, |c1|, |g1|, |a1|, |l1|)
    ensures View(row, c1, g1, a1, l1)
         == MovieDetail(nextId, m.name, m.date, m.score, m.overview, m.status, m.budget, m.revenue,
                        country, gl, al, ll)
  {
    ResolveStores(g0, m.genres);
    ResolveStores(a0, m.actors);
    ResolveStores(l0, m.languages);
    NewRowValid(nextId, m, country, gl, al, ll, c1, g1, a1, l1);
    AppendKeepsValid(movies, nextId, row, c0, g0, a0, l0, c1, g1, a1, l1);
  }

  /** Removing one movie keeps the catalogue valid. */
  lemma DeleteKeepsValid(movies: seq<MovieRow>, nextId: int, c: seq<Country>, g: seq<Named>, a: seq<Named>,
                         l: seq<Named>, id: int)
    requires StoreValid(movies, nextId, c, g, a, l)
    ensures StoreValid(RemoveMovie(movies, id), nextId, c, g, a, l)
  {
    var ms := RemoveMovie(movies, id);
    forall i | 0 <= i < |ms| ensures 1 <= ms[i].id < nextId && RowValid(ms[i], |c|, |g|, |a|, |l|) {
      assert ms[i] in movies;
    }
  }

  /**
   * Replacing a stored movie by the result of a valid merge patch keeps the
   * catalogue valid: the id stays, and so do the references.
   */
  lemma UpdateKeepsValid(movies: seq<MovieRow>, nextId: int, c: seq<Country>, g: seq<Named>, a: seq<Named>,
                         l: seq<Named>, row: MovieRow, patch: MovieUpdate)
    requires StoreValid(movies, nextId, c, g, a, l) && ValidUpdate(patch)
    requires FindMovie(movies, row.id) == Some(row)
    ensures StoreValid(ReplaceMovie(movies, ApplyPatch(row, patch)), nextId, c, g, a, l)
  {
    var ms := ReplaceMovie(movies, ApplyPatch(row, patch));
    forall k | 0 <= k < |ms| ensures RowValid(ms[k], |c|, |g|, |a|, |l|) {
      assert RowValid(movies[k], |c|, |g|, |a|, |l|);
      if movies[k].id == row.id {
        SameIdSameRow(movies, movies[k], row);
      }
    }
  }

  /** The three lookup tables that hold named rows. */
  datatype Kind = Genres | Actors | Languages

  /** The catalogue: movie rows and the lookup tables, updated in place by the routes. */
  class Catalogue {
    var movies: seq<MovieRow>
    var nextMovieId: int
    var countries: seq<Country>
    var genres: seq<Named>
    var actors: seq<Named>
    var languages: seq<Named>

    /**
     * Movie ids are increasing and below the next id to hand out; each lookup
     * table is well-formed; every movie keeps its constraints and refers only
     * to rows that exist.
     */
    ghost predicate Valid()
      reads this
    {
      StoreValid(movies, nextMovieId, countries, genres, actors, languages)
    }

    /** An empty catalogue. */
    constructor ()
      ensures Valid()
      ensures movies == [] && countries == [] && genres == [] && actors == [] && languages == []
    {
      movies, nextMovieId := [], 1;
      countries, genres, actors, languages := [], [], [], [];
    }

    /** The table of one kind. */
    function Table(kind: Kind): seq<Named>
      reads this
    {
      match kind
      case Genres => genres
      case Actors => actors
      case Languages => languages
    }

    method SetTable(kind: Kind, t: seq<Named>)
      modifies this`genres, this`actors, this`languages
      ensures Table(kind) == t
      ensures forall k :: k != kind ==> Table(k) == old(Table(k))
    {
      match kind
      case Genres => genres := t;
      case Actors => actors := t;
      case Languages => languages := t;
    }

    /** Looks a country up by code and inserts it, without a display name, when absent. */
    method LookupOrInsertCountry(code: string) returns (c: Country)
      modifies this`countries
      ensures FindOrCreateCountry(old(countries), code) == CountryResolution(c, countries)
    {
      match FindCountry(countries, code)
      case Some(found) =>
        c := found;
      case None =>
        c := Country(|countries| + 1, code, None);
        countries := countries + [c];
    }

    /** Looks a name up in the table of its kind and inserts it when absent. */
    method LookupOrInsert(kind: Kind, name: string) returns (e: Named)
      modifies this`genres, this`actors, this`languages
      ensures Normalizer.FindOrCreate(old(Table(kind)), name) == Resolution(e, Table(kind))
      ensures forall k :: k != kind ==> Table(k) == old(Table(k))
    {
      var t := Table(kind);
      match Find(t, name)
      case Some(found) =>
        e := found;
      case None =>
        e := Named(|t| + 1, name);
        SetTable(kind, t + [e]);
    }

    /** Resolves every name of a list in turn, collecting the entities in input order. */
    method ResolveNames(kind: Kind, names: seq<string>) returns (list: seq<Named>)
      modifies this`genres, this`actors, this`languages
      ensures ResolveAll(old(Table(kind)), names) == Resolutions(list, Table(kind))
      ensures forall k :: k != kind ==> Table(k) == old(Table(k))
    {
      list := [];
      var i := 0;
      while i < |names|
        invariant 0 <= i <= |names|
        invariant ResolveAll(old(Table(kind)), names[..i]) == Resolutions(list, Table(kind))
        invariant forall k :: k != kind ==> Table(k) == old(Table(k))
      {
        assert names[..i + 1][..i] == names[..i];
        var e := LookupOrInsert(kind, names[i]);
        list := list + [e];
        i := i + 1;
      }
      assert names[..i] == names;
    }

    /** The detail route: the movie with the id, or not found. */
    function Detail(id: int): (r: Response<MovieDetail>)
      reads this
      requires Valid()
      ensures !r.Conflict?
      ensures r.NotFound? <==> forall i :: 0 <= i < |movies| ==> movies[i].id != id
      ensures r.Ok? ==> exists i :: 0 <= i < |movies| && movies[i].id == id && r.value == View(movies[i], countries, genres, actors, languages)
    {
      match FindMovie(movies, id)
      case None => NotFound
      case Some(row) =>
        Ok(View(row, countries, genres, actors, languages))
    }

    /**
     * The list route: one page of the movies ordered by id descending, not
     * found when the catalogue is empty or the page is past the last.
     */
    function ReadMovies(page: int, perPage: int): (r: Response<ListResponse<MovieSummary>>)
      reads this
      requires IdsIncreasing(movies) && ValidQuery(page, perPage)
      ensures !r.Conflict?
      ensures r.NotFound? <==> |movies| == 0 || page > TotalPages(|movies|, perPage)
      ensures r.Ok? ==> r.value.totalItems == |movies| && r.value.totalPages == TotalPages(|movies|, perPage)
      ensures r.Ok? ==>
        && 1 <= |r.value.movies| <= perPage
        && (page < TotalPages(|movies|, perPage) ==> |r.value.movies| == perPage)
        && Offset(page, perPage) + |r.value.movies| == Min(|movies|, Offset(page, perPage) + perPage)
      ensures r.Ok? ==>
        && (r.value.prevPage.Some? <==> page > 1)
        && (r.value.prevPage.Some? ==> r.value.prevPage.value == page - 1)
        && (r.value.nextPage.Some? <==> page < TotalPages(|movies|, perPage))
        && (r.value.nextPage.Some? ==> r.value.nextPage.value == page + 1)
      ensures r.Ok? ==> forall j :: 0 <= j < |r.value.movies| ==>
        0 <= Offset(page, perPage) + j < |movies| &&
        r.value.movies[j] == Summary(Reverse(movies)[Offset(page, perPage) + j])
    {
      var desc := Reverse(movies);
      PageEntries(desc, page, perPage);
      var r := ReadPage(Summaries(desc), page, perPage);
      if r.Ok? then PageItems(Summaries(desc), page, perPage); r else r
    }

    /** Finds or creates the country, genres, actors and languages of a create request. */
    method ResolveRelations(m: MovieCreate) returns (country: Country, genreList: seq<Named>,
                                                    actorList: seq<Named>, languageList: seq<Named>)
      modifies this`countries, this`genres, this`actors, this`languages
      ensures FindOrCreateCountry(old(countries), m.country) == CountryResolution(country, countries)
      ensures ResolveAll(old(genres), m.genres) == Resolutions(genreList, genres)
      ensures ResolveAll(old(actors), m.actors) == Resolutions(actorList, actors)
      ensures ResolveAll(old(languages), m.languages) == Resolutions(languageList, languages)
    {
      country := LookupOrInsertCountry(m.country);
      genreList := ResolveNames(Genres, m.genres);
      actorList := ResolveNames(Actors, m.actors);
      languageList := ResolveNames(Languages, m.languages);
    }

    /**
     * The create route. A movie with the same name and date is a conflict and
     * changes nothing. Otherwise the country, genres, actors and languages are
     * found or created, one movie row referring to them is appended under the
     * next id, and its detail view, with the resolved rows, is returned.
     */
    method CreateMovie(m: MovieCreate) returns (r: Response<MovieDetail>)
      requires Valid() && ValidCreate(m)
      modifies this
      ensures Valid()
      ensures HasMovie(old(movies), m.name, m.date) ==> r == Conflict && unchanged(this)
      ensures !HasMovie(old(movies), m.name, m.date) ==>
        var c := FindOrCreateCountry(old(countries), m.country);
        var g := ResolveAll(old(genres), m.genres);
        var a := ResolveAll(old(actors), m.actors);
        var l := ResolveAll(old(languages), m.languages);
        var id := old(nextMovieId);
        && countries == c.table && genres == g.table && actors == a.table && languages == l.table
        && movies == old(movies) + [NewRow(id, m, c.country, g.entities, a.entities, l.entities)]
        && nextMovieId == id + 1
        && r == Ok(MovieDetail(id, m.name, m.date, m.score, m.overview, m.status, m.budget, m.revenue,
                               c.country, g.entities, a.entities, l.entities))
      ensures r.Ok? ==> Detail(r.value.id) == r && HasMovie(movies, m.name, m.date)
    {
      if HasMovie(movies, m.name, m.date) {
        return Conflict;
      }
      var d := InsertMovie(m);
      r := Ok(d);
    }

    /**
     * The insertion step of create, once the duplicate check has passed: the
     * relations are found or created and one row referring to them is
     * appended under the next id.
     */
    method InsertMovie(m: MovieCreate) returns (d: MovieDetail)
      requires Valid() && ValidCreate(m)
      modifies this
      ensures Valid()
      ensures
        var c := FindOrCreateCountry(old(countries), m.country);
        var g := ResolveAll(old(genres), m.genres);
        var a := ResolveAll(old(actors), m.actors);
        var l := ResolveAll(old(languages), m.languages);
        var id := old(nextMovieId);
        && countries == c.table && genres == g.table && actors == a.table && languages == l.table
        && movies == old(movies) + [NewRow(id, m, c.country, g.entities, a.entities, l.entities)]
        && nextMovieId == id + 1
        && d == MovieDetail(id, m.name, m.date, m.score, m.overview, m.status, m.budget, m.revenue,
                            c.country, g.entities, a.entities, l.entities)
      ensures Detail(d.id) == Ok(d) && HasMovie(movies, m.name, m.date)
    {
      ghost var c0, g0, a0, l0 := countries, genres, actors, languages;
      var country, genreList, actorList, languageList := ResolveRelations(m);
      var row := NewRow(nextMovieId, m, country, genreList, actorList, languageList);
      CreateKeepsValid(movies, nextMovieId, m, c0, g0, a0, l0, country, genreList, actorList, languageList,
        countries, genres, actors, languages, row);
      movies := movies + [row];
      nextMovieId := nextMovieId + 1;
      d := View(row, countries, genres, actors, languages);
      assert movies[|movies| - 1] == row;
      StoredMovieIsDetailed(this, row);
    }

    /**
     * The delete route. An unknown id is not found and changes nothing;
     * otherwise only that movie's row is removed, the lookup tables stay as
     * they were, and the id is no longer found.
     */
    method DeleteMovie(id: int) returns (r: Response<()>)
      requires Valid()
      modifies this`movies
      ensures Valid()
      ensures FindMovie(old(movies), id).None? ==> r == NotFound && movies == old(movies)
      ensures FindMovie(old(movies), id).Some? ==> r == Ok(()) && movies == RemoveMovie(old(movies), id)
      ensures Detail(id) == NotFound
    {
      if FindMovie(movies, id).None? {
        return NotFound;
      }
      DeleteKeepsValid(movies, nextMovieId, countries, genres, actors, languages, id);
      movies := RemoveMovie(movies, id);
      r := Ok(());
    }

    /**
     * The update route. An unknown id is not found and changes nothing;
     * otherwise the supplied scalar fields are set one by one and every other
     * field, the movie's relations and the lookup tables stay as they were.
     */
    method UpdateMovie(id: int, patch: MovieUpdate) returns (r: Response<()>)
      requires Valid() && ValidUpdate(patch)
      modifies this`movies
      ensures Valid()
      ensures FindMovie(old(movies), id).None? ==> r == NotFound && movies == old(movies)
      ensures FindMovie(old(movies), id).Some? ==>
        r == Ok(()) && movies == ReplaceMovie(old(movies), ApplyPatch(FindMovie(old(movies), id).value, patch))
    {
      var found := FindMovie(movies, id);
      if found.None? {
        return NotFound;
      }
      var row := SetFields(found.value, SuppliedFields(patch));
      SetterLoopIsMergePatch(found.value, patch);
      UpdateKeepsValid(movies, nextMovieId, countries, genres, actors, languages, found.value, patch);
      movies := ReplaceMovie(movies, row);
      r := Ok(());
    }
  }

  /** A stored movie is found by the detail route, which shows its view. */
  lemma StoredMovieIsDetailed(c: Catalogue, row: MovieRow)
    requires c.Valid() && FindMovie(c.movies, row.id) == Some(row)
    ensures RowValid(row, |c.countries|, |c.genres|, |c.actors|, |c.languages|)
    ensures c.Detail(row.id) == Ok(View(row, c.countries, c.genres, c.actors, c.languages))
  {
  }

  /** Every page the list route returns is ordered newest id first. */
  lemma ReadMoviesNewestFirst(c: Catalogue, page: int, perPage: int)
    requires IdsIncreasing(c.movies) && ValidQuery(page, perPage)
    ensures var r := c.ReadMovies(page, perPage);
      r.Ok? ==> forall i, j :: 0 <= i < j < |r.value.movies| ==> r.value.movies[i].id > r.value.movies[j].id
  {
    var r := c.ReadMovies(page, perPage);
    if r.Ok? {
      ReverseIsByIdDescending(c.movies);
      DescendingRun(r.value.movies, Reverse(c.movies), Offset(page, perPage));
    }
  }
}
