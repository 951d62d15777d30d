# Movie catalogue routes

This project models the core of a small movie-catalogue REST service. The
service stores movies together with four lookup tables: countries by code,
and genres, actors and languages by name. It has five routes:

- a paginated list, newest id first;
- a detail view of one movie;
- create, with a duplicate check and find-or-create of related rows;
- delete;
- a merge-patch update.

The database is modelled as one in-memory catalogue (class
`Movies.Catalogue`), and each route changes it in one atomic step. The
outcome of a route is a `Response`: `Ok`, `NotFound` or `Conflict`.

Modules:

- `Wrappers`: `Option` and `Response`.
- `Schemas`: the request and response records, and the field constraints
  that validation applies before a route body runs.
- `Pagination`: the arithmetic of the list route (page count, offset,
  slice, links), as functions and lemmas.
- `Normalizer`: find-or-create over a lookup table, one key and a list of
  keys, as reference functions with their invariants.
- `Movies`: the movie rows, the catalogue invariant `StoreValid`, and the
  class `Catalogue`. The class holds the routes as methods. The
  find-or-create loops are proved against `Normalizer`. The setter loop of
  update is proved to compute the merge-patch `ApplyPatch`.

A lookup table only ever grows, so a row's auto-increment id is modelled as
its position plus one. Movie ids come from a counter, `nextMovieId`, that
stays above every stored id. Movies are kept in increasing id order, so the
order "id descending" is the reverse of the stored sequence.

## Model

| member | source | states |
|---|---|---|
| Schemas.StatusName | src/schemas/movies.py:42 | a status is written as exactly one of "Released", "Post Production", "In Production" |
| Schemas.ParseStatus | src/schemas/movies.py:78-82 | a status literal is accepted iff it is one of the three literals, and it reads back as the status it names |
| Schemas.StatusRoundTrip | src/schemas/movies.py:56 | writing a status as its literal and parsing it back gives the same status |
| Pagination.TotalPages | src/routes/movies.py:32 | the floor division `(total_items + per_page - 1) // per_page` is at least 1 iff there is at least one item |
| Pagination.TotalPagesBounds | src/routes/movies.py:32 | the pages hold every item, and one page fewer would not (the ceiling of total_items / per_page) |
| Pagination.TotalPagesIsCeiling | src/routes/movies.py:32 | any page count with that property equals TotalPages, so TotalPages is exactly the ceiling |
| Pagination.PageWithinList | src/routes/movies.py:33-35 | a page that passes the not-found checks starts inside the list at offset `(page-1)*per_page`, and every page before the last is full |
| Pagination.ReadPage | src/routes/movies.py:29-49 | not found iff the list is empty or the page is past the last; otherwise the totals are returned, prev is present iff page > 1 and is page-1, next is present iff page < total_pages and is page+1 |
| Pagination.PageItems | src/routes/movies.py:37-41 | a found page holds the items of the list from the offset on, at least 1 and at most per_page of them, exactly per_page before the last page, and all the remaining items on the last |
| Pagination.PageOfPosition | src/routes/movies.py:32-33 | position i of the list lies on page `i / per_page + 1`, which exists, at position `i % per_page` |
| Pagination.ItemOnItsPage | src/routes/movies.py:37-41 | the pages partition the list: every item is shown, by the page that PageOfPosition names |
| Pagination.ItemOnPage | src/routes/movies.py:33-41 | a page not past the last shows every list position from its offset within per_page |
| Pagination.LinksLeadToPages | src/routes/movies.py:42-49 | following a found page's prev or next link never leads to a not-found page |
| Normalizer.Find | src/routes/movies.py:93-95 | the lookup by name returns a row of the table with that name, and returns nothing iff no row has the name |
| Normalizer.FindOrCreate | src/routes/movies.py:92-100 | an existing name gives its row and inserts nothing; a missing name appends exactly one row with the next id; a well-formed table stays well-formed (unique names) and stores the returned row |
| Normalizer.FindOrCreateUnique | src/routes/movies.py:92-100 | after find-or-create, the returned row is the only row that carries the key |
| Normalizer.FindOrCreateIdempotent | src/routes/movies.py:92-100 | a second find-or-create of the same key returns the same entity and leaves the table as it was |
| Normalizer.ResolveAll | src/routes/movies.py:91-100 | resolving a list of keys gives one entity per key, and the table never shrinks |
| Normalizer.ResolveKeys | src/routes/movies.py:91-122 | the i-th resolved entity carries the i-th input name |
| Normalizer.ResolveStores | src/routes/movies.py:91-122 | rows already present stay where they were; a well-formed table stays well-formed and stores every resolved entity |
| Normalizer.ResolveReusesExisting | src/routes/movies.py:94-100 | a key whose row already existed resolves to that very row |
| Normalizer.ResolveSameKeySameEntity | src/routes/movies.py:91-100 | equal keys in one list resolve to the same entity |
| Normalizer.ResolveNamesExactly | src/routes/movies.py:91-122 | the names of the final table are the names already there together with the keys of the list: nothing else is inserted |
| Normalizer.ResolveIdempotent | src/routes/movies.py:91-122 | resolving the same list again against the resulting table returns the same entities and inserts nothing |
| Normalizer.FindCountry | src/routes/movies.py:83-85 | the lookup by code returns a country with that code, and returns nothing iff no country has it |
| Normalizer.FindOrCreateCountry | src/routes/movies.py:83-89 | an existing code gives its country unchanged; a missing code appends one country with the next id and no display name; codes stay unique |
| Normalizer.FindOrCreateCountryIdempotent | src/routes/movies.py:83-89 | a second find-or-create of the same code returns the same country and inserts nothing |
| Schemas.ValidCreate | src/schemas/movies.py:54-58 | defines a valid create body: score in [0, 100], budget and revenue not negative |
| Schemas.ValidUpdate | src/schemas/movies.py:74-85 | defines a valid update body: each supplied field within its bound (name at most 255 characters, score in [0, 100], budget and revenue not negative, country code exactly 3 characters) |
| Pagination.ValidQuery | src/routes/movies.py:21-24 | defines the accepted query: page at least 1, per_page between 1 and 20 |
| Pagination.Offset | src/routes/movies.py:33 | defines the number of movies skipped before a page, `(page - 1) * per_page` |
| Movies.HasMovie | src/routes/movies.py:69-76 | defines the duplicate check of create: some stored movie has the request's name and date |
| Movies.NewRow | src/routes/movies.py:124-137 | defines the row create inserts: the request's columns, the resolved country's id and the ids of the resolved genres, actors and languages |
| Movies.Summary | src/schemas/movies.py:33-38 | defines the list entry of a movie: its id, name, date, score and overview |
| Movies.Summaries | src/schemas/movies.py:65-66 | defines the list entries of a sequence of movies, one per movie in the same order |
| Movies.SuppliedFields | src/routes/movies.py:210 | the scalar fields an update supplies, in declaration order: at most seven, and none iff the update supplies no scalar field |
| Movies.FindMovie | src/routes/movies.py:199-202 | the lookup by id returns a stored movie with that id, and returns nothing iff no stored movie has it |
| Movies.RemoveMovie | src/routes/movies.py:182 | the remaining movies are exactly the stored ones whose id differs, and they stay in id order |
| Movies.ReplaceMovie | src/routes/movies.py:210-213 | every movie keeps its place and id; the one with the row's id becomes the row, every other is unchanged |
| Movies.ReverseIsByIdDescending | src/routes/movies.py:38 | reversing rows stored in increasing id order lists them by decreasing id |
| Movies.ReverseSameElements | src/routes/movies.py:38 | the reversed sequence holds the same rows |
| Movies.RowsOfIds | src/routes/movies.py:132-143 | entities stored at their ids are kept as ids in the movie row and loaded back unchanged |
| Movies.SetFields | src/routes/movies.py:210-211 | the setter loop sets the supplied fields one after another, in order |
| Movies.ApplyPatch | src/schemas/movies.py:73-88 | each supplied scalar field takes its value; the id and relations stay; the empty update is the identity; a valid update keeps the column constraints |
| Movies.PatchKeepsUnsupplied | src/routes/movies.py:210 | a scalar field the update does not supply keeps the movie's value |
| Movies.SetterLoopIsMergePatch | src/routes/movies.py:210-211 | setting the supplied fields in order gives exactly the merge-patch |
| Movies.ApplyPatchCompose | src/routes/movies.py:210-211 | two updates in a row are one update in which the later values win; repeating an update changes nothing more |
| Movies.PageEntries | src/routes/movies.py:37-41 | a found page lists the summaries of the rows from its offset on |
| Movies.DescendingRun | src/routes/movies.py:38-39 | the summaries of consecutive rows of a list in decreasing id order are in decreasing id order |
| Movies.View | src/schemas/movies.py:41-48 | the detail view shows the movie's id and its seven own columns, within the score, budget and revenue bounds, with its country record and its genre, actor and language records loaded from the tables by the ids the row stores |
| Movies.NewRowValid | src/routes/movies.py:124-137 | the new row from a valid request refers only to stored rows, and its detail view shows the request's columns with the resolved entities |
| Movies.AppendKeepsValid | src/routes/movies.py:139 | appending a valid row under the next id, after the tables grew and stayed well-formed, keeps the catalogue invariant, and the row is then found by its id |
| Movies.CreateKeepsValid | src/routes/movies.py:124-144 | the row of a valid create request, after find-or-create of its relations, keeps the catalogue invariant, and its detail view is the request with the resolved rows |
| Movies.DeleteKeepsValid | src/routes/movies.py:182-183 | removing a movie keeps the catalogue invariant |
| Movies.UpdateKeepsValid | src/routes/movies.py:210-212 | replacing a stored movie by a valid merge-patch of it keeps the catalogue invariant |
| Movies.Catalogue.LookupOrInsertCountry | src/routes/movies.py:83-89 | the country step of create computes FindOrCreateCountry on the country table |
| Movies.Catalogue.LookupOrInsert | src/routes/movies.py:93-100 | one iteration of a find-or-create loop computes FindOrCreate on the table of its kind and leaves the other tables alone |
| Movies.Catalogue.ResolveNames | src/routes/movies.py:91-122 | a find-or-create loop returns the entities of ResolveAll in input order, and the table of its kind ends as ResolveAll leaves it |
| Movies.Catalogue.ResolveRelations | src/routes/movies.py:83-122 | create resolves its country, genres, actors and languages, each against its own table, as the Normalizer functions specify |
| Movies.Catalogue.Detail | src/routes/movies.py:151-166 | not found iff no stored movie has the id; otherwise the detail view of that movie |
| Movies.Catalogue.ReadMovies | src/routes/movies.py:20-57 | not found iff the catalogue is empty or the page is past the last; otherwise the totals, 1 to per_page entries (exactly per_page before the last page, all remaining ones on the last), entry j being the summary of the id-descending sequence at `(page-1)*per_page + j`, prev present iff page > 1 and equal to page-1, next present iff page < total_pages and equal to page+1 |
| Movies.ReadMoviesNewestFirst | src/routes/movies.py:37-41 | every page the list route returns is in decreasing id order |
| Movies.Catalogue.CreateMovie | src/routes/movies.py:65-144 | an existing (name, date) is a conflict and changes nothing; otherwise the tables become those of find-or-create, one row is appended under the next id, the invariant is kept, the result is the detail view with the resolved rows, and a detail call finds it |
| Movies.Catalogue.InsertMovie | src/routes/movies.py:83-144 | after the duplicate check: the tables become those of find-or-create, one row referring to the resolved rows is appended under the next id, the invariant is kept, and the detail route then shows the returned view |
| Movies.StoredMovieIsDetailed | src/routes/movies.py:151-166 | a stored movie of a valid catalogue is found by the detail route, which returns its view |
| Movies.Catalogue.DeleteMovie | src/routes/movies.py:172-187 | an unknown id is not found and changes nothing; otherwise only that movie is removed, the tables are untouched, the invariant is kept, and a later detail call for the id is not found |
| Movies.Catalogue.UpdateMovie | src/routes/movies.py:199-217 | an unknown id is not found and changes nothing; otherwise the movie becomes its merge-patch (by the setter loop), the rest is untouched, and the invariant is kept |

## Left out

- The asynchronous session, `flush`, `commit`, `refresh` and `selectinload` are not modelled. The store is one in-memory catalogue that each route changes atomically.
- Routing, dependency injection, query metadata and HTTP status codes are not modelled. Outcomes are `Ok`, `NotFound` and `Conflict`.
- The query bounds `page >= 1` and `1 <= per_page <= 20` are preconditions (`ValidQuery`), because the framework rejects other values before the route runs. Request bodies are required to satisfy `ValidCreate` and `ValidUpdate` for the same reason.
- The page links are page numbers. The URL strings built from them are not modelled.
- `score`, `budget` and `revenue` are `real`, with the same bounds. Floating-point rounding is not modelled.
- Dates are a plain record. Parsing dates from ISO text is library behaviour.
- Concurrent requests racing to insert the same lookup key are not modelled. Each route is one atomic step.
- Update signals success by raising an exception with status 200. The model returns a plain `Ok(())`.
- Movies.Catalogue.UpdateMovie: does not apply the `country`, `genres`, `actors` or `languages` fields of a patch. These fields are modelled and validated. The source would assign raw strings to the relationships, and it is unclear what that should do, so the model applies only the seven scalar fields.
- Movies.Catalogue.UpdateMovie: does not keep the (name, date) pair unique. The route has no duplicate check, so the catalogue invariant does not include that property.
- Movies.ApplyPatch: an explicit `null` in a patch and an absent field are both `None`. The source would set a column to null when given an explicit null.
- Movies.Catalogue.CreateMovie: keeps a repeated name once per occurrence in the resolved lists, as the code appends one entity per input name. Equal names resolve to the same entity (`Normalizer.ResolveSameKeySameEntity`). The lists are not deduplicated further.
- Movies.View: lists the related rows in the order they were supplied. The order in which the database returns a movie's relations after a refresh is not modelled.
- Movies.Catalogue.ReadMovies: requires only that the stored ids are increasing, not the whole catalogue invariant. The list route reads no lookup table.
- The list route's count query and its ordered, offset and limit query become `|movies|` and a slice of `Reverse(movies)`.
