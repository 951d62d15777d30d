/**
 * Find-or-create over the lookup tables: a key is looked up by its unique
 * string, and a row is inserted only when no row carries it. Tables only
 * ever grow, so the row at position i carries id i + 1.
 */
module Normalizer {
  import opened Wrappers
  import opened Schemas

  /** A genre, actor or language table: ids follow insertion order and names are unique. */
  predicate WellFormed(t: seq<Named>) {
    && (forall i :: 0 <= i < |t| ==> t[i].id == i + 1)
    && (forall i, j :: 0 <= i < j < |t| ==> t[i].name != t[j].name)
  }

  /** The row e is stored in the table at the position its id names. */
  predicate StoredIn(t: seq<Named>, e: Named) {
    1 <= e.id <= |t| && t[e.id - 1] == e
  }

  /** Some row of the table carries the name. */
  predicate HasName(t: seq<Named>, name: string) {
    exists i :: 0 <= i < |t| && t[i].name == name
  }

  /** The set of names a table holds. */
  function Names(t: seq<Named>): set<string> {
    set i | 0 <= i < |t| :: t[i].name
  }

  /** Every row of a well-formed table is stored at its id. */
  lemma RowAtItsId(t: seq<Named>, e: Named)
    requires WellFormed(t) && e in t
    ensures StoredIn(t, e)
  {
  }

  /** In a well-formed table two rows with the same name are the same row. */
  lemma SameNameSameRow(t: seq<Named>, a: Named, b: Named)
    requires WellFormed(t) && StoredIn(t, a) && StoredIn(t, b) && a.name == b.name
    ensures a == b
  {
  }

  /** The lookup `select ... where name == key`: a row carrying the name, if any. */
  function Find(t: seq<Named>, name: string): (r: Option<Named>)
    ensures r.Some? ==> r.value in t && r.value.name == name
    ensures r.None? <==> !HasName(t, name)
  {
    if t == [] then None
    else if t[0].name == name then Some(t[0])
    else
      var r := Find(t[1..], name);
      assert HasName(t, name) ==> HasName(t[1..], name) by {
        if HasName(t, name) {
          var i :| 0 <= i < |t| && t[i].name == name;
          assert t[1..][i - 1] == t[i];
        }
      }
      r
  }

  /** The entity a key resolves to, and the table afterwards. */
  datatype Resolution = Resolution(entity: Named, table: seq<Named>)

  /**
   * Find-or-create one key: an existing row is reused and nothing is
   * inserted; a missing key gets exactly one new row, appended with the next id.
   */
  function FindOrCreate(t: seq<Named>, name: string): (r: Resolution)
    ensures r.entity.name == name
    ensures HasName(t, name) ==> r.table == t
    ensures !HasName(t, name) ==> r.table == t + [r.entity] && r.entity.id == |t| + 1
    ensures WellFormed(t) ==> WellFormed(r.table) && StoredIn(r.table, r.entity)
  {
    match Find(t, name)
    case Some(e) =>
      assert WellFormed(t) ==> StoredIn(t, e) by {
        if WellFormed(t) { RowAtItsId(t, e); }
      }
      Resolution(e, t)
    case None =>
      var e := Named(|t| + 1, name);
      Resolution(e, t + [e])
  }

  /** In a well-formed table, the row find-or-create returns is the only one carrying its key. */
  lemma FindOrCreateUnique(t: seq<Named>, name: string, e: Named)
    requires WellFormed(t) && e in FindOrCreate(t, name).table && e.name == name
    ensures e == FindOrCreate(t, name).entity
  {
    var r := FindOrCreate(t, name);
    RowAtItsId(r.table, e);
    SameNameSameRow(r.table, e, r.entity);
  }

  /** A second find-or-create of the same key returns the same entity and inserts nothing. */
  lemma FindOrCreateIdempotent(t: seq<Named>, name: string)
    requires WellFormed(t)
    ensures var r := FindOrCreate(t, name); FindOrCreate(r.table, name) == r
  {
    var r := FindOrCreate(t, name);
    assert r.table[r.entity.id - 1].name == name;
    var again := FindOrCreate(r.table, name);
    assert again.table == r.table;
    SameNameSameRow(r.table, r.entity, again.entity);
  }

  /** The entities a list of keys resolves to, in input order, and the table afterwards. */
  datatype Resolutions = Resolutions(entities: seq<Named>, table: seq<Named>)

  /**
   * Find-or-create every key of a list, one after another, each lookup seeing
   * the rows the earlier ones inserted: one entity per key, and a table that
   * only grows. ResolveKeys and ResolveStores state what the entities are.
   */
  function ResolveAll(t: seq<Named>, names: seq<string>): (r: Resolutions)
    decreases |names|
    ensures |r.entities| == |names|
    ensures |t| <= |r.table|
  {
    if names == [] then Resolutions([], t)
    else
      var prev := ResolveAll(t, names[..|names| - 1]);
      var last := FindOrCreate(prev.table, names[|names| - 1]);
      Resolutions(prev.entities + [last.entity], last.table)
  }

  /** The i-th entity of a resolution carries the i-th key. */
  lemma {:induction false} ResolveKeys(t: seq<Named>, names: seq<string>)
    ensures forall i :: 0 <= i < |names| ==> ResolveAll(t, names).entities[i].name == names[i]
    decreases |names|
  {
    if names != [] {
      ResolveKeys(t, names[..|names| - 1]);
    }
  }

  /**
   * Rows already present stay where they were; a well-formed table stays
   * well-formed and stores every entity returned.
   */
  lemma {:induction false} ResolveStores(t: seq<Named>, names: seq<string>)
    ensures var r := ResolveAll(t, names);
      && (forall e :: StoredIn(t, e) ==> StoredIn(r.table, e))
      && (WellFormed(t) ==> WellFormed(r.table))
      && (WellFormed(t) ==> forall i :: 0 <= i < |names| ==> StoredIn(r.table, r.entities[i]))
    decreases |names|
  {
    if names != [] {
      ResolveStores(t, names[..|names| - 1]);
    }
  }

  /** A key whose row already existed resolves to that very row. */
  lemma ResolveReusesExisting(t: seq<Named>, names: seq<string>, i: int, e: Named)
    requires WellFormed(t) && 0 <= i < |names| && e in t && e.name == names[i]
    ensures ResolveAll(t, names).entities[i] == e
  {
    var r := ResolveAll(t, names);
    ResolveKeys(t, names);
    ResolveStores(t, names);
    RowAtItsId(t, e);
    assert StoredIn(r.table, e);
    SameNameSameRow(r.table, e, r.entities[i]);
  }

  /** Equal keys in one list resolve to the same entity. */
  lemma ResolveSameKeySameEntity(t: seq<Named>, names: seq<string>, i: int, j: int)
    requires WellFormed(t) && 0 <= i < |names| && 0 <= j < |names| && names[i] == names[j]
    ensures ResolveAll(t, names).entities[i] == ResolveAll(t, names).entities[j]
  {
    var r := ResolveAll(t, names);
    ResolveKeys(t, names);
    ResolveStores(t, names);
    SameNameSameRow(r.table, r.entities[i], r.entities[j]);
  }

  /** Appending a row adds exactly its name. */
  lemma NamesAppend(t: seq<Named>, e: Named)
    ensures Names(t + [e]) == Names(t) + {e.name}
  {
    var u := t + [e];
    forall k | k in Names(u) ensures k in Names(t) + {e.name} {
      var i :| 0 <= i < |u| && u[i].name == k;
      if i < |t| { assert t[i] == u[i]; }
    }
    forall k | k in Names(t) ensures k in Names(u) {
      var i :| 0 <= i < |t| && t[i].name == k;
      assert u[i] == t[i];
    }
    assert u[|t|] == e;
  }

  /** The distinct keys of a list. */
  function Keys(names: seq<string>): set<string> {
    set k | k in names
  }

  /** The keys of a list are those before its last key, and the last. */
  lemma KeysOfLast(names: seq<string>)
    requires names != []
    ensures Keys(names) == Keys(names[..|names| - 1]) + {names[|names| - 1]}
  {
    assert names == names[..|names| - 1] + [names[|names| - 1]];
  }

  /**
   * No row is inserted for anything but a key of the list: the names of the
   * final table are the names already there together with the keys.
   */
  lemma {:induction false} ResolveNamesExactly(t: seq<Named>, names: seq<string>)
    ensures Names(ResolveAll(t, names).table) == Names(t) + Keys(names)
    decreases |names|
  {
    if names != [] {
      var init, key := names[..|names| - 1], names[|names| - 1];
      ResolveNamesExactly(t, init);
      var prev := ResolveAll(t, init);
      var last := FindOrCreate(prev.table, key);
      assert ResolveAll(t, names).table == last.table;
      assert Names(last.table) == Names(prev.table) + {key} by {
        if HasName(prev.table, key) {
          var i :| 0 <= i < |prev.table| && prev.table[i].name == key;
          assert key in Names(prev.table);
        } else {
          NamesAppend(prev.table, last.entity);
        }
      }
      KeysOfLast(names);
    }
  }

  /**
   * Resolving the same list again against the table the first resolution left
   * behind returns the same entities and inserts nothing.
   */
  lemma ResolveIdempotent(t: seq<Named>, names: seq<string>)
    requires WellFormed(t)
    ensures var r := ResolveAll(t, names); ResolveAll(r.table, names) == r
  {
    var r := ResolveAll(t, names);
    ResolveKeys(t, names);
    ResolveStores(t, names);
    ResolveAgainstFinal(r.table, names, r.entities);
  }

  /** Helper of ResolveIdempotent: keys whose entities a table already stores resolve to those entities. */
  lemma {:induction false} ResolveAgainstFinal(u: seq<Named>, names: seq<string>, es: seq<Named>)
    requires WellFormed(u) && |es| == |names|
    requires forall i :: 0 <= i < |names| ==> es[i].name == names[i]
    requires forall i :: 0 <= i < |names| ==> StoredIn(u, es[i])
    ensures ResolveAll(u, names) == Resolutions(es, u)
    decreases |names|
  {
    if names != [] {
      var n := |names|;
      ResolveAgainstFinal(u, names[..n - 1], es[..n - 1]);
      ResolveLastStored(u, names, es);
    }
  }

  /** Helper of ResolveAgainstFinal: the step for the last key, whose entity the table already stores. */
  lemma ResolveLastStored(u: seq<Named>, names: seq<string>, es: seq<Named>)
    requires WellFormed(u) && |names| > 0 && |es| == |names|
    requires ResolveAll(u, names[..|names| - 1]) == Resolutions(es[..|names| - 1], u)
    requires es[|names| - 1].name == names[|names| - 1] && StoredIn(u, es[|names| - 1])
    ensures ResolveAll(u, names) == Resolutions(es, u)
  {
    var n := |names|;
    var last := FindOrCreate(u, names[n - 1]);
    assert u[es[n - 1].id - 1].name == names[n - 1];
    SameNameSameRow(u, es[n - 1], last.entity);
    TakeOneMore(es, n);
    assert es[..n] == es;
  }

  /** A prefix one element longer is the shorter prefix with that element appended. */
  lemma TakeOneMore<T>(s: seq<T>, k: int)
    requires 0 < k <= |s|
    ensures s[..k - 1] + [s[k - 1]] == s[..k]
  {
  }

  /** A country table: ids follow insertion order and codes are unique. */
  predicate WellFormedCountries(t: seq<Country>) {
    && (forall i :: 0 <= i < |t| ==> t[i].id == i + 1)
    && (forall i, j :: 0 <= i < j < |t| ==> t[i].code != t[j].code)
  }

  /** The country c is stored in the table at the position its id names. */
  predicate CountryStoredIn(t: seq<Country>, c: Country) {
    1 <= c.id <= |t| && t[c.id - 1] == c
  }

  /** Some row of the country table carries the code. */
  predicate HasCode(t: seq<Country>, code: string) {
    exists i :: 0 <= i < |t| && t[i].code == code
  }

  /** The lookup of a country by its code. */
  function FindCountry(t: seq<Country>, code: string): (r: Option<Country>)
    ensures r.Some? ==> r.value in t && r.value.code == code
    ensures r.None? <==> !HasCode(t, code)
  {
    if t == [] then None
    else if t[0].code == code then Some(t[0])
    else
      var r := FindCountry(t[1..], code);
      assert HasCode(t, code) ==> HasCode(t[1..], code) by {
        if HasCode(t, code) {
          var i :| 0 <= i < |t| && t[i].code == code;
          assert t[1..][i - 1] == t[i];
        }
      }
      r
  }

  /** The country a code resolves to, and the country table afterwards. */
  datatype CountryResolution = CountryResolution(country: Country, table: seq<Country>)

  /**
   * Find-or-create a country: an existing row is reused; a missing code gets
   * one new row with the next id and no display name.
   */
  function FindOrCreateCountry(t: seq<Country>, code: string): (r: CountryResolution)
    ensures r.country.code == code
    ensures HasCode(t, code) ==> r.table == t
    ensures !HasCode(t, code) ==> r.table == t + [r.country] && r.country == Country(|t| + 1, code, None)
    ensures WellFormedCountries(t) ==> WellFormedCountries(r.table) && CountryStoredIn(r.table, r.country)
  {
    match FindCountry(t, code)
    case Some(c) => CountryResolution(c, t)
    case None =>
      var c := Country(|t| + 1, code, None);
      CountryResolution(c, t + [c])
  }

  /** A second find-or-create of the same code returns the same country and inserts nothing. */
  lemma FindOrCreateCountryIdempotent(t: seq<Country>, code: string)
    requires WellFormedCountries(t)
    ensures var r := FindOrCreateCountry(t, code); FindOrCreateCountry(r.table, code) == r
  {
    var r := FindOrCreateCountry(t, code);
    assert r.table[r.country.id - 1].code == code;
  }
}
