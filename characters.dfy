/** The filter/sort engine of src/App.jsx: the character records, the filter
    criteria and sort key chosen in the filter panel, the derived
    (filtered, then optionally sorted) list, and the species options. */
module Characters {
  import opened Text
  import opened Collections
  import opened Sorting

  datatype Location = Location(name: string)

  /** One record of the character API; never changed once fetched. */
  datatype Character = Character(
    id: int,
    name: string,
    status: string,
    species: string,
    gender: string,
    location: Location,
    image: string)

  /** The filter panel's state. An empty field means "do not filter on it"
      (an empty string is falsy in the `if (filters.x)` tests). */
  datatype Criteria = Criteria(name: string, status: string, species: string)

  const NoCriteria := Criteria("", "", "")

  /** The sort select: '' (no sorting), 'name' or 'status'. */
  datatype SortKey = Unsorted | ByName | ByStatus

  /** The field `a[sortKey]` reads. */
  function SortField(k: SortKey): Character -> string
    requires k != Unsorted
  {
    if k == ByName then (ch: Character) => ch.name else (ch: Character) => ch.status
  }

  /** Name filter: the lower-cased name includes the lower-cased text. */
  predicate NameMatches(ch: Character, text: string)
  {
    Contains(Lower(ch.name), Lower(text))
  }

  /** Status filter: exact, case-sensitive equality. */
  predicate StatusMatches(ch: Character, status: string)
  {
    ch.status == status
  }

  /** Species filter: equality after lower-casing both sides. */
  predicate SpeciesMatches(ch: Character, species: string)
  {
    Lower(ch.species) == Lower(species)
  }

  /** A record passes the criteria when it passes every active filter. */
  predicate Matches(ch: Character, c: Criteria)
  {
    && (c.name != "" ==> NameMatches(ch, c.name))
    && (c.status != "" ==> StatusMatches(ch, c.status))
    && (c.species != "" ==> SpeciesMatches(ch, c.species))
  }

  /** What the filter effect computes: the records passing all active
      filters, in data order, then stably sorted by the chosen field. */
  function Apply(data: seq<Character>, c: Criteria, k: SortKey): (r: seq<Character>)
    ensures |r| <= |data|
  {
    var kept := Filter(data, ch => Matches(ch, c));
    if k == Unsorted then kept else SortBy(kept, SortField(k))
  }

  /** The filter effect's body (App.jsx:134-161): a copy of the data, up to
      three filter stages in the fixed order name, status, species, each
      replacing the working list, then the sort, then the emptiness flag. */
  method FilterAndSort(data: seq<Character>, filters: Criteria, sortKey: SortKey)
    returns (updatedData: seq<Character>, noResults: bool)
    ensures updatedData == Apply(data, filters, sortKey)
    ensures noResults <==> |updatedData| == 0
  {
    updatedData := data;
    // The stages so far amount to one filter by `passed`.
    ghost var passed: Character -> bool := ch => true;
    FilterKeepsAll(data, passed);

    if filters.name != "" {
      var p := ch => NameMatches(ch, filters.name);
      ghost var next := ch => passed(ch) && p(ch);
      FilterConjunction(data, passed, p, next);
      updatedData := Filter(updatedData, p);
      passed := next;
    }
    assert updatedData == Filter(data, passed);
    assert forall ch :: passed(ch) == (filters.name != "" ==> NameMatches(ch, filters.name));

    if filters.status != "" {
      var p := ch => StatusMatches(ch, filters.status);
      ghost var next := ch => passed(ch) && p(ch);
      FilterConjunction(data, passed, p, next);
      updatedData := Filter(updatedData, p);
      passed := next;
    }
    assert updatedData == Filter(data, passed);

    if filters.species != "" {
      var p := ch => SpeciesMatches(ch, filters.species);
      ghost var next := ch => passed(ch) && p(ch);
      FilterConjunction(data, passed, p, next);
      updatedData := Filter(updatedData, p);
      passed := next;
    }
    assert forall ch :: passed(ch) == Matches(ch, filters);
    FilterExtensional(data, passed, ch => Matches(ch, filters));

    if sortKey != Unsorted {
      updatedData := SortBy(updatedData, SortField(sortKey));
    }
    noResults := |updatedData| == 0;
  }

  /** Soundness and completeness: a record occurs in the result exactly as
      often as in the data when it passes every active filter, and not at
      all otherwise; this holds whatever the sort key. */
  lemma ApplyKeepsExactlyMatches(data: seq<Character>, c: Criteria, k: SortKey)
    ensures forall ch :: multiset(Apply(data, c, k))[ch] == if Matches(ch, c) then multiset(data)[ch] else 0
    ensures forall ch :: ch in Apply(data, c, k) <==> ch in data && Matches(ch, c)
  {
    var r := Apply(data, c, k);
    var kept := Filter(data, ch => Matches(ch, c));
    FilterCounts(data, ch => Matches(ch, c));
    if k != Unsorted {
      SortByIsSortedPermutation(kept, SortField(k));
    }
    assert multiset(r) == multiset(kept);
    forall ch ensures ch in r <==> ch in data && Matches(ch, c) {
      assert ch in r <==> multiset(r)[ch] > 0;
      assert ch in data <==> multiset(data)[ch] > 0;
    }
  }

  /** Without a sort key the result keeps the data's order. */
  lemma ApplyUnsortedKeepsOrder(data: seq<Character>, c: Criteria)
    ensures Subsequence(Apply(data, c, Unsorted), data)
  {
    FilterSubsequence(data, ch => Matches(ch, c));
  }

  /** With no filter and no sort key the result is the data itself. */
  lemma ApplyNothingIsIdentity(data: seq<Character>)
    ensures Apply(data, NoCriteria, Unsorted) == data
  {
    FilterKeepsAll(data, ch => Matches(ch, NoCriteria));
  }

  /** With a sort key the result is the filtered list, reordered so that
      the chosen field never decreases, with records that share that field's
      value left in their filtered order. */
  lemma ApplySortedIsStablePermutation(data: seq<Character>, c: Criteria, k: SortKey)
    requires k != Unsorted
    ensures Sorted(Apply(data, c, k), SortField(k))
    ensures multiset(Apply(data, c, k)) == multiset(Filter(data, ch => Matches(ch, c)))
    ensures forall v :: WithKey(Apply(data, c, k), SortField(k), v) == WithKey(Filter(data, ch => Matches(ch, c)), SortField(k), v)
  {
    var kept := Filter(data, ch => Matches(ch, c));
    SortByIsSortedPermutation(kept, SortField(k));
    forall v ensures WithKey(Apply(data, c, k), SortField(k), v) == WithKey(kept, SortField(k), v) {
      SortStable(kept, SortField(k), v);
    }
  }

  /** Running the engine on its own output with the same criteria and sort
      key gives the same list back. */
  lemma ApplyIdempotent(data: seq<Character>, c: Criteria, k: SortKey)
    ensures Apply(Apply(data, c, k), c, k) == Apply(data, c, k)
  {
    var r := Apply(data, c, k);
    ApplyKeepsExactlyMatches(data, c, k);
    forall i | 0 <= i < |r| ensures Matches(r[i], c) {
      assert r[i] in r;
    }
    FilterKeepsAll(r, ch => Matches(ch, c));
    if k != Unsorted {
      var kept := Filter(data, ch => Matches(ch, c));
      SortByIsSortedPermutation(kept, SortField(k));
      SortSortedIsIdentity(r, SortField(k));
    }
  }

  /** `data.map((char) => char.species)`. */
  function SpeciesOf(data: seq<Character>): (r: seq<string>)
    ensures |r| == |data|
    ensures forall i :: 0 <= i < |data| ==> r[i] == data[i].species
  {
    if data == [] then [] else [data[0].species] + SpeciesOf(data[1..])
  }

  /** `[...new Set(species)].sort()`, with strings compared by `Leq`. */
  function SpeciesOptions(data: seq<Character>): (r: seq<string>)
    ensures |r| <= |data|
  {
    SortBy(Dedup(SpeciesOf(data)), (s: string) => s)
  }

  /** The species options are exactly the species occurring in the data,
      each listed once, in strictly ascending order. */
  lemma SpeciesOptionsAreSortedDistinctSpecies(data: seq<Character>)
    ensures forall x :: x in SpeciesOptions(data) <==> exists i :: 0 <= i < |data| && data[i].species == x
    ensures forall x :: x in SpeciesOptions(data) ==> multiset(SpeciesOptions(data))[x] == 1
    ensures forall i, j :: 0 <= i < j < |SpeciesOptions(data)| ==>
              Leq(SpeciesOptions(data)[i], SpeciesOptions(data)[j]) && SpeciesOptions(data)[i] != SpeciesOptions(data)[j]
  {
    var all := SpeciesOf(data);
    var d := Dedup(all);
    var r := SpeciesOptions(data);
    DedupKeepsEachOnce(all);
    SortByIsSortedPermutation(d, (s: string) => s);
    assert multiset(r) == multiset(d);
    DistinctIffSingletons(d);
    DistinctIffSingletons(r);
    forall x ensures x in r <==> exists i :: 0 <= i < |data| && data[i].species == x {
      assert x in r <==> multiset(r)[x] > 0;
      assert x in d <==> multiset(d)[x] > 0;
      if x in all {
        var i :| 0 <= i < |all| && all[i] == x;
        assert data[i].species == x;
      }
      if exists i :: 0 <= i < |data| && data[i].species == x {
        var i :| 0 <= i < |data| && data[i].species == x;
        assert all[i] == x;
      }
    }
    forall x | x in r ensures multiset(r)[x] == 1 {
      assert multiset(r)[x] > 0;
    }
  }
}
