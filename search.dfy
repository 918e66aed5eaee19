/**
 * The union search of CarService.search: every supplied criterion fetches
 * its matches, the lists are concatenated in a fixed order, repeated
 * entities are dropped, and the whole table is returned when nothing matched.
 */
module CarSearch {
  import opened Wrappers
  import opened Dates
  import opened Cars
  import opened Repository

  /** Position of a criterion kind in the order search consults them. */
  function Rank(q: Criterion): nat
  {
    match q
    case BrandContains(_) => 0
    case BrandIs(_) => 1
    case RegBetween(_, _) => 2
    case YearIs(_) => 3
    case OwnerIs(_) => 4
  }

  /**
   * Whether a call of search supplies criterion q: a brand or owner counts
   * when it is non-null and non-empty, a year when non-null, the date range
   * only when both ends are non-null.
   */
  predicate IsSupplied(q: Criterion, brand: Option<string>, startDate: Option<Date>, endDate: Option<Date>,
                       releaseYear: Option<int>, ownerName: Option<string>)
  {
    match q
    case BrandContains(_) => false
    case BrandIs(b) => brand == Some(b) && b != ""
    case RegBetween(s, e) => startDate == Some(s) && endDate == Some(e)
    case YearIs(y) => releaseYear == Some(y)
    case OwnerIs(o) => ownerName == Some(o) && o != ""
  }

  /** The criteria a call of search supplies, in the order brand, range, year, owner. */
  function Supplied(brand: Option<string>, startDate: Option<Date>, endDate: Option<Date>,
                    releaseYear: Option<int>, ownerName: Option<string>): (r: seq<Criterion>)
    ensures forall q :: q in r <==> IsSupplied(q, brand, startDate, endDate, releaseYear, ownerName)
  {
    BrandPart(brand) + RangePart(startDate, endDate) + YearPart(releaseYear) + OwnerPart(ownerName)
  }

  function BrandPart(brand: Option<string>): (r: seq<Criterion>)
    ensures |r| <= 1 && forall q :: q in r ==> Rank(q) == 1
  {
    if brand.Some? && brand.value != "" then [BrandIs(brand.value)] else []
  }

  function RangePart(startDate: Option<Date>, endDate: Option<Date>): (r: seq<Criterion>)
    ensures |r| <= 1 && forall q :: q in r ==> Rank(q) == 2
  {
    if startDate.Some? && endDate.Some? then [RegBetween(startDate.value, endDate.value)] else []
  }

  function YearPart(releaseYear: Option<int>): (r: seq<Criterion>)
    ensures |r| <= 1 && forall q :: q in r ==> Rank(q) == 3
  {
    if releaseYear.Some? then [YearIs(releaseYear.value)] else []
  }

  function OwnerPart(ownerName: Option<string>): (r: seq<Criterion>)
    ensures |r| <= 1 && forall q :: q in r ==> Rank(q) == 4
  {
    if ownerName.Some? && ownerName.value != "" then [OwnerIs(ownerName.value)] else []
  }

  predicate Ranked(r: seq<Criterion>)
  {
    forall i, j :: 0 <= i < j < |r| ==> Rank(r[i]) < Rank(r[j])
  }

  lemma RankedConcat(a: seq<Criterion>, b: seq<Criterion>)
    requires Ranked(a) && Ranked(b)
    requires forall x, y :: x in a && y in b ==> Rank(x) < Rank(y)
    ensures Ranked(a + b)
  {
    var r := a + b;
    forall i, j | 0 <= i < j < |r| ensures Rank(r[i]) < Rank(r[j]) {
      if i < |a| && j >= |a| {
        assert r[i] in a && r[j] == b[j - |a|] && r[j] in b;
      } else if j < |a| {
        assert r[i] == a[i] && r[j] == a[j];
      } else {
        assert r[i] == b[i - |a|] && r[j] == b[j - |a|];
      }
    }
  }

  /** search consults the criteria in the order brand, range, year, owner, each at most once. */
  lemma SuppliedInSearchOrder(brand: Option<string>, startDate: Option<Date>, endDate: Option<Date>,
                              releaseYear: Option<int>, ownerName: Option<string>)
    ensures Ranked(Supplied(brand, startDate, endDate, releaseYear, ownerName))
  {
    var a, b, c, d := BrandPart(brand), RangePart(startDate, endDate), YearPart(releaseYear), OwnerPart(ownerName);
    RankedConcat(a, b);
    RankedConcat(a + b, c);
    RankedConcat(a + b + c, d);
  }

  predicate MatchesSome(c: Car, criteria: seq<Criterion>)
  {
    exists q :: q in criteria && Matches(c, q)
  }

  lemma MatchesSomeConcat(c: Car, a: seq<Criterion>, b: seq<Criterion>)
    ensures MatchesSome(c, a + b) <==> MatchesSome(c, a) || MatchesSome(c, b)
  {
    if MatchesSome(c, a + b) {
      var q :| q in a + b && Matches(c, q);
    }
    if MatchesSome(c, a) {
      var q :| q in a && Matches(c, q);
      assert q in a + b;
    }
    if MatchesSome(c, b) {
      var q :| q in b && Matches(c, q);
      assert q in a + b;
    }
  }

  /** The matches of a part of the criteria list: none for an empty part, else its criterion's. */
  function PartHits(rows: seq<Car>, part: seq<Criterion>): seq<Car>
  {
    if part == [] then [] else Select(rows, part[0])
  }

  lemma PartHitsMembers(rows: seq<Car>, part: seq<Criterion>)
    requires |part| <= 1
    ensures forall c :: c in PartHits(rows, part) <==> c in rows && MatchesSome(c, part)
  {
    if part != [] {
      assert part == [part[0]];
    }
  }

  /**
   * The list search concatenates before dropping repeats: the matches of each
   * supplied criterion, in the order brand, range, year, owner.
   */
  function Gathered(rows: seq<Car>, brand: Option<string>, startDate: Option<Date>, endDate: Option<Date>,
                    releaseYear: Option<int>, ownerName: Option<string>): seq<Car>
  {
    PartHits(rows, BrandPart(brand)) + PartHits(rows, RangePart(startDate, endDate)) +
    PartHits(rows, YearPart(releaseYear)) + PartHits(rows, OwnerPart(ownerName))
  }

  /** A car is gathered exactly when it is stored and matches some supplied criterion. */
  lemma GatheredMembers(rows: seq<Car>, brand: Option<string>, startDate: Option<Date>, endDate: Option<Date>,
                        releaseYear: Option<int>, ownerName: Option<string>)
    ensures forall c :: c in Gathered(rows, brand, startDate, endDate, releaseYear, ownerName) <==>
      c in rows && MatchesSome(c, Supplied(brand, startDate, endDate, releaseYear, ownerName))
  {
    var a, b, y, o := BrandPart(brand), RangePart(startDate, endDate), YearPart(releaseYear), OwnerPart(ownerName);
    PartHitsMembers(rows, a);
    PartHitsMembers(rows, b);
    PartHitsMembers(rows, y);
    PartHitsMembers(rows, o);
    forall c ensures MatchesSome(c, a + b + y + o) <==>
      MatchesSome(c, a) || MatchesSome(c, b) || MatchesSome(c, y) || MatchesSome(c, o)
    {
      MatchesSomeConcat(c, a, b);
      MatchesSomeConcat(c, a + b, y);
      MatchesSomeConcat(c, a + b + y, o);
    }
  }

  /**
   * Stream.distinct on entities: keeps the first occurrence of every entity,
   * in order. An entity's identity is its id.
   */
  function Distinct(s: seq<Car>): (r: seq<Car>)
    ensures DistinctIds(r)
    ensures forall c :: c in r ==> c in s
    ensures forall c :: c in s ==> HasId(r, c.id)
    ensures r == [] <==> s == []
  {
    if s == [] then []
    else
      var init, x := s[..|s| - 1], s[|s| - 1];
      assert s == init + [x];
      var d := Distinct(init);
      if HasId(d, x.id) then d
      else
        assert forall k :: 0 <= k < |d| ==> d[k].id != x.id;
        assert forall k :: 0 <= k < |d| ==> (d + [x])[k] == d[k];
        assert (d + [x])[|d|].id == x.id;
        d + [x]
  }

  /** One step of Distinct: the last element is kept exactly when its id is new. */
  lemma DistinctSnoc(s: seq<Car>)
    requires s != []
    ensures var d := Distinct(s[..|s| - 1]);
            Distinct(s) == if HasId(d, s[|s| - 1].id) then d else d + [s[|s| - 1]]
  {
  }

  /** Index of the first element of s with this id. */
  function First(s: seq<Car>, id: CarId): (k: nat)
    requires HasId(s, id)
    ensures k < |s| && s[k].id == id
    ensures forall j :: 0 <= j < k ==> s[j].id != id
  {
    if s[0].id == id then 0
    else
      assert HasId(s[1..], id) by {
        var k :| 0 <= k < |s| && s[k].id == id;
        assert s[1..][k - 1].id == id;
      }
      1 + First(s[1..], id)
  }

  /** Every element of r is the first element of s with its id. */
  predicate AtFirstOccurrences(r: seq<Car>, s: seq<Car>)
  {
    forall i :: 0 <= i < |r| ==> HasId(s, r[i].id) && r[i] == s[First(s, r[i].id)]
  }

  /** The elements of r come in the order of their ids' first occurrences in s. */
  predicate InFirstOccurrenceOrder(r: seq<Car>, s: seq<Car>)
  {
    forall i, j :: 0 <= i < j < |r| ==>
      HasId(s, r[i].id) && HasId(s, r[j].id) && First(s, r[i].id) < First(s, r[j].id)
  }

  lemma FirstOfPrefix(s: seq<Car>, n: nat, id: CarId)
    requires n <= |s| && HasId(s[..n], id)
    ensures HasId(s, id) && First(s, id) == First(s[..n], id)
  {
    var k := First(s[..n], id);
    assert s[k] == s[..n][k];
    assert forall j :: 0 <= j < k ==> s[j] == s[..n][j];
  }

  lemma FirstOfNewId(s: seq<Car>)
    requires s != [] && !HasId(s[..|s| - 1], s[|s| - 1].id)
    ensures HasId(s, s[|s| - 1].id) && First(s, s[|s| - 1].id) == |s| - 1
  {
    assert forall j :: 0 <= j < |s| - 1 ==> s[j] == s[..|s| - 1][j];
  }

  /** The ids Distinct(s[..|s|-1]) holds keep their first position when s grows by one. */
  lemma FirstUnchangedByAppend(s: seq<Car>)
    requires s != []
    ensures forall c :: c in Distinct(s[..|s| - 1]) ==>
      HasId(s[..|s| - 1], c.id) && HasId(s, c.id) && First(s, c.id) == First(s[..|s| - 1], c.id)
  {
    var init := s[..|s| - 1];
    forall c | c in Distinct(init) ensures HasId(init, c.id) && HasId(s, c.id) && First(s, c.id) == First(init, c.id) {
      assert c in init;
      var k :| 0 <= k < |init| && init[k] == c;
      FirstOfPrefix(s, |s| - 1, c.id);
    }
  }

  lemma AtFirstCarriesOver(s: seq<Car>)
    requires s != []
    requires AtFirstOccurrences(Distinct(s[..|s| - 1]), s[..|s| - 1])
    ensures AtFirstOccurrences(Distinct(s[..|s| - 1]), s)
  {
    var init := s[..|s| - 1];
    var d := Distinct(init);
    FirstUnchangedByAppend(s);
    forall i | 0 <= i < |d| ensures HasId(s, d[i].id) && d[i] == s[First(s, d[i].id)] {
      assert d[i] in d;
      assert init[First(init, d[i].id)] == s[First(init, d[i].id)];
    }
  }

  lemma AtFirstExtends(d: seq<Car>, x: Car, s: seq<Car>)
    requires AtFirstOccurrences(d, s) && HasId(s, x.id) && x == s[First(s, x.id)]
    ensures AtFirstOccurrences(d + [x], s)
  {
    var r := d + [x];
    forall i | 0 <= i < |r| ensures HasId(s, r[i].id) && r[i] == s[First(s, r[i].id)] {
      if i < |d| {
        assert r[i] == d[i];
      }
    }
  }

  /** Distinct returns each entity as the first element of s with its id. */
  lemma {:induction false} DistinctAtFirstOccurrences(s: seq<Car>)
    ensures AtFirstOccurrences(Distinct(s), s)
  {
    if s != [] {
      var init, x := s[..|s| - 1], s[|s| - 1];
      DistinctAtFirstOccurrences(init);
      AtFirstCarriesOver(s);
      var d := Distinct(init);
      DistinctSnoc(s);
      if !HasId(d, x.id) {
        forall k | 0 <= k < |init| ensures init[k].id != x.id {
          assert init[k] in init;
        }
        FirstOfNewId(s);
        AtFirstExtends(d, x, s);
      }
    }
  }

  lemma OrderCarriesOver(s: seq<Car>)
    requires s != []
    requires InFirstOccurrenceOrder(Distinct(s[..|s| - 1]), s[..|s| - 1])
    ensures InFirstOccurrenceOrder(Distinct(s[..|s| - 1]), s)
  {
    var init := s[..|s| - 1];
    FirstUnchangedByAppend(s);
    var d := Distinct(init);
    forall i, j | 0 <= i < j < |d|
      ensures HasId(s, d[i].id) && HasId(s, d[j].id) && First(s, d[i].id) < First(s, d[j].id)
    {
      assert d[i] in d && d[j] in d;
    }
  }

  lemma OrderExtends(d: seq<Car>, x: Car, s: seq<Car>)
    requires InFirstOccurrenceOrder(d, s) && HasId(s, x.id)
    requires forall i :: 0 <= i < |d| ==> HasId(s, d[i].id) && First(s, d[i].id) < First(s, x.id)
    ensures InFirstOccurrenceOrder(d + [x], s)
  {
    var r := d + [x];
    forall i, j | 0 <= i < j < |r|
      ensures HasId(s, r[i].id) && HasId(s, r[j].id) && First(s, r[i].id) < First(s, r[j].id)
    {
      if j < |d| {
        assert r[i] == d[i] && r[j] == d[j];
      } else {
        assert r[i] == d[i] && r[j] == x;
      }
    }
  }

  lemma OrderOfNewId(s: seq<Car>)
    requires s != [] && !HasId(Distinct(s[..|s| - 1]), s[|s| - 1].id)
    requires InFirstOccurrenceOrder(Distinct(s[..|s| - 1]), s)
    ensures InFirstOccurrenceOrder(Distinct(s[..|s| - 1]) + [s[|s| - 1]], s)
  {
    var init, x := s[..|s| - 1], s[|s| - 1];
    var d := Distinct(init);
    assert !HasId(init, x.id) by {
      forall k | 0 <= k < |init| ensures init[k].id != x.id {
        assert init[k] in init;
      }
    }
    FirstOfNewId(s);
    FirstUnchangedByAppend(s);
    forall i | 0 <= i < |d| ensures HasId(s, d[i].id) && First(s, d[i].id) < First(s, x.id) {
      assert d[i] in d;
    }
    OrderExtends(d, x, s);
  }

  lemma OrderAfterAppend(s: seq<Car>)
    requires s != []
    requires InFirstOccurrenceOrder(Distinct(s[..|s| - 1]), s[..|s| - 1])
    ensures InFirstOccurrenceOrder(Distinct(s), s)
  {
    var init, x := s[..|s| - 1], s[|s| - 1];
    DistinctSnoc(s);
    OrderCarriesOver(s);
    if !HasId(Distinct(init), x.id) {
      OrderOfNewId(s);
    }
  }

  /** Distinct lists the entities in the order of their first occurrences in s. */
  lemma {:induction false} DistinctInFirstOccurrenceOrder(s: seq<Car>)
    ensures InFirstOccurrenceOrder(Distinct(s), s)
  {
    if s != [] {
      DistinctInFirstOccurrenceOrder(s[..|s| - 1]);
      OrderAfterAppend(s);
    }
  }

  /** What search returns. */
  function SearchResult(rows: seq<Car>, brand: Option<string>, startDate: Option<Date>, endDate: Option<Date>,
                        releaseYear: Option<int>, ownerName: Option<string>): (r: seq<Car>)
    ensures forall c :: c in r ==> c in rows
  {
    GatheredMembers(rows, brand, startDate, endDate, releaseYear, ownerName);
    var found := Distinct(Gathered(rows, brand, startDate, endDate, releaseYear, ownerName));
    if found == [] then rows else found
  }

  /** With no criterion supplied, search is findAll. */
  lemma SearchWithoutCriteriaIsFindAll(rows: seq<Car>, brand: Option<string>, startDate: Option<Date>,
                                       endDate: Option<Date>, releaseYear: Option<int>, ownerName: Option<string>)
    requires brand.None? || brand == Some("")
    requires startDate.None? || endDate.None?
    requires releaseYear.None?
    requires ownerName.None? || ownerName == Some("")
    ensures SearchResult(rows, brand, startDate, endDate, releaseYear, ownerName) == rows
  {
    assert Supplied(brand, startDate, endDate, releaseYear, ownerName) == [];
  }

  /** A date range with an open end is ignored, as if neither date were given. */
  lemma HalfOpenRangeIsIgnored(rows: seq<Car>, brand: Option<string>, startDate: Option<Date>,
                               endDate: Option<Date>, releaseYear: Option<int>, ownerName: Option<string>)
    requires startDate.None? || endDate.None?
    ensures SearchResult(rows, brand, startDate, endDate, releaseYear, ownerName)
         == SearchResult(rows, brand, None, None, releaseYear, ownerName)
  {
    assert Supplied(brand, startDate, endDate, releaseYear, ownerName)
        == Supplied(brand, None, None, releaseYear, ownerName);
  }

  /** search never lists an entity twice. */
  lemma SearchHasNoDuplicates(rows: seq<Car>, brand: Option<string>, startDate: Option<Date>,
                              endDate: Option<Date>, releaseYear: Option<int>, ownerName: Option<string>)
    requires DistinctIds(rows)
    ensures DistinctIds(SearchResult(rows, brand, startDate, endDate, releaseYear, ownerName))
  {
  }

  /**
   * When some stored car matches some supplied criterion, search returns
   * exactly the cars that match at least one supplied criterion: a union,
   * not an intersection.
   */
  lemma SearchIsUnion(rows: seq<Car>, brand: Option<string>, startDate: Option<Date>,
                      endDate: Option<Date>, releaseYear: Option<int>, ownerName: Option<string>)
    requires DistinctIds(rows)
    requires exists c :: c in rows && MatchesSome(c, Supplied(brand, startDate, endDate, releaseYear, ownerName))
    ensures forall c :: c in SearchResult(rows, brand, startDate, endDate, releaseYear, ownerName) <==>
      c in rows && MatchesSome(c, Supplied(brand, startDate, endDate, releaseYear, ownerName))
  {
    var criteria := Supplied(brand, startDate, endDate, releaseYear, ownerName);
    var hits := Gathered(rows, brand, startDate, endDate, releaseYear, ownerName);
    GatheredMembers(rows, brand, startDate, endDate, releaseYear, ownerName);
    DistinctOfTableRows(hits, rows);
    var w :| w in rows && MatchesSome(w, criteria);
    assert w in hits;
    assert SearchResult(rows, brand, startDate, endDate, releaseYear, ownerName) == Distinct(hits);
  }

  /** Over cars drawn from a table, distinct keeps every car: it only drops repeats. */
  lemma DistinctOfTableRows(s: seq<Car>, rows: seq<Car>)
    requires DistinctIds(rows) && forall c :: c in s ==> c in rows
    ensures forall c :: c in Distinct(s) <==> c in s
  {
    var found := Distinct(s);
    forall c | c in s ensures c in found {
      var k :| 0 <= k < |found| && found[k].id == c.id;
      SameIdSameCar(rows, found[k], c);
    }
  }

  /** When no stored car matches any supplied criterion, search returns the whole table. */
  lemma SearchFallsBackToFindAll(rows: seq<Car>, brand: Option<string>, startDate: Option<Date>,
                                 endDate: Option<Date>, releaseYear: Option<int>, ownerName: Option<string>)
    requires forall c :: c in rows ==> !MatchesSome(c, Supplied(brand, startDate, endDate, releaseYear, ownerName))
    ensures SearchResult(rows, brand, startDate, endDate, releaseYear, ownerName) == rows
  {
    GatheredMembers(rows, brand, startDate, endDate, releaseYear, ownerName);
  }

  /** search returns an empty list only when the table is empty. */
  lemma SearchEmptyOnlyForEmptyTable(rows: seq<Car>, brand: Option<string>, startDate: Option<Date>,
                                     endDate: Option<Date>, releaseYear: Option<int>, ownerName: Option<string>)
    ensures SearchResult(rows, brand, startDate, endDate, releaseYear, ownerName) == [] <==> rows == []
  {
    GatheredMembers(rows, brand, startDate, endDate, releaseYear, ownerName);
  }

  /**
   * When something matched, the result lists the matches in the order their
   * first occurrence has in the concatenation brand, range, year, owner.
   */
  lemma SearchKeepsFirstOccurrenceOrder(rows: seq<Car>, brand: Option<string>, startDate: Option<Date>,
                                        endDate: Option<Date>, releaseYear: Option<int>, ownerName: Option<string>)
    requires exists c :: c in rows && MatchesSome(c, Supplied(brand, startDate, endDate, releaseYear, ownerName))
    ensures var hits := Gathered(rows, brand, startDate, endDate, releaseYear, ownerName);
            var r := SearchResult(rows, brand, startDate, endDate, releaseYear, ownerName);
            AtFirstOccurrences(r, hits) && InFirstOccurrenceOrder(r, hits)
  {
    var hits := Gathered(rows, brand, startDate, endDate, releaseYear, ownerName);
    GatheredMembers(rows, brand, startDate, endDate, releaseYear, ownerName);
    var w :| w in rows && MatchesSome(w, Supplied(brand, startDate, endDate, releaseYear, ownerName));
    assert w in hits;
    DistinctAtFirstOccurrences(hits);
    DistinctInFirstOccurrenceOrder(hits);
  }
}
