/**
 * An append-only path of cities. Every operation returns a new path and never changes its
 * argument, which is what copying the list before appending achieves in the Java code. Cities
 * are compared by reference, as `List.contains` does for a class without `equals`.
 */
module Paths {
  import opened Cities

  datatype Path = Path(cities: seq<City>)

  /** Every path built from `at` and `add` holds at least one city. */
  ghost predicate NonEmpty(p: Path)
  {
    |p.cities| >= 1
  }

  /** `Path.at`: the path that starts, and so far ends, at `city`. */
  function At(city: City): (p: Path)
    ensures NonEmpty(p) && Size(p) == 1 && Last(p) == city
    ensures multiset(p.cities) == multiset{city} && Has(p, city)
  {
    Path([city])
  }

  /** `add`: a new path with `city` appended; the cities before it keep their positions. */
  function Add(p: Path, city: City): (q: Path)
    ensures NonEmpty(q) && Size(q) == Size(p) + 1 && Last(q) == city
    ensures forall i :: 0 <= i < Size(p) ==> q.cities[i] == p.cities[i]
    ensures multiset(q.cities) == multiset(p.cities) + multiset{city} && Has(q, city)
  {
    Path(p.cities + [city])
  }

  /** `last`: the city most recently added. */
  function Last(p: Path): (c: City)
    requires NonEmpty(p)
    ensures Has(p, c)
  {
    p.cities[|p.cities| - 1]
  }

  /** `size`: the number of cities, repeats included. */
  function Size(p: Path): nat
  {
    |p.cities|
  }

  /** `getCityId`: the id of the `i`-th city. */
  function GetCityId(p: Path, i: nat): int
    requires i < Size(p)
  {
    p.cities[i].id
  }

  /** `has`: whether `city` itself (not merely a city with the same id) is on the path. */
  predicate Has(p: Path, city: City)
  {
    city in p.cities
  }

  /** The path `at(first).add(rest[0]).add(rest[1])...`. */
  function Build(first: City, rest: seq<City>): Path
  {
    if rest == [] then At(first) else Add(Build(first, rest[..|rest| - 1]), rest[|rest| - 1])
  }

  /**
   * A path built from `at` and `add` lists its cities in the order they were added, is never
   * empty, and ends at the city added last.
   */
  lemma {:induction false} BuildOrder(first: City, rest: seq<City>)
    ensures Build(first, rest).cities == [first] + rest
    ensures NonEmpty(Build(first, rest)) && Size(Build(first, rest)) == |rest| + 1
    ensures Last(Build(first, rest)) == if rest == [] then first else rest[|rest| - 1]
  {
    if rest != [] {
      BuildOrder(first, rest[..|rest| - 1]);
      assert [first] + rest[..|rest| - 1] + [rest[|rest| - 1]] == [first] + rest;
    }
  }

  /** After `add(city)`, `has` holds of `city` and of exactly the cities it held of before. */
  lemma HasAfterAdd(p: Path, city: City, c: City)
    ensures Has(Add(p, city), c) <==> Has(p, c) || c == city
  {
    assert c in multiset(Add(p, city).cities) <==> c in multiset(p.cities) || c == city;
  }

  /** After `add(city)`, the ids of the earlier positions are unchanged and the new last id is `city`'s. */
  lemma GetCityIdAfterAdd(p: Path, city: City, i: nat)
    requires i <= Size(p)
    ensures GetCityId(Add(p, city), i) == if i < Size(p) then GetCityId(p, i) else city.id
  {
  }
}
