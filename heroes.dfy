/**
 * The hero repository of the REST API: a table of heroes keyed by id, and the
 * counter `HeroCount` that hands out ids, starting at 1. `add_hero` takes the
 * counter's value as the new id, bumps the counter and inserts the hero;
 * `get_hero` looks an id up; `get_all` lists every stored hero.
 */
module Heroes {
  import opened Wrappers
  import Decimal

  datatype Hero = Hero(id: nat, name: string, canFly: bool)

  /** The request body of `POST /heroes`: a hero without an id. */
  datatype NewHero = NewHero(name: string, canFly: bool)

  /**
   * The repository's invariant: every key is its hero's id, the ids handed out
   * so far are exactly `1 .. next - 1`, and each of them is stored.
   */
  predicate Consistent(m: map<nat, Hero>, next: nat)
  {
    1 <= next &&
    (forall id :: id in m ==> m[id].id == id && 1 <= id < next) &&
    (forall id :: 1 <= id < next ==> id in m)
  }

  /** Inserting the next id keeps the invariant, overwrites nothing and leaves every other entry alone. */
  lemma InsertNext(m: map<nat, Hero>, next: nat, h: NewHero)
    requires Consistent(m, next)
    ensures next !in m
    ensures Consistent(m[next := Hero(next, h.name, h.canFly)], next + 1)
  {
  }

  /** The table holds exactly as many heroes as ids were handed out. */
  lemma {:induction false} SizeOfConsistent(m: map<nat, Hero>, next: nat)
    requires Consistent(m, next)
    ensures |m| == next - 1
    decreases next
  {
    if next > 1 {
      var k := next - 1;
      var smaller := m - {k};
      assert smaller.Keys == m.Keys - {k};
      assert Consistent(smaller, k);
      SizeOfConsistent(smaller, k);
    } else {
      assert m.Keys == {};
    }
  }

  /** The `Location` of a hero: the URI of its `get_hero` route, `/api/heroes/<id>`. */
  function Location(id: nat): (loc: string)
    ensures |loc| > 12 && loc[..12] == "/api/heroes/"
  {
    "/api/heroes/" + Decimal.NatToString(id)
  }

  /** The id can be read back from the location, so no two heroes share a location. */
  lemma LocationNamesId(id: nat)
    ensures Decimal.ParseNat(Location(id)[12..]) == Some(id)
  {
    assert Location(id)[12..] == Decimal.NatToString(id);
    Decimal.ParseNatToString(id);
  }

  lemma LocationInjective(a: nat, b: nat)
    requires Location(a) == Location(b)
    ensures a == b
  {
    LocationNamesId(a);
    LocationNamesId(b);
  }

  /** The heroes stored under the keys `1 .. n - 1`, by ascending id. */
  function Listed(m: map<nat, Hero>, n: nat): seq<Hero>
  {
    if n <= 1 then []
    else Listed(m, n - 1) + (if n - 1 in m then [m[n - 1]] else [])
  }

  /** A listing holds exactly the stored heroes below `n`, each once, by ascending id. */
  lemma {:induction false} ListedContents(m: map<nat, Hero>, n: nat)
    requires forall id :: id in m ==> m[id].id == id
    ensures forall h :: h in Listed(m, n) <==> h in m.Values && 1 <= h.id < n
    ensures forall i, j :: 0 <= i < j < |Listed(m, n)| ==> Listed(m, n)[i].id < Listed(m, n)[j].id
    ensures forall i :: 0 <= i < |Listed(m, n)| ==> 1 <= Listed(m, n)[i].id < n
    ensures (forall id :: 1 <= id < n ==> id in m) ==> |Listed(m, n)| == if n <= 1 then 0 else n - 1
  {
    if n > 1 {
      ListedContents(m, n - 1);
      var hs := Listed(m, n);
      if n - 1 in m {
        assert forall h :: h in m.Values && h.id == n - 1 ==> h == m[n - 1];
      } else {
        assert forall h :: h in m.Values ==> h.id != n - 1;
      }
    }
  }

  /** The repository as the program's managed state: the map behind the lock and the id counter. */
  class HeroStore {
    var heroes: map<nat, Hero>
    var nextId: nat

    ghost predicate Valid()
      reads this
    {
      Consistent(heroes, nextId)
    }

    /** An empty table, and ids start at 1. */
    constructor()
      ensures Valid() && heroes == map[] && nextId == 1
    {
      heroes := map[];
      nextId := 1;
    }

    /**
     * `add_hero`: the new hero gets the counter's value as its id, the counter
     * goes up by one, and the hero is stored under its id without replacing
     * any stored hero.
     */
    method AddHero(h: NewHero) returns (hero: Hero, location: string)
      requires Valid()
      modifies this
      ensures Valid()
      ensures hero == Hero(old(nextId), h.name, h.canFly)
      ensures nextId == old(nextId) + 1
      ensures hero.id !in old(heroes) && heroes == old(heroes)[hero.id := hero]
      ensures |heroes| == |old(heroes)| + 1
      ensures location == Location(hero.id)
      ensures GetHero(hero.id) == Some(hero)
    {
      var hid := nextId;
      nextId := nextId + 1;
      hero := Hero(hid, h.name, h.canFly);
      InsertNext(heroes, hid, h);
      heroes := heroes[hid := hero];
      SizeOfConsistent(old(heroes), hid);
      SizeOfConsistent(heroes, nextId);
      location := Location(hid);
    }

    /** `get_hero`: the stored hero with that id, or `None` (a 404). */
    function GetHero(id: nat): (r: Option<Hero>)
      reads this
      ensures r.Some? <==> id in heroes
      ensures r.Some? ==> r.value == heroes[id]
      ensures Valid() ==> (r.Some? <==> 1 <= id < nextId) && (r.Some? ==> r.value.id == id)
    {
      if id in heroes then Some(heroes[id]) else None
    }

    /** `get_all`: every stored hero, each once; the order is by id. */
    function GetAll(): (all: seq<Hero>)
      reads this
      requires Valid()
      ensures |all| == |heroes| == nextId - 1
      ensures forall h :: h in all <==> h in heroes.Values
      ensures forall i, j :: 0 <= i < j < |all| ==> all[i].id < all[j].id
    {
      ListedContents(heroes, nextId);
      SizeOfConsistent(heroes, nextId);
      Listed(heroes, nextId)
    }
  }
}
