/** The program's bounded collection of creatures (Program.cs): a list whose capacity
    `maxCreatures` is read once at start-up, with add, five searches and three kinds
    of delete. The console prompts around these operations are not modelled; their
    already-parsed answers are the parameters here. */
module Collection {
  import opened Wrappers
  import opened Text
  import opened Linq
  import opened Calendar
  import opened MagicalCreature

  datatype CollectionError =
    | CapacityNotPositive
    | CapacityReached
    | NumberOutOfRange
    | Rejected(error: ValidationError)

  /** The list of creatures in insertion order, and its capacity. */
  datatype Roster = Roster(creatures: seq<Creature>, maxCreatures: int)

  /** The capacity is positive, the list never outgrows it, and every creature in it
      satisfies the entity invariant at clock reading `now`. */
  predicate Invariant(r: Roster, now: DateTime) {
    && r.maxCreatures > 0
    && |r.creatures| <= r.maxCreatures
    && forall i :: 0 <= i < |r.creatures| ==> Valid(r.creatures[i], now)
  }

  /** The roster after an operation: the new one on success, the old one on failure. */
  function RosterAfter(r: Roster, res: Result<Roster, CollectionError>): Roster {
    if res.Success? then res.value else r
  }

  /** Start-up: the capacity is accepted only when positive (the prompt repeats
      otherwise), and the collection starts empty. */
  function Initialize(maxCreatures: int): (r: Result<Roster, CollectionError>)
    ensures r.Success? <==> maxCreatures > 0
    ensures r.Failure? ==> r.error == CapacityNotPositive
    ensures r.Success? ==> r.value.creatures == [] && r.value.maxCreatures == maxCreatures
    ensures r.Success? ==> forall now :: Invariant(r.value, now)
  {
    if maxCreatures > 0 then Success(Roster([], maxCreatures)) else Failure(CapacityNotPositive)
  }

  /** `AddCreature`: refuses when the list is full, before anything is constructed;
      otherwise constructs the creature and appends it, or reports why construction
      failed and leaves the list alone. */
  function AddCreature(
    r: Roster, name: string, species: string, age: int, magicPower: real,
    magicType: MagicType, canFly: bool, discoveryDate: DateTime, healthPoints: int,
    now: DateTime): (res: Result<Roster, CollectionError>)
    ensures |r.creatures| >= r.maxCreatures ==> res == Failure(CapacityReached)
    ensures res.Success? <==>
      |r.creatures| < r.maxCreatures
      && Construct(name, species, age, magicPower, magicType, canFly, discoveryDate, healthPoints, now).Success?
    ensures res.Failure? && |r.creatures| < r.maxCreatures ==>
      res.error.Rejected?
      && res.error.error ==
         Construct(name, species, age, magicPower, magicType, canFly, discoveryDate, healthPoints, now).error
    ensures res.Success? ==>
      && res.value.maxCreatures == r.maxCreatures
      && |res.value.creatures| == |r.creatures| + 1
      && res.value.creatures[..|r.creatures|] == r.creatures
    ensures res.Success? ==>
      res.value == Roster(r.creatures + [res.value.creatures[|r.creatures|]], r.maxCreatures)
    ensures res.Success? ==>
      var added := res.value.creatures[|r.creatures|];
      && Valid(added, now)
      && added.name == name && added.species == species && added.age == age
      && added.magicPower == magicPower && added.magicType == magicType && added.canFly == canFly
      && added.discoveryDate == discoveryDate && added.healthPoints == healthPoints
    ensures Invariant(r, now) ==> Invariant(RosterAfter(r, res), now)
  {
    if |r.creatures| >= r.maxCreatures then Failure(CapacityReached)
    else
      match Construct(name, species, age, magicPower, magicType, canFly, discoveryDate, healthPoints, now)
      case Failure(e) => Failure(Rejected(e))
      case Success(c) =>
        var next := Roster(r.creatures + [c], r.maxCreatures);
        assert next.creatures[..|r.creatures|] == r.creatures;
        Success(next)
  }

  // ---------------------------------------------------------------------------
  // Searches: each is `creatures.Where(...).ToList()`

  /** The text field a search or a bulk delete matches on. */
  datatype Key = ByName | BySpecies

  function KeyOf(c: Creature, key: Key): string {
    match key
    case ByName => c.name
    case BySpecies => c.species
  }

  /** The filters the searches apply. */
  function HasType(magicType: MagicType): Creature -> bool {
    (c: Creature) => c.magicType == magicType
  }

  function KeyContains(key: Key, query: string): Creature -> bool {
    (c: Creature) => ContainsIgnoreCase(KeyOf(c, key), query)
  }

  function Flies(c: Creature): bool {
    c.canFly
  }

  function FindByMagicType(r: Roster, magicType: MagicType): (found: seq<Creature>)
    ensures forall i :: 0 <= i < |found| ==> found[i].magicType == magicType
    ensures forall c ::
      multiset(found)[c] == (if c.magicType == magicType then multiset(r.creatures)[c] else 0)
    ensures IsSubsequence(found, r.creatures)
  {
    WhereIsSubsequence(r.creatures, HasType(magicType));
    Where(r.creatures, HasType(magicType))
  }

  /** Search by name or by species: a case-insensitive substring match on that
      field. */
  function FindByKey(r: Roster, key: Key, query: string): (found: seq<Creature>)
    ensures forall i :: 0 <= i < |found| ==> ContainsIgnoreCase(KeyOf(found[i], key), query)
    ensures forall c ::
      multiset(found)[c] == (if ContainsIgnoreCase(KeyOf(c, key), query) then multiset(r.creatures)[c] else 0)
    ensures IsSubsequence(found, r.creatures)
  {
    WhereIsSubsequence(r.creatures, KeyContains(key, query));
    Where(r.creatures, KeyContains(key, query))
  }

  function FindFlying(r: Roster): (found: seq<Creature>)
    ensures forall i :: 0 <= i < |found| ==> found[i].canFly
    ensures forall c :: multiset(found)[c] == if c.canFly then multiset(r.creatures)[c] else 0
    ensures IsSubsequence(found, r.creatures)
  {
    WhereIsSubsequence(r.creatures, Flies);
    Where(r.creatures, Flies)
  }

  function FindAncient(r: Roster): (found: seq<Creature>)
    ensures forall i :: 0 <= i < |found| ==> found[i].age >= AncientAge
    ensures forall c :: multiset(found)[c] == if IsAncient(c) then multiset(r.creatures)[c] else 0
    ensures IsSubsequence(found, r.creatures)
  {
    WhereIsSubsequence(r.creatures, IsAncient);
    Where(r.creatures, IsAncient)
  }

  /** Appending a creature, as a successful add does, changes every search only by
      that creature: it follows the old result when it matches, and the result is
      unchanged otherwise. */
  lemma SearchesAfterAppend(r: Roster, c: Creature, key: Key, query: string, t: MagicType)
    ensures FindByKey(Roster(r.creatures + [c], r.maxCreatures), key, query) ==
      FindByKey(r, key, query) + (if ContainsIgnoreCase(KeyOf(c, key), query) then [c] else [])
    ensures FindByMagicType(Roster(r.creatures + [c], r.maxCreatures), t) ==
      FindByMagicType(r, t) + (if c.magicType == t then [c] else [])
    ensures FindFlying(Roster(r.creatures + [c], r.maxCreatures)) ==
      FindFlying(r) + (if c.canFly then [c] else [])
    ensures FindAncient(Roster(r.creatures + [c], r.maxCreatures)) ==
      FindAncient(r) + (if c.age >= AncientAge then [c] else [])
  {
    WhereAppend(r.creatures, c, KeyContains(key, query));
    WhereAppend(r.creatures, c, HasType(t));
    WhereAppend(r.creatures, c, Flies);
    WhereAppend(r.creatures, c, IsAncient);
  }

  // ---------------------------------------------------------------------------
  // Deletes

  /** A delete by number: the roster left and the removed creature's name. */
  datatype Deleted = Deleted(roster: Roster, name: string)

  /** A bulk delete: the roster left and the count `RemoveAll` returned. */
  datatype Removed = Removed(roster: Roster, count: nat)

  /** Delete by 1-based number: removes exactly that entry and shifts the later ones
      down by one. */
  function DeleteByNumber(r: Roster, number: int): (res: Result<Deleted, CollectionError>)
    ensures res.Success? <==> 1 <= number <= |r.creatures|
    ensures res.Failure? ==> res.error == NumberOutOfRange
    ensures res.Success? ==>
      var after := res.value.roster.creatures;
      && res.value.name == r.creatures[number - 1].name
      && res.value.roster.maxCreatures == r.maxCreatures
      && |after| == |r.creatures| - 1
      && (forall i :: 0 <= i < number - 1 ==> after[i] == r.creatures[i])
      && (forall i :: number - 1 <= i < |after| ==> after[i] == r.creatures[i + 1])
      && multiset(after) + multiset{r.creatures[number - 1]} == multiset(r.creatures)
  {
    if number < 1 || number > |r.creatures| then Failure(NumberOutOfRange)
    else
      var k := number - 1;
      var after := r.creatures[..k] + r.creatures[k + 1..];
      assert r.creatures == r.creatures[..k] + [r.creatures[k]] + r.creatures[k + 1..];
      Success(Deleted(Roster(after, r.maxCreatures), r.creatures[k].name))
  }

  /** Delete by name or by species: `RemoveAll` keyed on a case-insensitive exact
      (not substring) match of that field. */
  function DeleteByKey(r: Roster, key: Key, value: string): (res: Removed)
    ensures res.roster.maxCreatures == r.maxCreatures
    ensures res.count == |r.creatures| - |res.roster.creatures|
    ensures res.count == Count(r.creatures, (c: Creature) => EqualsIgnoreCase(KeyOf(c, key), value))
    ensures forall i :: 0 <= i < |res.roster.creatures| ==>
      !EqualsIgnoreCase(KeyOf(res.roster.creatures[i], key), value)
    ensures forall c ::
      multiset(res.roster.creatures)[c] ==
      (if EqualsIgnoreCase(KeyOf(c, key), value) then 0 else multiset(r.creatures)[c])
    ensures IsSubsequence(res.roster.creatures, r.creatures)
    ensures res.count == 0 <==> res.roster == r
  {
    var p := (c: Creature) => EqualsIgnoreCase(KeyOf(c, key), value);
    RemoveAllKeepsTheRest(r.creatures, p);
    RemoveNothing(r.creatures, p);
    var removal := RemoveAll(r.creatures, p);
    Removed(Roster(removal.kept, r.maxCreatures), removal.removed)
  }

  /** Every element of a subsequence is an element of the sequence. */
  lemma {:induction false} SubsequenceElements(a: seq<Creature>, b: seq<Creature>)
    requires IsSubsequence(a, b)
    ensures forall i :: 0 <= i < |a| ==> a[i] in b
    decreases |b|
  {
    if |a| > 0 && |b| > 0 {
      if a[0] == b[0] {
        SubsequenceElements(a[1..], b[1..]);
        forall i | 0 <= i < |a|
          ensures a[i] in b
        {
          if i > 0 {
            assert a[i] == a[1..][i - 1];
          }
        }
      } else {
        SubsequenceElements(a, b[1..]);
      }
    }
  }

  /** A delete by number neither grows the list nor changes its capacity, and what
      is left came from the list, so the roster invariant still holds. */
  lemma DeleteByNumberKeepsInvariant(r: Roster, now: DateTime, number: int)
    requires Invariant(r, now)
    ensures DeleteByNumber(r, number).Success? ==> Invariant(DeleteByNumber(r, number).value.roster, now)
  {
  }

  /** What a bulk delete leaves satisfies the roster invariant if the list did. */
  lemma RemovedKeepsInvariant(r: Roster, left: Roster, now: DateTime)
    requires Invariant(r, now)
    requires left.maxCreatures == r.maxCreatures && |left.creatures| <= |r.creatures|
    requires IsSubsequence(left.creatures, r.creatures)
    ensures Invariant(left, now)
  {
    SubsequenceElements(left.creatures, r.creatures);
    forall i | 0 <= i < |left.creatures|
      ensures Valid(left.creatures[i], now)
    {
      var j :| 0 <= j < |r.creatures| && r.creatures[j] == left.creatures[i];
    }
  }

  /** A bulk delete neither grows the list nor changes its capacity, so the roster
      invariant holds after it. */
  lemma DeleteByKeyKeepsInvariant(r: Roster, now: DateTime, key: Key, value: string)
    requires Invariant(r, now)
    ensures Invariant(DeleteByKey(r, key, value).roster, now)
  {
  }

  /** The spellings of the name in the example below, under case folding. */
  lemma DracoSpellings()
    ensures EqualsIgnoreCase("draco", "Draco")
    ensures EqualsIgnoreCase("DRACO", "Draco")
    ensures !EqualsIgnoreCase("Pyro", "Draco")
  {
  }

  /** Deleting "Draco" removes both creatures named "draco" and "DRACO", whatever
      their case, keeps the other one, and reports two deletions. */
  lemma DeleteByNameIgnoresCase(a: Creature, b: Creature, other: Creature)
    requires a.name == "draco" && b.name == "DRACO" && other.name == "Pyro"
    ensures DeleteByKey(Roster([a, other, b], 3), ByName, "Draco") == Removed(Roster([other], 3), 2)
  {
    DracoSpellings();
    var p := (c: Creature) => EqualsIgnoreCase(KeyOf(c, ByName), "Draco");
    var s := [a, other, b];
    assert RemoveAll([b], p) == Removal([], 1) by {
      assert [b][1..] == [];
    }
    assert RemoveAll([other, b], p) == Removal([other], 1) by {
      assert [other, b][1..] == [b];
    }
    assert RemoveAll(s, p) == Removal([other], 2) by {
      assert s[1..] == [other, b];
    }
  }
}
