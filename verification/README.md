# Magical creatures: a verified model

A Dafny model of the core of a small C# console program that manages a bounded
collection of magical creatures. Two pieces of logic are modelled and proved:

- **The validated creature** (`MagicalCreature.cs`). The setters of `Name`, `Species`,
  `Age`, `MagicPower`, `DiscoveryDate` and `HealthPoints` check their value and throw
  `ArgumentException` instead of assigning a bad one; the `MagicType` and `CanFly`
  setters assign unchecked. The constructor runs the setters in a fixed order. The behaviour methods
  (`CalculateBattlePower`, `IsAncient`, `Train`, `Heal`, `Evolve`) are small rules
  built on top of those checks. A creature is an immutable `Creature` record. The
  entity invariant is the predicate `MagicalCreature.Valid`. The six checked setters,
  `Train` and `Heal` return `Success(next state)` or `Failure(error)`, and
  `StateAfter` gives the object's state after the call: the old state when the
  setter threw. `SetMagicType` and `SetCanFly` return the new state. `Evolve`
  returns an `EvolveResult`, and `StateAfterEvolve` gives the state after it.
- **The bounded collection** (`Program.cs`). This is a `List<MagicalCreature>` with a
  capacity `maxCreatures` that is read once and must be positive. It supports add
  with a capacity guard, five order-preserving searches, delete by 1-based number,
  and two case-insensitive `RemoveAll` deletes. The list is a `seq<Creature>` inside
  a `Roster`, and every operation is a pure function.

Modules:

| file | module | contents |
|---|---|---|
| wrappers.dfy | `Wrappers` | `Result` (usable with `:-`) |
| text.dfy | `Text` | `char.IsWhiteSpace`, `char.IsLetter`, ordinal case folding, substring search |
| calendar.dfy | `Calendar` | `DateTime` as a tick count, `new DateTime(y, m, d)` |
| linq.dfy | `Linq` | `All`, `Where(...).ToList()`, `List.RemoveAll`, subsequences |
| creature.dfy | `MagicalCreature` | the entity, its invariant, setters, constructor, behaviour |
| lifecycle.dfy | `Lifecycle` | any sequence of setter and behaviour calls on one creature |
| collection.dfy | `Collection` | the roster: capacity, add, searches, deletes |

Three details of the code that the model follows:

- `Evolve` does not clamp. It assigns `MagicPower * 1.3` and then
  `(int)(HealthPoints * 1.2)` through the setters. So it throws when either value
  passes its ceiling. When the second assignment throws, the first one has already
  happened (see Findings).
- The earliest discovery date is 1000-01-01, as `new DateTime(1000, 1, 1)` says.
- `AddCreature` refuses when `Count >= maxCreatures`, not only when the two are equal.
  Under the roster invariant the two tests agree.

## Model

| member | source | states |
|---|---|---|
| `MagicalCreature.IsNullOrWhiteSpace` | MagicalCreature.cs:19 | the blank test holds exactly when every character is white space (true for the empty string) |
| `MagicalCreature.SetName` | MagicalCreature.cs:17-24 | accepted iff not blank, 2..25 characters, and only letters, spaces and hyphens; the blank/length error wins over the character error; on rejection the name is unchanged, and no other field ever changes |
| `MagicalCreature.NameNeedsVisibleChar` | MagicalCreature.cs:19-21 | among names of allowed characters, "not blank" means "has a character other than a space" |
| `MagicalCreature.SetSpecies` | MagicalCreature.cs:30-35 | accepted iff not blank and 3..30 characters, with any characters; on rejection the species is unchanged |
| `MagicalCreature.SetAge` | MagicalCreature.cs:41-46 | accepted iff 0 <= age <= 5000; on rejection the age is unchanged |
| `MagicalCreature.SetMagicPower` | MagicalCreature.cs:52-57 | accepted iff 1 <= power <= 1000; on rejection the power is unchanged |
| `MagicalCreature.SetDiscoveryDate` | MagicalCreature.cs:67-72 | accepted iff 1000-01-01 <= date <= the clock reading; on rejection the date is unchanged |
| `MagicalCreature.ValidLater` | MagicalCreature.cs:69 | a creature that is valid at one clock reading is still valid at any later reading |
| `MagicalCreature.SetHealthPoints` | MagicalCreature.cs:78-83 | accepted iff 1 <= health <= 500; on rejection the health is unchanged |
| `MagicalCreature.SetMagicType` | MagicalCreature.cs:60 | every magic type is accepted and assigned, no other field changes, and the invariant is kept |
| `MagicalCreature.SetCanFly` | MagicalCreature.cs:62 | either flag is accepted and assigned, no other field changes, and the invariant is kept |
| `MagicalCreature.Construct` | MagicalCreature.cs:87-98 | succeeds iff all six checked arguments are valid; on success every getter returns its argument and the invariant holds; otherwise the error is the one for the first invalid argument in assignment order (for the name: the blank/length error before the character error) |
| `MagicalCreature.CalculateBattlePower` | MagicalCreature.cs:101-110 | fails iff the level is outside 1..100; the result times the level equals power x type bonus x flight bonus; for a valid power the result lies in [0.01, 1380] |
| `MagicalCreature.BattlePowerBounds` | MagicalCreature.cs:106-109 | power in [1, 1000], a combined bonus in [1, 1.38] and a level in [1, 100] give a battle power in [0.01, 1380] |
| `MagicalCreature.BattlePowerExample` | MagicalCreature.cs:106-109 | power 500, Fire, flying, level 10 gives exactly 69 |
| `MagicalCreature.IsAncient` | MagicalCreature.cs:117-120 | on a valid creature, true iff its age lies in 1000..5000, the top band of the age range; every ancient creature is old enough to evolve |
| `MagicalCreature.AgeBoundaries` | MagicalCreature.cs:117-120 | age 999 is not ancient and 1000 is; age 99 cannot evolve and 100 can try; every ancient creature can try to evolve |
| `MagicalCreature.Train` | MagicalCreature.cs:122-131 | rejects hours outside [0.5, 24]; otherwise only the power changes, it never drops, never exceeds 1000, and becomes min(1000, power + hours x rate), with rate 2.5 for a flyer and 2.0 otherwise |
| `MagicalCreature.Heal` | MagicalCreature.cs:133-140 | rejects points outside [1, 100]; otherwise only health changes, it never exceeds 500, and becomes min(500, health + points) |
| `MagicalCreature.Truncate` | MagicalCreature.cs:151 | the C# `(int)` cast rounds toward zero: the result is within one of the real, on the zero side |
| `MagicalCreature.Evolve` | MagicalCreature.cs:142-153 | too young iff age < 100; power above 10000/13 is rejected with nothing changed; when power x 1.3 is in range but (int)(health x 1.2) is not, the result is a rejection that leaves the power already multiplied by 1.3; when both are in range both are assigned; for a valid creature evolution succeeds iff age >= 100, power <= 10000/13 and health <= 417; power and health never leave their ranges |
| `MagicalCreature.EvolveLeavesHalfEvolvedCreature` | MagicalCreature.cs:150-151 | age 100, power 100, health 450: `Evolve` throws after raising power to 130, while the clamped version yields power 130 and health 500 |
| `MagicalCreature.EvolveClamped` | MagicalCreature.cs:142-153 | corrected evolution: never throws, changes only power and health, keeps both in range and never lowers them, sets power to min(1000, power x 1.3) and health to min(500, (int)(health x 1.2)), and agrees with `Evolve` wherever `Evolve` succeeds |
| `Lifecycle.PerformKeepsInvariant` | MagicalCreature.cs:14-153 | no single call of any of the eight setters, `Train`, `Heal` or `Evolve` breaks the invariant, whether it succeeds or throws; training and evolution never lower power, healing and evolution never lower health; only the `Age` setter changes the age, so only it can change `IsAncient` |
| `Lifecycle.PerformAllKeepsInvariant` | MagicalCreature.cs:14-153 | any sequence of calls of the setters, `Train`, `Heal` and `Evolve` keeps the invariant, so power stays <= 1000 and health <= 500 |
| `Lifecycle.TrainingAndHealingNeverLower` | MagicalCreature.cs:122-140 | over any run of `Train`/`Heal` calls power and health never drop, and a value at its ceiling stays there |
| `Text.LetterIsNotWhiteSpace` | MagicalCreature.cs:19-21 | no letter is white space |
| `Text.Contains` | Program.cs:289 | the search answers true exactly when the pattern occurs at some position |
| `Text.EqualsIgnoreCase` | Program.cs:438 | `Equals(..., OrdinalIgnoreCase)` holds exactly when the lengths agree and the folded characters agree position by position; every string equals itself |
| `Text.ContainsIgnoreCase` | Program.cs:289 | `Contains(..., OrdinalIgnoreCase)` holds exactly when some window of the string equals the pattern ignoring case |
| `Text.FoldExamples` | Program.cs:438 | "ōra" equals "Ōra", the micro sign equals Greek capital mu and Cyrillic U+0461 equals U+0460 ignoring case; the dotless i does not equal "I" |
| `Text.FoldCharIdempotent` | Program.cs:438 | folding a folded character changes nothing |
| `Text.EqualsImpliesContains` | Program.cs:289 | a case-insensitively equal string is also found by the substring search, and the empty pattern is found in every string |
| `Linq.All` | MagicalCreature.cs:21 | `All` holds exactly when every element satisfies the predicate |
| `Linq.Where` | Program.cs:289 | the result has `Count` elements, all satisfying the predicate, and holds every satisfying element as often as the input does and no other |
| `Linq.WhereIsSubsequence` | Program.cs:289-307 | the filtered list is a subsequence of the collection, so order is preserved |
| `Linq.WhereIsUnique` | Program.cs:289-307 | any subsequence of the collection holding exactly the satisfying elements, with their multiplicities, is the filter's result |
| `Linq.WhereDistributes` | Program.cs:289 | filtering a concatenation filters each part |
| `Linq.WhereAppend` | Program.cs:289 | filtering a list with one element appended gives the old result, followed by that element exactly when it qualifies |
| `Linq.WhereKeepsAll` | Program.cs:289 | the filter returns the whole collection iff every element satisfies the predicate |
| `Linq.RemoveAll` | Program.cs:438 | the returned count is the old length minus the new one and the number of matching elements; no survivor matches; every non-matching element survives as often as before |
| `Linq.RemoveAllKeepsTheRest` | Program.cs:438 | the survivors are the filter on the negated predicate, so they keep their relative order |
| `Linq.RemoveNothing` | Program.cs:453-454 | a count of 0 means the list is unchanged, and conversely |
| `Calendar.FromDate` | MagicalCreature.cs:69 | `new DateTime(y, m, d)` is a non-negative whole number of days in ticks |
| `Calendar.KnownTicks` | MagicalCreature.cs:69 | the day count gives the .NET tick value of 2000-01-01, and 1000-01-01 is day 364877 |
| `Collection.Initialize` | Program.cs:76-85 | the capacity is accepted iff positive, and the collection starts empty with that capacity |
| `Collection.AddCreature` | Program.cs:175-235 | refuses when full, before any construction; succeeds iff there is room and construction succeeds; on success appends one valid creature holding exactly the arguments, leaves earlier entries and capacity alone, and keeps the roster invariant |
| `Collection.FindByKey` | Program.cs:289-299 | search by name or by species: exactly the creatures whose field contains the query case-insensitively, each as often as in the collection, in collection order |
| `Collection.FindByMagicType` | Program.cs:294 | exactly the creatures of that magic type, each as often as in the collection, in collection order |
| `Collection.FindFlying` | Program.cs:303 | exactly the creatures that can fly, in collection order |
| `Collection.FindAncient` | Program.cs:307 | exactly the ancient creatures (age >= 1000), in collection order |
| `Collection.SearchesAfterAppend` | Program.cs:289-307 | once a creature is appended, as a successful add does, each of the five searches returns its old result, followed by that creature exactly when it matches the search |
| `Collection.DeleteByNumber` | Program.cs:429-432 | succeeds iff 1 <= number <= Count; returns the name of entry number-1, removes exactly that entry, keeps earlier entries, shifts later ones down by one, shortens the list by one |
| `Collection.DeleteByNumberKeepsInvariant` | Program.cs:429-431 | deleting by number keeps the roster invariant |
| `Collection.DeleteByKey` | Program.cs:437-445 | delete by name or by species: removes exactly the creatures whose field equals the input case-insensitively (not as a substring); the count is old length minus new length and the number of matches; survivors keep their order and multiplicity; count 0 iff the list is unchanged; capacity unchanged |
| `Collection.RemovedKeepsInvariant` | Program.cs:438-444 | a same-capacity subsequence of a valid roster is a valid roster |
| `Collection.DeleteByKeyKeepsInvariant` | Program.cs:438-444 | both bulk deletes keep the roster invariant |
| `Collection.DeleteByNameIgnoresCase` | Program.cs:438 | deleting "Draco" from [draco, Pyro, DRACO] leaves [Pyro] and reports 2 |

## Left out

- Console I/O is not modelled: the menu loop, the prompt/parse/retry helpers
  (`ReadString`, `ReadInteger`, `ReadDouble`, `ReadDateTime`, `ReadYesNo`,
  `ReadMagicType`), and the table output of `ViewAllCreatures` and
  `DisplaySearchResults`. Their already-parsed answers are the operations'
  parameters. The retry loop of `ReadPositiveInteger` is modelled as
  `Initialize` failing on a non-positive value.
- `DemonstrateAbilities` is not modelled as a collection operation. It picks a
  creature by number and calls a behaviour method on it in place. The behaviour
  methods themselves are modelled on the creature (`Lifecycle`), but updating the
  list entry is not.
- The console messages that `Train`, `Heal` and `Evolve` print are not modelled.
- `GetCreatureInfo` is not modelled. It formats `double` and enum values with
  culture-dependent `ToString`.
- Floating point is not modelled. `double` is an exact `real`, so the constants 1.2,
  1.15, 1.3, 2.5 and the product `HealthPoints * 1.2` are exact. The `MagicPower`
  setter and `Train` accept NaN, because every comparison with NaN is false (`Train(NaN)`
  passes its hours check and assigns `Math.Min(1000, NaN)`, which is NaN). Reals have no NaN, so
  that path is not modelled.
- `DateTime.Now` is a `now` parameter, a tick count. `DateTime` kind and time zone
  are ignored. `Lifecycle` uses one clock reading for a whole sequence of calls.
- `char.IsLetter` is approximated by the letters of Basic Latin, Latin-1,
  Latin Extended-A and Cyrillic U+0400..U+0481. Ordinal case-insensitive comparison
  is approximated by upper-casing the lower-case letters of Basic Latin, Latin-1
  (the micro sign U+00B5 included, mapped to U+039C), Latin Extended-A and Cyrillic
  U+0400..U+0481. Of the letters a name may hold, four Latin Extended-A letters are
  not folded: dotless i U+0131, kra U+0138, U+0149 and long s U+017F. Greek and the
  other scripts are not folded. String length counts Unicode scalar values, so a character
  outside the Basic Multilingual Plane counts once where C# counts two UTF-16
  units.
- Null strings are not modelled. The setters' null test (`IsNullOrWhiteSpace`)
  is modelled for non-null strings only.
- The temporary creatures `AddCreature` builds to check a name or a species are
  not modelled. Their effect is the `ValidName` / `ValidSpecies` test inside
  `Construct`.
- Undefined enum values are not modelled. The C# `MagicType` setter and the
  constructor accept a cast such as `(MagicType)42`; the four-variant datatype
  cannot represent it.
- MagicType.cs is not part of this model. The enum is taken to be
  `Fire | Water | Earth | Air`; only `Fire` affects behaviour.
- Integer width is not modelled. Every integer the core computes is bounded by
  the checks (age <= 5000, health <= 500, healing <= 100), so 32-bit wrap-around
  cannot occur.

## Findings

| source | as written | input that shows it | evidently intended | confidence | as-written member | corrected member |
|---|---|---|---|---|---|---|
| MagicalCreature.cs:150-151 | `Evolve` multiplies power by 1.3 and health by 1.2 through the throwing setters, without clamping, and assigns power first | age 100, power 100, health 450: power becomes 130, then the health setter throws on 540, and the caller reports a failed evolution of a creature whose power was already raised | clamp both growths at their ceilings, as `Train` and `Heal` do, so that evolution is all-or-nothing and never throws for an eligible creature | medium; not executed | `MagicalCreature.EvolveLeavesHalfEvolvedCreature` | `MagicalCreature.EvolveClamped` |

`MagicalCreature.Evolve` models the code as written, and `Lifecycle` uses it
because the program runs it. Even the as-written version never pushes power above
1000 or health above 500 (`Lifecycle.PerformAllKeepsInvariant`). The problem is
that it is not atomic, and that a creature with health above 417 or power above
10000/13 can never evolve.
