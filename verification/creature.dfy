/** The validated magical creature (MagicalCreature.cs). Six property setters check
    their value and throw instead of assigning when the check fails; here such a
    setter, like `Train` and `Heal`, is a function from the current state to
    `Success(next state)` or `Failure(error)`, and on failure the caller keeps the
    state it had. The `MagicType` and `CanFly` setters assign unchecked and return the
    new state; `Evolve` returns an `EvolveResult`. */
module MagicalCreature {
  import opened Wrappers
  import opened Text
  import opened Linq
  import opened Calendar

  /** The magic types. Only `Fire` is singled out by the behaviour. */
  datatype MagicType = Fire | Water | Earth | Air

  datatype Creature = Creature(
    name: string,
    species: string,
    age: int,
    magicPower: real,
    magicType: MagicType,
    canFly: bool,
    discoveryDate: DateTime,
    healthPoints: int)

  /** One constructor per `ArgumentException` the entity throws. */
  datatype ValidationError =
    | NameLength
    | NameCharacters
    | SpeciesLength
    | AgeRange
    | MagicPowerRange
    | DiscoveryDateRange
    | HealthPointsRange
    | OpponentLevelRange
    | TrainingHoursRange
    | HealingPointsRange

  const MinNameLength := 2
  const MaxNameLength := 25
  const MinSpeciesLength := 3
  const MaxSpeciesLength := 30
  const MinAge := 0
  const MaxAge := 5000
  const MinMagicPower: real := 1.0
  const MaxMagicPower: real := 1000.0
  const MinHealthPoints := 1
  const MaxHealthPoints := 500
  const EarliestDiscovery: DateTime := FromDate(1000, 1, 1)

  const MinOpponentLevel := 1
  const MaxOpponentLevel := 100
  const MinTrainingHours: real := 0.5
  const MaxTrainingHours: real := 24.0
  const MinHealing := 1
  const MaxHealing := 100
  const EvolutionAge := 100
  const AncientAge := 1000

  // ---------------------------------------------------------------------------
  // The entity invariant, field by field

  predicate IsNameChar(ch: char) {
    IsLetter(ch) || ch == ' ' || ch == '-'
  }

  /** Blank: empty or made of white space only. */
  predicate IsBlank(s: string) {
    forall i :: 0 <= i < |s| ==> IsWhiteSpace(s[i])
  }

  predicate ValidName(s: string) {
    && !IsBlank(s)
    && MinNameLength <= |s| <= MaxNameLength
    && forall i :: 0 <= i < |s| ==> IsNameChar(s[i])
  }

  predicate ValidSpecies(s: string) {
    !IsBlank(s) && MinSpeciesLength <= |s| <= MaxSpeciesLength
  }

  predicate ValidAge(a: int) {
    MinAge <= a <= MaxAge
  }

  predicate ValidMagicPower(p: real) {
    MinMagicPower <= p <= MaxMagicPower
  }

  /** The discovery date lies between 1000-01-01 and the moment `now` it is checked at. */
  predicate ValidDiscoveryDate(d: DateTime, now: DateTime) {
    EarliestDiscovery.ticks <= d.ticks <= now.ticks
  }

  predicate ValidHealthPoints(h: int) {
    MinHealthPoints <= h <= MaxHealthPoints
  }

  /** Every field satisfies its constraint; `magicType` and `canFly` are unconstrained. */
  predicate Valid(c: Creature, now: DateTime) {
    && ValidName(c.name)
    && ValidSpecies(c.species)
    && ValidAge(c.age)
    && ValidMagicPower(c.magicPower)
    && ValidDiscoveryDate(c.discoveryDate, now)
    && ValidHealthPoints(c.healthPoints)
  }

  /** A creature valid now stays valid later: time only widens the date range. */
  lemma ValidLater(c: Creature, now: DateTime, later: DateTime)
    requires Valid(c, now) && now.ticks <= later.ticks
    ensures Valid(c, later)
  {
  }

  /** Names are never blank by accident: with the allowed characters a name is
      non-blank exactly when it has a character other than a space. */
  lemma NameNeedsVisibleChar(s: string)
    requires forall i :: 0 <= i < |s| ==> IsNameChar(s[i])
    ensures !IsBlank(s) <==> exists i :: 0 <= i < |s| && s[i] != ' '
  {
  }

  // ---------------------------------------------------------------------------
  // Setters

  /** The state of the object after a setter call: the new state when the setter
      assigned, the previous one when it threw. */
  function StateAfter<E>(c: Creature, r: Result<Creature, E>): Creature {
    if r.Success? then r.value else c
  }

  /** `string.IsNullOrWhiteSpace` on a non-null string. */
  function IsNullOrWhiteSpace(s: string): (r: bool)
    ensures r <==> IsBlank(s)
  {
    All(s, IsWhiteSpace)
  }

  /** The `Name` setter: the blank/length check runs before the character check. */
  function SetName(c: Creature, value: string): (r: Result<Creature, ValidationError>)
    ensures r.Success? <==> ValidName(value)
    ensures r == Failure(NameLength) <==> IsBlank(value) || |value| < MinNameLength || |value| > MaxNameLength
    ensures r.Failure? ==> r.error == NameLength || r.error == NameCharacters
    ensures StateAfter(c, r) == c.(name := if ValidName(value) then value else c.name)
  {
    if IsNullOrWhiteSpace(value) || |value| < MinNameLength || |value| > MaxNameLength then
      Failure(NameLength)
    else if !All(value, IsNameChar) then
      Failure(NameCharacters)
    else
      Success(c.(name := value))
  }

  /** The `Species` setter: any characters, only blankness and length are checked. */
  function SetSpecies(c: Creature, value: string): (r: Result<Creature, ValidationError>)
    ensures r.Success? <==> ValidSpecies(value)
    ensures r.Failure? ==> r.error == SpeciesLength
    ensures StateAfter(c, r) == c.(species := if ValidSpecies(value) then value else c.species)
  {
    if IsNullOrWhiteSpace(value) || |value| < MinSpeciesLength || |value| > MaxSpeciesLength then
      Failure(SpeciesLength)
    else
      Success(c.(species := value))
  }

  function SetAge(c: Creature, value: int): (r: Result<Creature, ValidationError>)
    ensures r.Success? <==> ValidAge(value)
    ensures r.Failure? ==> r.error == AgeRange
    ensures StateAfter(c, r) == c.(age := if ValidAge(value) then value else c.age)
  {
    if value < MinAge || value > MaxAge then Failure(AgeRange) else Success(c.(age := value))
  }

  function SetMagicPower(c: Creature, value: real): (r: Result<Creature, ValidationError>)
    ensures r.Success? <==> ValidMagicPower(value)
    ensures r.Failure? ==> r.error == MagicPowerRange
    ensures StateAfter(c, r) == c.(magicPower := if ValidMagicPower(value) then value else c.magicPower)
  {
    if value < MinMagicPower || value > MaxMagicPower then Failure(MagicPowerRange)
    else Success(c.(magicPower := value))
  }

  /** The `DiscoveryDate` setter compares against the clock; `now` is its reading. */
  function SetDiscoveryDate(c: Creature, value: DateTime, now: DateTime): (r: Result<Creature, ValidationError>)
    ensures r.Success? <==> ValidDiscoveryDate(value, now)
    ensures r.Failure? ==> r.error == DiscoveryDateRange
    ensures StateAfter(c, r) ==
      c.(discoveryDate := if ValidDiscoveryDate(value, now) then value else c.discoveryDate)
  {
    if Before(value, EarliestDiscovery) || Before(now, value) then Failure(DiscoveryDateRange)
    else Success(c.(discoveryDate := value))
  }

  function SetHealthPoints(c: Creature, value: int): (r: Result<Creature, ValidationError>)
    ensures r.Success? <==> ValidHealthPoints(value)
    ensures r.Failure? ==> r.error == HealthPointsRange
    ensures StateAfter(c, r) ==
      c.(healthPoints := if ValidHealthPoints(value) then value else c.healthPoints)
  {
    if value < MinHealthPoints || value > MaxHealthPoints then Failure(HealthPointsRange)
    else Success(c.(healthPoints := value))
  }

  /** `MagicType` and `CanFly` have plain setters: every value is accepted, no other
      field changes, and the entity invariant is kept. */
  function SetMagicType(c: Creature, value: MagicType): (r: Creature)
    ensures r.magicType == value && r.(magicType := c.magicType) == c
    ensures forall now: DateTime :: Valid(c, now) ==> Valid(r, now)
  {
    c.(magicType := value)
  }

  function SetCanFly(c: Creature, value: bool): (r: Creature)
    ensures r.canFly == value && r.(canFly := c.canFly) == c
    ensures forall now: DateTime :: Valid(c, now) ==> Valid(r, now)
  {
    c.(canFly := value)
  }

  // ---------------------------------------------------------------------------
  // Constructor

  /** The fields of a freshly allocated object before the constructor body runs. */
  const Blank: Creature := Creature("", "", 0, 0.0, Fire, false, DateTime(0), 0)

  /** The constructor: assigns through the setters in the order Name, Species, Age,
      MagicPower, MagicType, CanFly, DiscoveryDate, HealthPoints; the first setter that
      throws aborts construction and no object is produced. */
  function Construct(
    name: string, species: string, age: int, magicPower: real,
    magicType: MagicType, canFly: bool, discoveryDate: DateTime, healthPoints: int,
    now: DateTime): (r: Result<Creature, ValidationError>)
    ensures r.Success? <==>
      && ValidName(name) && ValidSpecies(species) && ValidAge(age)
      && ValidMagicPower(magicPower) && ValidDiscoveryDate(discoveryDate, now)
      && ValidHealthPoints(healthPoints)
    ensures r.Success? ==>
      && r.value.name == name && r.value.species == species && r.value.age == age
      && r.value.magicPower == magicPower && r.value.magicType == magicType
      && r.value.canFly == canFly && r.value.discoveryDate == discoveryDate
      && r.value.healthPoints == healthPoints
    ensures r.Success? ==> Valid(r.value, now)
    ensures !ValidName(name) ==>
      r == Failure(if IsBlank(name) || |name| < MinNameLength || |name| > MaxNameLength
                   then NameLength else NameCharacters)
    ensures ValidName(name) && !ValidSpecies(species) ==> r == Failure(SpeciesLength)
    ensures ValidName(name) && ValidSpecies(species) && !ValidAge(age) ==> r == Failure(AgeRange)
    ensures ValidName(name) && ValidSpecies(species) && ValidAge(age) && !ValidMagicPower(magicPower)
      ==> r == Failure(MagicPowerRange)
    ensures (ValidName(name) && ValidSpecies(species) && ValidAge(age) && ValidMagicPower(magicPower)
      && !ValidDiscoveryDate(discoveryDate, now)) ==> r == Failure(DiscoveryDateRange)
    ensures (ValidName(name) && ValidSpecies(species) && ValidAge(age) && ValidMagicPower(magicPower)
      && ValidDiscoveryDate(discoveryDate, now) && !ValidHealthPoints(healthPoints)) ==> r == Failure(HealthPointsRange)
  {
    var c1 :- SetName(Blank, name);
    var c2 :- SetSpecies(c1, species);
    var c3 :- SetAge(c2, age);
    var c4 :- SetMagicPower(c3, magicPower);
    var c5 := SetMagicType(c4, magicType);
    var c6 := SetCanFly(c5, canFly);
    var c7 :- SetDiscoveryDate(c6, discoveryDate, now);
    SetHealthPoints(c7, healthPoints)
  }

  // ---------------------------------------------------------------------------
  // Behaviour

  function TypeBonus(t: MagicType): real {
    if t == Fire then 1.2 else 1.0
  }

  function FlightBonus(canFly: bool): real {
    if canFly then 1.15 else 1.0
  }

  /** `CalculateBattlePower`: power scaled by the fire and flight bonuses, divided by
      the opponent's level. Reads the creature only. */
  function CalculateBattlePower(c: Creature, opponentLevel: int): (r: Result<real, ValidationError>)
    ensures r.Success? <==> MinOpponentLevel <= opponentLevel <= MaxOpponentLevel
    ensures r.Failure? ==> r.error == OpponentLevelRange
    ensures r.Success? ==>
      r.value * opponentLevel as real == c.magicPower * TypeBonus(c.magicType) * FlightBonus(c.canFly)
    ensures r.Success? && ValidMagicPower(c.magicPower) ==> 0.01 <= r.value <= 1380.0
  {
    if opponentLevel < MinOpponentLevel || opponentLevel > MaxOpponentLevel then
      Failure(OpponentLevelRange)
    else
      var bonus := TypeBonus(c.magicType) * FlightBonus(c.canFly);
      assert 1.0 <= bonus <= 1.38;
      BattlePowerBounds(c.magicPower, bonus, opponentLevel as real);
      Success(c.magicPower * bonus / opponentLevel as real)
  }

  lemma BattlePowerBounds(power: real, bonus: real, level: real)
    requires 1.0 <= bonus <= 1.38 && 1.0 <= level <= 100.0
    ensures ValidMagicPower(power) ==> 0.01 <= power * bonus / level <= 1380.0
  {
    if ValidMagicPower(power) {
      var v := power * bonus / level;
      assert v * level == power * bonus;
      assert (MaxMagicPower - power) * bonus >= 0.0 by { NonNegativeProduct(MaxMagicPower - power, bonus); }
      assert power * bonus <= 1380.0;
      assert (power - 1.0) * (bonus - 1.0) >= 0.0 by { NonNegativeProduct(power - 1.0, bonus - 1.0); }
      assert power * bonus >= 1.0;
      assert v <= 1380.0 by {
        assert v * (level - 1.0) >= 0.0 by { NonNegativeProduct(v, level - 1.0); }
      }
      assert v > 0.0 by {
        if v <= 0.0 {
          NonNegativeProduct(-v, level);
        }
      }
      assert v * (100.0 - level) >= 0.0 by { NonNegativeProduct(v, 100.0 - level); }
      assert v * 100.0 >= 1.0;
    }
  }

  lemma NonNegativeProduct(a: real, b: real)
    requires a >= 0.0 && b >= 0.0
    ensures a * b >= 0.0
  {
  }

  /** `IsAncient`: a thousand years or more. On a valid creature that is the top band
      of the age range, and an ancient creature is always old enough to evolve. */
  function IsAncient(c: Creature): (r: bool)
    ensures ValidAge(c.age) ==> (r <==> AncientAge <= c.age <= MaxAge)
    ensures r ==> c.age >= EvolutionAge
  {
    c.age >= AncientAge
  }

  function Min(a: real, b: real): real {
    if a <= b then a else b
  }

  function MinInt(a: int, b: int): int {
    if a <= b then a else b
  }

  /** Magic power gained per hour of training. */
  function TrainingRate(canFly: bool): real {
    if canFly then 2.5 else 2.0
  }

  /** `Train(hours)`: adds `hours` times the training rate to the power and clamps at
      the ceiling, assigning through the `MagicPower` setter. */
  function Train(c: Creature, hours: real): (r: Result<Creature, ValidationError>)
    ensures hours < MinTrainingHours || hours > MaxTrainingHours ==> r == Failure(TrainingHoursRange)
    ensures ValidMagicPower(c.magicPower) ==> (r.Success? <==> MinTrainingHours <= hours <= MaxTrainingHours)
    ensures r.Success? ==> r.value == c.(magicPower := r.value.magicPower)
    ensures r.Success? ==> r.value.magicPower <= MaxMagicPower
    ensures r.Success? && c.magicPower <= MaxMagicPower ==> c.magicPower <= r.value.magicPower
    ensures r.Success? && r.value.magicPower < MaxMagicPower ==>
      r.value.magicPower == c.magicPower + hours * TrainingRate(c.canFly)
    ensures r.Success? && c.magicPower >= MaxMagicPower ==> r.value.magicPower == MaxMagicPower
    ensures r.Success? && c.magicPower + hours * TrainingRate(c.canFly) <= MaxMagicPower ==>
      r.value.magicPower == c.magicPower + hours * TrainingRate(c.canFly)
    ensures r.Success? && c.magicPower + hours * TrainingRate(c.canFly) >= MaxMagicPower ==>
      r.value.magicPower == MaxMagicPower
  {
    if hours < MinTrainingHours || hours > MaxTrainingHours then Failure(TrainingHoursRange)
    else SetMagicPower(c, Min(MaxMagicPower, c.magicPower + hours * TrainingRate(c.canFly)))
  }

  /** `Heal(points)`: adds the points and clamps at the ceiling, assigning through the
      `HealthPoints` setter. */
  function Heal(c: Creature, points: int): (r: Result<Creature, ValidationError>)
    ensures points < MinHealing || points > MaxHealing ==> r == Failure(HealingPointsRange)
    ensures ValidHealthPoints(c.healthPoints) ==> (r.Success? <==> MinHealing <= points <= MaxHealing)
    ensures r.Success? ==> r.value == c.(healthPoints := r.value.healthPoints)
    ensures r.Success? ==> r.value.healthPoints <= MaxHealthPoints
    ensures r.Success? && c.healthPoints <= MaxHealthPoints ==> c.healthPoints < r.value.healthPoints || c.healthPoints == MaxHealthPoints
    ensures r.Success? && r.value.healthPoints < MaxHealthPoints ==> r.value.healthPoints == c.healthPoints + points
    ensures r.Success? && c.healthPoints >= MaxHealthPoints ==> r.value.healthPoints == MaxHealthPoints
    ensures r.Success? && c.healthPoints + points <= MaxHealthPoints ==>
      r.value.healthPoints == c.healthPoints + points
    ensures r.Success? && c.healthPoints + points >= MaxHealthPoints ==>
      r.value.healthPoints == MaxHealthPoints
  {
    if points < MinHealing || points > MaxHealing then Failure(HealingPointsRange)
    else SetHealthPoints(c, MinInt(MaxHealthPoints, c.healthPoints + points))
  }

  /** The C# cast `(int)x` of a real: truncation toward zero. */
  function Truncate(x: real): (n: int)
    ensures x >= 0.0 ==> n as real <= x < n as real + 1.0
    ensures x < 0.0 ==> n as real - 1.0 < x <= n as real
  {
    if x >= 0.0 then x.Floor else -((-x).Floor)
  }

  /** What `Evolve` did. On `HealthRejected` the `MagicPower` assignment had already
      happened when the `HealthPoints` setter threw, so the creature is left with the
      new power and the old health. */
  datatype EvolveResult =
    | TooYoung
    | Evolved(creature: Creature)
    | PowerRejected(error: ValidationError)
    | HealthRejected(creature: Creature, error: ValidationError)

  /** The state of the object after `Evolve` returned or threw. */
  function StateAfterEvolve(c: Creature, r: EvolveResult): Creature {
    match r
    case TooYoung => c
    case Evolved(next) => next
    case PowerRejected(_) => c
    case HealthRejected(partial, _) => partial
  }

  /** `Evolve` as written: power times 1.3 through its setter, then health times 1.2,
      truncated, through its setter. Nothing is clamped. */
  function Evolve(c: Creature): (r: EvolveResult)
    ensures r == TooYoung <==> c.age < EvolutionAge
    ensures c.age >= EvolutionAge && c.magicPower > 10000.0 / 13.0 ==> r == PowerRejected(MagicPowerRange)
    ensures r.HealthRejected? ==>
      r.creature == c.(magicPower := c.magicPower * 1.3) && r.error == HealthPointsRange
    ensures r.Evolved? ==>
      r.creature == c.(magicPower := c.magicPower * 1.3, healthPoints := Truncate(c.healthPoints as real * 1.2))
    ensures ValidMagicPower(c.magicPower) && ValidHealthPoints(c.healthPoints) ==>
      (r.Evolved? <==> c.age >= EvolutionAge && c.magicPower <= 10000.0 / 13.0 && c.healthPoints <= 417)
    ensures ValidMagicPower(c.magicPower) ==> ValidMagicPower(StateAfterEvolve(c, r).magicPower)
    ensures ValidHealthPoints(c.healthPoints) ==> ValidHealthPoints(StateAfterEvolve(c, r).healthPoints)
    ensures c.age >= EvolutionAge && ValidMagicPower(c.magicPower * 1.3) &&
            !ValidHealthPoints(Truncate(c.healthPoints as real * 1.2)) ==>
      r == HealthRejected(c.(magicPower := c.magicPower * 1.3), HealthPointsRange)
    ensures c.age >= EvolutionAge && ValidMagicPower(c.magicPower * 1.3) &&
            ValidHealthPoints(Truncate(c.healthPoints as real * 1.2)) ==>
      r == Evolved(c.(magicPower := c.magicPower * 1.3, healthPoints := Truncate(c.healthPoints as real * 1.2)))
  {
    if c.age < EvolutionAge then TooYoung
    else
      match SetMagicPower(c, c.magicPower * 1.3)
      case Failure(e) => PowerRejected(e)
      case Success(powered) =>
        match SetHealthPoints(powered, Truncate(c.healthPoints as real * 1.2))
        case Failure(e) => HealthRejected(powered, e)
        case Success(evolved) => Evolved(evolved)
  }

  /** Evolution with both growths clamped at their ceilings, as `Train` and `Heal`
      clamp: it never throws on an eligible valid creature and never leaves a
      half-evolved one. Where the unclamped `Evolve` succeeds the two agree. */
  function EvolveClamped(c: Creature): (r: EvolveResult)
    ensures r == TooYoung <==> c.age < EvolutionAge
    ensures r.TooYoung? || r.Evolved?
    ensures r.Evolved? ==>
      r.creature == c.(magicPower := r.creature.magicPower, healthPoints := r.creature.healthPoints)
    ensures r.Evolved? && ValidMagicPower(c.magicPower) ==>
      ValidMagicPower(r.creature.magicPower) && c.magicPower <= r.creature.magicPower
    ensures r.Evolved? && ValidHealthPoints(c.healthPoints) ==>
      ValidHealthPoints(r.creature.healthPoints) && c.healthPoints <= r.creature.healthPoints
    ensures r.Evolved? && r.creature.magicPower < MaxMagicPower ==> r.creature.magicPower == c.magicPower * 1.3
    ensures r.Evolved? && r.creature.healthPoints < MaxHealthPoints ==>
      r.creature.healthPoints == Truncate(c.healthPoints as real * 1.2)
    ensures r.Evolved? && c.magicPower * 1.3 <= MaxMagicPower ==> r.creature.magicPower == c.magicPower * 1.3
    ensures r.Evolved? && c.magicPower * 1.3 >= MaxMagicPower ==> r.creature.magicPower == MaxMagicPower
    ensures r.Evolved? && Truncate(c.healthPoints as real * 1.2) <= MaxHealthPoints ==>
      r.creature.healthPoints == Truncate(c.healthPoints as real * 1.2)
    ensures r.Evolved? && Truncate(c.healthPoints as real * 1.2) >= MaxHealthPoints ==>
      r.creature.healthPoints == MaxHealthPoints
    ensures Evolve(c).Evolved? ==> r == Evolve(c)
  {
    if c.age < EvolutionAge then TooYoung
    else
      Evolved(c.(magicPower := Min(MaxMagicPower, c.magicPower * 1.3),
                 healthPoints := MinInt(MaxHealthPoints, Truncate(c.healthPoints as real * 1.2))))
  }

  /** The unclamped `Evolve` on a 100-year-old creature with 450 health points raises
      its power to 130 and then throws, leaving the raised power in place. */
  lemma EvolveLeavesHalfEvolvedCreature(c: Creature)
    requires c.age == 100 && c.magicPower == 100.0 && c.healthPoints == 450
    ensures Evolve(c) == HealthRejected(c.(magicPower := 130.0), HealthPointsRange)
    ensures EvolveClamped(c) == Evolved(c.(magicPower := 130.0, healthPoints := 500))
  {
  }

  /** The worked example: power 500, fire, flying, against a level-10 opponent. */
  lemma BattlePowerExample(c: Creature)
    requires c.magicPower == 500.0 && c.magicType == Fire && c.canFly
    ensures CalculateBattlePower(c, 10) == Success(69.0)
  {
  }

  /** The boundaries of ancientness and of evolution eligibility. */
  lemma AgeBoundaries(c: Creature)
    ensures c.age == 999 ==> !IsAncient(c)
    ensures c.age == 1000 ==> IsAncient(c)
    ensures c.age == 99 ==> Evolve(c) == TooYoung
    ensures c.age == 100 ==> Evolve(c) != TooYoung
    ensures IsAncient(c) ==> Evolve(c) != TooYoung
  {
  }
}
