/** A creature's life after construction: any sequence of property assignments and
    `Train`/`Heal`/`Evolve` calls, where a call that throws leaves the object in the
    state it had when the exception was raised. */
module Lifecycle {
  import opened Calendar
  import opened MagicalCreature

  datatype Action =
    | AssignName(name: string)
    | AssignSpecies(species: string)
    | AssignAge(age: int)
    | AssignMagicPower(power: real)
    | AssignMagicType(magicType: MagicType)
    | AssignCanFly(canFly: bool)
    | AssignDiscoveryDate(date: DateTime)
    | AssignHealthPoints(points: int)
    | Training(hours: real)
    | Healing(points: int)
    | Evolution

  /** The creature after one call, made at clock reading `now`. */
  function Perform(c: Creature, a: Action, now: DateTime): Creature {
    match a
    case AssignName(v) => StateAfter(c, SetName(c, v))
    case AssignSpecies(v) => StateAfter(c, SetSpecies(c, v))
    case AssignAge(v) => StateAfter(c, SetAge(c, v))
    case AssignMagicPower(v) => StateAfter(c, SetMagicPower(c, v))
    case AssignMagicType(v) => SetMagicType(c, v)
    case AssignCanFly(v) => SetCanFly(c, v)
    case AssignDiscoveryDate(v) => StateAfter(c, SetDiscoveryDate(c, v, now))
    case AssignHealthPoints(v) => StateAfter(c, SetHealthPoints(c, v))
    case Training(h) => StateAfter(c, Train(c, h))
    case Healing(k) => StateAfter(c, Heal(c, k))
    case Evolution => StateAfterEvolve(c, Evolve(c))
  }

  /** The creature after the calls in order. */
  function PerformAll(c: Creature, actions: seq<Action>, now: DateTime): Creature
    decreases |actions|
  {
    if |actions| == 0 then c else PerformAll(Perform(c, actions[0], now), actions[1..], now)
  }

  /** No single call breaks the entity invariant, whether it succeeds or throws. */
  lemma PerformKeepsInvariant(c: Creature, a: Action, now: DateTime)
    requires Valid(c, now)
    ensures Valid(Perform(c, a, now), now)
    ensures a.Training? ==> c.magicPower <= Perform(c, a, now).magicPower
    ensures a.Healing? ==> c.healthPoints <= Perform(c, a, now).healthPoints
    ensures a.Evolution? ==>
      c.magicPower <= Perform(c, a, now).magicPower && c.healthPoints <= Perform(c, a, now).healthPoints
    ensures !a.AssignAge? ==> Perform(c, a, now).age == c.age && (IsAncient(Perform(c, a, now)) <==> IsAncient(c))
  {
  }

  /** The invariant survives any sequence of calls: in particular power never exceeds
      1000 and health never exceeds 500. */
  lemma {:induction false} PerformAllKeepsInvariant(c: Creature, actions: seq<Action>, now: DateTime)
    requires Valid(c, now)
    ensures Valid(PerformAll(c, actions, now), now)
    ensures PerformAll(c, actions, now).magicPower <= MaxMagicPower
    ensures PerformAll(c, actions, now).healthPoints <= MaxHealthPoints
    decreases |actions|
  {
    if |actions| > 0 {
      PerformKeepsInvariant(c, actions[0], now);
      PerformAllKeepsInvariant(Perform(c, actions[0], now), actions[1..], now);
    }
  }

  /** Training and healing only ever raise what they touch: over any run of such
      calls power and health do not go down, and a value at its ceiling stays there. */
  lemma {:induction false} TrainingAndHealingNeverLower(c: Creature, actions: seq<Action>, now: DateTime)
    requires Valid(c, now)
    requires forall i :: 0 <= i < |actions| ==> actions[i].Training? || actions[i].Healing?
    ensures c.magicPower <= PerformAll(c, actions, now).magicPower
    ensures c.healthPoints <= PerformAll(c, actions, now).healthPoints
    ensures c.magicPower == MaxMagicPower ==> PerformAll(c, actions, now).magicPower == MaxMagicPower
    ensures c.healthPoints == MaxHealthPoints ==> PerformAll(c, actions, now).healthPoints == MaxHealthPoints
    decreases |actions|
  {
    if |actions| > 0 {
      var next := Perform(c, actions[0], now);
      PerformKeepsInvariant(c, actions[0], now);
      TrainingAndHealingNeverLower(next, actions[1..], now);
    }
  }
}
