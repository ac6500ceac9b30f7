/**
 * The health of a character: an integer clamped to [0, max] by every change,
 * a death flag that is set once health reaches zero and never cleared, and
 * the notifications fired on every change and on death.
 */
module Health {
  import opened Int32

  /** Unity's integer `Mathf.Clamp`: below `min` gives `min`, otherwise above `max` gives `max`. */
  function Clamp(value: Int32, min: Int32, max: Int32): (r: Int32)
    ensures min <= max ==> min <= r <= max
    ensures min <= value <= max ==> r == value
    ensures value < min ==> r == min
    ensures min <= value && max < value ==> r == max
  {
    if value < min then min else if value > max then max else value
  }

  /** Health after taking `computedDamage` at `health`: the 32-bit difference, clamped. */
  function Damaged(health: Int32, computedDamage: Int32, maxHealth: Int32): Int32
  {
    Clamp(Wrap(health - computedDamage), 0, maxHealth)
  }

  /** Health after healing by `heal` at `health`: the 32-bit sum, clamped. */
  function Healed(health: Int32, heal: Int32, maxHealth: Int32): Int32
  {
    Clamp(Wrap(health + heal), 0, maxHealth)
  }

  /** Damage never raises health that is within bounds, and lowers it by the damage unless that would go below zero. */
  lemma DamageNeverRaises(health: Int32, computedDamage: Int32, maxHealth: Int32)
    requires 0 <= health <= maxHealth && 0 <= computedDamage
    ensures Damaged(health, computedDamage, maxHealth) <= health
    ensures computedDamage <= health ==> Damaged(health, computedDamage, maxHealth) == health - computedDamage
    ensures computedDamage >= health ==> Damaged(health, computedDamage, maxHealth) == 0
  {
  }

  /** Healing a non-negative amount never lowers health that is within bounds, and stops at the maximum. */
  lemma HealNeverLowers(health: Int32, heal: Int32, maxHealth: Int32)
    requires 0 <= health <= maxHealth && 0 <= heal
    requires health + heal <= MAX
    ensures health <= Healed(health, heal, maxHealth) <= maxHealth
    ensures Healed(health, heal, maxHealth) == if health + heal <= maxHealth then health + heal else maxHealth
  {
  }

  /**
   * A heal whose 32-bit sum overflows wraps around: a huge positive heal
   * leaves zero health, a huge negative one heals to full.
   */
  lemma OverflowingHealWraps()
    ensures Healed(10, MAX, 100) == 0
    ensures Healed(-10, MIN, 100) == 100
  {
    assert Wrap(10 + MAX) == 10 + MAX - MODULUS;
    assert Wrap(-10 + MIN) == -10 + MIN + MODULUS;
  }

  /** One OnHealthChanged notification: health before, health after, maximum. */
  datatype HealthChange = HealthChange(oldHealth: Int32, currentHealth: Int32, maxHealth: Int32)

  class HealthManager {
    var maxHealth: Int32
    var currentHealth: Int32
    var isDead: bool
    /** Every OnHealthChanged notification so far, oldest first. */
    var healthChanges: seq<HealthChange>
    /** How many times OnDeath has fired. */
    var deaths: nat

    /** The serialized defaults: 100 out of 100, alive. */
    constructor ()
      ensures maxHealth == 100 && currentHealth == 100 && !isDead
      ensures healthChanges == [] && deaths == 0
    {
      maxHealth := 100;
      currentHealth := 100;
      isDead := false;
      healthChanges := [];
      deaths := 0;
    }

    /** Death check: health at or below zero becomes exactly zero, the manager is dead and OnDeath fires. */
    method CheckDeath()
      modifies this
      ensures currentHealth <= 0 ==> currentHealth == 0
      ensures old(currentHealth) <= 0 ==> currentHealth == 0 && isDead && deaths == old(deaths) + 1
      ensures old(currentHealth) > 0 ==> currentHealth == old(currentHealth) && isDead == old(isDead) && deaths == old(deaths)
      ensures maxHealth == old(maxHealth) && healthChanges == old(healthChanges)
    {
      if currentHealth <= 0 {
        currentHealth := 0;
        isDead := true;
        deaths := deaths + 1;
      }
    }

    /** Takes the already computed non-negative damage, notifies, then checks for death. */
    method DealDamage(computedDamage: Int32)
      requires 0 <= computedDamage
      modifies this
      ensures maxHealth >= 0 ==> currentHealth == Damaged(old(currentHealth), computedDamage, maxHealth)
      ensures maxHealth < 0 ==> currentHealth == 0
      ensures healthChanges == old(healthChanges) + [HealthChange(old(currentHealth), Damaged(old(currentHealth), computedDamage, maxHealth), maxHealth)]
      ensures maxHealth == old(maxHealth)
      ensures currentHealth == 0 ==> isDead && deaths == old(deaths) + 1
      ensures currentHealth != 0 ==> isDead == old(isDead) && deaths == old(deaths)
      ensures maxHealth >= 0 ==> 0 <= currentHealth <= maxHealth
    {
      var oldHealth := currentHealth;
      currentHealth := Clamp(Wrap(currentHealth - computedDamage), 0, maxHealth);
      healthChanges := healthChanges + [HealthChange(oldHealth, currentHealth, maxHealth)];
      CheckDeath();
    }

    /** Adds `heal` in 32-bit arithmetic, clamps, notifies, then checks for death. */
    method Heal(heal: Int32)
      modifies this
      ensures maxHealth >= 0 ==> currentHealth == Healed(old(currentHealth), heal, maxHealth)
      ensures maxHealth < 0 ==> currentHealth == 0
      ensures healthChanges == old(healthChanges) + [HealthChange(old(currentHealth), Healed(old(currentHealth), heal, maxHealth), maxHealth)]
      ensures maxHealth == old(maxHealth)
      ensures currentHealth == 0 ==> isDead && deaths == old(deaths) + 1
      ensures currentHealth != 0 ==> isDead == old(isDead) && deaths == old(deaths)
      ensures maxHealth >= 0 ==> 0 <= currentHealth <= maxHealth
    {
      var oldHealth := currentHealth;
      currentHealth := Clamp(Wrap(currentHealth + heal), 0, maxHealth);
      healthChanges := healthChanges + [HealthChange(oldHealth, currentHealth, maxHealth)];
      CheckDeath();
    }

    /** Restores health to the maximum and notifies; the death flag is left as it is. */
    method FullHeal()
      modifies this
      ensures currentHealth == maxHealth == old(maxHealth)
      ensures healthChanges == old(healthChanges) + [HealthChange(old(currentHealth), maxHealth, maxHealth)]
      ensures isDead == old(isDead) && deaths == old(deaths)
    {
      var oldHealth := currentHealth;
      currentHealth := maxHealth;
      healthChanges := healthChanges + [HealthChange(oldHealth, currentHealth, maxHealth)];
    }

    /** Drops health to zero, notifies, and dies. */
    method InstaKill()
      modifies this
      ensures currentHealth == 0 && isDead && deaths == old(deaths) + 1
      ensures healthChanges == old(healthChanges) + [HealthChange(old(currentHealth), 0, maxHealth)]
      ensures maxHealth == old(maxHealth)
    {
      var oldHealth := currentHealth;
      currentHealth := 0;
      healthChanges := healthChanges + [HealthChange(oldHealth, currentHealth, maxHealth)];
      CheckDeath();
    }
  }
}
