/**
 * The two clamped health updates shared by every combatant: healing is
 * capped at the maximum, damage is floored at zero.
 */
module Health {

  /** Health after healing by `amount`: the smaller of the cap and the raised value. */
  function Healed(health: int, maxHealth: int, amount: int): (r: int)
    ensures r <= maxHealth && r <= health + amount
    ensures r == maxHealth || r == health + amount
    ensures amount >= 0 && health <= maxHealth ==> health <= r
    ensures amount < 0 ==> r < health
  {
    if health + amount < maxHealth then health + amount else maxHealth
  }

  /** Health after taking `damage`: the larger of zero and the lowered value. */
  function Damaged(health: int, damage: int): (r: int)
    ensures 0 <= r && health - damage <= r
    ensures r == 0 || r == health - damage
    ensures damage >= 0 && health >= 0 ==> r <= health
    ensures damage > 0 && health > 0 ==> r < health
  {
    if health - damage > 0 then health - damage else 0
  }
}
