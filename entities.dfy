/**
 * The game's entities: items held by value in an inventory, and the two
 * kinds of combatant, whose health is updated in place.
 */
module Entities {
  import opened Health

  /** An inventory entry: a name and a value. */
  datatype Item = Item(name: string, value: int)

  /** The player character. */
  class Character {
    var name: string
    var health: int
    var maxHealth: int
    var attackPower: int
    var inventory: seq<Item>

    /** Health lies between zero and the maximum. */
    ghost predicate HealthInRange()
      reads this
    {
      0 <= health <= maxHealth
    }

    /** The maximum is the starting health; the inventory starts empty. */
    constructor (name: string, health: int, attackPower: int)
      ensures this.name == name && this.health == health && this.attackPower == attackPower
      ensures maxHealth == health && inventory == []
    {
      this.name := name;
      this.health := health;
      this.maxHealth := health;
      this.attackPower := attackPower;
      this.inventory := [];
    }

    method Heal(amount: int)
      modifies this`health
      ensures health == Healed(old(health), maxHealth, amount)
      ensures health <= maxHealth
      ensures amount >= 0 && old(health) <= maxHealth ==> old(health) <= health
      ensures amount >= 0 && old(HealthInRange()) ==> HealthInRange()
      ensures maxHealth == old(maxHealth)
    {
      health := Healed(health, maxHealth, amount);
    }

    method TakeDamage(damage: int)
      modifies this`health
      ensures health == Damaged(old(health), damage)
      ensures health >= 0
      ensures damage >= 0 && old(health) >= 0 ==> health <= old(health)
      ensures damage >= 0 && old(HealthInRange()) ==> HealthInRange()
      ensures maxHealth == old(maxHealth)
    {
      health := Damaged(health, damage);
    }

    method AddItem(item: Item)
      modifies this`inventory
      ensures inventory == old(inventory) + [item]
      ensures health == old(health) && maxHealth == old(maxHealth) && attackPower == old(attackPower)
    {
      inventory := inventory + [item];
    }
  }

  /** An opponent: like a character, but with no maximum and no inventory. */
  class Enemy {
    var name: string
    var health: int
    var attackPower: int

    constructor (name: string, health: int, attackPower: int)
      ensures this.name == name && this.health == health && this.attackPower == attackPower
    {
      this.name := name;
      this.health := health;
      this.attackPower := attackPower;
    }

    method TakeDamage(damage: int)
      modifies this`health
      ensures health == Damaged(old(health), damage)
      ensures health >= 0
      ensures damage >= 0 && old(health) >= 0 ==> health <= old(health)
      ensures damage > 0 && old(IsAlive()) ==> health < old(health)
      ensures IsAlive() <==> old(health) > damage
    {
      health := Damaged(health, damage);
    }

    /** The enemy can still fight. */
    predicate IsAlive()
      reads this
    {
      health > 0
    }
  }
}
