/**
 * The game state: one player and the list of enemies still to be fought,
 * with the battle and the fixed heal that the menu dispatches to.
 */
module Engine {
  import opened Health
  import opened Entities
  import opened Combat

  /** What the heal command restores. */
  const HealAmount: int := 30

  /** The sequence with the element at index `i` erased; the rest keep their order. */
  function RemoveAt<T>(s: seq<T>, i: nat): (r: seq<T>)
    requires i < |s|
    ensures |r| == |s| - 1
    ensures forall j :: 0 <= j < i ==> r[j] == s[j]
    ensures forall j :: i <= j < |r| ==> r[j] == s[j + 1]
    ensures multiset(r) + multiset{s[i]} == multiset(s)
  {
    assert s == s[..i] + [s[i]] + s[i + 1..];
    s[..i] + s[i + 1..]
  }

  /** No element occurs twice. */
  ghost predicate Distinct<T>(s: seq<T>)
  {
    forall j, k :: 0 <= j < k < |s| ==> s[j] != s[k]
  }

  /** Erasing from a list of distinct elements keeps it distinct and drops the erased one. */
  lemma RemoveAtDistinct<T>(s: seq<T>, i: nat)
    requires i < |s| && Distinct(s)
    ensures Distinct(RemoveAt(s, i)) && s[i] !in RemoveAt(s, i)
  {
  }

  /** Every enemy listed is alive and hits for a positive amount. */
  ghost predicate AllFighting(es: seq<Enemy>)
    reads es
  {
    forall j :: 0 <= j < |es| ==> es[j].IsAlive() && es[j].attackPower > 0
  }

  /**
   * Erasing one enemy from a list without repeats whose other enemies are all
   * alive and hit for a positive amount leaves a list of which that holds
   * throughout.
   */
  lemma EraseKeepsEnemiesValid(es: seq<Enemy>, i: nat)
    requires i < |es|
    requires Distinct(es)
    requires forall j :: 0 <= j < |es| && j != i ==> es[j].IsAlive() && es[j].attackPower > 0
    ensures Distinct(RemoveAt(es, i)) && AllFighting(RemoveAt(es, i)) && es[i] !in RemoveAt(es, i)
  {
    RemoveAtDistinct(es, i);
    var r := RemoveAt(es, i);
    forall j | 0 <= j < |r| ensures r[j].IsAlive() && r[j].attackPower > 0 {
      if j < i {
        assert r[j] == es[j];
      } else {
        assert r[j] == es[j + 1];
      }
    }
  }

  class Game {
    var player: Character
    var enemies: seq<Enemy>

    /**
     * The player's health stays within its bounds, both sides hit for a
     * positive amount, the list holds each enemy once, and every enemy in
     * it is alive (a defeated enemy is erased at once).
     */
    ghost predicate Valid()
      reads this, player, enemies
    {
      && player.HealthInRange()
      && player.attackPower > 0
      && Distinct(enemies)
      && AllFighting(enemies)
    }

    /** The state after setup: a fresh player with 100 health and 20 attack, a goblin and a troll. */
    constructor Start(playerName: string)
      ensures Valid() && fresh(player)
      ensures player.name == playerName && player.inventory == []
      ensures player.health == 100 && player.maxHealth == 100 && player.attackPower == 20
      ensures |enemies| == 2 && fresh(enemies[0]) && fresh(enemies[1])
      ensures enemies[0].name == "Goblin" && enemies[0].health == 50 && enemies[0].attackPower == 10
      ensures enemies[1].name == "Troll" && enemies[1].health == 120 && enemies[1].attackPower == 15
    {
      player := new Character(playerName, 100, 20);
      var goblin := new Enemy("Goblin", 50, 10);
      var troll := new Enemy("Troll", 120, 15);
      enemies := [goblin, troll];
    }

    /**
     * Fight the enemy at 1-based position `choice`. An empty list or a choice
     * out of range changes nothing. Otherwise the two healths end as `Fight`
     * says, and the enemy is erased from the list exactly when the player
     * struck it down; the other enemies keep their order and their health.
     */
    method Battle(choice: int)
      requires Valid()
      modifies this`enemies, player`health
      modifies (if 1 <= choice <= |enemies| then {enemies[choice - 1]} else {})`health
      ensures Valid() && player == old(player)
      ensures !(1 <= choice <= |old(enemies)|) ==>
        enemies == old(enemies) && player.health == old(player.health)
      ensures 1 <= choice <= |old(enemies)| ==>
        var e := old(enemies)[choice - 1];
        var r := Fight(old(player.health), player.attackPower, old(e.health), e.attackPower);
        && player.health == r.playerHealth && e.health == r.enemyHealth
        && enemies == (if r.ending == EnemyDefeated then RemoveAt(old(enemies), choice - 1) else old(enemies))
      ensures 1 <= choice <= |old(enemies)| ==>
        var e := old(enemies)[choice - 1];
        || (old(player.health) > 0 && player.health > 0 && e.health == 0
            && enemies == RemoveAt(old(enemies), choice - 1) && e !in enemies)
        || (old(player.health) > 0 && player.health == 0 && 0 < e.health < old(e.health)
            && enemies == old(enemies))
        || (old(player.health) == 0 && player.health == 0 && e.health == old(e.health)
            && enemies == old(enemies))
      ensures forall i :: 0 <= i < |old(enemies)| && i != choice - 1 ==>
        old(enemies)[i].health == old(enemies[i].health)
    {
      if |enemies| == 0 {
        return;
      }
      if choice < 1 || choice > |enemies| {
        return;
      }
      ghost var e := enemies[choice - 1];
      ghost var r := Fight(player.health, player.attackPower, e.health, e.attackPower);
      FightEndings(player.health, player.attackPower, e.health, e.attackPower);
      FightChosen(choice - 1);
      if r.ending == EnemyDefeated {
        EraseKeepsEnemiesValid(old(enemies), choice - 1);
      } else {
        assert enemies == old(enemies) && e.IsAlive();
      }
    }

    /**
     * The combat loop against the enemy at 0-based `index`: the healths end as
     * `Fight` says, and the enemy is erased from the list exactly when the
     * player struck it down. The loop stops exactly when `Ends` holds.
     */
    method FightChosen(index: nat)
      requires index < |enemies|
      requires Ends(player.health, player.attackPower, enemies[index].health, enemies[index].attackPower)
      modifies this`enemies, player`health, {enemies[index]}`health
      ensures player == old(player)
      ensures var e := old(enemies)[index];
        var r := Fight(old(player.health), player.attackPower, old(e.health), e.attackPower);
        && player.health == r.playerHealth && e.health == r.enemyHealth
        && enemies == (if r.ending == EnemyDefeated then RemoveAt(old(enemies), index) else old(enemies))
    {
      var enemy := enemies[index];
      ghost var r := Fight(player.health, player.attackPower, enemy.health, enemy.attackPower);
      while player.health > 0 && enemy.health > 0
        invariant enemies == old(enemies)
        invariant Ends(player.health, player.attackPower, enemy.health, enemy.attackPower)
        invariant Fight(player.health, player.attackPower, enemy.health, enemy.attackPower) == r
        decreases if player.attackPower > 0 then enemy.health else player.health
      {
        enemy.TakeDamage(player.attackPower);
        if enemy.health <= 0 {
          enemies := RemoveAt(enemies, index);
          break;
        }
        player.TakeDamage(enemy.attackPower);
        if player.health <= 0 {
          break;
        }
      }
    }

    /** The heal command: a fixed heal that never passes the player's maximum. */
    method HealPlayer()
      requires Valid()
      modifies player`health
      ensures Valid()
      ensures player.health == Healed(old(player.health), player.maxHealth, HealAmount)
      ensures old(player.health) <= player.health <= player.maxHealth
    {
      player.Heal(HealAmount);
    }
  }

  /**
   * The opening fight: the player (100 health, 20 attack) picks the goblin
   * (50 health, 10 attack), lands three blows while taking two, and ends at
   * 80 health with only the troll left; one heal then restores 100.
   */
  method GoblinThenHeal()
  {
    var game := new Game.Start("Hero");
    var troll := game.enemies[1];
    FightClosedForm(100, 20, 50, 10);
    assert Strikes(50, 20) == 3 && Strikes(100, 10) == 10;
    game.Battle(1);
    assert game.player.health == 80;
    assert game.enemies == [troll];
    game.HealPlayer();
    assert game.player.health == 100;
  }
}
