/**
 * The combat loop as a value-level specification: the player strikes, then
 * (if the enemy still stands) the enemy strikes back, until one side is down.
 * Only the two health values change; both attack powers are fixed.
 */
module Combat {
  import opened Health

  /** How a fight stopped: before any blow, by the enemy falling, or by the player falling. */
  datatype Ending = NoRound | EnemyDefeated | PlayerDefeated

  datatype Outcome = Outcome(ending: Ending, playerHealth: int, enemyHealth: int)

  /**
   * The combat loop stops exactly when one side is already down or some blow
   * lowers health. With both sides up and neither attack positive, no blow
   * ever lowers health and the loop runs forever.
   */
  predicate Ends(playerHealth: int, playerAttack: int, enemyHealth: int, enemyAttack: int)
  {
    playerHealth <= 0 || enemyHealth <= 0 || playerAttack > 0 || enemyAttack > 0
  }

  /**
   * The result of running the combat loop from the given healths: blows
   * alternate, player first, until one side is at zero or below, and the
   * result says how the fight ended. A fight that starts leaves no health negative.
   */
  function Fight(playerHealth: int, playerAttack: int, enemyHealth: int, enemyAttack: int): (r: Outcome)
    requires Ends(playerHealth, playerAttack, enemyHealth, enemyAttack)
    ensures r.ending == NoRound <==> playerHealth <= 0 || enemyHealth <= 0
    ensures r.ending != NoRound ==> r.playerHealth >= 0 && r.enemyHealth >= 0
    decreases if playerAttack > 0 then enemyHealth else playerHealth
  {
    if playerHealth <= 0 || enemyHealth <= 0 then
      Outcome(NoRound, playerHealth, enemyHealth)
    else
      var enemyAfter := Damaged(enemyHealth, playerAttack);
      if enemyAfter <= 0 then
        Outcome(EnemyDefeated, playerHealth, enemyAfter)
      else
        var playerAfter := Damaged(playerHealth, enemyAttack);
        if playerAfter <= 0 then
          Outcome(PlayerDefeated, playerAfter, enemyAfter)
        else
          Fight(playerAfter, playerAttack, enemyAfter, enemyAttack)
  }

  /**
   * Outside `Ends`, both sides are up and no blow lowers health: one round
   * leaves both still up and still outside `Ends`, so the loop never stops.
   */
  lemma EndlessWithoutBlows(playerHealth: int, playerAttack: int, enemyHealth: int, enemyAttack: int)
    requires !Ends(playerHealth, playerAttack, enemyHealth, enemyAttack)
    ensures var enemyAfter := Damaged(enemyHealth, playerAttack);
      var playerAfter := Damaged(playerHealth, enemyAttack);
      && enemyAfter >= enemyHealth > 0 && playerAfter >= playerHealth > 0
      && !Ends(playerAfter, playerAttack, enemyAfter, enemyAttack)
  {
  }

  /**
   * A fight that starts stops in exactly one of two ways: the enemy at zero
   * and the player standing, or the player at zero and the enemy standing.
   * A positive player attack always leaves the enemy weaker than it started;
   * an enemy attack that is not negative never leaves the player stronger.
   */
  lemma {:induction false} FightIsDecisive(playerHealth: int, playerAttack: int, enemyHealth: int, enemyAttack: int)
    requires Ends(playerHealth, playerAttack, enemyHealth, enemyAttack)
    ensures var r := Fight(playerHealth, playerAttack, enemyHealth, enemyAttack);
      && (r.ending == NoRound <==> playerHealth <= 0 || enemyHealth <= 0)
      && (r.ending == NoRound ==> r.playerHealth == playerHealth && r.enemyHealth == enemyHealth)
      && (r.ending == EnemyDefeated ==> r.enemyHealth == 0 && r.playerHealth > 0)
      && (r.ending == PlayerDefeated ==> r.playerHealth == 0 && r.enemyHealth > 0)
      && (r.ending != NoRound && playerAttack > 0 ==> r.enemyHealth < enemyHealth)
      && (r.ending != NoRound && enemyAttack >= 0 ==> r.playerHealth <= playerHealth)
    decreases if playerAttack > 0 then enemyHealth else playerHealth
  {
    if playerHealth > 0 && enemyHealth > 0 {
      var enemyAfter := Damaged(enemyHealth, playerAttack);
      var playerAfter := Damaged(playerHealth, enemyAttack);
      if enemyAfter > 0 && playerAfter > 0 {
        FightIsDecisive(playerAfter, playerAttack, enemyAfter, enemyAttack);
      }
    }
  }

  /**
   * With both attacks positive, a living enemy and a player not below zero,
   * a fight has one of three results: the player wins still standing, the
   * player falls and leaves the enemy weakened, or the player was already
   * down and nothing happens.
   */
  lemma FightEndings(playerHealth: int, playerAttack: int, enemyHealth: int, enemyAttack: int)
    requires playerAttack > 0 && enemyAttack > 0 && playerHealth >= 0 && enemyHealth > 0
    ensures var r := Fight(playerHealth, playerAttack, enemyHealth, enemyAttack);
      || (playerHealth > 0 && r.ending == EnemyDefeated && 0 < r.playerHealth <= playerHealth
          && r.enemyHealth == 0)
      || (playerHealth > 0 && r.ending == PlayerDefeated && r.playerHealth == 0
          && 0 < r.enemyHealth < enemyHealth)
      || (playerHealth == 0 && r == Outcome(NoRound, playerHealth, enemyHealth))
  {
    FightIsDecisive(playerHealth, playerAttack, enemyHealth, enemyAttack);
  }

  /** The number of blows of strength `attack` that bring `health` down to zero or below. */
  function Strikes(health: int, attack: int): (n: nat)
    requires attack > 0
    decreases health
  {
    if health <= attack then 1 else 1 + Strikes(health - attack, attack)
  }

  /** `Strikes` is the ceiling of health over attack: one blow fewer would not do. */
  lemma {:induction false} StrikesIsCeiling(health: int, attack: int)
    requires health > 0 && attack > 0
    ensures (Strikes(health, attack) - 1) * attack < health <= Strikes(health, attack) * attack
    decreases health
  {
    if health > attack {
      StrikesIsCeiling(health - attack, attack);
      var n := Strikes(health - attack, attack);
      assert (n + 1) * attack == n * attack + attack;
    }
  }

  /**
   * The outcome in closed form. With n the blows the player needs and m the
   * blows the enemy needs, the player, striking first, wins exactly when
   * n <= m: the enemy falls on the player's n-th blow after striking back
   * n - 1 times. Otherwise the player falls to the enemy's m-th blow after
   * landing m blows.
   */
  lemma {:induction false} FightClosedForm(playerHealth: int, playerAttack: int, enemyHealth: int, enemyAttack: int)
    requires playerHealth > 0 && enemyHealth > 0 && playerAttack > 0 && enemyAttack > 0
    ensures var n := Strikes(enemyHealth, playerAttack);
      var m := Strikes(playerHealth, enemyAttack);
      Fight(playerHealth, playerAttack, enemyHealth, enemyAttack)
        == if n <= m then Outcome(EnemyDefeated, playerHealth - (n - 1) * enemyAttack, 0)
           else Outcome(PlayerDefeated, 0, enemyHealth - m * playerAttack)
    decreases enemyHealth
  {
    if enemyHealth > playerAttack && playerHealth > enemyAttack {
      FightClosedForm(playerHealth - enemyAttack, playerAttack, enemyHealth - playerAttack, enemyAttack);
      var n := Strikes(enemyHealth - playerAttack, playerAttack);
      var m := Strikes(playerHealth - enemyAttack, enemyAttack);
      assert (n - 1) * enemyAttack + enemyAttack == n * enemyAttack;
      assert m * playerAttack + playerAttack == (m + 1) * playerAttack;
    }
  }
}
