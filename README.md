# RPG combat engine in Dafny

A model of the core of a small turn-based text RPG (`RPG.c`, C++ despite the
file name). A player character and a list of enemies each carry a health value
and an attack power. Healing is capped at the character's maximum health.
Damage is floored at zero. A battle against an enemy picked by 1-based number
alternates blows, player first, until one side is down. A defeated enemy is
erased from the list.

Modules, one per concern of the source:

- `Health` (`health.dfy`): the two clamped updates, `Healed` (`min(maxHealth, health + amount)`)
  and `Damaged` (`max(0, health - damage)`). Each is stated by what it means:
  an upper or lower bound reached, or the raw value kept.
- `Entities` (`entities.dfy`): the `Item` value and the classes `Character` and
  `Enemy`. Every method updates only the field it names in its `modifies` frame
  (`health` or `inventory`). `Heal` and `TakeDamage` tie the new health to the
  old one through the `Health` functions; `AddItem` appends to the inventory.
- `Combat` (`combat.dfy`): the battle loop as a pure function `Fight` over the two
  healths and attacks, with its properties. The exact condition under which
  the loop stops is `Ends`: `Fight` terminates under it, and outside it a
  round leaves both sides up and still outside it (`EndlessWithoutBlows`).
  A started fight ends in exactly one of two ways (`FightIsDecisive`). The outcome also has a closed form:
  the player, who strikes first, wins exactly when the blows it needs do not
  exceed the blows the enemy needs (`FightClosedForm`, with `Strikes` proved to
  be the ceiling of health over attack).
- `Engine` (`engine.dfy`): the `Game` class, holding a player reference and a
  `seq<Enemy>`. `Battle(choice)` does the two checks that reject a call. The
  choice the source reads from the console is a parameter here. It then calls
  `FightChosen`, which runs the combat loop imperatively. That loop erases the
  felled enemy in place and is proved against `Fight`. `Game.Valid()` is the
  invariant that setup establishes and `Battle` and `HealPlayer` preserve:
  - the player's health lies in `[0, maxHealth]`;
  - both sides have a positive attack;
  - every listed enemy is alive and listed once.
  `GoblinThenHeal` is a client, with no contract of its own. It replays the
  opening fight from the specifications alone: the goblin falls after three
  blows, the player is left at 80 health, and one heal brings it back to 100.

Facts about `RPG.c` that the model keeps:
- `heal` has no guard against a negative amount (RPG.c:49-51); a negative heal lowers health.
- Damage is applied in full; nothing reduces it (RPG.c:53-55, RPG.c:88-90).
- The program has no defence, loot, levelling, equipment or quests.
- An empty enemy list or an invalid choice only prints a message and changes nothing (RPG.c:169-172, RPG.c:182-185).

Two quirks of the code are kept and stated:
- A `Character` built with negative health has a negative maximum. One blow then
  sets its health to 0, above that maximum. `HealthInRange` is therefore
  preserved only from states that already satisfy it.
- The loop erases an enemy only when a blow inside the loop fells it. An enemy
  already at zero health would stay listed (`Fight` returns `NoRound`).
  `Game.Valid()` rules this state out.

## Model

| member | source | states |
|---|---|---|
| `Health.Healed` | RPG.c:49-51 | the healed health is at most the maximum and at most health + amount, equals one of the two, does not fall below the old health when the amount is not negative and health was within the maximum, and is strictly lower than the old health for a negative amount |
| `Health.Damaged` | RPG.c:53-55 | the damaged health is never negative, is at least health − damage, equals 0 or health − damage, does not rise for non-negative damage from a non-negative health, and strictly falls for positive damage from a positive health |
| `Entities.Character.constructor` | RPG.c:43 | a new character's maximum health equals its starting health and its inventory is empty |
| `Entities.Character.Heal` | RPG.c:49-51 | health becomes `Healed(old health, maxHealth, amount)`, never exceeds the maximum, does not fall for a non-negative amount from a health within the maximum, and, for a non-negative amount from a state within range, keeps health within `[0, maxHealth]`; only `health` may change, so `maxHealth` stays |
| `Entities.Character.TakeDamage` | RPG.c:53-55 | health becomes `Damaged(old health, damage)`, is never negative, does not rise for non-negative damage from a non-negative health, and, for non-negative damage from a state within range, keeps health within `[0, maxHealth]`; only `health` may change |
| `Entities.Character.AddItem` | RPG.c:57-59 | the inventory becomes the old inventory with the item appended; health, maximum and attack are unchanged |
| `Entities.Enemy.constructor` | RPG.c:82 | a new enemy has the given name, health and attack |
| `Entities.Enemy.TakeDamage` | RPG.c:88-90 | health becomes `Damaged(old health, damage)`, is never negative, does not rise for non-negative damage from a non-negative health, and strictly falls for positive damage to a living enemy; the enemy is still alive afterwards exactly when its old health exceeded the damage; only `health` may change |
| `Entities.Enemy.IsAlive` | RPG.c:92-94 | defined as health > 0; `Enemy.TakeDamage` proves it holds afterwards exactly when the old health exceeded the damage, and `Game.Valid` keeps every listed enemy alive |
| `Combat.Fight` | RPG.c:190-209 | the healths after alternating blows, player first, until one side is at 0 or below, and how the fight ended; no blow is struck exactly when a side starts down, and a fight that starts leaves neither health negative |
| `Combat.EndlessWithoutBlows` | RPG.c:190-209 | with both sides up and neither attack positive, a round leaves both healths no lower and the state still outside `Ends`, so the loop never stops |
| `Combat.FightIsDecisive` | RPG.c:190-209 | no blow is struck iff a side starts down; a started fight ends either with the enemy at 0 and the player alive or with the player at 0 and the enemy alive; a positive player attack leaves the enemy weaker |
| `Combat.StrikesIsCeiling` | RPG.c:190-192 | the number of blows that fell a combatant is the ceiling of its health over the attack: one fewer blow leaves it standing |
| `Combat.FightClosedForm` | RPG.c:190-209 | with positive healths and attacks, the player wins iff its blows needed n do not exceed the enemy's m, ending at health − (n − 1)·enemy attack with the enemy at 0; otherwise the player is at 0 and the enemy at its health − m·player attack |
| `Engine.RemoveAt` | RPG.c:197 | erasing index i shortens the list by one, keeps the elements before i, shifts those after it down by one, and removes exactly one occurrence of the erased element |
| `Combat.FightEndings` | RPG.c:190-209 | with positive attacks, a living enemy and a player not below zero, the fight either is won with the player standing and no stronger, or is lost with the enemy weakened but alive, or (player already down) changes nothing |
| `Engine.EraseKeepsEnemiesValid` | RPG.c:197 | erasing one enemy from a list without repeats whose other enemies are alive with positive attack leaves a list without repeats, of living enemies with positive attack, that no longer holds the erased one |
| `Engine.Game.FightChosen` | RPG.c:187-209 | under exactly the loop's stopping condition `Ends`, the player's and the chosen enemy's healths end as `Fight` gives, and the enemy is erased from the list, the rest in order, exactly when the player felled it |
| `Engine.RemoveAtDistinct` | RPG.c:197 | erasing from a list without repeats leaves a list without repeats that no longer contains the erased element |
| `Engine.Game.Start` | RPG.c:118-122 | setup gives a fresh player with 100/100 health, 20 attack and an empty inventory, then a goblin (50, 10) and a troll (120, 15), and establishes the game invariant |
| `Engine.Game.Battle` | RPG.c:168-210 | an empty list or a choice outside 1..size changes nothing (RPG.c:169-185); otherwise the healths end as `Fight` gives, and either the enemy is at 0 and erased with the rest in order, or the player is at 0 and the enemy stays weakened in place, or the player was already down and nothing changed; other enemies keep their health; the invariant is kept |
| `Engine.Game.HealPlayer` | RPG.c:212-215 | the player's health becomes `Healed(old health, maxHealth, 30)`: it does not fall and does not exceed the maximum; the invariant is kept |

## Left out

- Console output and input: `Item::display`, `Character::showInventory`, `showStats`, `Enemy::showStats`, the `gameLoop` menu, the messages printed by `battle` and `healPlayer`, and the name read in `start`. The battle choice and the player name are parameters instead.
- `Game::isRunning` and the `Game()` constructor that leaves `player` null. They exist only for the menu loop and for the window before `start`. `Engine.Game.Start` models the state right after `start` builds the player and the enemies.
- `saveGame` and `loadGame`: file I/O. `loadGame` builds a new `Character` from the saved health, so the loaded maximum health equals the saved current health (the constructor above). The model does not capture this.
- `main`'s `srand(time(0))`: an unused random seed.
- `Weapon` and its `attackPower`: never used by the game logic. A `Weapon` pushed into `vector<Item>` would be sliced to its `Item` part.
- `Health.Healed`: uses unbounded integers. 32-bit `int` overflow of `health + amount` is undefined behaviour in C++ and is not modelled. With the game's values (health at most 120, heal 30) no sum comes near the limit.
- `Health.Damaged`: uses unbounded integers. 32-bit overflow of `health - damage` is not modelled, for the same reason.
- `Engine.Game.Battle`: requires `Game.Valid()`, which includes positive attack powers. The source does not check this; with both attacks at zero or below, the loop never ends. The exact stopping condition is `Combat.Ends`. `Combat.Fight` and `Engine.Game.FightChosen`, the loop itself, require only that.
