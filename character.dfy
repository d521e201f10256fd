/** Character templates (core/character.h, core/character.c). */
module Characters {

  datatype Character = Character(symbol: char, maxHealth: int, maxEnergy: int, speedBase: real)

  /** character_create: stores the four attributes unchanged. */
  function Create(symbol: char, maxHealth: int, maxEnergy: int, speed: real): (c: Character)
    ensures c.symbol == symbol && c.maxHealth == maxHealth && c.maxEnergy == maxEnergy && c.speedBase == speed
  {
    Character(symbol, maxHealth, maxEnergy, speed)
  }

  /** character_default: the given symbol with 100 health, 100 energy and speed 1. */
  function Default(symbol: char): (c: Character)
    ensures c.symbol == symbol
    ensures c.maxHealth == 100 && c.maxEnergy == 100 && c.speedBase == 1.0
  {
    Create(symbol, 100, 100, 1.0)
  }
}
