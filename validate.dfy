/**
 * The range checks on the fields of a game state.  Every numeric check fails with
 * `InvalidGameState`; the three text checks succeed exactly when the matching
 * normalization does.  The bounds are the game's ID ranges; for the weapon, armor,
 * shield and salt they are also exactly what the few bits of the byte layout hold.
 */
module Validate {
  import opened Errors
  import opened Normalize

  const WeaponMax: bv8 := 7
  const ArmorMax: bv8 := 7
  const ShieldMax: bv8 := 3
  const HerbMax: bv8 := 6
  const KeyMax: bv8 := 6
  const ToolMax: bv8 := 14
  const SaltMax: bv8 := 7

  /** Fails with `InvalidGameState` when `x` exceeds `max`. */
  function AtMost(x: bv8, max: bv8): Result<()> {
    if x > max then Err(InvalidGameState) else Ok(())
  }

  /** `validate_hero_name`: a name is valid when it normalizes, with the same error. */
  function ValidateHeroName(name: string): (r: Result<()>)
    ensures r.Ok? <==> NormalizeHeroName(name).Ok?
    ensures r.Err? ==> r.error == InvalidGameState
  {
    NormalizeHeroName(name).Unit()
  }

  /** A weapon ID is valid exactly when it fits in the 3 bits it gets in the state bytes. */
  function ValidateHeroWeapon(weapon: bv8): (r: Result<()>)
    ensures r.Ok? <==> weapon >> 3 == 0
    ensures r.Err? ==> r.error == InvalidGameState
  {
    AtMost(weapon, WeaponMax)
  }

  /** An armor ID is valid exactly when it fits in 3 bits. */
  function ValidateHeroArmor(armor: bv8): (r: Result<()>)
    ensures r.Ok? <==> armor >> 3 == 0
    ensures r.Err? ==> r.error == InvalidGameState
  {
    AtMost(armor, ArmorMax)
  }

  /** A shield ID is valid exactly when it fits in 2 bits. */
  function ValidateHeroShield(shield: bv8): (r: Result<()>)
    ensures r.Ok? <==> shield >> 2 == 0
    ensures r.Err? ==> r.error == InvalidGameState
  {
    AtMost(shield, ShieldMax)
  }

  /** A herb count is valid when it is at most 6; a valid count fits in a nibble. */
  function ValidateHerbCount(herb: bv8): (r: Result<()>)
    ensures r.Ok? <==> herb <= 6
    ensures r.Ok? ==> herb >> 4 == 0
    ensures r.Err? ==> r.error == InvalidGameState
  {
    AtMost(herb, HerbMax)
  }

  /** A key count is valid when it is at most 6; a valid count fits in a nibble. */
  function ValidateKeyCount(key: bv8): (r: Result<()>)
    ensures r.Ok? <==> key <= 6
    ensures r.Ok? ==> key >> 4 == 0
    ensures r.Err? ==> r.error == InvalidGameState
  {
    AtMost(key, KeyMax)
  }

  /** A tool ID is valid when it is at most 14: any nibble except 15. */
  function ValidateTool(tool: bv8): (r: Result<()>)
    ensures r.Ok? <==> tool >> 4 == 0 && tool != 15
    ensures r.Err? ==> r.error == InvalidGameState
  {
    AtMost(tool, ToolMax)
  }

  /** The search of `validate_inventory` from slot `i` on: it stops at the first bad tool. */
  function ValidateToolsFrom(inventory: seq<bv8>, i: nat): (r: Result<()>)
    requires i <= |inventory|
    ensures r.Ok? <==> forall j :: i <= j < |inventory| ==> inventory[j] <= 14
    ensures r.Err? ==> r.error == InvalidGameState
    decreases |inventory| - i
  {
    if i == |inventory| then
      Ok(())
    else if ValidateTool(inventory[i]).Err? then
      Err(InvalidGameState)
    else
      ValidateToolsFrom(inventory, i + 1)
  }

  /** `validate_inventory`: the 8 slots are valid exactly when every tool ID is. */
  function ValidateInventory(inventory: seq<bv8>): (r: Result<()>)
    requires |inventory| == 8
    ensures r.Ok? <==> forall j :: 0 <= j < 8 ==> ValidateTool(inventory[j]).Ok?
    ensures r.Err? ==> r.error == InvalidGameState
  {
    ValidateToolsFrom(inventory, 0)
  }

  /** A salt is valid exactly when it fits in the 3 bits the state bytes give it. */
  function ValidateSalt(salt: bv8): (r: Result<()>)
    ensures r.Ok? <==> salt >> 3 == 0
    ensures r.Err? ==> r.error == InvalidGameState
  {
    AtMost(salt, SaltMax)
  }

  /** `validate_password`: a password is valid when it normalizes, with the same error. */
  function ValidatePassword(password: string): (r: Result<()>)
    ensures r.Ok? <==> NormalizePassword(password).Ok?
    ensures r.Err? ==> r.error == InvalidPassword
  {
    NormalizePassword(password).Unit()
  }

  /** `validate_pattern`: a pattern is valid when it normalizes, with the same error. */
  function ValidatePattern(pattern: string): (r: Result<()>)
    ensures r.Ok? <==> NormalizePattern(pattern).Ok?
    ensures r.Err? ==> r.error == NormalizePattern(pattern).error
  {
    NormalizePattern(pattern).Unit()
  }
}
