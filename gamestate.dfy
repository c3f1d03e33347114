/** The game state a password saves, with its validation and normalization. */
module GameStates {
  import opened Errors
  import opened Normalize
  import opened Validate

  /** The 8 inventory slots, each a tool ID. */
  type Inventory = s: seq<bv8> | |s| == 8 witness [0, 0, 0, 0, 0, 0, 0, 0]

  /**
   * The saved state.  The hero name is at most 4 characters (a voiced kana counts as
   * 2) and is treated as padded with ASCII spaces to 4.
   */
  datatype GameState = GameState(
    heroName: string,
    heroXp: bv16,
    purse: bv16,
    heroWeapon: bv8,
    heroArmor: bv8,
    heroShield: bv8,
    herbCount: bv8,
    keyCount: bv8,
    inventory: Inventory,
    flagEquipDragonScale: bool,
    flagEquipWarriorRing: bool,
    flagGotDeathNecklace: bool,
    flagBeatedGolem: bool,
    flagBeatedDragon: bool,
    salt: bv8)
  {
    /** The documented ranges of the numeric fields. */
    predicate InRange() {
      heroWeapon <= 7 && heroArmor <= 7 && heroShield <= 3
      && herbCount <= 6 && keyCount <= 6 && salt <= 7
      && forall j :: 0 <= j < 8 ==> inventory[j] <= 14
    }

    /**
     * `GameState::validate`: the name must normalize and every numeric field must be
     * in range.  The checks run in the order name, weapon, armor, shield, herb, key,
     * inventory, salt; since all of them fail with `InvalidGameState`, only the
     * message, which is not modelled, would tell which one failed.
     */
    function Validate(): (r: Result<()>)
      ensures r.Ok? <==> NormalizeHeroName(heroName).Ok? && InRange()
      ensures r.Err? ==> r.error == InvalidGameState
    {
      var _ :- ValidateHeroName(heroName);
      var _ :- ValidateHeroWeapon(heroWeapon);
      var _ :- ValidateHeroArmor(heroArmor);
      var _ :- ValidateHeroShield(heroShield);
      var _ :- ValidateHerbCount(herbCount);
      var _ :- ValidateKeyCount(keyCount);
      var _ :- ValidateInventory(inventory);
      var _ :- ValidateSalt(salt);
      Ok(())
    }

    /**
     * `GameState::normalize`: only the name is normalized and checked.  The numeric
     * fields are copied without a range check, so the result is valid exactly when
     * they are in range.
     */
    function Normalize(): (r: Result<GameState>)
      ensures r.Ok? <==> NormalizeHeroName(heroName).Ok?
      ensures r.Err? ==> r.error == InvalidGameState
      ensures r.Ok? ==> r.value.(heroName := heroName) == this
      ensures r.Ok? ==> |r.value.heroName| == 4 && AllNameChars(r.value.heroName)
      ensures r.Ok? ==> (r.value.Validate().Ok? <==> InRange())
    {
      var name :- NormalizeHeroName(heroName);
      NormalizedNameFixed(name);
      Ok(this.(heroName := name))
    }

    /** The name is normalized: 4 characters of the name alphabet. */
    predicate IsNormalized() {
      |heroName| == 4 && AllNameChars(heroName)
    }
  }

  /** `GameState::default()`: the empty name, every number 0 and every flag clear. */
  function Default(): GameState {
    GameState("", 0, 0, 0, 0, 0, 0, 0, [0, 0, 0, 0, 0, 0, 0, 0], false, false, false, false, false, 0)
  }

  /** Normalizing twice gives the same state as normalizing once. */
  lemma NormalizeIdempotent(s: GameState)
    requires s.Normalize().Ok?
    ensures s.Normalize().value.Normalize() == s.Normalize()
  {
    NormalizeHeroNameIdempotent(s.heroName);
  }

  /** A normalized state that is valid is its own normalization. */
  lemma NormalizedStateFixed(s: GameState)
    requires s.IsNormalized()
    ensures s.Normalize() == Ok(s)
  {
    NormalizedNameFixed(s.heroName);
  }

  /** The default state is valid and normalizes to the name of four spaces. */
  lemma DefaultNormalize()
    ensures Default().Validate().Ok?
    ensures Default().Normalize() == Ok(Default().(heroName := "    "))
  {
    assert ExpandHeroName("") == "";
    assert "" + Spaces(4) == "    ";
    assert NormalizeHeroName("") == Ok("    ");
  }
}
