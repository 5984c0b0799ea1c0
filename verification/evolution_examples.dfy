/**
 * Worked chains, each checked against the model: a linear level-up chain,
 * a branching stone chain in the shape PokéAPI serves it and in the
 * trigger-less shape, a friendship evolution, and the first-hyphen-only
 * spacing of item names.
 */
module EvolutionExamples {
  import opened Wrappers
  import opened Text
  import opened EvolutionChain
  import opened EvolutionTab

  function LevelUpAt(level: nat): Details {
    Details(Some(LevelUpName), None, Some(level), None, None)
  }

  /** Spacing the hyphen at `i`, the first one in `s`. */
  lemma SpacedAt(s: string, i: nat)
    requires i < |s| && s[i] == '-' && forall j :: 0 <= j < i ==> s[j] != '-'
    ensures SpaceFirstHyphen(s) == s[..i] + " " + s[i + 1..]
  {
    FirstHyphenSpaced(s);
    assert FirstHyphenAt(s, i);
  }

  /** Caterpie → Metapod (level 7) → Butterfree (level 10). */
  function CaterpieChain(): ChainLink {
    ChainLink("caterpie", [], [
      ChainLink("metapod", [LevelUpAt(7)], [
        ChainLink("butterfree", [LevelUpAt(10)], [])])])
  }

  lemma CaterpieSteps()
    ensures EvolutionSteps(CaterpieChain()) ==
      [Step("caterpie", "metapod", LevelUpAt(7)), Step("metapod", "butterfree", LevelUpAt(10))]
    ensures Describe(LevelUpAt(7)) == Condition("Level Up", "Level 7")
    ensures Describe(LevelUpAt(10)) == Condition("Level Up", "Level 10")
  {
    var butterfree := ChainLink("butterfree", [LevelUpAt(10)], []);
    var metapod := ChainLink("metapod", [LevelUpAt(7)], [butterfree]);
    assert ChildSteps([butterfree], "metapod") == [Step("metapod", "butterfree", LevelUpAt(10))];
    assert ChildSteps([metapod], "caterpie") ==
      [Step("caterpie", "metapod", LevelUpAt(7))] + ChildSteps([butterfree], "metapod");
    assert NatToString(10) == NatToString(1) + ['0'];
  }

  /** A stone evolution as PokéAPI serves it: trigger "use-item" plus the item. */
  function StoneViaTrigger(stone: string): Details {
    Details(Some("use-item"), Some(stone), None, None, None)
  }

  /** The same evolution with the trigger left out. */
  function StoneOnly(stone: string): Details {
    Details(None, Some(stone), None, None, None)
  }

  /** "water-stone" is shown as "water stone". */
  lemma WaterStoneSpaced()
    ensures SpaceFirstHyphen("water-stone") == "water stone"
  {
    SpacedAt("water-stone", 5);
    assert "water-stone"[..5] + " " + "water-stone"[6..] == "water stone";
  }

  lemma UseItemSpaced()
    ensures SpaceFirstHyphen("use-item") == "use item"
  {
    SpacedAt("use-item", 3);
    assert "use-item"[..3] + " " + "use-item"[4..] == "use item";
  }

  lemma UseItemUpper()
    ensures ToUpper("use item") == "USE ITEM"
  {
    var u := ToUpper("use item");
    assert |u| == 8;
    forall i | 0 <= i < 8 ensures u[i] == "USE ITEM"[i] {
      assert u[i] == UpperChar("use item"[i]);
    }
  }

  /** Of "deep-sea-tooth" only the first hyphen is spaced. */
  lemma DeepSeaToothSpaced()
    ensures SpaceFirstHyphen("deep-sea-tooth") == "deep sea-tooth"
  {
    SpacedAt("deep-sea-tooth", 4);
    DeepSeaToothParts();
  }

  lemma DeepSeaToothParts()
    ensures "deep-sea-tooth"[..4] + " " + "deep-sea-tooth"[5..] == "deep sea-tooth"
  {
    assert "deep-sea-tooth"[..4] == "deep";
    assert "deep-sea-tooth"[5..] == "sea-tooth";
  }

  /**
   * With the trigger present, "use-item" wins over the item: the label is
   * "USE ITEM" and the stone is not shown.
   */
  lemma StoneViaTriggerShowsTrigger()
    ensures Describe(StoneViaTrigger("water-stone")) == Condition("USE ITEM", "")
  {
    UseItemSpaced();
    UseItemUpper();
  }

  /** Without the trigger, the item branch gives "Item" and the stone's name, hyphen spaced. */
  lemma StoneOnlyShowsItem()
    ensures Describe(StoneOnly("water-stone")) == Condition("Item", "water stone")
  {
    WaterStoneSpaced();
  }

  /** Eevee branching three ways gives three records, in the listed order. */
  lemma EeveeBranches()
    ensures var eevee := ChainLink("eevee", [], [
              ChainLink("vaporeon", [StoneOnly("water-stone")], []),
              ChainLink("jolteon", [StoneOnly("thunder-stone")], []),
              ChainLink("flareon", [StoneOnly("fire-stone")], [])]);
            EvolutionSteps(eevee) == [
              Step("eevee", "vaporeon", StoneOnly("water-stone")),
              Step("eevee", "jolteon", StoneOnly("thunder-stone")),
              Step("eevee", "flareon", StoneOnly("fire-stone"))]
  {
    var v := ChainLink("vaporeon", [StoneOnly("water-stone")], []);
    var j := ChainLink("jolteon", [StoneOnly("thunder-stone")], []);
    var f := ChainLink("flareon", [StoneOnly("fire-stone")], []);
    assert [v, j, f][1..] == [j, f];
    assert [j, f][1..] == [f];
  }

  /** A friendship evolution: happiness 220, trigger "level-up". */
  lemma Friendship()
    ensures Describe(Details(Some(LevelUpName), None, None, Some(220), None)) ==
            Condition("Level Up", "Happiness 220")
  {
    assert NatToString(220) == NatToString(22) + ['0'];
    assert NatToString(22) == NatToString(2) + ['2'];
  }

  lemma HeldOnly(name: string)
    ensures Describe(Details(None, None, None, None, Some(name))) ==
            Condition(LevelUpLabel, "Holding " + SpaceFirstHyphen(name))
  {
  }

  /** Only the first hyphen of a held item's name is spaced. */
  lemma HeldItemFirstHyphenOnly()
    ensures Describe(Details(None, None, None, None, Some("deep-sea-tooth"))) ==
            Condition("Level Up", "Holding deep sea-tooth")
  {
    HeldOnly("deep-sea-tooth");
    DeepSeaToothSpaced();
    HoldingDeepSeaTooth();
  }

  lemma HoldingDeepSeaTooth()
    ensures "Holding " + "deep sea-tooth" == "Holding deep sea-tooth"
  {
  }

  /** "Eevee" on screen highlights the record leaving "eevee". */
  lemma HighlightEevee()
    ensures IsCurrent(Step("eevee", "vaporeon", NoDetails), "Eevee")
    ensures !IsCurrent(Step("Eevee", "vaporeon", NoDetails), "Eevee")
  {
    assert ToLower("Eevee") == "eevee";
  }
}
