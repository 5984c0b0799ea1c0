/**
 * The Evolution tab of the details page (`fillEvolutionTab`): each flattened
 * evolution record becomes one block showing the two species, whether the
 * first one is the species on screen, and a `(Trigger: …) - …` line derived
 * from the record's details by a first-match-wins chain of tests.
 */
module EvolutionTab {
  import opened Wrappers
  import opened Text
  import opened EvolutionChain

  /** The trigger label and the requirement text of one evolution. */
  datatype Condition = Condition(trigger: string, requirement: string)

  /** The trigger name that counts as the default. */
  const LevelUpName: string := "level-up"

  /** The trigger label shown unless a special trigger or an item overrides it. */
  const LevelUpLabel: string := "Level Up"

  const ItemLabel: string := "Item"

  /** Index `i` holds the first hyphen of `name`. */
  predicate FirstHyphenAt(name: string, i: nat) {
    i < |name| && name[i] == '-' && forall j :: 0 <= j < i ==> name[j] != '-'
  }

  /** `name.replace("-", " ")`: the first hyphen becomes a space. */
  function SpaceFirstHyphen(name: string): string {
    ReplaceFirst(name, "-", " ")
  }

  /**
   * Only the FIRST hyphen becomes a space; later ones stay, and a name
   * without hyphens is kept as it is.
   */
  lemma FirstHyphenSpaced(name: string)
    ensures |SpaceFirstHyphen(name)| == |name|
    ensures (forall i :: 0 <= i < |name| ==> name[i] != '-') ==> SpaceFirstHyphen(name) == name
    ensures forall i: nat :: FirstHyphenAt(name, i) ==>
      SpaceFirstHyphen(name) == name[..i] + " " + name[i + 1..]
  {
    ReplaceFirstCharCounts(name, '-', ' ');
    forall i: nat | FirstHyphenAt(name, i) ensures FirstOccurrence(name, "-", i) {
      FirstCharOccurrence(name, '-', i);
    }
  }

  /** JavaScript truthiness of an optional count: missing, `null` and 0 are all false. */
  predicate Truthy(n: Option<nat>) {
    n.Some? && n.value != 0
  }

  /** `details.trigger && details.trigger.name !== "level-up"`. */
  predicate SpecialTrigger(d: Details) {
    d.trigger.Some? && d.trigger.value != LevelUpName
  }

  /** None of the fields the chain recognises after the trigger is set. */
  predicate NoQualifier(d: Details) {
    d.item.None? && !Truthy(d.minLevel) && !Truthy(d.minHappiness) && d.heldItem.None?
  }

  /**
   * The `if / else if` chain of `fillEvolutionTab`. The trigger label is
   * "Level Up" exactly when neither a special trigger nor an item decides it,
   * and "Item" exactly when an item decides it; a special trigger leaves the
   * requirement empty whatever else the record holds.
   */
  function Describe(d: Details): (c: Condition)
    ensures c.trigger == LevelUpLabel <==> !SpecialTrigger(d) && d.item.None?
    ensures c.trigger == ItemLabel <==> !SpecialTrigger(d) && d.item.Some?
    ensures SpecialTrigger(d) ==> c.requirement == ""
    ensures c.requirement == "" <==>
      SpecialTrigger(d) || (d.item.Some? && d.item.value == "") || NoQualifier(d)
  {
    if SpecialTrigger(d) then
      var shown := ToUpper(SpaceFirstHyphen(d.trigger.value));
      assert shown != LevelUpLabel && shown != ItemLabel by {
        if |shown| > 1 {
          assert !IsLower(shown[1]);
        }
      }
      Condition(shown, "")
    else if d.item.Some? then
      ReplaceFirstCharCounts(d.item.value, '-', ' ');
      Condition(ItemLabel, SpaceFirstHyphen(d.item.value))
    else if Truthy(d.minLevel) then
      Condition(LevelUpLabel, "Level " + NatToString(d.minLevel.value))
    else if Truthy(d.minHappiness) then
      Condition(LevelUpLabel, "Happiness " + NatToString(d.minHappiness.value))
    else if d.heldItem.Some? then
      Condition(LevelUpLabel, "Holding " + SpaceFirstHyphen(d.heldItem.value))
    else
      Condition(LevelUpLabel, "")
  }

  /**
   * First match wins: once a special trigger is present, no item, level,
   * happiness or held item changes the outcome.
   */
  lemma SpecialTriggerDecides(d: Details, item: Option<string>, level: Option<nat>,
                              happiness: Option<nat>, held: Option<string>)
    requires SpecialTrigger(d)
    ensures Describe(d) == Describe(d.(item := item, minLevel := level,
                                       minHappiness := happiness, heldItem := held))
    ensures Describe(d).requirement == ""
  {
  }

  /**
   * The special trigger's label is its name, upper-cased, with the first
   * hyphen turned into a space: same length, no lower-case letter, and one
   * hyphen fewer when it had any.
   */
  lemma SpecialTriggerLabel(d: Details)
    requires SpecialTrigger(d)
    ensures var name := d.trigger.value;
            var shown := Describe(d).trigger;
            |shown| == |name| &&
            (forall i :: 0 <= i < |shown| ==> !IsLower(shown[i])) &&
            ToLower(shown) == ToLower(SpaceFirstHyphen(name)) &&
            ('-' in name ==> multiset(shown)['-'] == multiset(name)['-'] - 1)
  {
    var name := d.trigger.value;
    ReplaceFirstCharCounts(name, '-', ' ');
    var spaced := SpaceFirstHyphen(name);
    var shown := ToUpper(spaced);
    LowerOfUpper(spaced);
    assert multiset(shown)['-'] == multiset(spaced)['-'] by {
      UpperKeepsHyphens(spaced);
    }
  }

  /** Upper-casing touches letters only, so it keeps every hyphen. */
  lemma {:induction false} UpperKeepsHyphens(s: string)
    ensures multiset(ToUpper(s))['-'] == multiset(s)['-']
  {
    if |s| > 0 {
      var t := s[..|s| - 1];
      assert s == t + [s[|s| - 1]];
      assert ToUpper(s) == ToUpper(t) + [UpperChar(s[|s| - 1])];
      UpperKeepsHyphens(t);
    }
  }

  /**
   * With no special trigger, an item decides: "Item" and the item's name
   * with its first hyphen spaced, whatever level, happiness or held item the
   * record also carries.
   */
  lemma ItemDecides(d: Details, level: Option<nat>, happiness: Option<nat>, held: Option<string>)
    requires !SpecialTrigger(d) && d.item.Some?
    ensures Describe(d) == Describe(d.(minLevel := level, minHappiness := happiness, heldItem := held))
    ensures Describe(d) == Condition(ItemLabel, SpaceFirstHyphen(d.item.value))
  {
  }

  /** A level or happiness of 0 is falsy: it reads exactly as if absent. */
  lemma ZeroCountsAsAbsent(d: Details)
    ensures Describe(d.(minLevel := Some(0))) == Describe(d.(minLevel := None))
    ensures Describe(d.(minHappiness := Some(0))) == Describe(d.(minHappiness := None))
  {
  }

  /**
   * When a minimum level decides, the requirement is "Level " followed by a
   * numeral without leading zero that reads back as that level; likewise
   * "Happiness " for a minimum happiness that decides.
   */
  lemma ThresholdReadsBack(d: Details)
    requires !SpecialTrigger(d) && d.item.None?
    ensures var r := Describe(d).requirement;
            Truthy(d.minLevel) ==>
              |r| > 6 && r[..6] == "Level " && r[6] != '0' && AllDigits(r[6..]) &&
              ParseDecimal(r[6..]) == d.minLevel.value
    ensures var r := Describe(d).requirement;
            !Truthy(d.minLevel) && Truthy(d.minHappiness) ==>
              |r| > 10 && r[..10] == "Happiness " && r[10] != '0' && AllDigits(r[10..]) &&
              ParseDecimal(r[10..]) == d.minHappiness.value
  {
    var r := Describe(d).requirement;
    if Truthy(d.minLevel) {
      assert r[6..] == NatToString(d.minLevel.value);
      ParseNatToString(d.minLevel.value);
    } else if Truthy(d.minHappiness) {
      assert r[10..] == NatToString(d.minHappiness.value);
      ParseNatToString(d.minHappiness.value);
    }
  }

  /** A record with none of the recognised fields, `{}` included, reads "Level Up" with no requirement. */
  lemma EmptyDetailsDefault(d: Details)
    requires d.trigger.None? || d.trigger == Some(LevelUpName)
    requires NoQualifier(d)
    ensures Describe(d) == Condition(LevelUpLabel, "")
  {
  }
  /**
   * Without a special trigger, an item, or a non-zero level or happiness, a
   * held item gives "Holding " and its name with the first hyphen spaced,
   * whether the trigger is `level-up` or missing.
   */
  lemma HeldDecides(d: Details)
    requires !SpecialTrigger(d) && d.item.None? && !Truthy(d.minLevel) && !Truthy(d.minHappiness)
    requires d.heldItem.Some?
    ensures Describe(d) == Condition(LevelUpLabel, "Holding " + SpaceFirstHyphen(d.heldItem.value))
  {
  }


  // ---------------------------------------------------------------------
  // The rendered tab
  // ---------------------------------------------------------------------

  /** `a` and `b` spell the same word up to ASCII case. */
  predicate SameIgnoringCase(a: string, b: string) {
    |a| == |b| && forall i :: 0 <= i < |a| ==> LowerChar(a[i]) == LowerChar(b[i])
  }

  /** `step.from === currentPokemonName.toLowerCase()`. */
  predicate IsCurrent(step: Step, currentName: string)
    ensures IsCurrent(step, currentName) ==> SameIgnoringCase(step.from, currentName)
  {
    step.from == ToLower(currentName)
  }

  /**
   * Only the current name is lower-cased: a record is highlighted exactly
   * when its `from` matches the current name up to case and is itself
   * free of upper-case letters.
   */
  lemma CurrentIffSameName(step: Step, currentName: string)
    ensures IsCurrent(step, currentName) <==>
      SameIgnoringCase(step.from, currentName) && forall i :: 0 <= i < |step.from| ==> !IsUpper(step.from[i])
  {
    var low := ToLower(currentName);
    if SameIgnoringCase(step.from, currentName) && forall i :: 0 <= i < |step.from| ==> !IsUpper(step.from[i]) {
      forall i | 0 <= i < |low| ensures low[i] == step.from[i] {
        assert LowerChar(step.from[i]) == step.from[i];
      }
    }
  }

  /** What one `.evolution-step` block shows. */
  datatype StepView = StepView(
    fromName: string,
    toName: string,
    current: bool,
    trigger: string,
    requirement: string)

  /** The tab: either the "no evolution" message or the path, block by block. */
  datatype TabView = NoEvolution | EvolutionPath(steps: seq<StepView>)

  /**
   * One block: both names capitalised, the highlight flag, the trigger shown
   * as derived and the requirement with its first letter upper-cased.
   */
  function ViewStep(step: Step, currentName: string): (v: StepView)
    ensures SameIgnoringCase(v.fromName, step.from) && SameIgnoringCase(v.toName, step.to)
    ensures |step.from| > 0 ==> v.fromName[0] == UpperChar(step.from[0]) && v.fromName[1..] == step.from[1..]
    ensures |step.to| > 0 ==> v.toName[0] == UpperChar(step.to[0]) && v.toName[1..] == step.to[1..]
    ensures v.current <==> IsCurrent(step, currentName)
    ensures v.trigger == Describe(step.details).trigger
    ensures SameIgnoringCase(v.requirement, Describe(step.details).requirement)
    ensures v.requirement == "" <==> Describe(step.details).requirement == ""
    ensures var r := Describe(step.details).requirement;
            |r| > 0 ==> v.requirement[0] == UpperChar(r[0]) && v.requirement[1..] == r[1..]
  {
    var c := Describe(step.details);
    CapitalizeSameWord(step.from);
    CapitalizeSameWord(step.to);
    CapitalizeSameWord(c.requirement);
    StepView(Capitalize(step.from), Capitalize(step.to), IsCurrent(step, currentName),
             c.trigger, Capitalize(c.requirement))
  }

  /** Capitalising changes nothing but case. */
  lemma CapitalizeSameWord(s: string)
    ensures SameIgnoringCase(Capitalize(s), s)
  {
    var r := Capitalize(s);
    forall i | 0 <= i < |s| ensures LowerChar(r[i]) == LowerChar(s[i]) {
      if i > 0 {
        assert r[i] == r[1..][i - 1] == s[1..][i - 1] == s[i];
      }
    }
  }

  /**
   * `fillEvolutionTab(evolutionData, currentPokemonName)`: a missing or empty
   * list gives only the "no evolution" message; otherwise exactly one block
   * per record, in the records' order.
   */
  method FillEvolutionTab(evolutionData: Option<seq<Step>>, currentName: string) returns (view: TabView)
    ensures view == NoEvolution <==> evolutionData.None? || evolutionData.value == []
    ensures view.EvolutionPath? ==> |view.steps| == |evolutionData.value|
    ensures view.EvolutionPath? ==>
      forall k :: 0 <= k < |view.steps| ==> view.steps[k] == ViewStep(evolutionData.value[k], currentName)
  {
    if evolutionData.None? || |evolutionData.value| == 0 {
      return NoEvolution;
    }
    var steps := evolutionData.value;
    var blocks: seq<StepView> := [];
    var k := 0;
    while k < |steps|
      invariant 0 <= k <= |steps|
      invariant |blocks| == k
      invariant forall j :: 0 <= j < k ==> blocks[j] == ViewStep(steps[j], currentName)
    {
      blocks := blocks + [ViewStep(steps[k], currentName)];
      k := k + 1;
    }
    view := EvolutionPath(blocks);
  }
}
