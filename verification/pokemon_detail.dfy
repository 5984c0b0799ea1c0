/**
 * `convertPokeApiDetailToPokemon`: the pure mapping from the two PokéAPI
 * records of one Pokémon (`/pokemon/{id}` and `/pokemon-species/{id}`) to
 * the flat record the details page displays.
 */
module PokemonDetail {
  import opened Wrappers
  import opened Text

  /** One entry of `types`: `{slot, type: {name}}`. */
  datatype TypeSlot = TypeSlot(slot: nat, typeName: string)

  /** One entry of `genera`: `{genus, language: {name}}`. */
  datatype Genus = Genus(genus: string, language: string)

  /** The fields of `/pokemon/{id}` the mapping reads. */
  datatype PokeDetail = PokeDetail(
    id: nat,
    name: string,
    types: seq<TypeSlot>,
    officialArtwork: Option<string>,
    dreamWorld: Option<string>,
    abilities: seq<string>)

  /** The fields of `/pokemon-species/{id}` the mapping reads. */
  datatype SpeciesDetail = SpeciesDetail(
    genera: seq<Genus>,
    genderRate: int,
    eggGroups: seq<string>)

  /** The `Pokemon` the details page displays (height and weight left out). */
  datatype Pokemon = Pokemon(
    number: nat,
    name: string,
    types: seq<string>,
    primaryType: Option<string>,
    photo: Option<string>,
    species: string,
    genderRate: int,
    abilities: string,
    eggGroups: string,
    eggCycle: string)

  const English: string := "en"

  const GenusSuffix: string := " Pokémon"

  const Unknown: string := "Unknown"

  /** `types.map(t => t.type.name)`: the type names, in the order PokéAPI lists them. */
  function TypeNames(slots: seq<TypeSlot>): (names: seq<string>)
    ensures |names| == |slots|
    ensures forall i :: 0 <= i < |slots| ==> names[i] == slots[i].typeName
  {
    seq(|slots|, i requires 0 <= i < |slots| => slots[i].typeName)
  }

  /** `names.map(n => n.charAt(0).toUpperCase() + n.slice(1))`. */
  function CapitalizeAll(names: seq<string>): (r: seq<string>)
    ensures |r| == |names|
    ensures forall i :: 0 <= i < |names| ==> r[i] == Capitalize(names[i])
  {
    seq(|names|, i requires 0 <= i < |names| => Capitalize(names[i]))
  }

  /** `genera.find(g => g.language.name === "en")`: the first English entry. */
  function EnglishGenus(genera: seq<Genus>): (g: Option<Genus>)
    ensures g.None? <==> forall i :: 0 <= i < |genera| ==> genera[i].language != English
    ensures g.Some? ==> exists i :: 0 <= i < |genera| && genera[i] == g.value &&
                          g.value.language == English &&
                          forall j :: 0 <= j < i ==> genera[j].language != English
  {
    if |genera| == 0 then None
    else if genera[0].language == English then Some(genera[0])
    else
      var g := EnglishGenus(genera[1..]);
      if g.Some? then
        var i :| 0 <= i < |genera| - 1 && genera[1..][i] == g.value && g.value.language == English &&
                 forall j :: 0 <= j < i ==> genera[1..][j].language != English;
        assert genera[i + 1] == g.value;
        assert forall j :: 0 <= j < i + 1 ==> genera[j].language != English by {
          forall j | 0 <= j < i + 1 ensures genera[j].language != English {
            if j > 0 {
              assert genera[j] == genera[1..][j - 1];
            }
          }
        }
        g
      else
        assert forall i :: 0 <= i < |genera| ==> genera[i].language != English by {
          forall i | 0 <= i < |genera| ensures genera[i].language != English {
            if i > 0 {
              assert genera[i] == genera[1..][i - 1];
            }
          }
        }
        g
  }

  /** Index `i` holds the first English entry of `genera`. */
  predicate FirstEnglish(genera: seq<Genus>, i: nat) {
    i < |genera| && genera[i].language == English &&
    forall j :: 0 <= j < i ==> genera[j].language != English
  }

  /**
   * `genusEntry ? genusEntry.genus.replace(" Pokémon", "") : "Unknown"`: the
   * first English genus with its first " Pokémon" cut out, or "Unknown".
   */
  function SpeciesLabel(genera: seq<Genus>): (s: string)
    ensures (forall i :: 0 <= i < |genera| ==> genera[i].language != English) ==> s == Unknown
    ensures forall i: nat :: FirstEnglish(genera, i) ==> s == ReplaceFirst(genera[i].genus, GenusSuffix, "")
  {
    match EnglishGenus(genera)
    case None => Unknown
    case Some(g) =>
      var k :| 0 <= k < |genera| && genera[k] == g && g.language == English &&
               forall j :: 0 <= j < k ==> genera[j].language != English;
      assert forall i: nat :: FirstEnglish(genera, i) ==> i == k;
      ReplaceFirst(g.genus, GenusSuffix, "")
  }

  /**
   * The usual genus "<x> Pokémon" loses exactly its suffix, provided `x`
   * holds no 'é' (so the suffix cannot start any earlier).
   */
  lemma GenusSuffixDropped(x: string)
    requires 'é' !in x
    ensures ReplaceFirst(x + GenusSuffix, GenusSuffix, "") == x
  {
    var s := x + GenusSuffix;
    assert GenusSuffix[4] == 'é';
    forall k: nat | k < |x| ensures !OccursAt(s, GenusSuffix, k) {
      if k + |GenusSuffix| <= |s| {
        if k + 4 < |x| {
          assert s[k + 4] == x[k + 4];
        } else {
          assert s[k + 4] == GenusSuffix[k + 4 - |x|];
        }
        assert s[k..k + |GenusSuffix|][4] == s[k + 4];
      }
    }
    assert s[|x|..|x| + |GenusSuffix|] == GenusSuffix;
    assert FirstOccurrence(s, GenusSuffix, |x|);
    assert s[..|x|] == x;
  }

  /**
   * When the first English entry reads "<x> Pokémon" (no 'é' in `x`), the
   * species shown is `x`; entries in other languages before it do not count.
   */
  lemma SpeciesFromEnglishGenus(genera: seq<Genus>, i: nat, x: string)
    requires i < |genera| && genera[i].language == English
    requires forall j :: 0 <= j < i ==> genera[j].language != English
    requires genera[i].genus == x + GenusSuffix && 'é' !in x
    ensures SpeciesLabel(genera) == x
  {
    assert FirstEnglish(genera, i);
    GenusSuffixDropped(x);
  }

  /** `eggGroups.split(", ")[0] || "Unknown"`. */
  function EggCycle(eggGroups: string): (r: string)
    ensures r != ""
    ensures SplitHead(eggGroups) != "" ==> r == SplitHead(eggGroups)
    ensures SplitHead(eggGroups) == "" ==> r == Unknown
  {
    var head := SplitHead(eggGroups);
    if head == "" then Unknown else head
  }

  /**
   * A capitalised, ", "-joined list split again at ", " gives back its first
   * name capitalised, as long as that name holds no space.
   */
  lemma CapitalizedListHead(names: seq<string>)
    ensures |names| > 0 && ' ' !in names[0] ==>
      SplitHead(Join(CapitalizeAll(names), Comma)) == Capitalize(names[0])
  {
    if |names| > 0 && ' ' !in names[0] {
      CapitalizeKeepsSpaces(names[0]);
      SplitHeadOfJoin(CapitalizeAll(names));
    }
  }

  /** `official || dreamWorld`: the official artwork unless it is missing or empty. */
  function Photo(official: Option<string>, dreamWorld: Option<string>): (p: Option<string>)
    ensures official.Some? && official.value != "" ==> p == official
    ensures (official.None? || official.value == "") ==> p == dreamWorld
  {
    if official.Some? && official.value != "" then official else dreamWorld
  }

  /**
   * `convertPokeApiDetailToPokemon(pokeDetail, speciesDetail)`.
   *
   * Types keep PokéAPI's order and the primary type is the first of them;
   * abilities and egg groups are capitalised and joined with ", ", and
   * splitting them again at ", " gives back the first one when its name
   * holds no space. The egg cycle is the first group, or "Unknown" when
   * that is empty (no egg group at all, or an empty first name).
   */
  function Convert(p: PokeDetail, s: SpeciesDetail): (r: Pokemon)
    ensures r.number == p.id && r.name == p.name && r.genderRate == s.genderRate
    ensures |r.types| == |p.types| && forall i :: 0 <= i < |p.types| ==> r.types[i] == p.types[i].typeName
    ensures r.primaryType.None? <==> p.types == []
    ensures r.primaryType.Some? ==> r.primaryType.value == r.types[0]
    ensures p.abilities == [] ==> r.abilities == ""
    ensures |p.abilities| > 0 && ' ' !in p.abilities[0] ==> SplitHead(r.abilities) == Capitalize(p.abilities[0])
    ensures |s.eggGroups| > 0 && ' ' !in s.eggGroups[0] ==> SplitHead(r.eggGroups) == Capitalize(s.eggGroups[0])
    ensures r.photo == Photo(p.officialArtwork, p.dreamWorld)
    ensures r.species == SpeciesLabel(s.genera)
    ensures r.abilities == Join(CapitalizeAll(p.abilities), Comma)
    ensures r.eggGroups == Join(CapitalizeAll(s.eggGroups), Comma)
    ensures s.eggGroups == [] ==> r.eggCycle == Unknown
    ensures SplitHead(r.eggGroups) == "" ==> r.eggCycle == Unknown
    ensures SplitHead(r.eggGroups) != "" ==> r.eggCycle == SplitHead(r.eggGroups)
    ensures |s.eggGroups| > 0 && s.eggGroups[0] != "" && ' ' !in s.eggGroups[0] ==>
      r.eggCycle == Capitalize(s.eggGroups[0])
  {
    var types := TypeNames(p.types);
    var abilities := CapitalizeAll(p.abilities);
    var eggGroups := CapitalizeAll(s.eggGroups);
    CapitalizedListHead(p.abilities);
    CapitalizedListHead(s.eggGroups);
    var eggLabel := Join(eggGroups, Comma);
    Pokemon(
      p.id,
      p.name,
      types,
      if |types| == 0 then None else Some(types[0]),
      Photo(p.officialArtwork, p.dreamWorld),
      SpeciesLabel(s.genera),
      s.genderRate,
      Join(abilities, Comma),
      eggLabel,
      EggCycle(eggLabel))
  }
}
