# Pokédex viewer — a Dafny model of its pure core

The viewer is a browser front end for PokéAPI. It lists the first 151
Pokémon ten at a time behind a "load more" button. It opens a details page
per Pokémon with an About tab, a Breeding tab and an Evolution tab. This
project models the parts of it that are plain computation, and proves
what they promise:

- **Evolution-chain flattening** (`getEvolutionSteps`). PokéAPI serves an
  evolution chain as a rooted tree of links. Each link has a species name,
  its `evolution_details` and the links it `evolves_to`. The walk emits one
  `{from, to, details}` record per parent→child edge, in depth-first
  pre-order. `details` is the child's first `evolution_details` entry, or
  `{}` when it has none. The tree is an inductive datatype
  (`EvolutionChain.ChainLink`), so it is finite by construction.
- **Trigger and requirement text** (`fillEvolutionTab`). A first-match-wins
  `if / else if` chain turns each record's details into a trigger label and
  a requirement. The tab is the "no evolution" message, or one block per
  record with the current species highlighted.
- **Breeding figures** (`calculateGender`). The gender rate counts eighths
  female, and -1 means genderless. Percentages are kept as integer tenths:
  female = rate·125, male = 1000 − female.
- **The details record** (`convertPokeApiDetailToPokemon`). This covers the
  types in API order, the primary type, the artwork fallback, the English
  genus without " Pokémon", the abilities and egg groups capitalised and
  joined with ", ", and the egg cycle.
- **Pagination** (the `loadMoreButton` click handler). The state is the
  module-level `offset` and whether the button is still attached. Each
  click advances `offset` by `limit` and requests `[offset, offset + count)`.
  The model is parameterised by `(limit, maxRecords)`; the source's values
  are `(10, 151)`. For every `0 < limit < maxRecords`, the requests are
  contiguous, non-empty and cover exactly `[0, maxRecords)`. There are
  `ceil(maxRecords / limit)` of them: 16 for the source, the last being
  `(150, 1)`.
- **The card number** `#NNN` (`padStart(3, "0")`).

Modules: `Wrappers` (`Option`); `Text` (the JavaScript string operations
used: the substring search inside `replace` and `split`, `replace` with a string pattern, `split(", ")[0]`, `join`,
ASCII case mapping, capitalisation, `padStart`, decimal numerals and
`toFixed(1)`); `EvolutionChain`; `EvolutionTab`; `EvolutionExamples`
(worked chains); `DetailsScreen`; `PokemonDetail`; `PokemonList`.

Behaviour kept exactly as the code has it:

- A trigger other than `level-up` ends the chain. The requirement stays `""`,
  and no item, level, happiness or held item is consulted after it
  (`EvolutionTab.SpecialTriggerDecides`).
- As a consequence, a stone evolution as PokéAPI serves it has trigger
  `use-item` and an item. It is shown as `USE ITEM` with no requirement, not
  as `Item` / `water stone`. The `Item` branch only fires when the trigger is
  absent or is `level-up` (`EvolutionExamples.StoneViaTriggerShowsTrigger`,
  `EvolutionExamples.StoneOnlyShowsItem`).
- `.replace("-", " ")` turns only the first hyphen into a space:
  `deep-sea-tooth` is shown as `deep sea-tooth`
  (`Text.ReplaceFirstCharCounts`, `EvolutionExamples.HeldItemFirstHyphenOnly`).
- `min_level` and `min_happiness` are tested for truthiness, so 0 counts as
  absent (`EvolutionTab.ZeroCountsAsAbsent`).
- The flattening has no visited-set and no failure mode. It cannot need one,
  because the tree is inductive.

## Model

| member | source | states |
|---|---|---|
| EvolutionChain.FirstDetails | src/scripts/pokeAPI.js:104 | the details of a link are its first `evolution_details` entry, or `{}` when it has none |
| EvolutionChain.LinkSteps | src/scripts/pokeAPI.js:101-116 | a link contributes one record per link of its subtree, opening with its own record from the parent |
| EvolutionChain.ChildSteps | src/scripts/pokeAPI.js:113-115 | a list of sibling links contributes one record per link of their trees, and nothing iff the list is empty |
| EvolutionChain.EvolutionSteps | src/scripts/pokeAPI.js:93-125 | a base form that evolves into nothing gives no records; otherwise the first record leaves the base form towards its first listed evolution |
| EvolutionChain.StepCountIsEdgeCount | src/scripts/pokeAPI.js:93-125 | the number of records equals the number of links below the base form, i.e. the chain's edge count |
| EvolutionChain.ChildStepsMembers | src/scripts/pokeAPI.js:101-115 | a record appears when flattening siblings iff it is the edge from the parent to one of them or an edge inside one of their subtrees |
| EvolutionChain.StepsAreEdges | src/scripts/pokeAPI.js:101-110 | a record appears iff it is the record of an edge of the chain: `from` the parent's species, `to` the child's species, `details` the child's `evolution_details[0]` or `{}` |
| EvolutionChain.EdgeTargetBelow | src/scripts/pokeAPI.js:103-108 | every edge record arrives at a species strictly below the root of its tree |
| EvolutionChain.BaseFormNeverTarget | src/scripts/pokeAPI.js:119-121 | when the base form's name does not recur below it, no record has the base form as `to` |
| EvolutionChain.ChildStepsAncestorsFirst | src/scripts/pokeAPI.js:106-115 | in the records of a sibling list, each record leaves the parent or a species reached by an earlier record |
| EvolutionChain.StepsAncestorsFirst | src/scripts/pokeAPI.js:93-125 | ancestor before descendant: each record leaves the base form or a species an earlier record evolved into |
| EvolutionChain.ChildStepsAppend | src/scripts/pokeAPI.js:113-115 | flattening siblings `a + b` is flattening `a` then flattening `b` |
| EvolutionChain.SubtreeBlock | src/scripts/pokeAPI.js:106-115 | each child contributes one contiguous block between its earlier and later siblings' blocks; the block opens with the child's own record, is `Size(child)` long, and its remainder holds exactly the records of the child's subtree |
| EvolutionChain.ForestSizeShrinks | src/scripts/pokeAPI.js:113-115 | both recursive positions of the walk hold strictly fewer links, so the walk terminates |
| EvolutionTab.FirstHyphenSpaced | src/scripts/detailsEngine.js:160 | `replace("-", " ")` keeps the length, keeps a name without hyphens, and turns exactly the first hyphen into a space (also lines 163 and 169) |
| EvolutionTab.Describe | src/scripts/detailsEngine.js:155-170 | the label is "Level Up" iff neither a non-level-up trigger nor an item is present, and "Item" iff an item decides; a non-level-up trigger leaves the requirement empty; the requirement is empty iff such a trigger decides, the deciding item's name is empty, or no qualifier is present |
| EvolutionTab.SpecialTriggerDecides | src/scripts/detailsEngine.js:159-160 | once a non-level-up trigger is present, no item, level, happiness or held item changes the outcome, and the requirement is empty |
| EvolutionTab.SpecialTriggerLabel | src/scripts/detailsEngine.js:160 | the label of a non-level-up trigger has the name's length, contains no lower-case letter, equals the first-hyphen-spaced name up to case, and has one hyphen fewer when the name had any |
| EvolutionTab.UpperKeepsHyphens | src/scripts/detailsEngine.js:160 | upper-casing keeps every hyphen |
| EvolutionTab.ItemDecides | src/scripts/detailsEngine.js:161-163 | without a non-level-up trigger, an item gives "Item" and its name with the first hyphen spaced, whatever level, happiness or held item is also present |
| EvolutionTab.ZeroCountsAsAbsent | src/scripts/detailsEngine.js:164-167 | a minimum level or happiness of 0 gives the same result as a missing one |
| EvolutionTab.ThresholdReadsBack | src/scripts/detailsEngine.js:164-167 | a deciding minimum level gives "Level " followed by a numeral without leading zero that reads back as the level; likewise "Happiness " for a deciding minimum happiness |
| EvolutionTab.EmptyDetailsDefault | src/scripts/detailsEngine.js:155-156 | a record with no recognised field, `{}` included, gives ("Level Up", "") |
| EvolutionTab.HeldDecides | src/scripts/detailsEngine.js:168-169 | without a non-level-up trigger, an item or a non-zero level or happiness, a held item gives ("Level Up", "Holding " and the name with its first hyphen spaced), with the trigger `level-up` or missing |
| EvolutionTab.IsCurrent | src/scripts/detailsEngine.js:177 | a highlighted record's `from` spells the current name up to case |
| EvolutionTab.CurrentIffSameName | src/scripts/detailsEngine.js:177 | a record is highlighted iff its `from` equals the current name up to case and has no upper-case letter itself (only the current name is lower-cased) |
| EvolutionTab.CapitalizeSameWord | src/scripts/detailsEngine.js:152-153 | capitalising a name changes nothing but case |
| EvolutionTab.ViewStep | src/scripts/detailsEngine.js:151-187 | a block shows both names and the derived requirement with their first character upper-cased and the rest kept (so equal up to case, and empty iff empty), the highlight flag iff the record is current, and the derived trigger label |
| EvolutionTab.FillEvolutionTab | src/scripts/detailsEngine.js:140-192 | a missing or empty list gives only the "no evolution" message; otherwise exactly one block per record, in the records' order |
| EvolutionExamples.CaterpieSteps | src/scripts/pokeAPI.js:93-125 | caterpie → metapod (level 7) → butterfree (level 10) gives two records, labelled ("Level Up", "Level 7") and ("Level Up", "Level 10") |
| EvolutionExamples.EeveeBranches | src/scripts/pokeAPI.js:113-121 | eevee branching to vaporeon, jolteon and flareon gives three records in the listed order |
| EvolutionExamples.StoneViaTriggerShowsTrigger | src/scripts/detailsEngine.js:159-160 | a `use-item` trigger with a water stone is shown as ("USE ITEM", "") |
| EvolutionExamples.StoneOnlyShowsItem | src/scripts/detailsEngine.js:161-163 | a water stone without trigger is shown as ("Item", "water stone") |
| EvolutionExamples.Friendship | src/scripts/detailsEngine.js:166-167 | happiness 220 with a level-up trigger is shown as ("Level Up", "Happiness 220") |
| EvolutionExamples.HeldOnly | src/scripts/detailsEngine.js:168-169 | a record holding only a held item gives ("Level Up", "Holding " and the name with its first hyphen spaced) |
| EvolutionExamples.HeldItemFirstHyphenOnly | src/scripts/detailsEngine.js:168-169 | a held `deep-sea-tooth` is shown as "Holding deep sea-tooth" |
| EvolutionExamples.HighlightEevee | src/scripts/detailsEngine.js:177 | "Eevee" on screen highlights a record from "eevee" but not one from "Eevee" |
| DetailsScreen.GenderSplit | src/scripts/detailsEngine.js:32-37 | genderless iff the rate is -1; otherwise the female share is rate eighths, the shares sum to 100%, and both lie in [0, 100] for rates 0..8 |
| DetailsScreen.CalculateGender | src/scripts/detailsEngine.js:32-41 | ("Genderless", "") iff the rate is -1; otherwise "♂ " and "♀ " followed by the male and female shares printed with one decimal and "%" |
| DetailsScreen.Percent | src/scripts/detailsEngine.js:39-40 | a printed share ends in a point, one decimal digit and "%", with a minus sign iff negative |
| DetailsScreen.PercentReadsBack | src/scripts/detailsEngine.js:39-40 | the digits of a printed non-negative share read back as its tenths |
| DetailsScreen.GenderFiguresSumToHundred | src/scripts/detailsEngine.js:36-41 | for rates 0..8 the two printed figures add up to 100.0 |
| PokemonDetail.TypeNames | src/scripts/pokeAPI.js:9 | the type names keep the API's order, one per slot |
| PokemonDetail.CapitalizeAll | src/scripts/pokeAPI.js:28 | each name is capitalised, order and count kept |
| PokemonDetail.EnglishGenus | src/scripts/pokeAPI.js:32 | none iff no entry is in English; otherwise the first English entry |
| PokemonDetail.SpeciesLabel | src/scripts/pokeAPI.js:32-35 | "Unknown" when no genus entry is in English; otherwise the first English entry's genus with its first " Pokémon" removed |
| PokemonDetail.GenusSuffixDropped | src/scripts/pokeAPI.js:34 | "x Pokémon" loses exactly its suffix (for `x` without 'é') |
| PokemonDetail.SpeciesFromEnglishGenus | src/scripts/pokeAPI.js:32-35 | when the first English entry reads "x Pokémon", the species shown is `x` |
| PokemonDetail.CapitalizedListHead | src/scripts/pokeAPI.js:38-42 | a capitalised, ", "-joined list split at ", " gives back its first name capitalised, when that name has no space |
| PokemonDetail.EggCycle | src/scripts/pokeAPI.js:42 | the egg cycle is the text before the first ", ", or "Unknown" when that is empty; so it is never empty |
| PokemonDetail.Photo | src/scripts/pokeAPI.js:16-18 | the official artwork unless it is missing or empty, else the dream-world image |
| PokemonDetail.Convert | src/scripts/pokeAPI.js:4-45 | number, name and gender rate copied; types in API order with the primary type their first (none iff no type); photo by the artwork fallback; species from the first English genus; abilities and egg groups are the capitalised names joined with ", " and split back to their first name; the egg cycle is the first egg group, or "Unknown" when there is none or it is empty |
| PokemonList.SourceIsValid | src/scripts/engine.js:4-5 | the page size 10 is positive and below the 151 records |
| PokemonList.Start | src/scripts/engine.js:6 | the script starts at offset 0 with the button attached and, for a valid configuration, a further page left to load |
| PokemonList.FirstPage | src/scripts/engine.js:56 | the first request covers the records `[0, limit)`, non-empty and short of `maxRecords` for a valid configuration |
| PokemonList.StartInBounds | src/scripts/engine.js:4-6 | the first request `(0, limit)` is non-empty and in bounds, and the button state it leaves satisfies the invariant |
| PokemonList.Click | src/scripts/engine.js:58-70 | without the button nothing is requested; otherwise offset first advances by `limit`, the request ends at `min(offset + limit, maxRecords)`, and the button stays iff records remain after it |
| PokemonList.ClickInBounds | src/scripts/engine.js:59-69 | under the button invariant a click requests a non-empty page of at most `limit` records inside `[0, maxRecords)` and keeps the invariant |
| PokemonList.ContiguousOrdered | src/scripts/engine.js:58-70 | contiguous requests never move backwards |
| PokemonList.ContiguousCover | src/scripts/engine.js:58-70 | contiguous requests cover exactly the range from the first start to the last end |
| PokemonList.RequestsDisjoint | src/scripts/engine.js:58-70 | no record is requested by two different requests |
| PokemonList.PageCount | src/scripts/engine.js:59-64 | requests stepping by `limit` whose last is non-empty, at most `limit` long and ends at `maxRecords` number `ceil(maxRecords / limit)` |
| PokemonList.FinishedRun | src/scripts/engine.js:58-70 | a contiguous run from `(0, limit)` of non-empty requests of at most `limit`, stepping by `limit` and ending at `maxRecords`, covers exactly `[0, maxRecords)` in `ceil(maxRecords / limit)` requests |
| PokemonList.LoadAll | src/scripts/engine.js:56-70 | clicking until the button is gone gives requests that start at `(0, limit)`, where request k starts at offset `k * limit` and every request but the last is a full page of `limit`; together they are contiguous, non-empty, at most `limit` long, cover exactly `[0, maxRecords)` and number `ceil(maxRecords / limit)` |
| PokemonList.NumeralLength | src/scripts/engine.js:12-14 | below 1000 a numeral has at most three digits, from 100 up at least three |
| PokemonList.NumberLabel | src/scripts/engine.js:12-14 | '#' and at least three digits that read back as the number; exactly three below 1000; the plain numeral from 100 up |
| Text.IndexOfFrom | src/scripts/pokeAPI.js:34 | the result is the leftmost occurrence at or after the start, and none means no occurrence there |
| Text.IndexOf | src/scripts/pokeAPI.js:34 | found iff the pattern occurs, and then at its leftmost occurrence |
| Text.ReplaceFirst | src/scripts/pokeAPI.js:34 | with no occurrence the string is unchanged; otherwise only the leftmost occurrence is replaced |
| Text.ReplaceFirstCharCounts | src/scripts/detailsEngine.js:163 | replacing the first hyphen keeps the length and removes exactly one hyphen for one space; later hyphens survive |
| Text.ToUpper | src/scripts/detailsEngine.js:160 | same length, no lower-case letter left, equal to the input up to case, non-letters kept |
| Text.ToLower | src/scripts/detailsEngine.js:177 | same length, no upper-case letter left, equal to the input up to case, non-letters kept |
| Text.Capitalize | src/scripts/detailsEngine.js:186 | first character upper-cased, the rest unchanged, the empty string kept empty |
| Text.CapitalizeKeepsSpaces | src/scripts/pokeAPI.js:28 | capitalising neither adds nor removes a space |
| Text.PadStart | src/scripts/engine.js:12-14 | the result is the wider of the input and the width, ends with the input, and is filled with the pad character before it |
| Text.Join | src/scripts/pokeAPI.js:29 | joining nothing gives "", one element gives that element; otherwise the result starts with the first element |
| Text.JoinSplit | src/scripts/pokeAPI.js:26-29 | a join splits at every element boundary: the earlier elements joined, one separator, the later elements joined |
| Text.JoinLength | src/scripts/pokeAPI.js:26-29 | a join is as long as its elements plus one separator between each two |
| Text.SplitHead | src/scripts/pokeAPI.js:42 | the whole string when ", " does not occur, otherwise everything before its first occurrence |
| Text.SplitHeadOfJoin | src/scripts/pokeAPI.js:38-42 | splitting a ", "-joined list gives back its first element when that has no space |
| Text.NatToString | src/scripts/detailsEngine.js:165 | at least one digit, only digits, no leading zero |
| Text.ParseNatToString | src/scripts/detailsEngine.js:165 | a printed number reads back as itself |
| Text.NatToStringOfParse | src/scripts/detailsEngine.js:165 | a numeral without leading zeros is the one printed for its value |
| Text.ParseLeadingZeros | src/scripts/engine.js:12-14 | padding zeros do not change a numeral's value |
| Text.Fixed1 | src/scripts/detailsEngine.js:39-40 | integer part in digits without leading zeros (a lone "0" below one), a point and exactly one decimal digit, with a minus sign iff negative |
| Text.Fixed1Value | src/scripts/detailsEngine.js:39-40 | without sign and point, the printed digits read back as the magnitude in tenths |

## Left out

- The `fetch`/`Promise` chains are not modelled, because they are network I/O and async sequencing. This covers `getPokemonFullDetails`, `getPokemonDetail`, `getPokemons` and `getPokemonEvolutions`, including its fall-back to `[]` on any error. The flattening takes the already-fetched chain as its argument.
- `getPokemonDetail` is left out as fetch glue. Its pure part maps types the same way as `PokemonDetail.TypeNames` and takes only the dream-world image.
- DOM work is not modelled: element lookups, `innerHTML` and `textContent` writes, style and colour setting, tab switching, event-listener wiring, the card-click redirect and URL query parsing. `EvolutionTab.StepView` and `EvolutionTab.TabView` stand in for the markup of the Evolution tab.
- Height and weight (`* 0.1` and `toFixed(1)`) are floating-point formatting and are not modelled.
- The `typeColors` table and the type-badge markup are constant data and presentation.
- The details page header reuses the same operations as the model: `Text.Capitalize` for the name and the `#NNN` label (`PokemonList.NumberLabel`). It has no member of its own.
- Text.ToUpper: only ASCII letters change case. JavaScript also maps other letters (`é` to `É`, `ß` to `SS`), which PokéAPI's lower-case identifiers do not contain.
- Text.ToLower: only ASCII letters change case, for the same reason.
- Text.Capitalize: only an ASCII first letter is upper-cased (through the same ASCII case mapping), whereas `charAt(0).toUpperCase()` also maps a letter such as `é`; PokéAPI's identifiers start with ASCII letters.
- EvolutionChain.Details: `min_level` and `min_happiness` are natural numbers or absent. PokéAPI never sends negative or fractional values, so JavaScript's other falsy and truthy numbers are not modelled.
- EvolutionChain.Details: only the five fields the code reads are kept. PokéAPI's other `evolution_details` fields (gender, location, time of day, known move, …) are ignored by the code.
- PokemonList.Click: a click with the button already removed returns no request, because the source's button can no longer be clicked then.
- Text.NatToString: integers are unbounded, whereas JavaScript numbers are doubles. The model matches JavaScript only for integers below 2^53, whose decimal form is also shorter than the 10^21 from which JavaScript prints exponent form. PokéAPI's values lie far inside that range (ids, levels up to 100, happiness up to 255), so `EvolutionTab.ThresholdReadsBack` and `PokemonList.NumberLabel` are exact for them.
- DetailsScreen.GenderSplit: `genderRate * 12.5` is computed exactly only while |rate · 25| is below 2^53. PokéAPI's gender rates are -1..8, so `DetailsScreen.CalculateGender` is exact for every rate the service sends.
- PokemonList.LoadAll: assumes a user who clicks until the button disappears. The order in which the asynchronous requests complete is not modelled.
