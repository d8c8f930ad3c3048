# Savage Worlds rules core in Dafny

This project models the rules core of a small Ruby library for the Savage
Worlds role-playing game.

- **Trait dice.** A trait is rated with one of five exploding dice, d4 to d12.
  The dice sit in an ordered table. `compare_dice` and `sort_dice` order ratings
  by their position in that table.
- **Fixed descriptors.** There are three: the Wild Die (d6), the roll for a
  trait the character lacks (d4-2), and the Wild Die that goes with such a roll
  (d6-2).
- **Trait names.** `trait_to_symbol` turns a name into a lower-case
  identifier with underscores. `trait_string` does the reverse: it splits an
  identifier into capitalised words joined by spaces.
- **Raises.** `get_raises` counts them: one raise for every full 4 points over
  the target number, by floor division.
- **Characters.** A `Character` has:
  - five attributes;
  - a table of skills;
  - sorted lists of Edges and Hindrances.

  The operations on a character are:
  - the constructor;
  - skill, Edge and Hindrance editing;
  - trait lookup, where attributes shadow skills of the same name;
  - trait rolls, with a Wild Die for a Wild Card;
  - the derived values Parry and Toughness.

## Modelling choices

- **Values.** A Ruby value reaching the core is a `Value`: either a
  `Sym` (symbol) or a `Str` (string). A skill key is an `Option<string>`,
  because `add_skill("")` stores its rating under the nil key.
- **Errors.** A Ruby exception becomes a `Failure` carrying a `RubyError`.
  - `get_trait("")` and `trait_roll("")` fail with `TypeError`: `respond_to?(nil)` raises it.
  - `toughness` fails with `NoMethodError` when vigor was never set: it calls `nil.half_value`.
- **Rolls.** A roll is not performed. `TraitRoll` returns which descriptor is
  rolled, and with which modifier, for the trait die and for the Wild Die.
- **Roll values.** The dice library's `maximum` is outside the model. An
  `SWRoll` carries its descriptor, which has a count, sides, an explode flag and a
  modifier. It also carries the value the library is taken to compute for it,
  `num * sides + mod`, fixed at construction as `SWRoll#initialize` fixes it.
- **Ruby version.** Ruby 1.8 string semantics are assumed. `String#any?` is
  true exactly when the string is non-empty. Case mapping is ASCII only. `\s`
  matches space, tab, line feed, carriage return and form feed.
- **String sorting.** `Array#sort!` on strings is modelled as a sort by
  `Text.LexLeq`, which is code-point lexicographic order. That order is total.
  So the sorted list is unique (`NameLists.SortedUnique`), and any stable or
  unstable sort gives the same list.
- **Sorting dice.** `sort_dice` is modelled as an insertion sort keyed by table
  position. Values that are not ratings tie with each other. So the model
  fixes one of the orders Ruby's unstable sort may produce, and the contracts
  state only what every such order shares.
- **Default stat rating.** A stat given an invalid rating gets d6
  (`savageworlds.rb:143`).
- **Invalid skill rating.** The `or NoTrait` fallback in `add_skill` never
  applies. Ruby parses `die = x or NoTrait` as `(die = x) or NoTrait`, so a skill
  given an invalid rating is stored as nil. Lookup is unaffected, because
  `AllowedDice[NoTrait]` would be nil as well.

## Model

| member | source | states |
|---|---|---|
| Dice.NewSWRoll | savageworlds_dice.rb:8-11 | a new roll keeps its descriptor and fixes its value at the descriptor's maximum, `num * sides + mod`; a single die is worth its sides plus the modifier |
| Dice.HalfValue | savageworlds_dice.rb:17-19 | half value is the value halved, rounded down: `2h <= value < 2h + 2` |
| Dice.AllowedDice | savageworlds_dice.rb:33-39 | the table has exactly the keys d4, d6, d8, d10, d12; each holds one exploding die of that many sides with no modifier |
| Dice.SymbolInjective | savageworlds_dice.rb:33-39 | different dice have different table keys |
| Dice.RatedHalfValue | savageworlds_dice.rb:8-19 | a table entry's value is its number of sides, and its half value is half of that |
| Dice.AllowedDiceOrderIncreasing | savageworlds_dice.rb:44 | the order array lists all five dice, with strictly increasing sides |
| Dice.RankLocates | savageworlds_dice.rb:44 | every die sits in the order array at its rank |
| Dice.RatedNotNoTrait | savageworlds.rb:272 | every rating is a table key whose entry differs from No Trait, so Parry's `f != NoTrait` test passes for every rating |
| Dice.FixedDescriptors | savageworlds_dice.rb:48-50 | Wild Die is d6 (max 6, half 3); No Trait is d4-2 (max 2, half 1); Wild Die with No Trait is d6-2 (max 4); neither No Trait roll equals a table entry |
| Dice.ValidTraitScore | savageworlds.rb:84-86 | a value is accepted exactly when it is a symbol keying the table, and then it is that die's symbol |
| DiceOrder.Position | savageworlds_dice.rb:61-66 | the position is the first index whose die matches, or -1 when none does |
| DiceOrder.IndexIsArrayIndex | savageworlds_dice.rb:61-66 | the rank-based index equals the position found by searching the order array |
| DiceOrder.IndexLocatesRating | savageworlds_dice.rb:61-66 | the index is -1 exactly for non-ratings, and otherwise points at the rating's die |
| DiceOrder.CompareDice | savageworlds_dice.rb:60-69 | the comparison is always -1, 0 or 1 |
| DiceOrder.CompareDiceOrdersRatings | savageworlds_dice.rb:60-69 | ratings compare by sides, and equal only when identical; non-ratings tie with each other and sort before every rating |
| DiceOrder.CompareDicePreorder | savageworlds_dice.rb:52-69 | the comparison is reflexive, antisymmetric, total and transitive, so it is a valid sort comparator |
| DiceOrder.SortDice | savageworlds_dice.rb:74-77 | the result is ordered by the comparison and is a permutation of the input |
| DiceOrder.UnknownsFirst | savageworlds_dice.rb:71-77 | in the sorted list every non-rating precedes every rating |
| DiceOrder.SortDiceExample | savageworlds_dice.rb:52-59 | sorting `[:d6, :d10, :d8]` gives `[:d6, :d8, :d10]` |
| Rules.GetRaises | savageworlds.rb:93-95 | the raises r satisfy `4r <= roll - target < 4r + 4` (floor division); the target defaults to 4 |
| Rules.RaisesStep | savageworlds.rb:88-95 | 4 more points is exactly one more raise |
| Rules.RaisesSign | savageworlds.rb:88-95 | the count is negative exactly when the roll misses the target |
| Rules.RaisesMonotonic | savageworlds.rb:88-95 | a higher roll never has fewer raises |
| Rules.RaisesAtDefaultTarget | savageworlds.rb:93 | against the default target 4: rolls 4 and 7 give 0 raises, 8 gives 1, 12 gives 2, 20 gives 4, 3 gives -1 |
| Names.SquashSpaces | savageworlds.rb:68 | no whitespace is left, empty stays empty, text without whitespace is unchanged |
| Names.SquashRun | savageworlds.rb:68 | a whole whitespace run at the front becomes one underscore, and the rest is squashed on its own |
| Names.SquashWordRun | savageworlds.rb:68 | a word without whitespace, then a whitespace run, then the rest: the word is kept, the run becomes one underscore, the rest is squashed |
| Names.TraitToSymbol | savageworlds.rb:65-69 | symbols pass through; the empty string gives nil; any other string gives a non-empty name with no whitespace and no upper case; a string without whitespace gives exactly its lower-case form |
| Names.TraitToSymbolRun | savageworlds.rb:65-69 | a word, a whitespace run and the rest normalise to the lower-case word, one underscore, and the normalised rest |
| Names.TraitToSymbolIdempotent | savageworlds.rb:65-69 | normalising a normalised name changes nothing |
| Names.FirstSeparator | savageworlds.rb:30-32 | the split point is the first underscore or whitespace, and nothing before it is a separator |
| Names.FirstSeparatorAt | savageworlds.rb:30-32 | the match starts at the first separator: one preceded only by non-separators is where the split happens |
| Names.Fields | savageworlds.rb:30-32 | splitting yields at least one field, and no field contains a separator |
| Names.FieldsOfWord | savageworlds.rb:30-32 | a word without separators splits into itself alone |
| Names.FieldsAfterUnderscore | savageworlds.rb:30-32 | a separator-free word followed by one underscore is the first field, and the rest splits on its own |
| Names.FieldsAfterRun | savageworlds.rb:30-32 | a separator-free word followed by a whole whitespace run is the first field: the run is one separator, and the rest splits on its own |
| Names.FieldsOfJoin | savageworlds.rb:30-32 | splitting separator-free words joined by underscores gives back the words |
| Names.DropTrailingEmpty | savageworlds.rb:76 | the kept fields are a prefix of the fields, the last kept one is non-empty, and every dropped one is empty |
| Names.Split | savageworlds.rb:76 | `split` keeps the fields up to the last non-empty one, leading empty fields included, and drops only empty trailing fields |
| Names.FieldsOfSpaceJoin | savageworlds.rb:30-32 | splitting non-empty separator-free words joined by single spaces gives back the words |
| Names.TraitString | savageworlds.rb:75-80 | the display name contains no underscore |
| Names.TraitStringOfFields | savageworlds.rb:75-80 | for separator-free words whose last is non-empty, the display name of their underscore join is the words capitalised and joined by single spaces |
| Names.TraitStringOfUnderscores | savageworlds.rb:75-80 | for any underscore join of separator-free fields, the display name drops the trailing empty fields and joins the rest, capitalised, with single spaces |
| Names.TraitStringOfSpaceJoin | savageworlds.rb:75-80 | the display name of non-empty separator-free words joined by single spaces, as `add_edge` is given, is those words capitalised and joined by single spaces |
| Names.TraitStringKeepsTitle | savageworlds.rb:75-80 | a display name already made of capitalised words joined by single spaces is its own display name |
| Names.BattleBunnyDisplayName | sw_test.rb:25 | the Edge name "Battle Bunny" has display name "Battle Bunny", so it is stored as given |
| Names.TrailingUnderscoreDropped | savageworlds.rb:76 | a trailing underscore adds no word: `trait_string(:a_)` is "A" |
| Names.TraitStringEmpty | savageworlds.rb:75-80 | the display name is empty exactly when the input consists only of separators |
| Names.SquashJoin | savageworlds.rb:68 | squashing space-joined words without whitespace gives their underscore join |
| Names.LowerCapitalized | savageworlds.rb:68-77 | lower-casing underscore-joined capitalised words gives back the lower-case words |
| Names.NameRoundTrip | savageworlds.rb:65-80 | for an identifier of non-empty lower-case words, `trait_to_symbol(trait_string(x)) == x` |
| Text.Lower | savageworlds.rb:68 | lower-casing leaves no upper-case letter, turns each upper-case letter into the same letter in lower case, and leaves every other character alone |
| Text.Downcase | savageworlds.rb:68 | `downcase` keeps the length, lower-cases each character in place and leaves no upper-case letter |
| Text.Upper | savageworlds.rb:77 | upper-casing leaves no lower-case letter, turns each lower-case letter into the same letter in upper case, leaves every other character alone, and keeps the lower-case form |
| Text.CaseInverse | savageworlds.rb:68-77 | lower- and upper-casing undo each other on letters |
| Text.Capitalize | savageworlds.rb:76-78 | capitalising keeps the length and the lower-case form, keeps whitespace and underscores where they were, leaves the first character not lower-case and the rest without upper case |
| Text.CapitalizeKeeps | savageworlds.rb:77 | a word upper-case first and lower-case after is its own capitalisation |
| Text.LexLeqTotal | savageworlds.rb:236 | any two names are ordered one way or the other |
| Text.LexLeqAntisymmetric | savageworlds.rb:236 | names ordered both ways are equal |
| Text.LexLeqTransitive | savageworlds.rb:236 | the name order is transitive |
| NameLists.InsertName | savageworlds.rb:235-236 | inserting into a sorted list keeps it sorted and adds exactly one copy of the name |
| NameLists.SortNames | savageworlds.rb:235-236 | sorting gives a sorted permutation |
| NameLists.SortedUnique | savageworlds.rb:235-236 | two sorted lists with the same elements are equal |
| NameLists.SortedIsSortNames | savageworlds.rb:235-236 | a sorted list is the sort of any list with the same elements |
| NameLists.AppendThenSort | savageworlds.rb:235-236 | on a sorted list, pushing a name and sorting is the same as inserting it in place |
| NameLists.RemoveAll | savageworlds.rb:244-246 | rejecting a name removes every copy of it and keeps the count of every other name |
| NameLists.RemoveAllSorted | savageworlds.rb:244-246 | rejecting from a sorted list leaves it sorted |
| NameLists.RemoveAllSingle | savageworlds.rb:244-246 | a one-name list loses its name exactly when that name is the one rejected |
| NameLists.RemoveAllAppend | savageworlds.rb:244-246 | rejecting from a concatenation rejects from each part, so the kept names stay in their original order |
| Characters.AttributeNamed | savageworlds.rb:109 | a name denotes an attribute exactly when it is that attribute's reader name |
| Characters.Stats.Set | savageworlds.rb:109 | writing one attribute sets it and leaves the other four as they were |
| Characters.HasSkillByDisplayName | savageworlds.rb:214-218 | for an identifier of non-empty lower-case words joined by underscores, `has_skill?` gives the same answer for the identifier and for its display name |
| Characters.AddSkill | savageworlds.rb:214-225 | `has_skill?` then holds for the skill; its rating is the valid rating, or nil when invalid; other skills and the rest of the character are unchanged |
| Characters.RemoveSkill | savageworlds.rb:214-230 | `has_skill?` then fails for the skill; the result is its old rating, or nil when it was absent (the character then unchanged); other skills are unchanged |
| Characters.RemoveUndoesAdd | savageworlds.rb:220-230 | removing a skill just added to a character without it restores the character and returns the stored rating |
| Characters.AddEdge | savageworlds.rb:232-239 | an empty display name changes nothing; otherwise the list stays sorted and gains exactly that name; nothing else changes |
| Characters.RemoveEdge | savageworlds.rb:241-249 | an empty display name changes nothing; otherwise every copy of that name goes and the others stay; sortedness is kept |
| Characters.AddHindrance | savageworlds.rb:251-258 | the same as adding an Edge, for the Hindrance list |
| Characters.RemoveHindrance | savageworlds.rb:260-267 | it removes like an Edge removal, and returns the list when something was deleted and nil otherwise |
| Characters.AddEdgeInserts | savageworlds.rb:232-239 | on a sorted list, adding an Edge inserts it in place |
| Characters.RemoveEdgeAfterAdd | savageworlds.rb:232-249 | adding then removing an Edge leaves the other Edges as they were and none of that name |
| Characters.GetTrait | savageworlds.rb:180-190 | `""` fails with TypeError; an attribute name gives the attribute's rating; otherwise the skill's rating, or nil when there is no such skill |
| Characters.AttributeShadowsSkill | savageworlds.rb:180-190 | a skill named like an attribute is stored but never found by lookup |
| Characters.AddedSkillFound | savageworlds.rb:180-225 | a skill just added under a non-attribute name is found with the rating it was given |
| Characters.TraitRoll | savageworlds.rb:192-212 | unrated traits roll No Trait, rated ones their table die; a Wild Card also rolls the Wild Die (d6-2 when unrated); both rolls use the modifier; lookup errors propagate |
| Characters.Parry | savageworlds.rb:269-274 | Parry is 2 without Fighting, and 2 plus half the Fighting die's sides otherwise |
| Characters.Toughness | savageworlds.rb:276-278 | Toughness is 2 plus half the vigor die's sides; unset vigor fails with NoMethodError |
| Characters.AssignStats | savageworlds.rb:139-146 | each attribute gets the rating from the last stat key naming it (d6 when invalid), or stays unset |
| Characters.AssignStat | savageworlds.rb:140-145 | one stat key overrides the attribute it names and leaves the others |
| Characters.LastStatValueIsLast | savageworlds.rb:139-146 | the last key naming an attribute decides its rating |
| Characters.LastStatValueAbsent | savageworlds.rb:139-146 | an attribute that no key names stays unset |
| Characters.AddSkills | savageworlds.rb:148-150 | the skills are exactly the normalised keys given; each holds the validated rating of the last pair with that key |
| Characters.CollectNames | savageworlds.rb:152-162 | the list is the sorted list of the non-empty display names given |
| Characters.New | savageworlds.rb:132-164 | the constructor sets name and Wild Card flag, stats as above, skills as above, and sorted Edge and Hindrance lists |
| Characters.GeoffrynParry | sw_test.rb:6-37 | the demonstration character, fighting d8, has Parry 6 |
| Characters.GeoffrynToughness | sw_test.rb:6-38 | the demonstration character, vigor d10, has Toughness 7 |
| Characters.GeoffrynStrengthRoll | sw_test.rb:6-31 | the demonstration character's strength roll is d6 plus a plain Wild Die |

## Left out

- **Dice library.** Dice-string parsing, building and rolling, and the random
  numbers behind them, are outside this model. Rolls are returned as requests
  (descriptor plus modifier), and `maximum` is replaced by its formula.
- **Exploding dice.** A roll's total is not modelled, and explosion is kept
  only as a flag.
- **Formatting.** `make_dice_string`, `SWRoll#to_s` and `Character#to_s`
  are left out: they only format text through the dice library.
- **Readers.** The `stats` and `is_wildcard?` readers are left out: they
  return fields as they are.
- **Equipment.** The weapon and gear classes and the weapon tables are not part
  of this model.
- **Other Ruby classes.** The core can be handed nil, numbers or other
  objects as names or ratings. Only symbols and strings are modelled, so
  `sort_dice` on a non-Array argument, which returns `[]`, is left out.
- **Other methods as traits.** `get_trait` uses `respond_to?`, so any public
  reader, such as `name` or `parry`, shadows a skill of the same name. Only
  the five attributes are modelled as shadowing.
- **Character set.** Case mapping outside ASCII and the vertical tab as
  whitespace are left out.
- **Hash order.** The constructor iterates stats and skills in hash
  order. The model takes the pairs as a sequence in that order.
- Rules.GetRaises: the comment on `get_raises` promises 0 when there is
  no raise, but the code returns negative counts for rolls below the target.
  The model follows the code (`Rules.RaisesSign`).
- DiceOrder.SortDice: Ruby's sort is not stable. Among values that are not
  ratings the model fixes one order, and its contracts say nothing about
  that order.
