/**
 * The die ratings of Savage Worlds: the five legal trait dice, the table
 * that maps each rating symbol to its roll descriptor, and the fixed Wild
 * Die and No Trait descriptors.
 *
 * Rolling itself belongs to the external dice library and is not modelled:
 * a roll is represented by the descriptor it would roll.
 */
module Dice {
  import opened Wrappers
  import opened Values

  /** A legal trait rating, d4 through d12. */
  datatype Die = D4 | D6 | D8 | D10 | D12 {

    /** Number of faces. */
    function Sides(): nat {
      match this
      case D4 => 4
      case D6 => 6
      case D8 => 8
      case D10 => 10
      case D12 => 12
    }

    /** Position in `AllowedDiceOrder`. */
    function Rank(): nat {
      match this
      case D4 => 0
      case D6 => 1
      case D8 => 2
      case D10 => 3
      case D12 => 4
    }

    /** The Symbol naming the rating, as in `:d8`. */
    function Symbol(): string {
      match this
      case D4 => "d4"
      case D6 => "d6"
      case D8 => "d8"
      case D10 => "d10"
      case D12 => "d12"
    }
  }

  /** The ratings in increasing order. */
  const AllowedDiceOrder: seq<Die> := [D4, D6, D8, D10, D12]

  /** A parsed dice expression `[num]d<sides>[e][+|-mod]` as the dice library stores it. */
  datatype DiceParts = DiceParts(num: nat, sides: nat, explode: bool, mod: int)

  /**
   * The dice library's `maximum()`: every die showing its highest face,
   * plus the modifier. The library is not part of this model; this is
   * the value it is taken to compute.
   */
  function Maximum(p: DiceParts): int {
    p.num * p.sides + p.mod
  }

  /**
   * An SWRoll: a dice descriptor together with the value `maximum()` had
   * when the roll object was constructed. The value is never recomputed.
   */
  datatype SWRoll = SWRoll(parts: DiceParts, value: int)

  /** `SWRoll.new(dstr)`: freezes the library's maximum as the value. */
  function NewSWRoll(parts: DiceParts): (r: SWRoll)
    ensures r.parts == parts
    ensures r.value == Maximum(parts)
    ensures parts.num == 1 ==> r.value == parts.sides + parts.mod
  {
    SWRoll(parts, Maximum(parts))
  }

  /** `half_value`: half the frozen value, rounded towards minus infinity. */
  function HalfValue(r: SWRoll): (h: int)
    ensures 2 * h <= r.value < 2 * h + 2
  {
    r.value / 2
  }

  /** The descriptor `d<sides>e` the table holds for a rating. */
  function RatedRoll(d: Die): SWRoll {
    NewSWRoll(DiceParts(1, d.Sides(), true, 0))
  }

  /** `AllowedDice`: rating symbol to roll descriptor. */
  function AllowedDice(): (m: map<string, SWRoll>)
    ensures m.Keys == set d | d in AllowedDiceOrder :: d.Symbol()
    ensures forall d: Die :: d.Symbol() in m && m[d.Symbol()].parts == DiceParts(1, d.Sides(), true, 0)
  {
    var m := map[
      "d4" := RatedRoll(D4),
      "d6" := RatedRoll(D6),
      "d8" := RatedRoll(D8),
      "d10" := RatedRoll(D10),
      "d12" := RatedRoll(D12)
    ];
    InAllowedDiceOrder();
    assert m.Keys == set d | d in AllowedDiceOrder :: d.Symbol() by {
      forall k | k in m.Keys
        ensures k in set d | d in AllowedDiceOrder :: d.Symbol()
      {
        var d := if k == "d4" then D4 else if k == "d6" then D6 else if k == "d8" then D8
          else if k == "d10" then D10 else D12;
        assert d.Symbol() == k;
      }
    }
    m
  }

  /** The second die of a Wild Card: `d6e`. */
  const WildDie: SWRoll := NewSWRoll(DiceParts(1, 6, true, 0))

  /** The die of an untrained trait: `d4-2e`. */
  const NoTrait: SWRoll := NewSWRoll(DiceParts(1, 4, true, -2))

  /** The Wild Die that goes with an untrained trait: `d6-2e`. */
  const WildDieNoTrait: SWRoll := NewSWRoll(DiceParts(1, 6, true, -2))

  /**
   * `valid_trait_score?`: the rating a value names when it is one of the
   * table's keys (which are Symbols), nil otherwise.
   */
  function ValidTraitScore(v: Value): (r: Option<Die>)
    ensures r.Some? <==> v.Sym? && v.id in AllowedDice()
    ensures r.Some? ==> v == Sym(r.value.Symbol())
  {
    match v
    case Str(_) => None
    case Sym(id) =>
      if id == "d4" then Some(D4)
      else if id == "d6" then Some(D6)
      else if id == "d8" then Some(D8)
      else if id == "d10" then Some(D10)
      else if id == "d12" then Some(D12)
      else None
  }

  /** Every rating appears in the order list. */
  lemma InAllowedDiceOrder()
    ensures forall d: Die :: d in AllowedDiceOrder
  {
    forall d: Die
      ensures d in AllowedDiceOrder
    {
      match d
      case D4 => assert AllowedDiceOrder[0] == d;
      case D6 => assert AllowedDiceOrder[1] == d;
      case D8 => assert AllowedDiceOrder[2] == d;
      case D10 => assert AllowedDiceOrder[3] == d;
      case D12 => assert AllowedDiceOrder[4] == d;
    }
  }

  /** Each rating sits in the order list at its rank. */
  lemma RankLocates(d: Die)
    ensures d.Rank() < |AllowedDiceOrder| && AllowedDiceOrder[d.Rank()] == d
  {
  }

  /** The order list holds the five ratings by increasing number of sides. */
  lemma AllowedDiceOrderIncreasing()
    ensures |AllowedDiceOrder| == 5
    ensures forall d: Die :: d in AllowedDiceOrder
    ensures forall i, j :: 0 <= i < j < |AllowedDiceOrder| ==>
      AllowedDiceOrder[i].Sides() < AllowedDiceOrder[j].Sides()
  {
    InAllowedDiceOrder();
  }

  /** Each rating symbol names exactly one rating. */
  lemma SymbolInjective(d1: Die, d2: Die)
    ensures d1.Symbol() == d2.Symbol() <==> d1 == d2
  {
  }

  /** The fixed descriptors and their derived values. */
  lemma FixedDescriptors()
    ensures WildDie.parts == DiceParts(1, 6, true, 0) && WildDie.value == 6 && HalfValue(WildDie) == 3
    ensures NoTrait.parts == DiceParts(1, 4, true, -2) && NoTrait.value == 2 && HalfValue(NoTrait) == 1
    ensures WildDieNoTrait.parts == DiceParts(1, 6, true, -2) && WildDieNoTrait.value == 4
    ensures forall d: Die :: AllowedDice()[d.Symbol()] != NoTrait && AllowedDice()[d.Symbol()] != WildDieNoTrait
  {
  }

  /** No table entry is the No Trait roll. */
  lemma RatedNotNoTrait(d: Die)
    ensures d.Symbol() in AllowedDice()
    ensures AllowedDice()[d.Symbol()] != NoTrait
  {
    FixedDescriptors();
  }

  /** A rating's half value is half its number of sides. */
  lemma RatedHalfValue(d: Die)
    ensures AllowedDice()[d.Symbol()].value == d.Sides()
    ensures HalfValue(AllowedDice()[d.Symbol()]) == d.Sides() / 2
  {
  }
}
