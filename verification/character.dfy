/**
 * A Savage Worlds character: five attributes, a table of skills, sorted
 * lists of Edges and Hindrances, and the rules that read them: trait
 * lookup, the dice a trait roll uses, Parry and Toughness.
 *
 * The Ruby class fills and reads attributes through `respond_to?` and
 * `send`; here the five attributes are an explicit record, and any other
 * name is not an attribute.
 */
module Characters {
  import opened Wrappers
  import opened Values
  import opened Dice
  import opened Names
  import opened NameLists
  import opened Text

  /** The five attributes, each with a reader and a writer method. */
  datatype Attribute = Agility | Smarts | Spirit | Strength | Vigor {

    /** The name of the reader method. */
    function Name(): string {
      match this
      case Agility => "agility"
      case Smarts => "smarts"
      case Spirit => "spirit"
      case Strength => "strength"
      case Vigor => "vigor"
    }
  }

  /** The attribute whose reader is called `name`, if there is one. */
  function AttributeNamed(name: string): (r: Option<Attribute>)
    ensures forall a: Attribute :: a.Name() == name <==> r == Some(a)
  {
    if name == "agility" then Some(Agility)
    else if name == "smarts" then Some(Smarts)
    else if name == "spirit" then Some(Spirit)
    else if name == "strength" then Some(Strength)
    else if name == "vigor" then Some(Vigor)
    else None
  }

  /** The attribute ratings; an attribute the constructor never assigned is nil. */
  datatype Stats = Stats(
    agility: Option<Die>,
    smarts: Option<Die>,
    spirit: Option<Die>,
    strength: Option<Die>,
    vigor: Option<Die>)
  {
    function Get(a: Attribute): Option<Die> {
      match a
      case Agility => agility
      case Smarts => smarts
      case Spirit => spirit
      case Strength => strength
      case Vigor => vigor
    }

    /** The attribute writer `a=`. */
    function Set(a: Attribute, d: Option<Die>): (r: Stats)
      ensures r.Get(a) == d
      ensures forall b: Attribute :: b != a ==> r.Get(b) == Get(b)
    {
      match a
      case Agility => this.(agility := d)
      case Smarts => this.(smarts := d)
      case Spirit => this.(spirit := d)
      case Strength => this.(strength := d)
      case Vigor => this.(vigor := d)
    }
  }

  /** No attribute assigned. */
  const Unset: Stats := Stats(None, None, None, None, None)

  /**
   * A character. Skills are keyed by what `trait_to_symbol` makes of the
   * skill name, which is nil for an empty String; each holds the rating
   * `valid_trait_score?` accepted, or nil.
   */
  datatype Character = Character(
    name: string,
    wildcard: bool,
    stats: Stats,
    skills: map<Option<string>, Option<Die>>,
    edges: seq<string>,
    hindrances: seq<string>)

  /** The invariant the Edge and Hindrance operations keep. */
  predicate ListsSorted(c: Character) {
    SortedNames(c.edges) && SortedNames(c.hindrances)
  }

  // ---------------------------------------------------------------------
  // Skills

  /** `has_skill?`. */
  predicate HasSkill(c: Character, skill: Value) {
    TraitToSymbol(skill) in c.skills
  }

  /**
   * `add_skill`: stores the rating under the normalised name. An invalid
   * rating is stored as nil: `x = a or b` assigns `a` before `or` is
   * evaluated, so the `NoTrait` fallback never takes effect.
   */
  function AddSkill(c: Character, skill: Value, die: Value): (r: Character)
    ensures HasSkill(r, skill)
    ensures r.skills[TraitToSymbol(skill)] == ValidTraitScore(die)
    ensures r.skills[TraitToSymbol(skill)].Some? <==> die.Sym? && die.id in AllowedDice()
    ensures forall k :: k != TraitToSymbol(skill) ==>
      (k in r.skills <==> k in c.skills) && (k in c.skills ==> r.skills[k] == c.skills[k])
    ensures r.(skills := c.skills) == c
  {
    c.(skills := c.skills[TraitToSymbol(skill) := ValidTraitScore(die)])
  }

  /** `remove_skill`: deletes the skill and returns what it held, nil when it was absent. */
  function RemoveSkill(c: Character, skill: Value): (r: (Character, Option<Die>))
    ensures !HasSkill(r.0, skill)
    ensures HasSkill(c, skill) ==> r.1 == c.skills[TraitToSymbol(skill)]
    ensures !HasSkill(c, skill) ==> r.1 == None && r.0 == c
    ensures forall k :: k != TraitToSymbol(skill) ==>
      (k in r.0.skills <==> k in c.skills) && (k in c.skills ==> r.0.skills[k] == c.skills[k])
    ensures r.0.(skills := c.skills) == c
  {
    var key := TraitToSymbol(skill);
    if key in c.skills then (c.(skills := c.skills - {key}), c.skills[key])
    else (c, None)
  }

  /** Removing a skill just added restores the character and returns the stored rating. */
  lemma RemoveUndoesAdd(c: Character, skill: Value, die: Value)
    requires !HasSkill(c, skill)
    ensures RemoveSkill(AddSkill(c, skill, die), skill) == (c, ValidTraitScore(die))
  {
    var key := TraitToSymbol(skill);
    assert c.skills[key := ValidTraitScore(die)] - {key} == c.skills;
  }

  /**
   * `has_skill?` answers the same for a skill's identifier and for its
   * display name, since the display name normalises back to the identifier.
   */
  lemma HasSkillByDisplayName(c: Character, ws: seq<string>)
    requires |ws| > 0
    requires forall k :: 0 <= k < |ws| ==> Word(ws[k])
    ensures HasSkill(c, Str(TraitString(Sym(JoinWith(ws, '_'))))) <==> HasSkill(c, Sym(JoinWith(ws, '_')))
  {
    NameRoundTrip(ws);
  }

  // ---------------------------------------------------------------------
  // Edges and Hindrances

  /** Append `trait_string(v)` to a list and re-sort it, unless the name is empty. */
  function AddName(names: seq<string>, v: Value): (r: seq<string>)
    ensures |TraitString(v)| == 0 ==> r == names
    ensures |TraitString(v)| > 0 ==> SortedNames(r) && multiset(r) == multiset(names) + multiset{TraitString(v)}
    ensures SortedNames(names) ==> SortedNames(r)
  {
    var n := TraitString(v);
    if |n| > 0 then SortNames(names + [n]) else names
  }

  /** Delete every copy of `trait_string(v)` from a list, unless the name is empty. */
  function RemoveName(names: seq<string>, v: Value): (r: seq<string>)
    ensures |TraitString(v)| == 0 ==> r == names
    ensures |TraitString(v)| > 0 ==> TraitString(v) !in r && multiset(r) == multiset(names)[TraitString(v) := 0]
    ensures SortedNames(names) ==> SortedNames(r)
  {
    var n := TraitString(v);
    if |n| > 0 then
      (if SortedNames(names) then RemoveAllSorted(names, n); RemoveAll(names, n) else RemoveAll(names, n))
    else names
  }

  /** `add_edge`. */
  function AddEdge(c: Character, edge: Value): (r: Character)
    ensures |TraitString(edge)| == 0 ==> r == c
    ensures |TraitString(edge)| > 0 ==>
      SortedNames(r.edges) && multiset(r.edges) == multiset(c.edges) + multiset{TraitString(edge)}
    ensures ListsSorted(c) ==> ListsSorted(r)
    ensures r.(edges := c.edges) == c
  {
    c.(edges := AddName(c.edges, edge))
  }

  /** `remove_edge`. */
  function RemoveEdge(c: Character, edge: Value): (r: Character)
    ensures |TraitString(edge)| == 0 ==> r == c
    ensures |TraitString(edge)| > 0 ==>
      TraitString(edge) !in r.edges && multiset(r.edges) == multiset(c.edges)[TraitString(edge) := 0]
    ensures ListsSorted(c) ==> ListsSorted(r)
    ensures r.(edges := c.edges) == c
  {
    c.(edges := RemoveName(c.edges, edge))
  }

  /** `add_hindrance`. */
  function AddHindrance(c: Character, hindrance: Value): (r: Character)
    ensures |TraitString(hindrance)| == 0 ==> r == c
    ensures |TraitString(hindrance)| > 0 ==>
      SortedNames(r.hindrances)
      && multiset(r.hindrances) == multiset(c.hindrances) + multiset{TraitString(hindrance)}
    ensures ListsSorted(c) ==> ListsSorted(r)
    ensures r.(hindrances := c.hindrances) == c
  {
    c.(hindrances := AddName(c.hindrances, hindrance))
  }

  /**
   * `remove_hindrance`. Unlike `remove_edge` it returns what `reject!`
   * returns: the list when something was deleted, nil otherwise (and nil
   * for an empty name).
   */
  function RemoveHindrance(c: Character, hindrance: Value): (r: (Character, Option<seq<string>>))
    ensures |TraitString(hindrance)| == 0 ==> r == (c, None)
    ensures |TraitString(hindrance)| > 0 ==>
      TraitString(hindrance) !in r.0.hindrances
      && multiset(r.0.hindrances) == multiset(c.hindrances)[TraitString(hindrance) := 0]
    ensures r.1.Some? <==> |TraitString(hindrance)| > 0 && TraitString(hindrance) in c.hindrances
    ensures r.1.Some? ==> r.1.value == r.0.hindrances
    ensures ListsSorted(c) ==> ListsSorted(r.0)
    ensures r.0.(hindrances := c.hindrances) == c
  {
    var n := TraitString(hindrance);
    var hs := RemoveName(c.hindrances, hindrance);
    (c.(hindrances := hs), if |n| > 0 && n in c.hindrances then Some(hs) else None)
  }

  /** On a sorted list, adding an Edge inserts it in place. */
  lemma AddEdgeInserts(c: Character, edge: Value)
    requires SortedNames(c.edges)
    requires |TraitString(edge)| > 0
    ensures AddEdge(c, edge).edges == InsertName(TraitString(edge), c.edges)
  {
    AppendThenSort(c.edges, TraitString(edge));
  }

  /** Adding an Edge and removing it again leaves no copy of it and keeps the others. */
  lemma RemoveEdgeAfterAdd(c: Character, edge: Value)
    requires |TraitString(edge)| > 0
    ensures multiset(RemoveEdge(AddEdge(c, edge), edge).edges) == multiset(c.edges)[TraitString(edge) := 0]
  {
  }

  // ---------------------------------------------------------------------
  // Trait lookup and rolls

  /** The rating for a normalised name: attributes first, then skills, else nil. */
  function Lookup(c: Character, key: string): Option<Die> {
    match AttributeNamed(key)
    case Some(a) => c.stats.Get(a)
    case None => if Some(key) in c.skills then c.skills[Some(key)] else None
  }

  /**
   * `get_trait`: the rating of an attribute or skill, nil when the name
   * is neither. The source returns the rating's entry of `AllowedDice`.
   * An empty String normalises to nil, and `respond_to?(nil)` raises.
   */
  function GetTrait(c: Character, traitName: Value): (r: Result<Option<Die>, RubyError>)
    ensures r.Failure? <==> traitName == Str("")
    ensures r.Failure? ==> r.error == TypeError
    ensures forall a: Attribute :: TraitToSymbol(traitName) == Some(a.Name()) ==> r == Success(c.stats.Get(a))
    ensures r.Success? && AttributeNamed(TraitToSymbol(traitName).value).None? ==>
      && (TraitToSymbol(traitName) in c.skills ==> r.value == c.skills[TraitToSymbol(traitName)])
      && (TraitToSymbol(traitName) !in c.skills ==> r.value == None)
  {
    match TraitToSymbol(traitName)
    case None => Failure(TypeError)
    case Some(key) => Success(Lookup(c, key))
  }

  /** A skill named like an attribute is stored but never found: the attribute shadows it. */
  lemma AttributeShadowsSkill(c: Character, a: Attribute, die: Value)
    ensures GetTrait(AddSkill(c, Sym(a.Name()), die), Sym(a.Name())) == GetTrait(c, Sym(a.Name()))
    ensures HasSkill(AddSkill(c, Sym(a.Name()), die), Sym(a.Name()))
  {
  }

  /** A skill just added under a name that is not an attribute is what the lookup finds. */
  lemma AddedSkillFound(c: Character, skill: Value, die: Value)
    requires TraitToSymbol(skill).Some?
    requires AttributeNamed(TraitToSymbol(skill).value).None?
    ensures GetTrait(AddSkill(c, skill, die), skill) == Success(ValidTraitScore(die))
  {
  }

  /** A roll to be made: which descriptor is rolled, and with what extra modifier. */
  datatype RollRequest = RollRequest(die: SWRoll, mod: int)

  /** `TraitResult`: the trait die's roll and, for a Wild Card, the Wild Die's. */
  datatype TraitResult = TraitResult(traitRoll: RollRequest, wildDie: Option<RollRequest>)

  /**
   * `trait_roll`: the trait's own die, or `NoTrait` when the character has
   * no rating in it; for a Wild Card also the Wild Die, with the penalty
   * version when the trait is unrated. Both rolls get the same modifier.
   */
  function TraitRoll(c: Character, traitName: Value, mod: int := 0): (r: Result<TraitResult, RubyError>)
    ensures r.Failure? <==> GetTrait(c, traitName).Failure?
    ensures r.Failure? ==> r.error == TypeError
    ensures r.Success? ==>
      && (r.value.traitRoll.die == NoTrait <==> GetTrait(c, traitName).value.None?)
      && (GetTrait(c, traitName).value.Some? ==>
            r.value.traitRoll.die == AllowedDice()[GetTrait(c, traitName).value.value.Symbol()])
      && r.value.traitRoll.mod == mod
    ensures r.Success? ==>
      && (r.value.wildDie.Some? <==> c.wildcard)
      && (c.wildcard && GetTrait(c, traitName).value.None? ==> r.value.wildDie.value.die == WildDieNoTrait)
      && (c.wildcard && GetTrait(c, traitName).value.Some? ==> r.value.wildDie.value.die == WildDie)
      && (c.wildcard ==> r.value.wildDie.value.mod == mod)
  {
    FixedDescriptors();
    match GetTrait(c, traitName)
    case Failure(e) => Failure(e)
    case Success(rating) =>
      var traitDie := match rating
        case None => NoTrait
        case Some(d) => AllowedDice()[d.Symbol()];
      var wild :=
        if c.wildcard then Some(RollRequest(if rating.None? then WildDieNoTrait else WildDie, mod))
        else None;
      Success(TraitResult(RollRequest(traitDie, mod), wild))
  }

  /**
   * `parry`: 2, plus half the Fighting die when the character has a
   * Fighting rating. The source also tests that the die is not `NoTrait`,
   * which a rating's table entry never is.
   */
  function Parry(c: Character): (p: int)
    ensures GetTrait(c, Sym("fighting")).Success?
    ensures GetTrait(c, Sym("fighting")).value.None? ==> p == 2
    ensures forall d: Die :: GetTrait(c, Sym("fighting")) == Success(Some(d)) ==> p == 2 + d.Sides() / 2
  {
    match GetTrait(c, Sym("fighting"))
    case Success(Some(d)) =>
      RatedNotNoTrait(d);
      RatedHalfValue(d);
      var f := AllowedDice()[d.Symbol()];
      if f != NoTrait then 2 + HalfValue(f) else 2
    case _ => 2
  }

  /**
   * `toughness`: 2 plus half the Vigor die. With Vigor unassigned the
   * lookup gives nil and `half_value` raises NoMethodError.
   */
  function Toughness(c: Character): (r: Result<int, RubyError>)
    ensures r.Failure? <==> c.stats.vigor.None?
    ensures r.Failure? ==> r.error == NoMethodError
    ensures c.stats.vigor.Some? ==> r == Success(2 + c.stats.vigor.value.Sides() / 2)
  {
    match GetTrait(c, Sym("vigor"))
    case Success(Some(d)) => Success(2 + HalfValue(AllowedDice()[d.Symbol()]))
    case _ => Failure(NoMethodError)
  }

  // ---------------------------------------------------------------------
  // Construction

  /** The value of the last pair whose key, as text, names attribute `a`. */
  function LastStatValue(pairs: seq<(Value, Value)>, a: Attribute): Option<Value> {
    if |pairs| == 0 then None
    else if pairs[|pairs| - 1].0.ToS() == a.Name() then Some(pairs[|pairs| - 1].1)
    else LastStatValue(pairs[..|pairs| - 1], a)
  }

  /** What the constructor assigns to `a`: nil if no key names it, else the last such rating or d6. */
  function StatFrom(pairs: seq<(Value, Value)>, a: Attribute): Option<Die> {
    match LastStatValue(pairs, a)
    case None => None
    case Some(v) => Some(ValidTraitScore(v).GetOr(D6))
  }

  /** The value of the last pair whose key normalises to `key`. */
  function LastSkillValue(pairs: seq<(Value, Value)>, key: Option<string>): Option<Value> {
    if |pairs| == 0 then None
    else if TraitToSymbol(pairs[|pairs| - 1].0) == key then Some(pairs[|pairs| - 1].1)
    else LastSkillValue(pairs[..|pairs| - 1], key)
  }

  /** The non-empty `trait_string`s of the values, in order. */
  function NamesOf(vs: seq<Value>): seq<string> {
    if |vs| == 0 then []
    else
      var n := TraitString(vs[|vs| - 1]);
      NamesOf(vs[..|vs| - 1]) + (if |n| > 0 then [n] else [])
  }

  /** The last pair naming `a` decides, and no pair naming it leaves it nil. */
  lemma {:induction false} LastStatValueIsLast(pairs: seq<(Value, Value)>, a: Attribute, i: nat)
    requires i < |pairs| && pairs[i].0.ToS() == a.Name()
    requires forall j :: i < j < |pairs| ==> pairs[j].0.ToS() != a.Name()
    ensures LastStatValue(pairs, a) == Some(pairs[i].1)
    decreases |pairs|
  {
    if i < |pairs| - 1 {
      var prefix := pairs[..|pairs| - 1];
      assert forall j :: i < j < |prefix| ==> prefix[j] == pairs[j];
      LastStatValueIsLast(prefix, a, i);
    }
  }

  /** No pair naming `a` leaves it unassigned. */
  lemma {:induction false} LastStatValueAbsent(pairs: seq<(Value, Value)>, a: Attribute)
    requires forall j :: 0 <= j < |pairs| ==> pairs[j].0.ToS() != a.Name()
    ensures LastStatValue(pairs, a) == None
    decreases |pairs|
  {
    if |pairs| > 0 {
      var prefix := pairs[..|pairs| - 1];
      assert forall j :: 0 <= j < |prefix| ==> prefix[j] == pairs[j];
      LastStatValueAbsent(prefix, a);
    }
  }

  /** The constructor's first loop: assign each attribute a stat key names. */
  method AssignStats(stats: seq<(Value, Value)>) returns (st: Stats)
    ensures forall a: Attribute :: st.Get(a) == StatFrom(stats, a)
  {
    st := Unset;
    var i := 0;
    while i < |stats|
      invariant 0 <= i <= |stats|
      invariant forall a: Attribute :: st.Get(a) == StatFrom(stats[..i], a)
    {
      st := AssignStat(st, stats[..i], stats[i]);
      assert stats[..i] + [stats[i]] == stats[..i + 1];
      i := i + 1;
    }
    assert stats[..i] == stats;
  }

  /** One pass of the first loop: a key naming an attribute overrides what the earlier pairs set. */
  function AssignStat(st: Stats, pairs: seq<(Value, Value)>, pair: (Value, Value)): (r: Stats)
    requires forall a: Attribute :: st.Get(a) == StatFrom(pairs, a)
    ensures forall a: Attribute :: r.Get(a) == StatFrom(pairs + [pair], a)
  {
    AssignStatStep(pairs, pair);
    match AttributeNamed(pair.0.ToS())
    case Some(attribute) => st.Set(attribute, Some(ValidTraitScore(pair.1).GetOr(D6)))
    case None => st
  }

  /** The last pair decides the attribute it names and leaves the others as they were. */
  lemma AssignStatStep(pairs: seq<(Value, Value)>, pair: (Value, Value))
    ensures forall a: Attribute ::
      StatFrom(pairs + [pair], a)
      == (if pair.0.ToS() == a.Name() then Some(ValidTraitScore(pair.1).GetOr(D6)) else StatFrom(pairs, a))
  {
    assert (pairs + [pair])[..|pairs|] == pairs;
  }

  /** The constructor's skill loop: `add_skill` for each pair in turn. */
  method AddSkills(c0: Character, skills: seq<(Value, Value)>) returns (c: Character)
    requires c0.skills == map[]
    ensures forall key :: key in c.skills <==> LastSkillValue(skills, key).Some?
    ensures forall key :: key in c.skills ==> c.skills[key] == ValidTraitScore(LastSkillValue(skills, key).value)
    ensures c.(skills := c0.skills) == c0
  {
    c := c0;
    var i := 0;
    while i < |skills|
      invariant 0 <= i <= |skills|
      invariant c.(skills := c0.skills) == c0
      invariant forall key :: key in c.skills <==> LastSkillValue(skills[..i], key).Some?
      invariant forall key :: key in c.skills ==> c.skills[key] == ValidTraitScore(LastSkillValue(skills[..i], key).value)
    {
      AddSkillsStep(c, skills, i);
      c := AddSkill(c, skills[i].0, skills[i].1);
      i := i + 1;
    }
    assert skills[..i] == skills;
  }

  /** One more skill pair decides the key it normalises to and leaves the other keys as they were. */
  lemma LastSkillValueStep(skills: seq<(Value, Value)>, i: nat)
    requires i < |skills|
    ensures forall key ::
      LastSkillValue(skills[..i + 1], key)
      == (if TraitToSymbol(skills[i].0) == key then Some(skills[i].1) else LastSkillValue(skills[..i], key))
  {
    var next := skills[..i + 1];
    assert next[..|next| - 1] == skills[..i] && next[|next| - 1] == skills[i];
    forall key
      ensures LastSkillValue(next, key)
        == (if TraitToSymbol(skills[i].0) == key then Some(skills[i].1) else LastSkillValue(skills[..i], key))
    {
    }
  }

  /** One pass of the skill loop: `add_skill` with the next pair keeps the loop's account of the table. */
  lemma AddSkillsStep(c: Character, skills: seq<(Value, Value)>, i: nat)
    requires i < |skills|
    requires forall key :: key in c.skills <==> LastSkillValue(skills[..i], key).Some?
    requires forall key :: key in c.skills ==> c.skills[key] == ValidTraitScore(LastSkillValue(skills[..i], key).value)
    ensures forall key :: key in AddSkill(c, skills[i].0, skills[i].1).skills <==> LastSkillValue(skills[..i + 1], key).Some?
    ensures forall key :: key in AddSkill(c, skills[i].0, skills[i].1).skills ==>
      AddSkill(c, skills[i].0, skills[i].1).skills[key] == ValidTraitScore(LastSkillValue(skills[..i + 1], key).value)
  {
    LastSkillValueStep(skills, i);
  }

  /**
   * The constructor's Edge and Hindrance loops: starting from an empty
   * list, `add_edge` (or `add_hindrance`) for each name in turn.
   */
  method CollectNames(vs: seq<Value>) returns (names: seq<string>)
    ensures names == SortNames(NamesOf(vs))
  {
    names := [];
    var i := 0;
    while i < |vs|
      invariant 0 <= i <= |vs|
      invariant SortedNames(names) && multiset(names) == multiset(NamesOf(vs[..i]))
    {
      CollectStep(names, vs, i);
      names := AddName(names, vs[i]);
      i := i + 1;
    }
    assert vs[..i] == vs;
    SortedIsSortNames(names, NamesOf(vs));
  }

  /** One pass of the Edge or Hindrance loop keeps the list sorted and adds the next name. */
  lemma CollectStep(names: seq<string>, vs: seq<Value>, i: nat)
    requires i < |vs|
    requires SortedNames(names) && multiset(names) == multiset(NamesOf(vs[..i]))
    ensures SortedNames(AddName(names, vs[i]))
    ensures multiset(AddName(names, vs[i])) == multiset(NamesOf(vs[..i + 1]))
  {
    NamesOfStep(vs, i);
  }

  /** One more value adds its name, if it has one, to the names collected so far. */
  lemma NamesOfStep(vs: seq<Value>, i: nat)
    requires i < |vs|
    ensures NamesOf(vs[..i + 1]) == NamesOf(vs[..i]) + (if |TraitString(vs[i])| > 0 then [TraitString(vs[i])] else [])
  {
    assert vs[..i + 1][..i] == vs[..i];
  }

  /**
   * `Character.new`: each stat key that names an attribute assigns it its
   * valid rating or d6, other keys are ignored; then every skill is added,
   * then every Edge, then every Hindrance. The pairs come in the order the
   * hashes yield them.
   */
  method New(
    name: string, wild: bool,
    stats: seq<(Value, Value)>, skills: seq<(Value, Value)>,
    edges: seq<Value>, hindrances: seq<Value>)
    returns (c: Character)
    ensures c.name == name && c.wildcard == wild
    ensures forall a: Attribute :: c.stats.Get(a) == StatFrom(stats, a)
    ensures forall key :: key in c.skills <==> LastSkillValue(skills, key).Some?
    ensures forall key :: key in c.skills ==> c.skills[key] == ValidTraitScore(LastSkillValue(skills, key).value)
    ensures c.edges == SortNames(NamesOf(edges))
    ensures c.hindrances == SortNames(NamesOf(hindrances))
    ensures ListsSorted(c)
  {
    var st := AssignStats(stats);
    c := Character(name, wild, st, map[], [], []);
    c := AddSkills(c, skills);
    var es := CollectNames(edges);
    var hs := CollectNames(hindrances);
    c := c.(edges := es, hindrances := hs);
  }

  // ---------------------------------------------------------------------
  // The demonstration character

  /**
   * Geoffryn, the Wild Card of the demonstration script, written out as
   * the record its constructor call and its three additions leave: his
   * attributes and skills, his Edges and Hindrances in sorted order.
   */
  function Geoffryn(): Character {
    Character(
      "Geoffryn", true,
      Stats(Some(D6), Some(D4), Some(D8), Some(D6), Some(D10)),
      map[Some("fighting") := Some(D8), Some("survival") := Some(D6), Some("shooting") := Some(D6)],
      ["Battle Bunny", "Toughness", "Unmoveable"], ["Brain Damage", "Loyal"])
  }

  /** Geoffryn fights with d8: Parry 6. */
  lemma GeoffrynParry()
    ensures Parry(Geoffryn()) == 6
  {
    assert TraitToSymbol(Sym("fighting")) == Some("fighting");
    assert AttributeNamed("fighting") == None;
  }

  /** Geoffryn has d10 vigor: Toughness 7. */
  lemma GeoffrynToughness()
    ensures Toughness(Geoffryn()) == Success(7)
  {
    assert Geoffryn().stats.vigor == Some(D10);
    assert 2 + D10.Sides() / 2 == 7;
  }

  /** Geoffryn's strength roll is his d6 plus a Wild Die, both unmodified. */
  lemma GeoffrynStrengthRoll()
    ensures TraitRoll(Geoffryn(), Sym("strength"))
      == Success(TraitResult(RollRequest(RatedRoll(D6), 0), Some(RollRequest(WildDie, 0))))
  {
    assert TraitToSymbol(Sym("strength")) == Some("strength");
  }

  /** Geoffryn's Edges and Hindrances are in order. */
  lemma GeoffrynListsSorted()
    ensures ListsSorted(Geoffryn())
  {
    assert LexLeq("Battle Bunny", "Toughness") && LexLeq("Toughness", "Unmoveable");
    assert LexLeq("Brain Damage", "Loyal");
  }
}
