/** The live state the cooking bonus keeps: the food blueprints, the
    `SaveSkill.active` registry and the last factor each `SettingChanged`
    handler saw; and the events that change it (a new cooked item, an item
    loaded from a save, a factor edit, a component finalised). */
module Lifecycle {
  import opened Wrappers
  import opened SkillComponent
  import opened Creation
  import opened Rescale

  datatype World = World(blueprints: map<BlueprintId, Channels>, active: Registry, factors: Factors)

  /** The sweeps are defined: registered levels are non-negative and every
      factor is at least 1, as the configuration's range guarantees. */
  predicate WellFormed(w: World) {
    && (forall id :: id in w.active ==> w.active[id] >= 0)
    && w.factors.health >= 1.0 && w.factors.stamina >= 1.0 && w.factors.regen >= 1.0
  }

  /** Every registered blueprint holds its base stats times the multiplier of
      its registered level at the current factors. */
  ghost predicate Consistent(w: World, base: map<BlueprintId, Channels>) {
    forall id :: id in w.active ==>
      id in w.blueprints && id in base && w.blueprints[id] == Apply(base[id], w.active[id], w.factors)
  }

  lemma WellFormedSweepDefined(w: World, c: Channel)
    requires WellFormed(w)
    ensures SweepDefined(w.active, w.factors.Get(c))
  {
    SweepDefinedInRange(w.active, w.factors.Get(c));
  }

  /** A `SettingChanged` handler: sweep the registry from the factor it saw
      last to the new one, then remember the new one. */
  function SettingChanged(w: World, c: Channel, newFactor: real): (r: World)
    requires SweepDefined(w.active, w.factors.Get(c))
    ensures r.active == w.active
    ensures r.factors.Get(c) == newFactor
    ensures forall c' :: c' != c ==> r.factors.Get(c') == w.factors.Get(c')
  {
    World(Sweep(w.blueprints, w.active, c, w.factors.Get(c), newFactor), w.active, w.factors.With(c, newFactor))
  }

  /** A factor edit keeps every registered blueprint consistent with its base. */
  lemma SettingChangedConsistent(w: World, base: map<BlueprintId, Channels>, c: Channel, newFactor: real)
    requires SweepDefined(w.active, w.factors.Get(c))
    requires Consistent(w, base)
    ensures Consistent(SettingChanged(w, c, newFactor), base)
  {
    var r := SettingChanged(w, c, newFactor);
    forall id | id in r.active
      ensures id in r.blueprints && id in base && r.blueprints[id] == Apply(base[id], r.active[id], r.factors)
    {
      assert r.blueprints[id] == Rescaled(w.blueprints[id], w.active[id], c, w.factors.Get(c), newFactor);
      RescaledApply(base[id], w.active[id], w.factors, c, newFactor);
    }
  }

  /** One factor edit from the configuration. */
  datatype Edit = Edit(channel: Channel, factor: real)

  /** A run of factor edits, each handled by its channel's `SettingChanged`. */
  function ApplyEdits(w: World, edits: seq<Edit>): (r: World)
    requires WellFormed(w)
    requires forall i :: 0 <= i < |edits| ==> edits[i].factor >= 1.0
    ensures WellFormed(r) && r.active == w.active
    decreases |edits|
  {
    if |edits| == 0 then w
    else
      WellFormedSweepDefined(w, edits[0].channel);
      ApplyEdits(SettingChanged(w, edits[0].channel, edits[0].factor), edits[1..])
  }

  /** The factor a channel ends with after a run of edits: the last edit of
      that channel, or the starting factor if there is none. */
  function FinalFactor(start: real, c: Channel, edits: seq<Edit>): real
    decreases |edits|
  {
    if |edits| == 0 then start
    else if edits[|edits| - 1].channel == c then edits[|edits| - 1].factor
    else FinalFactor(start, c, edits[..|edits| - 1])
  }

  /** After any run of factor edits each registered blueprint holds its base
      stats times the multiplier at the final factors: the outcome depends
      only on where the factors end, not on the path. */
  lemma {:induction false} EditsKeepConsistent(w: World, base: map<BlueprintId, Channels>, edits: seq<Edit>)
    requires WellFormed(w)
    requires forall i :: 0 <= i < |edits| ==> edits[i].factor >= 1.0
    requires Consistent(w, base)
    ensures Consistent(ApplyEdits(w, edits), base)
    ensures forall c :: ApplyEdits(w, edits).factors.Get(c) == FinalFactor(w.factors.Get(c), c, edits)
    decreases |edits|
  {
    if |edits| > 0 {
      var e := edits[0];
      WellFormedSweepDefined(w, e.channel);
      var w' := SettingChanged(w, e.channel, e.factor);
      SettingChangedConsistent(w, base, e.channel, e.factor);
      EditsKeepConsistent(w', base, edits[1..]);
      forall c
        ensures ApplyEdits(w, edits).factors.Get(c) == FinalFactor(w.factors.Get(c), c, edits)
      {
        FinalFactorCons(w.factors.Get(c), c, edits);
      }
    }
  }

  /** Peeling the first edit off a run. */
  lemma {:induction false} FinalFactorCons(start: real, c: Channel, edits: seq<Edit>)
    requires |edits| > 0
    ensures FinalFactor(start, c, edits)
            == FinalFactor(if edits[0].channel == c then edits[0].factor else start, c, edits[1..])
    decreases |edits|
  {
    if |edits| > 1 {
      assert edits[1..][..|edits| - 2] == edits[..|edits| - 1][1..];
      FinalFactorCons(start, c, edits[..|edits| - 1]);
    }
  }

  /** The `NewExtendedItemData` handler. When the item was cooked by a player
      and has positive health and stamina, a component is attached: its
      constructor registers the blueprint at level 0, the level from the
      cook's skill factor is stored through the setter, the happy roll is
      made, and `Apply` scales the blueprint. Otherwise nothing happens. */
  function OnNewItem(w: World, id: BlueprintId, cooked: bool, skillFactor: real, minimum: int, roll: int)
    : (r: (World, Option<SaveSkill>))
    requires id in w.blueprints
    requires 0.0 <= skillFactor <= 1.0
    requires 0 <= roll < 100
    ensures r.1.Some? <==> cooked && w.blueprints[id].food > 0.0 && w.blueprints[id].foodStamina > 0.0
    ensures r.1.None? ==> r.0 == w
    ensures r.1.Some? ==> && r.1.value == SaveSkill(CreationLevel(skillFactor), RollHappy(CreationLevel(skillFactor), minimum, roll))
                          && r.0.active == w.active[id := CreationLevel(skillFactor)]
                          && r.0.blueprints == w.blueprints[id := Apply(w.blueprints[id], CreationLevel(skillFactor), w.factors)]
                          && r.0.factors == w.factors
  {
    var bp := w.blueprints[id];
    if cooked && bp.food > 0.0 && bp.foodStamina > 0.0 then
      var level := CreationLevel(skillFactor);
      var (s, reg) := SetSkill(Fresh, Register(w.active, id), id, level);
      var s' := if RollHappy(level, minimum, roll) then s.(happy := true) else s;
      (World(w.blueprints[id := Apply(bp, level, w.factors)], reg, w.factors), Some(s'))
    else (w, None)
  }

  /** A new item on a blueprint nobody had registered keeps the state
      consistent, with the blueprint's pre-bonus stats as its base. */
  lemma NewItemKeepsConsistent(w: World, base: map<BlueprintId, Channels>, id: BlueprintId,
                               cooked: bool, skillFactor: real, minimum: int, roll: int)
    requires id in w.blueprints && id !in w.active
    requires 0.0 <= skillFactor <= 1.0
    requires 0 <= roll < 100
    requires Consistent(w, base)
    ensures var r := OnNewItem(w, id, cooked, skillFactor, minimum, roll).0;
            Consistent(r, base[id := w.blueprints[id]])
            && (WellFormed(w) ==> WellFormed(r))
  {
  }

  /** The `LoadExtendedItemData` handler for an item whose saved component
      string is `data`: the constructor registers the blueprint at level 0,
      `Deserialize` restores the fields, and `Apply` scales the blueprint. */
  function OnLoadItem(w: World, id: BlueprintId, data: string): (r: (World, SaveSkill))
    requires id in w.blueprints
    ensures r.0.active == w.active[id := r.1.skill]
    ensures r.0.blueprints == w.blueprints[id := Apply(w.blueprints[id], r.1.skill, w.factors)]
    ensures r.0.factors == w.factors
  {
    var (s, reg) := Deserialize(data, Fresh, Register(w.active, id), id);
    (World(w.blueprints[id := Apply(w.blueprints[id], s.skill, w.factors)], reg, w.factors), s)
  }

  /** Loading what `Serialize` saved restores the component exactly. */
  lemma LoadSaved(w: World, id: BlueprintId, s: SaveSkill)
    requires id in w.blueprints
    ensures OnLoadItem(w, id, Serialize(s)).1 == s
  {
    DeserializeSerialize(s, Fresh, Register(w.active, id), id);
  }

  /** An empty saved string loads as level 0, not happy, and leaves the
      blueprint's stats unchanged. */
  lemma LoadEmpty(w: World, id: BlueprintId)
    requires id in w.blueprints
    ensures OnLoadItem(w, id, "").1 == Fresh
    ensures OnLoadItem(w, id, "").0.blueprints == w.blueprints
  {
    ApplyLevelZero(w.blueprints[id], w.factors);
  }

  /** Loading onto a blueprint nobody had registered keeps the state
      consistent, with the blueprint's stats before loading as its base. */
  lemma LoadKeepsConsistent(w: World, base: map<BlueprintId, Channels>, id: BlueprintId, data: string)
    requires id in w.blueprints && id !in w.active
    requires Consistent(w, base)
    ensures var r := OnLoadItem(w, id, data);
            Consistent(r.0, base[id := w.blueprints[id]])
            && (WellFormed(w) && r.1.skill >= 0 ==> WellFormed(r.0))
  {
  }

  /** The finaliser: the blueprint leaves the registry, its stats stay as
      they are. */
  function Finalize(w: World, id: BlueprintId): (r: World)
    ensures r.blueprints == w.blueprints && r.factors == w.factors
    ensures id !in r.active && r.active.Keys == w.active.Keys - {id}
  {
    w.(active := Unregister(w.active, id))
  }

  /** Finalising keeps the state consistent and well formed; the blueprint it
      released still carries its bonus, and later factor edits no longer
      reach it. */
  lemma FinalizeKeepsConsistent(w: World, base: map<BlueprintId, Channels>, id: BlueprintId, c: Channel, newFactor: real)
    requires WellFormed(w)
    requires Consistent(w, base)
    requires id in w.blueprints
    ensures Consistent(Finalize(w, id), base) && WellFormed(Finalize(w, id))
    ensures SweepDefined(Finalize(w, id).active, w.factors.Get(c))
            && SettingChanged(Finalize(w, id), c, newFactor).blueprints[id] == w.blueprints[id]
  {
    WellFormedSweepDefined(Finalize(w, id), c);
  }
}
