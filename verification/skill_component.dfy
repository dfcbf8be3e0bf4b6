/** The `SaveSkill` item component: the cooking level and the happy flag an
    item carries, its persisted string form, its equality, and the process-wide
    `active` registry its constructor, `skill` setter and finaliser maintain. */
module SkillComponent {
  import opened Wrappers
  import opened Decimal

  /** Identity of a shared stat blueprint (`ItemDrop.ItemData.SharedData`);
      the registry is keyed by blueprint object, modelled here by an id. */
  type BlueprintId = nat

  /** `SaveSkill.active`: blueprint -> level last written for it. */
  type Registry = map<BlueprintId, int>

  /** The two persisted fields of a `SaveSkill` component. */
  datatype SaveSkill = SaveSkill(skill: Int32, happy: bool)

  /** A freshly constructed component: both fields at their C# defaults. */
  const Fresh: SaveSkill := SaveSkill(0, false)

  /** `SaveSkill.Equals`: two components are interchangeable when they have
      the same level and the same happy flag. */
  predicate Equals(s: SaveSkill, other: SaveSkill) {
    s.skill == other.skill && s.happy == other.happy
  }

  lemma EqualsIsEquivalence(x: SaveSkill, y: SaveSkill, z: SaveSkill)
    ensures Equals(x, x)
    ensures Equals(x, y) <==> Equals(y, x)
    ensures Equals(x, y) && Equals(y, z) ==> Equals(x, z)
    ensures Equals(x, y) <==> x == y
  {
  }

  /** The constructor registers the item's blueprint with level 0. */
  function Register(reg: Registry, id: BlueprintId): (r: Registry)
    ensures r.Keys == reg.Keys + {id} && r[id] == 0
    ensures forall k :: k in reg && k != id ==> r[k] == reg[k]
  {
    reg[id := 0]
  }

  /** The `skill` setter stores the level in the component and writes it
      into the registry under the item's blueprint. */
  function SetSkill(s: SaveSkill, reg: Registry, id: BlueprintId, value: Int32): (r: (SaveSkill, Registry))
    ensures r.0 == s.(skill := value)
    ensures r.1.Keys == reg.Keys + {id} && r.1[id] == value
    ensures forall k :: k in reg && k != id ==> r.1[k] == reg[k]
  {
    (s.(skill := value), reg[id := value])
  }

  /** The finaliser drops the item's blueprint from the registry, whatever
      level is recorded there. */
  function Unregister(reg: Registry, id: BlueprintId): (r: Registry)
    ensures r.Keys == reg.Keys - {id}
    ensures forall k :: k in r ==> r[k] == reg[k]
  {
    reg - {id}
  }

  /** Constructing a component for a blueprint nobody had registered, setting
      its level and finalising it leaves the registry as it was. */
  lemma RegistryLifecycle(reg: Registry, id: BlueprintId, value: Int32)
    requires id !in reg
    ensures var reg' := SetSkill(Fresh, Register(reg, id), id, value).1;
            reg'[id] == value && Unregister(reg', id) == reg
  {
    var reg' := SetSkill(Fresh, Register(reg, id), id, value).1;
    assert Unregister(reg', id) == reg;
  }

  /** `Serialize`: the happy flag as '1' or '0', then the level in decimal. */
  function Serialize(s: SaveSkill): (data: string)
    ensures |data| > 0
    ensures data[0] == '1' <==> s.happy
    ensures data[0] == '1' || data[0] == '0'
  {
    (if s.happy then "1" else "0") + IntToString(s.skill)
  }

  /** `Deserialize` on a component whose item uses blueprint `id`: an empty
      string leaves component and registry alone; otherwise the first
      character decides the happy flag and the rest is run through
      `int.TryParse` (0 on failure) and stored through the `skill` setter. */
  function Deserialize(data: string, s: SaveSkill, reg: Registry, id: BlueprintId): (r: (SaveSkill, Registry))
    ensures |data| == 0 ==> r == (s, reg)
    ensures |data| > 0 ==> r.0.happy == (data[0] == '1')
    ensures |data| > 0 ==> r.0.skill == TryParse(data[1..]) && r.1 == reg[id := r.0.skill]
  {
    if |data| > 0 then
      var parsed := TryParse(data[1..]);
      SetSkill(s.(happy := data[0] == '1'), reg, id, parsed)
    else (s, reg)
  }

  /** Reading back what `Serialize` wrote restores both fields, whatever
      the component held before, and records the level in the registry. */
  lemma DeserializeSerialize(s: SaveSkill, before: SaveSkill, reg: Registry, id: BlueprintId)
    ensures Deserialize(Serialize(s), before, reg, id) == (s, reg[id := s.skill])
  {
    var data := Serialize(s);
    assert data[1..] == IntToString(s.skill);
    TryParseIntToString(s.skill);
  }

  /** The persisted forms of two components are equal exactly when the
      components are `Equals`. */
  lemma SerializeInjective(s: SaveSkill, t: SaveSkill)
    ensures Serialize(s) == Serialize(t) <==> Equals(s, t)
  {
    if Serialize(s) == Serialize(t) {
      DeserializeSerialize(s, Fresh, map[], 0);
      DeserializeSerialize(t, Fresh, map[], 0);
    }
  }

  /** "175" is a happy component at level 75. */
  lemma DeserializeHappy75(s: SaveSkill, reg: Registry, id: BlueprintId)
    ensures Deserialize("175", s, reg, id) == (SaveSkill(75, true), reg[id := 75])
  {
    assert "175"[1..] == "75";
    assert DigitsValue("75") == 75 by {
      assert "75"[..1] == "7";
    }
    ParseDigits("75");
  }

  /** A bare flag, or a flag followed by something that is not a number,
      reads as level 0; an empty string changes nothing. */
  lemma DeserializeDegenerate(s: SaveSkill, reg: Registry, id: BlueprintId)
    ensures Deserialize("", s, reg, id) == (s, reg)
    ensures Deserialize("1", s, reg, id) == (SaveSkill(0, true), reg[id := 0])
    ensures Deserialize("0x5", s, reg, id) == (SaveSkill(0, false), reg[id := 0])
  {
    assert "1"[1..] == "";
    TryParseBlank("");
    assert "0x5"[1..] == "x5";
    TrimUntouched("x5");
    assert ParseInteger("x5").None?;
  }
}
