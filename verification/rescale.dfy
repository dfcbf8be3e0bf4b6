/** The cooking bonus on a food blueprint's three stat channels, and the sweep
    that rescales every registered blueprint when one configured factor
    changes. Floats are idealised as exact reals. */
module Rescale {
  import opened SkillComponent

  /** The three configurable channels: health, stamina and health regen. */
  datatype Channel = Health | Stamina | Regen

  /** The stat fields of a food blueprint the bonus touches
      (`m_food`, `m_foodStamina`, `m_foodRegen`). */
  datatype Channels = Channels(food: real, foodStamina: real, foodRegen: real) {

    function Get(c: Channel): real {
      match c
      case Health => food
      case Stamina => foodStamina
      case Regen => foodRegen
    }

    function With(c: Channel, v: real): (r: Channels)
      ensures r.Get(c) == v
      ensures forall c' :: c' != c ==> r.Get(c') == Get(c')
    {
      match c
      case Health => this.(food := v)
      case Stamina => this.(foodStamina := v)
      case Regen => this.(foodRegen := v)
    }
  }

  /** The configured increase factor per channel: the multiplier a level-100
      item receives. */
  datatype Factors = Factors(health: real, stamina: real, regen: real) {

    function Get(c: Channel): real {
      match c
      case Health => health
      case Stamina => stamina
      case Regen => regen
    }

    function With(c: Channel, v: real): (r: Factors)
      ensures r.Get(c) == v
      ensures forall c' :: c' != c ==> r.Get(c') == Get(c')
    {
      match c
      case Health => this.(health := v)
      case Stamina => this.(stamina := v)
      case Regen => this.(regen := v)
    }
  }

  /** The multiplier a level-`level` item gets on a channel with factor `f`:
      linear in the level, from 1 at level 0 to `f` at level 100. */
  function Multiplier(level: int, f: real): (m: real)
    ensures level == 0 ==> m == 1.0
    ensures level == 100 ==> m == f
    ensures f == 1.0 ==> m == 1.0
    ensures level >= 0 && f >= 1.0 ==> m >= 1.0
  {
    1.0 + level as real * (f - 1.0) / 100.0
  }

  /** `SaveSkill.Apply`: every channel multiplied by the multiplier for its
      current factor, unconditionally. */
  function Apply(ch: Channels, level: int, fs: Factors): (r: Channels)
    ensures forall c :: r.Get(c) == ch.Get(c) * Multiplier(level, fs.Get(c))
  {
    Channels(ch.food * Multiplier(level, fs.health),
             ch.foodStamina * Multiplier(level, fs.stamina),
             ch.foodRegen * Multiplier(level, fs.regen))
  }

  /** At level 0 the bonus is the identity. */
  lemma ApplyLevelZero(ch: Channels, fs: Factors)
    ensures Apply(ch, 0, fs) == ch
  {
  }

  /** Every registered level has a non-zero multiplier at `f`, so the sweep's
      ratio is defined. */
  predicate SweepDefined(active: Registry, f: real) {
    forall id :: id in active ==> Multiplier(active[id], f) != 0.0
  }

  /** Non-negative levels and a factor of at least 1 always give a defined
      sweep. */
  lemma SweepDefinedInRange(active: Registry, f: real)
    requires forall id :: id in active ==> active[id] >= 0
    requires f >= 1.0
    ensures SweepDefined(active, f)
  {
  }

  /** One registered blueprint's share of the sweep: channel `c` multiplied by
      the new multiplier over the old one. */
  function Rescaled(ch: Channels, level: int, c: Channel, oldFactor: real, newFactor: real): (r: Channels)
    requires Multiplier(level, oldFactor) != 0.0
    ensures r.Get(c) * Multiplier(level, oldFactor) == ch.Get(c) * Multiplier(level, newFactor)
    ensures forall c' :: c' != c ==> r.Get(c') == ch.Get(c')
  {
    ch.With(c, ch.Get(c) * (Multiplier(level, newFactor) / Multiplier(level, oldFactor)))
  }

  /** The `SettingChanged` handler of channel `c`'s factor: every blueprint in
      the registry has that channel rescaled from `oldFactor` to `newFactor`. */
  function Sweep(bps: map<BlueprintId, Channels>, active: Registry, c: Channel, oldFactor: real, newFactor: real)
    : (r: map<BlueprintId, Channels>)
    requires SweepDefined(active, oldFactor)
    ensures r.Keys == bps.Keys
    ensures forall id :: id in bps && id !in active ==> r[id] == bps[id]
    ensures forall id, c' :: id in bps && c' != c ==> r[id].Get(c') == bps[id].Get(c')
  {
    map id | id in bps :: if id in active then Rescaled(bps[id], active[id], c, oldFactor, newFactor) else bps[id]
  }

  /** The `foreach` over the registry: rescales one registered blueprint at a
      time. The registry is taken to be unchanged while the loop runs. */
  method SweepLoop(bps: map<BlueprintId, Channels>, active: Registry, c: Channel, oldFactor: real, newFactor: real)
    returns (r: map<BlueprintId, Channels>)
    requires SweepDefined(active, oldFactor)
    ensures r == Sweep(bps, active, c, oldFactor, newFactor)
  {
    r := bps;
    var todo := active.Keys;
    while todo != {}
      invariant todo <= active.Keys
      invariant r.Keys == bps.Keys
      invariant forall id :: id in bps && (id !in active || id in todo) ==> r[id] == bps[id]
      invariant forall id :: id in bps && id in active && id !in todo ==>
                  r[id] == Rescaled(bps[id], active[id], c, oldFactor, newFactor)
      decreases todo
    {
      var id :| id in todo;
      if id in r {
        r := r[id := Rescaled(r[id], active[id], c, oldFactor, newFactor)];
      }
      todo := todo - {id};
    }
  }

  /** A multiplication by the old multiplier followed by the sweep's ratio is
      a multiplication by the new multiplier. */
  lemma RatioCancels(x: real, mOld: real, mNew: real)
    requires mOld != 0.0
    ensures x * mOld * (mNew / mOld) == x * mNew
  {
    var q := mNew / mOld;
    assert q * mOld == mNew;
    assert x * mOld * q == x * (q * mOld);
  }

  /** Two ratios in a row are the ratio of the outer multipliers. */
  lemma RatioChain(x: real, m1: real, m2: real, m3: real)
    requires m1 != 0.0 && m2 != 0.0
    ensures x * (m2 / m1) * (m3 / m2) == x * (m3 / m1)
  {
    var q1, q2, q3 := m2 / m1, m3 / m2, m3 / m1;
    assert q1 * m1 == m2 && q2 * m2 == m3 && q3 * m1 == m3;
    assert (q1 * q2) * m1 == q2 * (q1 * m1);
    assert (q1 * q2 - q3) * m1 == 0.0;
    assert q1 * q2 == q3;
    assert x * q1 * q2 == x * (q1 * q2);
  }

  /** One blueprint's share of `SweepTracksFactor`. */
  lemma RescaledTracks(ch: Channels, b: real, level: int, c: Channel, oldFactor: real, newFactor: real)
    requires Multiplier(level, oldFactor) != 0.0
    requires ch.Get(c) == b * Multiplier(level, oldFactor)
    ensures Rescaled(ch, level, c, oldFactor, newFactor).Get(c) == b * Multiplier(level, newFactor)
  {
    RatioCancels(b, Multiplier(level, oldFactor), Multiplier(level, newFactor));
  }

  /** Changing one factor changes only that channel of the bonus. */
  lemma ApplyWithFactor(b: Channels, level: int, fs: Factors, c: Channel, f: real)
    ensures Apply(b, level, fs.With(c, f)) == Apply(b, level, fs).With(c, b.Get(c) * Multiplier(level, f))
  {
    var a, m := Apply(b, level, fs), Multiplier(level, f);
    match c
    case Health =>
      assert fs.With(c, f) == fs.(health := f);
      assert a.With(c, b.food * m) == a.(food := b.food * m);
      ApplyWithHealth(b, level, fs, f);
    case Stamina =>
      assert fs.With(c, f) == fs.(stamina := f);
      assert a.With(c, b.foodStamina * m) == a.(foodStamina := b.foodStamina * m);
      ApplyWithStamina(b, level, fs, f);
    case Regen =>
      assert fs.With(c, f) == fs.(regen := f);
      assert a.With(c, b.foodRegen * m) == a.(foodRegen := b.foodRegen * m);
      ApplyWithRegen(b, level, fs, f);
  }

  lemma ApplyWithHealth(b: Channels, level: int, fs: Factors, f: real)
    ensures Apply(b, level, fs.(health := f)) == Apply(b, level, fs).(food := b.food * Multiplier(level, f))
  {
  }

  lemma ApplyWithStamina(b: Channels, level: int, fs: Factors, f: real)
    ensures Apply(b, level, fs.(stamina := f)) == Apply(b, level, fs).(foodStamina := b.foodStamina * Multiplier(level, f))
  {
  }

  lemma ApplyWithRegen(b: Channels, level: int, fs: Factors, f: real)
    ensures Apply(b, level, fs.(regen := f)) == Apply(b, level, fs).(foodRegen := b.foodRegen * Multiplier(level, f))
  {
  }

  /** A blueprint carrying the bonus at factors `fs`, rescaled on channel
      `c` to a new factor, carries the bonus at the updated factors. */
  lemma RescaledApply(b: Channels, level: int, fs: Factors, c: Channel, newFactor: real)
    requires Multiplier(level, fs.Get(c)) != 0.0
    ensures Rescaled(Apply(b, level, fs), level, c, fs.Get(c), newFactor) == Apply(b, level, fs.With(c, newFactor))
  {
    var a := Apply(b, level, fs);
    RescaledTracks(a, b.Get(c), level, c, fs.Get(c), newFactor);
    ApplyWithFactor(b, level, fs, c, newFactor);
  }

  /** The sweep keeps every registered blueprint in step with the factor: if
      channel `c` held its base value times the multiplier at `oldFactor`, it
      holds the base value times the multiplier at `newFactor` afterwards. */
  lemma SweepTracksFactor(bps: map<BlueprintId, Channels>, base: map<BlueprintId, Channels>,
                          active: Registry, c: Channel, oldFactor: real, newFactor: real)
    requires SweepDefined(active, oldFactor)
    requires forall id :: id in active && id in bps ==>
               id in base && bps[id].Get(c) == base[id].Get(c) * Multiplier(active[id], oldFactor)
    ensures forall id :: id in active && id in bps ==>
              Sweep(bps, active, c, oldFactor, newFactor)[id].Get(c) == base[id].Get(c) * Multiplier(active[id], newFactor)
  {
    var r := Sweep(bps, active, c, oldFactor, newFactor);
    forall id | id in active && id in bps
      ensures r[id].Get(c) == base[id].Get(c) * Multiplier(active[id], newFactor)
    {
      assert r[id] == Rescaled(bps[id], active[id], c, oldFactor, newFactor);
      RescaledTracks(bps[id], base[id].Get(c), active[id], c, oldFactor, newFactor);
    }
  }

  /** One blueprint's share of `SweepCompose`. */
  lemma RescaledCompose(ch: Channels, level: int, c: Channel, f1: real, f2: real, f3: real)
    requires Multiplier(level, f1) != 0.0 && Multiplier(level, f2) != 0.0
    ensures Rescaled(Rescaled(ch, level, c, f1, f2), level, c, f2, f3) == Rescaled(ch, level, c, f1, f3)
  {
    var m1, m2, m3 := Multiplier(level, f1), Multiplier(level, f2), Multiplier(level, f3);
    var x := ch.Get(c);
    var mid := Rescaled(ch, level, c, f1, f2);
    assert mid.Get(c) == x * (m2 / m1);
    RatioChain(x, m1, m2, m3);
  }

  /** Two successive changes of a factor have the effect of one direct change. */
  lemma SweepCompose(bps: map<BlueprintId, Channels>, active: Registry, c: Channel, f1: real, f2: real, f3: real)
    requires SweepDefined(active, f1) && SweepDefined(active, f2)
    ensures Sweep(Sweep(bps, active, c, f1, f2), active, c, f2, f3) == Sweep(bps, active, c, f1, f3)
  {
    var mid := Sweep(bps, active, c, f1, f2);
    var once := Sweep(bps, active, c, f1, f3);
    var twice := Sweep(mid, active, c, f2, f3);
    forall id | id in bps
      ensures twice[id] == once[id]
    {
      if id in active {
        RescaledCompose(bps[id], active[id], c, f1, f2, f3);
      }
    }
  }

  /** A sweep from a factor to itself leaves a blueprint alone. */
  lemma RescaledSameFactor(ch: Channels, level: int, c: Channel, f: real)
    requires Multiplier(level, f) != 0.0
    ensures Rescaled(ch, level, c, f, f) == ch
  {
    var m := Multiplier(level, f);
    assert m / m == 1.0;
    assert ch.Get(c) * (m / m) == ch.Get(c);
    match c
    case Health =>
    case Stamina =>
    case Regen =>
  }

  /** Changing a factor and changing it back restores every blueprint. */
  lemma SweepUndo(bps: map<BlueprintId, Channels>, active: Registry, c: Channel, oldFactor: real, newFactor: real)
    requires SweepDefined(active, oldFactor) && SweepDefined(active, newFactor)
    ensures Sweep(Sweep(bps, active, c, oldFactor, newFactor), active, c, newFactor, oldFactor) == bps
  {
    SweepCompose(bps, active, c, oldFactor, newFactor, oldFactor);
    var same := Sweep(bps, active, c, oldFactor, oldFactor);
    forall id | id in bps
      ensures same[id] == bps[id]
    {
      if id in active {
        RescaledSameFactor(bps[id], active[id], c, oldFactor);
      }
    }
  }
}
