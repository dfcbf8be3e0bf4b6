/** `IsExtendedStackable`: whether two inventory items may share a stack,
    decided by their "unique" extension components. A component type opts in
    by implementing `ExtendedItemUnique<T>`; the closed `Component` datatype
    below stands in for the reflection that finds those types at run time. */
module Stacking {
  import opened SkillComponent

  /** The `ExtendedItemUnique<T>` interface a unique component implements;
      one key per implementing type. */
  datatype UniqueKey = SaveSkillKey | OtherKey(tag: nat)

  /** An extension component attached to an item. */
  datatype Component =
    | SaveSkillComp(save: SaveSkill)         // `SaveSkill`, unique
    | OtherUnique(tag: nat, payload: int)    // another unique component type
    | NonUnique(kind: nat)                   // any component that is not unique
  {
    predicate IsUnique() {
      !NonUnique?
    }

    function Key(): UniqueKey
      requires IsUnique()
    {
      match this
      case SaveSkillComp(_) => SaveSkillKey
      case OtherUnique(tag, _) => OtherKey(tag)
    }
  }

  /** The type-specific `Equals` the stacking decision invokes on `c` with the
      component `other` of the same unique type. */
  predicate UniqueEquals(c: Component, other: Component) {
    match (c, other)
    case (SaveSkillComp(s), SaveSkillComp(t)) => Equals(s, t)
    case (OtherUnique(tag, p), OtherUnique(tag', q)) => tag == tag' && p == q
    case _ => false
  }

  /** An inventory slot's item: none at all, an item without extension data,
      or an extended item with its list of components. */
  datatype Item = Null | Plain | Extended(components: seq<Component>) {
    predicate IsExtended() {
      Extended?
    }
  }

  /** `Components.Any(...)` over unique components. */
  predicate HasUnique(cs: seq<Component>) {
    exists i :: 0 <= i < |cs| && cs[i].IsUnique()
  }

  /** The unique types present among `cs`. */
  ghost function UniqueKeys(cs: seq<Component>): set<UniqueKey> {
    set c | c in cs && c.IsUnique() :: c.Key()
  }

  /** No two unique components of `cs` share a type. */
  predicate NoDuplicateUniques(cs: seq<Component>) {
    |cs| == 0 ||
    ((!cs[0].IsUnique() || forall j :: 1 <= j < |cs| && cs[j].IsUnique() ==> cs[j].Key() != cs[0].Key())
     && NoDuplicateUniques(cs[1..]))
  }

  lemma UniqueKeysCons(cs: seq<Component>)
    requires |cs| > 0
    ensures UniqueKeys(cs) == UniqueKeys(cs[1..]) + (if cs[0].IsUnique() then {cs[0].Key()} else {})
  {
    assert forall c :: c in cs <==> c == cs[0] || c in cs[1..];
  }

  /** The `ToDictionary` over `cs`'s unique components: type -> component.
      It throws when two components share a type, hence the precondition. */
  function ToDictionary(cs: seq<Component>): (d: map<UniqueKey, Component>)
    requires NoDuplicateUniques(cs)
    ensures d.Keys == UniqueKeys(cs)
    ensures forall c :: c in cs && c.IsUnique() ==> d[c.Key()] == c
  {
    if |cs| == 0 then map[]
    else
      UniqueKeysCons(cs);
      var rest := ToDictionary(cs[1..]);
      if cs[0].IsUnique() then rest[cs[0].Key() := cs[0]] else rest
  }

  /** The `foreach` over `b`'s components: each unique one must find a
      component of its type still in the dictionary and be `Equals` to it,
      which removes the entry; afterwards the dictionary must be empty. */
  function Reconcile(remaining: map<UniqueKey, Component>, cb: seq<Component>): bool
    decreases |cb|
  {
    if |cb| == 0 then |remaining| == 0
    else if !cb[0].IsUnique() then Reconcile(remaining, cb[1..])
    else
      var k := cb[0].Key();
      if k !in remaining then false
      else if !UniqueEquals(cb[0], remaining[k]) then false
      else Reconcile(remaining - {k}, cb[1..])
  }

  /** `IsExtendedStackable(a, b)`. `a` is not null when `b` is extended
      (the code reads `a.IsExtended()` there), and `a` has no two unique
      components of one type when both are extended (`ToDictionary` throws). */
  function IsExtendedStackable(a: Item, b: Item): bool
    requires b.IsExtended() ==> !a.Null?
    requires a.IsExtended() && b.IsExtended() ==> NoDuplicateUniques(a.components)
  {
    if !a.IsExtended() && !b.IsExtended() then true
    else if !b.IsExtended() then !HasUnique(a.components)
    else if !a.IsExtended() then !HasUnique(b.components)
    else Reconcile(ToDictionary(a.components), b.components)
  }

  /** The two-sided rule, stated without the dictionary: `b` has no two
      unique components of one type, both carry the same unique types, and
      each unique component of `b` is `Equals` to the one of its type in `a`. */
  ghost predicate UniquesMatch(ca: seq<Component>, cb: seq<Component>) {
    && NoDuplicateUniques(cb)
    && UniqueKeys(cb) == UniqueKeys(ca)
    && forall x, y :: x in ca && y in cb && x.IsUnique() && y.IsUnique() && x.Key() == y.Key() ==> UniqueEquals(y, x)
  }

  /** Every unique component of `cb` finds an `Equals` component of its
      type in `m`. */
  ghost predicate AllFound(m: map<UniqueKey, Component>, cb: seq<Component>) {
    forall y :: y in cb && y.IsUnique() ==> y.Key() in m && UniqueEquals(y, m[y.Key()])
  }

  lemma AllFoundCons(m: map<UniqueKey, Component>, cb: seq<Component>)
    requires |cb| > 0
    ensures AllFound(m, cb) <==>
            (cb[0].IsUnique() ==> cb[0].Key() in m && UniqueEquals(cb[0], m[cb[0].Key()])) && AllFound(m, cb[1..])
  {
    assert forall y :: y in cb <==> y == cb[0] || y in cb[1..];
  }

  /** Removing an entry no component of `cb` looks up changes nothing. */
  lemma AllFoundRemove(m: map<UniqueKey, Component>, k: UniqueKey, cb: seq<Component>)
    requires k !in UniqueKeys(cb)
    ensures AllFound(m, cb) <==> AllFound(m - {k}, cb)
  {
    forall y | y in cb && y.IsUnique()
      ensures y.Key() != k
    {
    }
  }

  lemma NoDuplicatesCons(cb: seq<Component>)
    requires |cb| > 0
    ensures NoDuplicateUniques(cb) <==>
            (cb[0].IsUnique() ==> cb[0].Key() !in UniqueKeys(cb[1..])) && NoDuplicateUniques(cb[1..])
  {
    var tail := cb[1..];
    if cb[0].IsUnique() {
      var k := cb[0].Key();
      if k in UniqueKeys(tail) {
        var y :| y in tail && y.IsUnique() && y.Key() == k;
        var j :| 0 <= j < |tail| && tail[j] == y;
        assert cb[j + 1] == y;
      } else {
        forall j | 1 <= j < |cb| && cb[j].IsUnique()
          ensures cb[j].Key() != k
        {
          assert cb[j] in tail;
        }
      }
    }
  }

  /** What `Reconcile` decides, for any dictionary. */
  lemma {:induction false} ReconcileMeaning(m: map<UniqueKey, Component>, cb: seq<Component>)
    ensures Reconcile(m, cb) <==> NoDuplicateUniques(cb) && UniqueKeys(cb) == m.Keys && AllFound(m, cb)
    decreases |cb|
  {
    if |cb| > 0 {
      var tail := cb[1..];
      UniqueKeysCons(cb);
      AllFoundCons(m, cb);
      NoDuplicatesCons(cb);
      if !cb[0].IsUnique() {
        ReconcileMeaning(m, tail);
      } else {
        var k := cb[0].Key();
        if k in m && UniqueEquals(cb[0], m[k]) {
          ReconcileMeaning(m - {k}, tail);
          if k !in UniqueKeys(tail) {
            AllFoundRemove(m, k, tail);
          }
        }
      }
    }
  }

  /** The dictionary-based code decides exactly `UniquesMatch`. */
  lemma ReconcileDictionary(ca: seq<Component>, cb: seq<Component>)
    requires NoDuplicateUniques(ca)
    ensures Reconcile(ToDictionary(ca), cb) <==> UniquesMatch(ca, cb)
  {
    var d := ToDictionary(ca);
    ReconcileMeaning(d, cb);
    if UniquesMatch(ca, cb) {
      forall y | y in cb && y.IsUnique()
        ensures y.Key() in d && UniqueEquals(y, d[y.Key()])
      {
        assert y.Key() in UniqueKeys(ca);
        var x :| x in ca && x.IsUnique() && x.Key() == y.Key();
      }
    }
  }

  /** `IsExtendedStackable` as a rule: two items without extension data stack;
      when one side is extended it stacks exactly when it has no unique
      component; when both are, exactly when their unique components match. */
  lemma StackableRule(a: Item, b: Item)
    requires b.IsExtended() ==> !a.Null?
    requires a.IsExtended() && b.IsExtended() ==> NoDuplicateUniques(a.components)
    ensures !a.IsExtended() && !b.IsExtended() ==> IsExtendedStackable(a, b)
    ensures a.IsExtended() && !b.IsExtended() ==> (IsExtendedStackable(a, b) <==> !HasUnique(a.components))
    ensures !a.IsExtended() && b.IsExtended() ==> (IsExtendedStackable(a, b) <==> !HasUnique(b.components))
    ensures a.IsExtended() && b.IsExtended() ==>
              (IsExtendedStackable(a, b) <==> UniquesMatch(a.components, b.components))
  {
    if a.IsExtended() && b.IsExtended() {
      ReconcileDictionary(a.components, b.components);
    }
  }

  /** Unmatched unique types block stacking in either direction, and so does
      a second unique component of one type in `b`. */
  lemma MismatchBlocks(ca: seq<Component>, cb: seq<Component>)
    requires NoDuplicateUniques(ca)
    ensures (exists y :: y in cb && y.IsUnique() && y.Key() !in UniqueKeys(ca))
            ==> !IsExtendedStackable(Extended(ca), Extended(cb))
    ensures (exists x :: x in ca && x.IsUnique() && x.Key() !in UniqueKeys(cb))
            ==> !IsExtendedStackable(Extended(ca), Extended(cb))
    ensures !NoDuplicateUniques(cb) ==> !IsExtendedStackable(Extended(ca), Extended(cb))
  {
    StackableRule(Extended(ca), Extended(cb));
  }

  /** With the same unique types on both sides, the items stack exactly when
      every pair of same-typed unique components is `Equals`. */
  lemma SameTypesDecidedByEquals(ca: seq<Component>, cb: seq<Component>)
    requires NoDuplicateUniques(ca) && NoDuplicateUniques(cb)
    requires UniqueKeys(ca) == UniqueKeys(cb)
    ensures IsExtendedStackable(Extended(ca), Extended(cb)) <==>
            forall x, y :: x in ca && y in cb && x.IsUnique() && y.IsUnique() && x.Key() == y.Key() ==> UniqueEquals(y, x)
  {
    StackableRule(Extended(ca), Extended(cb));
  }

  lemma UniqueEqualsSymmetric(x: Component, y: Component)
    ensures UniqueEquals(x, y) <==> UniqueEquals(y, x)
  {
    match (x, y)
    case (SaveSkillComp(s), SaveSkillComp(t)) => EqualsIsEquivalence(s, t, t);
    case _ =>
  }

  /** The decision does not depend on which item is already in the slot. */
  lemma StackableSymmetric(a: Item, b: Item)
    requires a.IsExtended() || b.IsExtended() ==> !a.Null? && !b.Null?
    requires a.IsExtended() ==> NoDuplicateUniques(a.components)
    requires b.IsExtended() ==> NoDuplicateUniques(b.components)
    ensures IsExtendedStackable(a, b) == IsExtendedStackable(b, a)
  {
    StackableRule(a, b);
    StackableRule(b, a);
    if a.IsExtended() && b.IsExtended() {
      var ca, cb := a.components, b.components;
      forall x, y | x in ca && y in cb && x.IsUnique() && y.IsUnique() && x.Key() == y.Key()
        ensures UniqueEquals(y, x) <==> UniqueEquals(x, y)
      {
        UniqueEqualsSymmetric(x, y);
      }
    }
  }

  /** An item stacks with itself when its unique components have distinct
      types. */
  lemma StackableReflexive(a: Item)
    requires a.IsExtended() ==> NoDuplicateUniques(a.components)
    ensures IsExtendedStackable(a, a)
  {
    StackableRule(a, a);
    if a.IsExtended() {
      var ca := a.components;
      forall x, y | x in ca && y in ca && x.IsUnique() && y.IsUnique() && x.Key() == y.Key()
        ensures UniqueEquals(y, x)
      {
        NoDuplicatesSameKey(ca, x, y);
        match x
        case SaveSkillComp(s) => EqualsIsEquivalence(s, s, s);
        case OtherUnique(_, _) =>
      }
    }
  }

  /** Without duplicate types, two unique components of one type are one
      component. */
  lemma {:induction false} NoDuplicatesSameKey(cs: seq<Component>, x: Component, y: Component)
    requires NoDuplicateUniques(cs)
    requires x in cs && y in cs && x.IsUnique() && y.IsUnique() && x.Key() == y.Key()
    ensures x == y
    decreases |cs|
  {
    if x != cs[0] && y != cs[0] {
      assert x in cs[1..] && y in cs[1..];
      NoDuplicatesSameKey(cs[1..], x, y);
    }
  }

  /** The unique components of `cs`, in order. */
  function Uniques(cs: seq<Component>): (us: seq<Component>)
    ensures forall c :: c in us <==> c in cs && c.IsUnique()
  {
    if |cs| == 0 then []
    else if cs[0].IsUnique() then [cs[0]] + Uniques(cs[1..])
    else Uniques(cs[1..])
  }

  lemma {:induction false} UniquesKeepShape(cs: seq<Component>)
    ensures UniqueKeys(Uniques(cs)) == UniqueKeys(cs)
    ensures NoDuplicateUniques(Uniques(cs)) == NoDuplicateUniques(cs)
    ensures HasUnique(Uniques(cs)) == HasUnique(cs)
    decreases |cs|
  {
    if |cs| > 0 {
      UniquesKeepShape(cs[1..]);
      var us := Uniques(cs);
      if cs[0].IsUnique() {
        assert us[1..] == Uniques(cs[1..]);
      }
    }
  }

  /** Non-unique components never affect the decision: dropping them from
      either item gives the same answer. */
  lemma NonUniqueIrrelevant(a: Item, b: Item)
    requires b.IsExtended() ==> !a.Null?
    requires a.IsExtended() && b.IsExtended() ==> NoDuplicateUniques(a.components)
    ensures var a' := if a.IsExtended() then Extended(Uniques(a.components)) else a;
            var b' := if b.IsExtended() then Extended(Uniques(b.components)) else b;
            (a'.IsExtended() && b'.IsExtended() ==> NoDuplicateUniques(a'.components))
            && IsExtendedStackable(a, b) == IsExtendedStackable(a', b')
  {
    var a' := if a.IsExtended() then Extended(Uniques(a.components)) else a;
    var b' := if b.IsExtended() then Extended(Uniques(b.components)) else b;
    if a.IsExtended() { UniquesKeepShape(a.components); }
    if b.IsExtended() { UniquesKeepShape(b.components); }
    StackableRule(a, b);
    StackableRule(a', b');
  }

  /** Two cooked items of one level stack; a happy one does not stack with a
      plain one; an item with a unique component does not stack with an
      extended item that has none. */
  lemma StackingExamples()
    ensures IsExtendedStackable(Extended([SaveSkillComp(SaveSkill(50, false))]), Extended([SaveSkillComp(SaveSkill(50, false))]))
    ensures !IsExtendedStackable(Extended([SaveSkillComp(SaveSkill(50, false))]), Extended([SaveSkillComp(SaveSkill(50, true))]))
    ensures !IsExtendedStackable(Extended([SaveSkillComp(SaveSkill(50, false))]), Extended([]))
    ensures !IsExtendedStackable(Extended([SaveSkillComp(SaveSkill(50, false))]), Plain)
    ensures IsExtendedStackable(Null, Plain) && IsExtendedStackable(Plain, Plain)
  {
    var one := [SaveSkillComp(SaveSkill(50, false))];
    assert one[1..] == [];
    var happy := [SaveSkillComp(SaveSkill(50, true))];
    assert happy[1..] == [];
    assert one[0].IsUnique();
  }
}
