# Cooking: skill bonus on cooked food, as a Dafny model

This project models the core of the Cooking plugin. The plugin gives cooked food a cooking level and a rare "happy" (perfectly cooked) flag when the food is created. It multiplies the food's health, stamina and regen stats by a bonus that grows with that level. It keeps those bonuses in step when an administrator changes a bonus factor at run time. It also decides whether two items carrying such "unique" components may share an inventory stack.

It is all in `Cooking/Cooking.cs` and is modelled in seven modules:

- `Stacking` (`stacking.dfy`) models `IsExtendedStackable`. A closed `Component` datatype (`SaveSkill`, another unique component type, a non-unique component) replaces the reflection over `ExtendedItemUnique<T>`. The model's `Reconcile` is the `foreach` over `b`'s components, including dictionary removal and the final emptiness test. `UniquesMatch` restates the two-sided rule without the dictionary.
- `SkillComponent` (`skill_component.dfy`) models the `SaveSkill` component: its two fields, `Equals`, `Serialize` / `Deserialize`, and the `active` registry. The constructor, the `skill` setter and the finaliser all write that registry.
- `Decimal` (`decimal.dfy`) models `int.ToString()` and `int.TryParse` under `NumberStyles.Integer`. The latter allows surrounding white space, an optional sign, digits and the Int32 range, and yields 0 on failure.
- `Creation` (`creation.dfy`) models the level `RoundToInt(factor * 100 / 5) * 5`, with `Mathf.RoundToInt` as round-half-to-even over exact reals. It also models the happy roll against `Random.Range(0, 100)`.
- `Rescale` (`rescale.dfy`) models the per-channel multiplier `1 + L * (f - 1) / 100` and `Apply`. It also models the `SettingChanged` sweep, as a function and as the `foreach` over the registry, which the model takes to be unchanged during the loop.
- `Lifecycle` (`lifecycle.dfy`) models the live state: blueprints, the registry, and the factor each handler last saw. It covers the creation and load events, factor edits and the finaliser. It also states the invariant they keep: every registered blueprint holds base stats times the multiplier of its level at the current factors.
- `Wrappers` (`wrappers.dfy`) is an `Option` type.

Inputs the plugin reads from its host become parameters:
- whether a player is cooking;
- the cook's skill factor;
- the random roll;
- the configured factors and happy minimum;
- a blueprint id for each `SharedData` object.

Floats are idealised as exact `real`s.

Three facts about the code shape the model:
- `Apply` (`Cooking/Cooking.cs:359-364`) multiplies all three channels unconditionally. It has no inverse and no "applied" flag, and nothing ever divides a bonus back out except the factor sweeps.
- `Deserialize("")` (`Cooking/Cooking.cs:349`) leaves the component untouched. On a freshly constructed component that means level 0 and not happy: `Lifecycle.LoadEmpty`.
- The happy roll (`Cooking/Cooking.cs:125`) is an integer in [0, 99], because `Random.Range(int, int)` excludes its upper bound.

## Model

| member | source | states |
|---|---|---|
| `Stacking.StackableRule` | Cooking/Cooking.cs:380-430 | Two items that are not extended (null or plain) always stack. If exactly one is extended, they stack iff that item has no unique component. If both are extended, they stack iff their unique components match under `UniquesMatch`: no repeated unique type in `b`, the same unique types on both sides, and each `b` component `Equals` its counterpart in `a`. |
| `Stacking.ReconcileMeaning` | Cooking/Cooking.cs:408-429 | For any dictionary, the loop over `b` with removal and the final emptiness check accepts iff three things hold: `b` repeats no unique type, `b`'s unique types are exactly the dictionary's keys, and every unique `b` component is `Equals` to the entry of its type. |
| `Stacking.ReconcileDictionary` | Cooking/Cooking.cs:398-429 | Running the loop over the dictionary built from `a` decides exactly `UniquesMatch(a, b)`. |
| `Stacking.IsExtendedStackable` | Cooking/Cooking.cs:380-430 | No ensures of its own. Its contract is `Stacking.StackableRule`, and with `Stacking.MismatchBlocks` and `Stacking.SameTypesDecidedByEquals` it covers every case. |
| `Stacking.Reconcile` | Cooking/Cooking.cs:408-429 | No ensures of its own. Its meaning for every dictionary is `Stacking.ReconcileMeaning`. |
| `Stacking.UniqueEquals` | Cooking/Cooking.cs:414 | No ensures of its own. It is `SaveSkill.Equals` for two `SaveSkill` components, and payload equality for another unique type. Its symmetry is `Stacking.UniqueEqualsSymmetric`. |
| `Stacking.ToDictionary` | Cooking/Cooking.cs:398-406 | When `a` repeats no unique type, the dictionary's keys are exactly `a`'s unique types, and each key maps to the component of that type. |
| `Stacking.MismatchBlocks` | Cooking/Cooking.cs:408-429 | Both extended: the items do not stack if `b` has a unique type `a` lacks, or if `a` has one `b` lacks. They also do not stack if `b` holds two unique components of one type, since the second finds its entry already removed. |
| `Stacking.SameTypesDecidedByEquals` | Cooking/Cooking.cs:412-419 | When neither item repeats a unique type and both carry the same unique types, the items stack iff every same-typed pair is `Equals`. A repeat in `b` blocks stacking on its own: `Stacking.MismatchBlocks`. |
| `Stacking.NonUniqueIrrelevant` | Cooking/Cooking.cs:387-410 | Dropping every non-unique component from either extended item never changes the decision. |
| `Stacking.StackableSymmetric` | Cooking/Cooking.cs:380-430 | When neither item repeats a unique type, swapping `a` and `b` gives the same answer. This rests on `Equals` being symmetric: true of `SaveSkill.Equals`, and of the payload equality that stands in for other unique types. A host-defined `Equals` need not be symmetric. |
| `Stacking.StackableReflexive` | Cooking/Cooking.cs:380-430 | An item that repeats no unique type stacks with itself. This rests on `Equals` being reflexive: true of `SaveSkill.Equals`, and of the payload equality that stands in for other unique types. |
| `Stacking.UniqueEqualsSymmetric` | Cooking/Cooking.cs:414 | The type-specific equality used by the decision is symmetric. |
| `Stacking.StackingExamples` | Cooking/Cooking.cs:380-430 | Two level-50 non-happy items stack. A happy one and a non-happy one do not. An item with `SaveSkill` does not stack with an extended item without it, nor with a plain item. Null and plain items stack. |
| `SkillComponent.Equals` | Cooking/Cooking.cs:366 | No ensures of its own. `SkillComponent.EqualsIsEquivalence` shows it is an equivalence that holds exactly for equal components. |
| `SkillComponent.Register` | Cooking/Cooking.cs:340-343 | The constructor adds the item's blueprint to the registry with level 0, or resets it to 0. Every other entry keeps its level. |
| `SkillComponent.SetSkill` | Cooking/Cooking.cs:328-336 | The setter changes the component's level and no other field. It writes the level under the item's blueprint, and every other registry entry keeps its level. |
| `SkillComponent.Unregister` | Cooking/Cooking.cs:368-371 | The finaliser removes the item's blueprint from the registry. Every other entry stays, with its level. |
| `SkillComponent.EqualsIsEquivalence` | Cooking/Cooking.cs:366 | `SaveSkill.Equals` is reflexive, symmetric and transitive. It holds exactly when level and happy flag both agree. |
| `SkillComponent.Serialize` | Cooking/Cooking.cs:345 | The persisted string is never empty. It starts with '1' or '0', and with '1' exactly when the component is happy. |
| `SkillComponent.Deserialize` | Cooking/Cooking.cs:347-355 | An empty string changes neither the component nor the registry. Otherwise the component is happy iff the first character is '1', and its level is `int.TryParse` of the rest (0 on failure). That level is written into the registry under the item's blueprint, and no other key changes. |
| `SkillComponent.DeserializeSerialize` | Cooking/Cooking.cs:345-355 | `Deserialize(Serialize(s))` restores both fields of `s` for every Int32 level, whatever the component held before, and records the level in the registry. |
| `SkillComponent.SerializeInjective` | Cooking/Cooking.cs:345 | Two components have the same persisted string iff they are `Equals`. |
| `SkillComponent.DeserializeHappy75` | Cooking/Cooking.cs:347-355 | "175" loads as happy with level 75. |
| `SkillComponent.DeserializeDegenerate` | Cooking/Cooking.cs:349-353 | "" changes nothing. "1" loads as happy with level 0. A flag followed by a non-number ("0x5") loads with level 0. |
| `SkillComponent.RegistryLifecycle` | Cooking/Cooking.cs:328-371 | For a blueprint not yet registered, the constructor's entry is overwritten by the setter's level. The finaliser then restores the registry exactly. |
| `Decimal.IntToString` | Cooking/Cooking.cs:345 | The decimal text is non-empty and starts with '-' exactly for a negative number. That `int.TryParse` reads it back exactly is `Decimal.TryParseIntToString`. |
| `Decimal.TryParse` | Cooking/Cooking.cs:352 | The result is the number the text spells when the text is an optionally signed digit run within the Int32 range, with white space trimmed from both ends. Otherwise it is 0. |
| `Decimal.TryParseIntToString` | Cooking/Cooking.cs:345-352 | `int.TryParse` reads back every Int32 that `int.ToString` writes, including negative numbers and `int.MinValue`. |
| `Decimal.TryParseBlank` | Cooking/Cooking.cs:352 | An empty or all-white-space tail is not a number and yields 0. |
| `Decimal.DigitsRoundTrip` | Cooking/Cooking.cs:345-352 | Reading back the decimal digits written for a natural number gives that number. |
| `Creation.RoundToInt` | Cooking/Cooking.cs:124 | The rounded integer is within one half of its input, and a tie goes to the even neighbour. |
| `Creation.RoundToIntNearest` | Cooking/Cooking.cs:124 | Any integer strictly within one half of the input is the rounding. |
| `Creation.CreationLevel` | Cooking/Cooking.cs:124 | The level is a multiple of 5 within 2.5 of the skill factor in percent, so it is the nearest multiple of 5. It lies in [0, 100] when the factor is in [0, 1]. |
| `Creation.CreationLevelExamples` | Cooking/Cooking.cs:124 | Factor 0 gives level 0, factor 1 gives 100, and factor 0.73 gives 75. |
| `Creation.CreationLevelMonotone` | Cooking/Cooking.cs:124 | A higher skill factor never gives a lower level. |
| `Creation.RollHappy` | Cooking/Cooking.cs:125-128 | No ensures of its own. Its contract is `Creation.RollHappyBounds` and `Creation.HappyChance`. |
| `Creation.RollHappyBounds` | Cooking/Cooking.cs:125-128 | An item is never happy when the minimum is 0 or the level is below the minimum. It is always happy when the minimum is positive and the level exceeds it by 99 or more. |
| `Creation.HappyChance` | Cooking/Cooking.cs:125 | With a positive minimum, clamp(level - minimum + 1, 0, 100) of the 100 possible rolls make the item happy, so that is the chance in percent. With the feature off, no roll does. |
| `Rescale.Multiplier` | Cooking/Cooking.cs:361-363 | The multiplier is 1 at level 0 or factor 1, and equals the factor at level 100. It is at least 1 for a non-negative level and a factor of at least 1. |
| `Rescale.ApplyLevelZero` | Cooking/Cooking.cs:359-364 | `Apply` at level 0 leaves the blueprint unchanged. |
| `Rescale.SweepDefinedInRange` | Cooking/Cooking.cs:72-74 | With non-negative levels and factors in the configured range (at least 1), no registered multiplier is 0, so every sweep ratio is defined. |
| `Rescale.Apply` | Cooking/Cooking.cs:359-364 | Every channel is scaled by the multiplier of the component's level at that channel's factor. `Rescale.ApplyLevelZero` and `Rescale.RescaledApply` relate it to the sweep. |
| `Rescale.Rescaled` | Cooking/Cooking.cs:87 | One registered blueprint's step of the sweep. Afterwards the channel times the old multiplier equals its earlier value times the new multiplier. So a channel that carried the bonus at the old factor carries it at the new one, and other channels are unchanged. |
| `Rescale.Sweep` | Cooking/Cooking.cs:83-90 | A factor change keeps the set of blueprints. It leaves unregistered blueprints unchanged, and changes no channel other than the one whose factor changed. |
| `Rescale.SweepLoop` | Cooking/Cooking.cs:85-88 | The `foreach` over the registry, rescaling one blueprint per step, computes exactly `Sweep`. The registry is taken to be unchanged during the loop. |
| `Rescale.SweepTracksFactor` | Cooking/Cooking.cs:83-90 | Suppose each registered blueprint's channel equals its base times the multiplier at the old factor. Then after the sweep it equals its base times the multiplier at the new factor. |
| `Rescale.RescaledApply` | Cooking/Cooking.cs:87-89 | A blueprint carrying `Apply`'s bonus, rescaled from the old factor to a new one, carries the bonus at the updated factors. |
| `Rescale.SweepCompose` | Cooking/Cooking.cs:83-90 | Two successive sweeps of one channel (f1 to f2, then f2 to f3) equal one direct sweep from f1 to f3. |
| `Rescale.SweepUndo` | Cooking/Cooking.cs:83-90 | Changing a factor and changing it back restores every blueprint. |
| `Lifecycle.SettingChanged` | Cooking/Cooking.cs:82-110 | A factor edit leaves the registry alone. It records the new factor for its channel and keeps the other channels' factors. |
| `Lifecycle.SettingChangedConsistent` | Cooking/Cooking.cs:82-110 | A factor edit preserves the invariant that every registered blueprint holds its base stats times the multiplier of its level at the current factors. |
| `Lifecycle.EditsKeepConsistent` | Cooking/Cooking.cs:82-110 | Apply any run of edits whose factors are at least 1. Afterwards every registered blueprint holds its base stats times the multiplier at the final factors, which are each channel's last edit. The outcome does not depend on the path. |
| `Lifecycle.OnNewItem` | Cooking/Cooking.cs:119-132 | A component is attached iff a player is cooking and the item has positive health and stamina. It then carries the creation level and the happy roll, and the blueprint is registered under that level and scaled by `Apply`. Otherwise nothing changes. |
| `Lifecycle.NewItemKeepsConsistent` | Cooking/Cooking.cs:119-132 | A new item on a blueprint not yet registered preserves the invariant, taking its pre-bonus stats as base. The registry's levels stay non-negative. |
| `Lifecycle.OnLoadItem` | Cooking/Cooking.cs:133 | Loading registers the blueprint under the deserialized level and scales it by `Apply` at the current factors. |
| `Lifecycle.LoadSaved` | Cooking/Cooking.cs:133 | Loading the string `Serialize` wrote restores the component exactly. |
| `Lifecycle.LoadEmpty` | Cooking/Cooking.cs:133 | An empty saved string loads as level 0, not happy, and leaves the blueprint's stats unchanged. |
| `Lifecycle.LoadKeepsConsistent` | Cooking/Cooking.cs:133 | Loading onto a blueprint not yet registered preserves the invariant. |
| `Lifecycle.Finalize` | Cooking/Cooking.cs:368-371 | The finaliser removes the blueprint from the registry and leaves its stats and the factors alone. |
| `Lifecycle.FinalizeKeepsConsistent` | Cooking/Cooking.cs:368-371 | Finalising preserves the invariant. The released blueprint keeps its bonus, and later factor edits no longer touch it. |

## Left out

- Harmony patches and IL transpilers (`Cooking/Cooking.cs:136-182`, `245-283`, `432-504`) rewrite host methods at run time. Only the decision they call, `IsExtendedStackable`, is modelled.
- BepInEx configuration binding and ServerSync (`Cooking/Cooking.cs:28-49`, `70-80`) are host plumbing. Factors and the happy minimum are parameters, and their declared ranges appear as preconditions where a proof needs them.
- The experience-gain, happy-buff duration and happy-buff strength handlers (`Cooking/Cooking.cs:79`, `112-113`) only forward values to the host.
- The "Cooking IncreaseSkill" RPC and the ZDO reads and writes (`Cooking/Cooking.cs:130`, `141`, `152`) are network transport. The skill factor is a parameter.
- Sprites, the "Happy" status effect and tooltip text (`Cooking/Cooking.cs:184-264`) are engine objects and string presentation.
- Player save/load of food bonuses (`Cooking/Cooking.cs:285-320`) is host glue. It clones the blueprint with `MemberwiseClone` before `Apply` (`:312`).
- Floats and their rounding are idealised as exact `real`s. The drift that repeated sweeps accumulate in floats is not modelled.
- The finaliser runs on the runtime's finaliser thread, when the garbage collector decides. Here it is an explicit call between events, `Lifecycle.Finalize`. Its `active.Remove` (`:370`) can run in the middle of a `SettingChanged` `foreach` (`:85`, `:95`, `:105`). The next `MoveNext` then throws, so the remembered factor (`:89`, `:99`, `:109`) is never updated and some blueprints are left rescaled while others are not. That concurrent removal and its consequence are not modelled.
- `SaveSkill.Clone` (`:357`) copies a component with `MemberwiseClone`, so the constructor's registry write (`:342`) does not run for the copy. The copy's finaliser (`:370`) still removes the blueprint from the registry. Finalising a clone is one more `Lifecycle.Finalize`, and clones are not modelled separately.
- `UnityEngine.Random` is replaced by the roll, a parameter in [0, 99].
- ExtendedItemDataFramework is not part of this model: `IsExtended`, `Extended`, `Components`, `AddComponent`, and the order in which it constructs, deserializes and raises `LoadExtendedItemData`. `Lifecycle.OnLoadItem` assumes the order constructor, `Deserialize`, `Apply`.
- Stacking.IsExtendedStackable: requires `a` to be non-null when `b` is extended, because the code calls `a.IsExtended()` there (`:393`). The framework's source is outside this model. If that call tolerates null, such an `a` would behave like a plain item.
- Stacking.IsExtendedStackable: requires that `a` holds no two unique components of one type when both items are extended. `ToDictionary` (`:406`) throws in that case, and the exception is not modelled.
- Stacking.UniqueEquals: unique component types other than `SaveSkill` stand for host-defined types. Their `Equals` is modelled as equality of a payload.
- SkillComponent.Deserialize: a string here is a sequence of Unicode scalar values, while C# indexes UTF-16 code units. The two differ when the saved string's first character lies outside the Basic Multilingual Plane. For "\U{1F600}5", C#'s `data[0]` (`:351`) is a high surrogate, so the item is not happy. `data.Substring(1)` (`:352`) then starts with a lone low surrogate, so the level is 0. The model instead reads the level from "5". Strings written by `Serialize` are ASCII and are not affected: `SkillComponent.DeserializeSerialize`.
- Decimal.TryParse: culture-specific signs and trailing NUL characters, which .NET also accepts, are not modelled.
- Rescale.Sweep: requires every registered level to have a non-zero multiplier at the old factor. A corrupted save with a negative level can violate this, and the float code would then divide by zero and produce an infinity. Levels in the registry are non-negative for every item created with a skill factor in [0, 1].
- Lifecycle.NewItemKeepsConsistent and Lifecycle.LoadKeepsConsistent: stated only for blueprints not yet registered. Two live components on one shared blueprint would both multiply it, while the registry keeps only the last level, so the invariant cannot hold there.
