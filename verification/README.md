# Step-schema composition for Concourse pipeline JSON Schema

This project models, in Dafny, how the generator of a JSON Schema for Concourse pipeline
files composes its document. It starts from the schema reflected from the root pipeline
configuration type, whose definitions table holds an abstract `Step` placeholder. It then
edits that document in place:

1. Each of the eight core step variants (`GetStep`, `PutStep`, `TaskStep`,
   `SetPipelineStep`, `LoadVarStep`, `InParallelStep`, `DoStep`, `TryStep`) is reflected, in
   that order. Its top-level node is appended to `Step.anyOf`, and its sub-definitions are
   merged into the table insert-if-absent, so the first writer wins.
2. Each of the eight hook and modifier step types is reflected for its sub-definitions
   only. These are merged the same way and never join the union.
3. The nine hook properties (`on_success`, `on_failure`, `on_abort`, `on_error`, `ensure`,
   `timeout`, `attempts`, `across`, `fail_fast`) are set on every core variant definition
   that is present. They override same-named properties.
4. `Step` loses its own `required`, `properties`, `type` and `additionalProperties`, so it
   validates only through its union.
5. The root document accepts additional properties, and `CheckEvery` is retyped as a plain
   string.

Layout:

- `json_schema.dfy` (`JsonSchema`): schema nodes, the definitions table, reflected fragments.
- `step_catalog.dfy` (`StepCatalog`): the fixed names (`Step`, `CheckEvery`, the variant and
  hook-type lists).
- `definition_merge.dfy` (`DefinitionMerge`): insert-if-absent merge and its laws.
- `hook_injection.dfy` (`HookInjection`): the hook property set and its injection.
- `composition.dfy` (`Composition`): the value computed by the whole composition, and the
  lemmas about it.
- `step_schema.dfy` (`StepSchema`): the `Schema` class. Its methods perform the same loops
  and field assignments as the Go code, and each is proved to yield the values above.

Reflection is an input. Each reflected type is a `Fragment`: a top-level node plus a
definitions table. `ComposeSteps` takes the fragments of the core variants and of the
hook and modifier types, listed in the code's order.

Facts about `main.go` that shape the model:

- Eight hook and modifier types are reflected (main.go:31-40); nine hook properties are
  injected (main.go:65-75). `fail_fast` has no reflected type.
- A missing `Step` or `CheckEvery` makes the code dereference a nil pointer (main.go:45, 86,
  97); both are preconditions.
- `Properties.Set` on a nil ordered map also dereferences a nil pointer (main.go:81), so
  every core variant left in the table after merging must have a property map
  (`HookTargetsReady`).
- After injection a variant's properties are its own plus the nine hooks.

## Model

| member | source | states |
|---|---|---|
| `DefinitionMerge.Merged` | main.go:46-50 | Insert-if-absent. The result's names are exactly the old names plus the incoming ones. Every old name keeps its definition. Every new name gets the incoming definition. |
| `DefinitionMerge.MergeAllKeys` | main.go:43-61 | After merging any list of fragments, the table holds exactly the seeded names plus every name some fragment defines. |
| `DefinitionMerge.MergeAllKeepsExisting` | main.go:46-50 | A name already in the table keeps its definition through any sequence of merges. |
| `DefinitionMerge.MergeAllFirstWriterWins` | main.go:46-50 | A name absent from the seed ends up bound to the definition from the first fragment in the list that defines it. Later fragments are discarded. |
| `DefinitionMerge.MergeAllAppend` | main.go:43-61 | Merging a concatenated list equals merging the first part, then the second. The core pass followed by the hook pass is one ordered merge. |
| `DefinitionMerge.MergeAllIdempotent` | main.go:56-60 | Merging the same fragments a second time leaves the table of merging them once. |
| `DefinitionMerge.MergeAllUpdateExisting` | main.go:45-48 | Replacing the definition of a name already in the table commutes with merging, because no fragment overwrites it. Extending `Step.anyOf` between merges is therefore sound. |
| `Composition.Tops` | main.go:43-45 | One union entry per fragment, in list order: the fragment's own top-level node. |
| `HookInjection.WithHooks` | main.go:80-82 | After the hooks are set on a variant: its property names are its old names plus the nine hook names. Each hook is bound to its fixed type. Other properties and keywords are unchanged. |
| `HookInjection.Injected` | main.go:78-84 | Injection creates no definition. It leaves non-variant definitions unchanged. Every present variant's property names become exactly its old names plus the nine hook names. The hooks carry their fixed types, and the variant keeps its other properties and keywords. |
| `Composition.Overridden` | main.go:97 | `CheckEvery` gets type `"string"` and keeps its other keywords. Every other definition and name is unchanged. |
| `Composition.MergedUnion` | main.go:43-61 | Appending to the union inside the core loop equals merging everything first, then setting `Step` to its extended union. |
| `Composition.ComposedAt` | main.go:63-84 | Outside `Step`, the composed table is the merged table with hooks injected into the core variants. |
| `Composition.ComposedKeys` | main.go:12-90 | The composed table holds exactly the seeded names and the names defined by any core or hook fragment. |
| `Composition.ComposedStep` | main.go:86-89 | The final `Step` is the relaxed form of the seeded `Step` with the core tops appended to its union. |
| `Composition.ComposedStepUnion` | main.go:43-89 | The final `Step.anyOf` is the old alternatives followed by exactly one entry per core variant, in order and without deduplication. Its `type` is `""`. Its `properties`, `required` and `additionalProperties` are absent. `$ref` and `items` are unchanged. |
| `Composition.ComposedStepIgnoresHooks` | main.go:54-61 | The final `Step` does not depend on the hook and modifier fragments. They never join the union. |
| `Composition.ComposedVariantHooks` | main.go:65-84 | Every core variant that the seed or any fragment defines ends with exactly its merged property names plus the nine hook names. The hooks are bound to their fixed types and override same-named properties. It keeps its other properties and all other keywords. |
| `Composition.ComposedKeepsSeeded` | main.go:46-84 | A seeded definition other than `Step` and the core variants comes out unchanged. |
| `Composition.ComposedFirstWriterWins` | main.go:43-61 | A name that is neither seeded nor a variant ends bound to its first definer among the core fragments followed by the hook fragments. |
| `Composition.ComposedCoreWins` | main.go:43-84 | Whatever the hook fragments define, a name other than `Step` that a core fragment defines keeps the definition from the core pass. For a core variant, that definition also receives the nine hooks (`WithHooks`). |
| `HookInjection.HookProperties` | main.go:65-75 | The fixed table of nine hook properties: five refer to `Step`, `timeout` is a string, `attempts` an integer, `across` an array of `AcrossVarConfig` references, `fail_fast` a boolean. Its guarantees are stated by the `WithHooks`, `Injected` and `ComposedVariantHooks` rows. |
| `Composition.Composable` | main.go:45-81 | `Step` is present, and the property map of every variant left after both merges exists (`HookTargetsReady`). These are the nil-dereference conditions. It is the precondition of `Composed`, `ComposeSteps` and `GenerateSchema`. |
| `HookInjection.HookTargetsReady` | main.go:81 | Every core variant present in the table has a property map, so `Properties.Set` does not dereference nil. It is the precondition of `Injected` and `InjectHooks`. |
| `DefinitionMerge.MergeAll` | main.go:43-61 | The list-order merge passes. Its facts are stated by the `MergeAllKeys`, `MergeAllKeepsExisting`, `MergeAllFirstWriterWins`, `MergeAllAppend`, `MergeAllIdempotent` and `MergeAllUpdateExisting` rows. |
| `Composition.Unioned` | main.go:45 | `Step` with the core tops appended to its `anyOf`. Its facts are stated by the `MergedUnion`, `ComposedStep` and `ComposedStepUnion` rows. |
| `Composition.Relaxed` | main.go:86-89 | `Step` with `required`, `properties`, `type` and `additionalProperties` cleared. Its facts are stated by the `ComposedStepUnion` and `RelaxStep` rows. |
| `Composition.Composed` | main.go:12-90 | The table at the end of the routine. Its facts are stated by the `ComposedKeys`, `ComposedStepUnion`, `ComposedStepIgnoresHooks`, `ComposedVariantHooks`, `ComposedKeepsSeeded`, `ComposedFirstWriterWins` and `ComposedCoreWins` rows. |
| `StepSchema.Schema.constructor` | main.go:94 | The document starts as the reflected root configuration: its top-level node and its definitions. |
| `StepSchema.Schema.MergeDefinitions` | main.go:46-50 | The loop over incoming names leaves the table equal to `Merged(old table, incoming)`. Only the table changes. |
| `StepSchema.Schema.AddCoreSteps` | main.go:43-51 | The core loop leaves the table equal to the list-order merge of the core fragments into the seed, whose `Step.anyOf` is extended by their tops. |
| `StepSchema.Schema.AddHookDefinitions` | main.go:54-61 | The hook loop leaves the table equal to the list-order merge of the hook fragments. `anyOf` is untouched. |
| `StepSchema.Schema.SetHookProperties` | main.go:80-82 | Setting each hook in turn leaves the named variant equal to `WithHooks` of its old definition. Nothing else changes. |
| `StepSchema.Schema.InjectHooks` | main.go:78-84 | The loop over the variant names leaves the table equal to `Injected(old table)`. |
| `StepSchema.Schema.RelaxStep` | main.go:86-89 | Only `Step` changes: `required` and `properties` cleared, `type` `""`, `additionalProperties` absent. |
| `StepSchema.Schema.ComposeSteps` | main.go:12-90 | The whole routine leaves the table equal to `Composed(old table, core, hooks)`. The lemmas above state what that table satisfies. |
| `StepSchema.Schema.ApplyOverrides` | main.go:96-97 | The root node's `additionalProperties` becomes `true`. The table becomes `Overridden(old table)`. |
| `StepSchema.GenerateSchema` | main.go:92-97 | The generated document has a permissive root and the composed table with `CheckEvery` retyped as a string. |

## Left out

- How `jsonschema.Reflect` turns a Go type into a fragment (main.go:44, 55, 94). This is a foreign library. The fragments are inputs, and the shapes of the `atc` step types are not modelled.
- JSON serialisation, the stdout and stderr output and the non-zero exit on a marshalling error (main.go:98-103). These are I/O.
- The order of keys in ordered property maps. `hookProperties` is a Go map ranged in unspecified order (main.go:80), so the position of newly added keys is unspecified. Properties are an unordered map here.
- Pointer aliasing between fragments, the table and the shared hook types. The model uses value semantics. The inner hook loop builds the variant's property map locally and stores it back once.
- Schema keywords the composition never reads or writes (descriptions, enums, patterns and so on). They are not represented.
- The distinction between a nil and an empty `required` slice or raw `additionalProperties` value. Both are omitted from the output, and both are the empty value here.
