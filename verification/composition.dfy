/**
 What step-schema composition computes, stated on values: the step union, the two merge
 passes, hook injection, the relaxation of the step placeholder and the two manual
 overrides applied to the finished document. The imperative `Schema` class is proved to
 produce exactly these values; the lemmas here state what they guarantee.
 */
module Composition {
  import opened JsonSchema
  import opened StepCatalog
  import opened DefinitionMerge
  import opened HookInjection

  /** The top-level nodes of the fragments, one per fragment, in list order. */
  function Tops(fragments: seq<Fragment>): (r: seq<SchemaType>)
    ensures |r| == |fragments|
    ensures forall j :: 0 <= j < |fragments| ==> r[j] == fragments[j].top
    decreases |fragments|
  {
    if fragments == [] then []
    else
      var n := |fragments| - 1;
      Tops(fragments[..n]) + [fragments[n].top]
  }

  /** The table with the core variants' top-level nodes appended to the step union. */
  function Unioned(defs: Definitions, core: seq<Fragment>): Definitions
    requires StepName in defs
  {
    defs[StepName := defs[StepName].(anyOf := defs[StepName].anyOf + Tops(core))]
  }

  /** The step placeholder with its own shape constraints cleared. */
  function Relaxed(step: SchemaType): SchemaType
  {
    step.(required := [], properties := None, typeTag := "", additionalProperties := "")
  }

  /** The composition may proceed: the step placeholder exists, and so does the property map of every variant the merges leave in the table. */
  predicate Composable(defs: Definitions, core: seq<Fragment>, hooks: seq<Fragment>)
  {
    StepName in defs && HookTargetsReady(MergeAll(MergeAll(defs, core), hooks))
  }

  /** The step placeholder is not one of the variants that receive hooks. */
  lemma StepIsNotAVariant()
    ensures StepName !in CoreStepNames
  {
  }

  /** Both merge passes, run on the table whose step union has been extended. */
  lemma MergedUnion(defs: Definitions, core: seq<Fragment>, hooks: seq<Fragment>)
    requires StepName in defs
    ensures MergeAll(MergeAll(Unioned(defs, core), core), hooks)
         == MergeAll(MergeAll(defs, core), hooks)[StepName := Unioned(defs, core)[StepName]]
  {
    var step := Unioned(defs, core)[StepName];
    MergeAllUpdateExisting(defs, core, StepName, step);
    MergeAllKeepsExisting(defs, core, StepName);
    MergeAllUpdateExisting(MergeAll(defs, core), hooks, StepName, step);
  }

  /** The definitions table at the end of step-schema composition. */
  function Composed(defs: Definitions, core: seq<Fragment>, hooks: seq<Fragment>): Definitions
    requires Composable(defs, core, hooks)
  {
    MergedUnion(defs, core, hooks);
    StepIsNotAVariant();
    MergeAllKeepsExisting(defs, core, StepName);
    MergeAllKeepsExisting(MergeAll(defs, core), hooks, StepName);
    var injected := Injected(MergeAll(MergeAll(Unioned(defs, core), core), hooks));
    injected[StepName := Relaxed(injected[StepName])]
  }

  /** The table after the manual override that retypes the check-interval leaf as a string. */
  function Overridden(defs: Definitions): (r: Definitions)
    requires CheckEveryName in defs
    ensures r.Keys == defs.Keys
    ensures forall name :: name in defs && name != CheckEveryName ==> r[name] == defs[name]
    ensures r[CheckEveryName].typeTag == "string"
    ensures r[CheckEveryName].(typeTag := defs[CheckEveryName].typeTag) == defs[CheckEveryName]
  {
    defs[CheckEveryName := defs[CheckEveryName].(typeTag := "string")]
  }

  /**
   Away from the step placeholder, the composed table is the merged table with the hook
   properties injected into the core variants.
   */
  lemma ComposedAt(defs: Definitions, core: seq<Fragment>, hooks: seq<Fragment>, name: string)
    requires Composable(defs, core, hooks)
    requires name != StepName && name in defs.Keys + DefinedNames(core) + DefinedNames(hooks)
    ensures name in MergeAll(MergeAll(defs, core), hooks) && name in Composed(defs, core, hooks)
    ensures name in CoreStepNames ==>
              Composed(defs, core, hooks)[name] == WithHooks(MergeAll(MergeAll(defs, core), hooks)[name])
    ensures name !in CoreStepNames ==>
              Composed(defs, core, hooks)[name] == MergeAll(MergeAll(defs, core), hooks)[name]
  {
    MergeAllKeys(defs, core);
    MergeAllKeys(MergeAll(defs, core), hooks);
    MergedUnion(defs, core, hooks);
  }

  /** The composed table holds the seeded names and every name any fragment defines, and nothing else. */
  lemma ComposedKeys(defs: Definitions, core: seq<Fragment>, hooks: seq<Fragment>)
    requires Composable(defs, core, hooks)
    ensures Composed(defs, core, hooks).Keys == defs.Keys + DefinedNames(core) + DefinedNames(hooks)
  {
    MergedUnion(defs, core, hooks);
    MergeAllKeys(defs, core);
    MergeAllKeys(MergeAll(defs, core), hooks);
  }

  /**
   The step placeholder ends as a pure union: its old alternatives followed by one entry
   per core variant, in list order and without deduplication, with its own type,
   properties, required names and additional-properties constraint cleared. (Automatic
   induction over the fragment lists is switched off: it only makes this proof costlier.)
   */
  lemma {:induction false} ComposedStepUnion(defs: Definitions, core: seq<Fragment>, hooks: seq<Fragment>)
    requires Composable(defs, core, hooks)
    ensures StepName in Composed(defs, core, hooks)
    ensures var step, old_step := Composed(defs, core, hooks)[StepName], defs[StepName];
      && step.anyOf == old_step.anyOf + Tops(core)
      && |step.anyOf| == |old_step.anyOf| + |core|
      && (forall j :: 0 <= j < |core| ==> step.anyOf[|old_step.anyOf| + j] == core[j].top)
      && step.typeTag == "" && step.properties == None
      && step.required == [] && step.additionalProperties == ""
      && step.ref == old_step.ref && step.items == old_step.items
  {
    ComposedStep(defs, core, hooks);
    var step, old_step := Composed(defs, core, hooks)[StepName], defs[StepName];
    assert step.anyOf == old_step.anyOf + Tops(core);
    forall j | 0 <= j < |core| ensures step.anyOf[|old_step.anyOf| + j] == core[j].top {
      assert step.anyOf[|old_step.anyOf| + j] == Tops(core)[j];
    }
  }

  /** The composed step placeholder is the relaxed placeholder with the extended union. */
  lemma ComposedStep(defs: Definitions, core: seq<Fragment>, hooks: seq<Fragment>)
    requires Composable(defs, core, hooks)
    ensures StepName in Composed(defs, core, hooks)
    ensures Composed(defs, core, hooks)[StepName] == Relaxed(Unioned(defs, core)[StepName])
  {
    MergedUnion(defs, core, hooks);
    StepIsNotAVariant();
  }

  /** The hook and modifier fragments never contribute to the step union. */
  lemma ComposedStepIgnoresHooks(defs: Definitions, core: seq<Fragment>, hooks: seq<Fragment>, otherHooks: seq<Fragment>)
    requires Composable(defs, core, hooks) && Composable(defs, core, otherHooks)
    ensures StepName in Composed(defs, core, hooks) && StepName in Composed(defs, core, otherHooks)
    ensures Composed(defs, core, hooks)[StepName] == Composed(defs, core, otherHooks)[StepName]
  {
    ComposedStepUnion(defs, core, hooks);
    ComposedStepUnion(defs, core, otherHooks);
  }

  /**
   Every core variant in the composed table carries all nine hook properties with their
   fixed types, overriding same-named properties, and keeps its other properties and
   keywords as merged.
   */
  lemma ComposedVariantHooks(defs: Definitions, core: seq<Fragment>, hooks: seq<Fragment>, name: string)
    requires Composable(defs, core, hooks)
    requires name in CoreStepNames && name in defs.Keys + DefinedNames(core) + DefinedNames(hooks)
    ensures name in MergeAll(MergeAll(defs, core), hooks) && name in Composed(defs, core, hooks)
    ensures var variant, merged := Composed(defs, core, hooks)[name], MergeAll(MergeAll(defs, core), hooks)[name];
      && variant.properties.Some?
      && merged.properties.Some?
      && variant.properties.value.Keys == merged.properties.value.Keys + HookProperties.Keys
      && (forall hook :: hook in HookProperties ==>
            hook in variant.properties.value && variant.properties.value[hook] == HookProperties[hook])
      && (forall p :: p in merged.properties.value && p !in HookProperties ==>
            p in variant.properties.value && variant.properties.value[p] == merged.properties.value[p])
      && variant.(properties := merged.properties) == merged
  {
    StepIsNotAVariant();
    ComposedAt(defs, core, hooks, name);
  }

  /** A seeded definition other than the step placeholder and the core variants comes out unchanged. */
  lemma ComposedKeepsSeeded(defs: Definitions, core: seq<Fragment>, hooks: seq<Fragment>, name: string)
    requires Composable(defs, core, hooks)
    requires name in defs && name != StepName && name !in CoreStepNames
    ensures name in Composed(defs, core, hooks) && Composed(defs, core, hooks)[name] == defs[name]
  {
    MergeAllKeepsExisting(defs, core, name);
    MergeAllKeepsExisting(MergeAll(defs, core), hooks, name);
    ComposedAt(defs, core, hooks, name);
  }

  /**
   A name the seed lacks (other than a core variant) ends bound to the definition of the
   first fragment defining it, the core fragments coming before the hook fragments; so a
   core fragment's definition wins every clash with a hook fragment.
   */
  lemma ComposedFirstWriterWins(defs: Definitions, core: seq<Fragment>, hooks: seq<Fragment>, name: string, j: nat)
    requires Composable(defs, core, hooks)
    requires name !in defs && name !in CoreStepNames
    requires j < |core + hooks| && name in (core + hooks)[j].definitions
    requires forall i :: 0 <= i < j ==> name !in (core + hooks)[i].definitions
    ensures name in Composed(defs, core, hooks)
    ensures Composed(defs, core, hooks)[name] == (core + hooks)[j].definitions[name]
  {
    MergeAllAppend(defs, core, hooks);
    MergeAllFirstWriterWins(defs, core + hooks, name, j);
    MergeAllKeys(defs, core);
    MergeAllKeys(MergeAll(defs, core), hooks);
    ComposedAt(defs, core, hooks, name);
  }

  /**
   Whatever the hook fragments define, a name some core fragment defines keeps the
   definition from the core pass; a core variant's entry then also receives the hooks.
   */
  lemma ComposedCoreWins(defs: Definitions, core: seq<Fragment>, hooks: seq<Fragment>, name: string)
    requires Composable(defs, core, hooks)
    requires name != StepName && name in DefinedNames(core)
    ensures name in MergeAll(defs, core) && name in Composed(defs, core, hooks)
    ensures name !in CoreStepNames ==> Composed(defs, core, hooks)[name] == MergeAll(defs, core)[name]
    ensures name in CoreStepNames ==>
              MergeAll(defs, core)[name].properties.Some? &&
              Composed(defs, core, hooks)[name] == WithHooks(MergeAll(defs, core)[name])
  {
    StepIsNotAVariant();
    MergeAllKeys(defs, core);
    MergeAllKeepsExisting(MergeAll(defs, core), hooks, name);
    ComposedAt(defs, core, hooks, name);
  }
}
