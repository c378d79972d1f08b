/**
 The schema document reflected from the pipeline configuration, and the routine that
 composes the step schema into it in place: the step union and first merge pass over
 the core variants, the merge pass over the hook and modifier types, hook injection,
 relaxation of the step placeholder, and the two manual overrides.
 */
module StepSchema {
  import opened JsonSchema
  import opened StepCatalog
  import opened DefinitionMerge
  import opened HookInjection
  import opened Composition

  /** A schema document: its own top-level node and its definitions table. */
  class Schema {
    var root: SchemaType
    var definitions: Definitions

    /** The document as reflected from the root pipeline configuration type. */
    constructor (reflected: Fragment)
      ensures root == reflected.top && definitions == reflected.definitions
    {
      root := reflected.top;
      definitions := reflected.definitions;
    }

    /** Copies every incoming definition whose name the table lacks; existing names are kept. */
    method MergeDefinitions(incoming: Definitions)
      modifies this`definitions
      ensures definitions == Merged(old(definitions), incoming)
    {
      var pending := incoming.Keys;
      while pending != {}
        invariant pending <= incoming.Keys
        invariant definitions == Merged(old(definitions), incoming - pending)
        decreases pending
      {
        var subName :| subName in pending;
        if subName !in definitions {
          definitions := definitions[subName := incoming[subName]];
        }
        pending := pending - {subName};
      }
      assert incoming - pending == incoming;
    }

    /**
     For each core variant in order: appends its top-level node to the step union, then
     merges its definitions.
     */
    method AddCoreSteps(core: seq<Fragment>)
      requires StepName in definitions
      modifies this`definitions
      ensures definitions == MergeAll(Unioned(old(definitions), core), core)
    {
      assert Unioned(definitions, core[..0]) == definitions by {
        assert definitions[StepName].anyOf + [] == definitions[StepName].anyOf;
      }
      var i := 0;
      while i < |core|
        invariant 0 <= i <= |core|
        invariant StepName in old(definitions)
        invariant definitions == MergeAll(Unioned(old(definitions), core[..i]), core[..i])
      {
        var fragment := core[i];
        UnionStep(old(definitions), core, i);
        var stepDef := definitions[StepName];
        definitions := definitions[StepName := stepDef.(anyOf := stepDef.anyOf + [fragment.top])];
        MergeDefinitions(fragment.definitions);
        i := i + 1;
      }
      assert core[..i] == core;
    }

    /** Merges the definitions of each hook and modifier type in order; the step union is untouched. */
    method AddHookDefinitions(hooks: seq<Fragment>)
      modifies this`definitions
      ensures definitions == MergeAll(old(definitions), hooks)
    {
      var i := 0;
      while i < |hooks|
        invariant 0 <= i <= |hooks|
        invariant definitions == MergeAll(old(definitions), hooks[..i])
      {
        assert hooks[..i + 1][..i] == hooks[..i];
        MergeDefinitions(hooks[i].definitions);
        i := i + 1;
      }
      assert hooks[..i] == hooks;
    }

    /** Sets every hook property on the named variant, overriding same-named properties. */
    method SetHookProperties(stepName: string)
      requires stepName in definitions && definitions[stepName].properties.Some?
      modifies this`definitions
      ensures definitions == old(definitions)[stepName := WithHooks(old(definitions)[stepName])]
    {
      var stepTypeDef := definitions[stepName];
      var props := stepTypeDef.properties.value;
      var pending := HookProperties.Keys;
      while pending != {}
        invariant pending <= HookProperties.Keys
        invariant props == stepTypeDef.properties.value + (HookProperties - pending)
        decreases pending
      {
        var hookName :| hookName in pending;
        props := props[hookName := HookProperties[hookName]];
        pending := pending - {hookName};
      }
      assert HookProperties - pending == HookProperties;
      definitions := definitions[stepName := stepTypeDef.(properties := Some(props))];
    }

    /** Sets every hook property on each core variant present in the table. */
    method InjectHooks()
      requires HookTargetsReady(definitions)
      modifies this`definitions
      ensures definitions == Injected(old(definitions))
    {
      ghost var done: set<string> := {};
      for i := 0 to |CoreStepNames|
        invariant forall name :: name in done <==> name in CoreStepNames[..i]
        invariant definitions.Keys == old(definitions).Keys
        invariant forall name :: name in definitions ==>
                    definitions[name] == if name in done then WithHooks(old(definitions)[name])
                                         else old(definitions)[name]
      {
        var stepName := CoreStepNames[i];
        assert CoreStepNames[..i + 1] == CoreStepNames[..i] + [stepName];
        if stepName in definitions {
          WithHooksIdempotent(old(definitions)[stepName]);
          SetHookProperties(stepName);
        }
        done := done + {stepName};
      }
      assert CoreStepNames[..|CoreStepNames|] == CoreStepNames;
      InjectedSoFar(old(definitions), done, definitions);
    }

    /** Clears the step placeholder's required names, properties, type and additional-properties constraint. */
    method RelaxStep()
      requires StepName in definitions
      modifies this`definitions
      ensures definitions == old(definitions)[StepName := Relaxed(old(definitions)[StepName])]
    {
      var stepDef := definitions[StepName];
      definitions := definitions[StepName := stepDef.(required := [])];
      definitions := definitions[StepName := definitions[StepName].(properties := None)];
      definitions := definitions[StepName := definitions[StepName].(typeTag := "")];
      definitions := definitions[StepName := definitions[StepName].(additionalProperties := "")];
    }

    /**
     Composes the step schema: `core` are the reflections of the core variants, `hooks`
     those of the hook and modifier types, each in catalogue order.
     */
    method ComposeSteps(core: seq<Fragment>, hooks: seq<Fragment>)
      requires |core| == |CoreStepNames| && |hooks| == |HookModifierNames|
      requires Composable(definitions, core, hooks)
      modifies this`definitions
      ensures definitions == Composed(old(definitions), core, hooks)
    {
      AddCoreSteps(core);
      AddHookDefinitions(hooks);
      MergedUnion(old(definitions), core, hooks);
      StepIsNotAVariant();
      InjectHooks();
      MergeAllKeepsExisting(old(definitions), core, StepName);
      MergeAllKeepsExisting(MergeAll(old(definitions), core), hooks, StepName);
      RelaxStep();
    }

    /**
     The manual overrides: unknown top-level keys are accepted, and the check-interval
     leaf is typed as a plain string.
     */
    method ApplyOverrides()
      requires CheckEveryName in definitions
      modifies this
      ensures root == old(root).(additionalProperties := "true")
      ensures definitions == Overridden(old(definitions))
    {
      root := root.(additionalProperties := "true");
      definitions := definitions[CheckEveryName := definitions[CheckEveryName].(typeTag := "string")];
    }
  }

  /** Once every core variant has been visited, the table is the injected one. */
  lemma InjectedSoFar(defs: Definitions, done: set<string>, current: Definitions)
    requires HookTargetsReady(defs)
    requires forall name :: name in done <==> name in CoreStepNames
    requires current.Keys == defs.Keys
    requires forall name :: name in current ==>
               current[name] == if name in done then WithHooks(defs[name]) else defs[name]
    ensures current == Injected(defs)
  {
  }

  /** One more core variant: its node joins the union, then its definitions are merged. */
  lemma UnionStep(defs: Definitions, core: seq<Fragment>, i: nat)
    requires StepName in defs && i < |core|
    ensures var table := MergeAll(Unioned(defs, core[..i]), core[..i]);
      && StepName in table
      && MergeAll(Unioned(defs, core[..i + 1]), core[..i + 1])
         == Merged(table[StepName := table[StepName].(anyOf := table[StepName].anyOf + [core[i].top])],
                   core[i].definitions)
  {
    var prefix, next := core[..i], core[..i + 1];
    assert next[..i] == prefix;
    assert Tops(next) == Tops(prefix) + [core[i].top];
    MergeAllKeepsExisting(Unioned(defs, prefix), prefix, StepName);
    var step := Unioned(defs, next)[StepName];
    var anyOf := defs[StepName].anyOf;
    assert anyOf + Tops(next) == (anyOf + Tops(prefix)) + [core[i].top];
    assert Unioned(defs, next) == Unioned(defs, prefix)[StepName := step];
    MergeAllUpdateExisting(Unioned(defs, prefix), prefix, StepName, step);
    assert next[i] == core[i];
  }

  /**
   Generates the pipeline schema document: the reflected root configuration with the
   step schema composed into it and the manual overrides applied.
   */
  method GenerateSchema(reflected: Fragment, core: seq<Fragment>, hooks: seq<Fragment>) returns (schema: Schema)
    requires |core| == |CoreStepNames| && |hooks| == |HookModifierNames|
    requires Composable(reflected.definitions, core, hooks)
    requires CheckEveryName in reflected.definitions.Keys + DefinedNames(core) + DefinedNames(hooks)
    ensures fresh(schema)
    ensures schema.root == reflected.top.(additionalProperties := "true")
    ensures CheckEveryName in Composed(reflected.definitions, core, hooks)
    ensures schema.definitions == Overridden(Composed(reflected.definitions, core, hooks))
  {
    ComposedKeys(reflected.definitions, core, hooks);
    schema := new Schema(reflected);
    schema.ComposeSteps(core, hooks);
    schema.ApplyOverrides();
  }
}
